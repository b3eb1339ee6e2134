/** The block container: each block is `int size | payload | int size`, and
    the size a block must have follows from the header (`get_block_size`). */
module Blocks {
  import opened Words
  import opened IoHeader
  import opened Layout

  /** `enum fields` */
  datatype BlockKind = HeaderBlock | PosBlock | VelBlock | IdsBlock | MassBlock | UBlock

  /** Why a read stops. The source prints a message and exits instead. */
  datatype Error =
    | IoTruncated                  // my_fread got fewer items than asked for
    | PaddingMismatch(kind: BlockKind)  // "Paddings don't match!"
    | SizeMismatch(kind: BlockKind)     // "Paddings do not match actual block size!"
    | BadCounts                    // negative counts or a block size beyond `int`

  datatype Result<T> = Success(value: T) | Failure(error: Error)

  datatype Outcome = Pass | Fail(error: Error)

  /** `get_block_size`: the byte count block `kind` must have under `h`. */
  function BlockSize(kind: BlockKind, h: Header): int
  {
    match kind
    case HeaderBlock => HeaderBytes
    case PosBlock => 4 * 3 * Total(h)
    case VelBlock => 4 * 3 * Total(h)
    case IdsBlock => 4 * Total(h)
    case MassBlock => 4 * MassCount(h)
    case UBlock => 4 * (h.npart[0] as int)
  }

  /** Bytes of one element of a block: a header, three floats, one int or one float. */
  function ElementBytes(kind: BlockKind): nat
  {
    match kind
    case HeaderBlock => HeaderBytes
    case PosBlock => 12
    case VelBlock => 12
    case _ => 4
  }

  /** Under sane counts every block size is a non-negative multiple of its
      element size that fits in a C `int`. */
  lemma {:induction false} BlockSizeShape(kind: BlockKind, h: Header)
    requires Sane(h)
    ensures 0 <= BlockSize(kind, h) <= MaxInt
    ensures BlockSize(kind, h) % ElementBytes(kind) == 0
  {
    StartMono(h, 0, 1);
    match kind
    case HeaderBlock =>
    case PosBlock =>
      assert BlockSize(kind, h) == 12 * Total(h) && ElementBytes(kind) == 12;
    case VelBlock =>
      assert BlockSize(kind, h) == 12 * Total(h) && ElementBytes(kind) == 12;
    case IdsBlock =>
      assert BlockSize(kind, h) == 4 * Total(h) && ElementBytes(kind) == 4;
    case MassBlock =>
      MassCountBounds(h);
      assert BlockSize(kind, h) == 4 * MassCount(h) && ElementBytes(kind) == 4;
    case UBlock =>
      assert BlockSize(kind, h) == 4 * (h.npart[0] as int) && ElementBytes(kind) == 4;
  }

  /** `block_check`: the two markers must agree, and then equal the size
      the header demands. */
  function BlockCheck(kind: BlockKind, blksize1: int, blksize2: int, h: Header): (r: Outcome)
    ensures r == Fail(PaddingMismatch(kind)) <==> blksize1 != blksize2
    ensures r == Fail(SizeMismatch(kind)) <==> blksize1 == blksize2 && blksize1 != BlockSize(kind, h)
    ensures r == Pass <==> blksize1 == blksize2 == BlockSize(kind, h)
  {
    if blksize1 != blksize2 then Fail(PaddingMismatch(kind))
    else if blksize1 != BlockSize(kind, h) then Fail(SizeMismatch(kind))
    else Pass
  }

  /** `get_block_size`, with its loop summing `nwithmass` over the types. */
  method GetBlockSize(kind: BlockKind, h: Header) returns (bsize: int)
    ensures bsize == BlockSize(kind, h)
  {
    TotalIsSum(h);
    var nwithmass := 0;
    for i := 0 to NumTypes
      invariant nwithmass == MassPrefix(h, i)
    {
      if IsZero(h.mass[i]) {
        nwithmass := nwithmass + h.npart[i] as int;
      }
    }
    match kind
    case HeaderBlock =>
      bsize := HeaderBytes;
    case PosBlock =>
      bsize := 4 * 3 * (h.npart[0] as int + h.npart[1] + h.npart[2] + h.npart[3] + h.npart[4] + h.npart[5]);
    case VelBlock =>
      bsize := 4 * 3 * (h.npart[0] as int + h.npart[1] + h.npart[2] + h.npart[3] + h.npart[4] + h.npart[5]);
    case IdsBlock =>
      bsize := 4 * (h.npart[0] as int + h.npart[1] + h.npart[2] + h.npart[3] + h.npart[4] + h.npart[5]);
    case MassBlock =>
      bsize := 4 * nwithmass;
    case UBlock =>
      bsize := 4 * (h.npart[0] as int);
  }

  /** `block_check` as the reader calls it: the outcome it stops on, or Pass. */
  method CheckBlock(kind: BlockKind, blksize1: Int32, blksize2: Int32, h: Header) returns (c: Outcome)
    ensures c == BlockCheck(kind, blksize1, blksize2, h)
  {
    if blksize1 != blksize2 {
      return Fail(PaddingMismatch(kind));
    }
    var size := GetBlockSize(kind, h);
    if blksize1 as int != size {
      return Fail(SizeMismatch(kind));
    }
    c := Pass;
  }

  /** A block as it is written: the size marker on both sides of the payload. */
  function Frame(size: Int32, payload: seq<Word>): (ws: seq<Word>)
    ensures |ws| == |payload| + 2
  {
    [FromInt32(size)] + payload + [FromInt32(size)]
  }

  /** Reading a block of `len` payload words at offset `at`: the payload
      when the file is long enough and both markers pass `block_check`. */
  function ReadBlock(file: seq<Word>, at: nat, len: nat, kind: BlockKind, h: Header): (r: Result<seq<Word>>)
    ensures r.Success? <==>
      at + len + 2 <= |file| && ToInt32(file[at]) == ToInt32(file[at + len + 1]) == BlockSize(kind, h)
    ensures r.Success? ==> r.value == file[at + 1..at + 1 + len]
    ensures r.Failure? && at + len + 2 <= |file| ==>
      r.error == BlockCheck(kind, ToInt32(file[at]), ToInt32(file[at + len + 1]), h).error
    ensures at + len + 2 > |file| ==> r == Failure(IoTruncated)
  {
    if |file| < at + len + 2 then Failure(IoTruncated)
    else
      match BlockCheck(kind, ToInt32(file[at]), ToInt32(file[at + len + 1]), h)
      case Fail(e) => Failure(e)
      case Pass => Success(file[at + 1..at + 1 + len])
  }

  /** Reading back a written block yields its payload. */
  lemma {:induction false} ReadFramed(file: seq<Word>, at: nat, size: Int32, payload: seq<Word>, kind: BlockKind, h: Header)
    requires at + |payload| + 2 <= |file|
    requires file[at..at + |payload| + 2] == Frame(size, payload)
    requires size == BlockSize(kind, h)
    ensures ReadBlock(file, at, |payload|, kind, h) == Success(payload)
  {
    var f := Frame(size, payload);
    assert file[at] == f[0];
    assert file[at + |payload| + 1] == f[|payload| + 1];
    forall j | 0 <= j < |payload| ensures file[at + 1 + j] == payload[j] {
      assert file[at + 1 + j] == f[1 + j];
    }
    assert file[at + 1..at + 1 + |payload|] == payload;
    assert ToInt32(file[at]) == size;
  }

  /** A block marker off from the header's size is refused as a size
      mismatch, whatever the payload. */
  lemma {:induction false} WrongSizeRefused(file: seq<Word>, at: nat, size: Int32, payload: seq<Word>, kind: BlockKind, h: Header)
    requires at + |payload| + 2 <= |file|
    requires file[at..at + |payload| + 2] == Frame(size, payload)
    requires size != BlockSize(kind, h)
    ensures ReadBlock(file, at, |payload|, kind, h) == Failure(SizeMismatch(kind))
  {
    var f := Frame(size, payload);
    assert file[at] == f[0];
    assert file[at + |payload| + 1] == f[|payload| + 1];
  }

  /** The other direction: a block that passes is its payload framed by
      the marker it carries, word for word. */
  lemma {:induction false} ReadBlockFramed(file: seq<Word>, at: nat, len: nat, kind: BlockKind, h: Header)
    requires ReadBlock(file, at, len, kind, h).Success?
    ensures at + len + 2 <= |file| && ToInt32(file[at]) == BlockSize(kind, h)
    ensures file[at..at + len + 2] == Frame(ToInt32(file[at]), ReadBlock(file, at, len, kind, h).value)
  {
    FromToInt32(file[at]);
    FromToInt32(file[at + len + 1]);
    var f := Frame(ToInt32(file[at]), file[at + 1..at + 1 + len]);
    forall j | 0 <= j < len + 2 ensures file[at..at + len + 2][j] == f[j] {
      if 0 < j <= len {
        assert f[j] == file[at + 1..at + 1 + len][j - 1];
      }
    }
  }

  /** Only the words of the block itself are looked at. */
  lemma {:induction false} ReadBlockPrefix(file: seq<Word>, e: nat, at: nat, len: nat, kind: BlockKind, h: Header)
    requires at + len + 2 <= e <= |file|
    ensures ReadBlock(file[..e], at, len, kind, h) == ReadBlock(file, at, len, kind, h)
  {
    assert file[..e][at + 1..at + 1 + len] == file[at + 1..at + 1 + len];
  }
}
