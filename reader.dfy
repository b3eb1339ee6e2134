/** `read_snapshot`: reads the header and the Position, Velocity, Id and
    Mass blocks from an input stream and fills the particle table in place. */
module Reader {
  import opened Words
  import opened IoHeader
  import opened Layout
  import opened Blocks
  import opened Snapshot
  import opened Streams

  /** A successful read: the header and the table `P` it allocated. */
  datatype Loaded = Loaded(header: Header, particles: array<Particle>)

  lemma {:induction false} SliceOfSlice(s: seq<Word>, a: nat, b: nat, c: nat, d: nat)
    requires a <= b <= |s| && c <= d <= b - a
    ensures s[a..b][c..d] == s[a + c..a + d]
  {
    forall j | 0 <= j < d - c ensures s[a..b][c..d][j] == s[a + c..a + d][j] {
      assert s[a..b][c..d][j] == s[a..b][c + j];
    }
  }

  /** The table after the Position pass: record i takes words 3i..3i+3. */
  function WithPos(t: seq<Particle>, posW: seq<Word>): (r: seq<Particle>)
    requires |posW| == 3 * |t|
    ensures |r| == |t| && forall i :: 0 <= i < |t| ==> r[i] == t[i].(pos := posW[3 * i..3 * i + 3])
  {
    seq(|t|, i requires 0 <= i < |t| => t[i].(pos := posW[3 * i..3 * i + 3]))
  }

  /** The table after the Velocity pass. */
  function WithVel(t: seq<Particle>, velW: seq<Word>): (r: seq<Particle>)
    requires |velW| == 3 * |t|
    ensures |r| == |t| && forall i :: 0 <= i < |t| ==> r[i] == t[i].(vel := velW[3 * i..3 * i + 3])
  {
    seq(|t|, i requires 0 <= i < |t| => t[i].(vel := velW[3 * i..3 * i + 3]))
  }

  /** The table after the Id pass. */
  function WithIds(t: seq<Particle>, idW: seq<Word>): (r: seq<Particle>)
    requires |idW| == |t|
    ensures |r| == |t| && forall i :: 0 <= i < |t| ==> r[i] == t[i].(id := ToInt32(idW[i]))
  {
    seq(|t|, i requires 0 <= i < |t| => t[i].(id := ToInt32(idW[i])))
  }

  /** The table after the Mass pass, which also sets every type. */
  ghost function WithMass(h: Header, t: seq<Particle>, massW: seq<Word>, narrow: Double -> Word): (r: seq<Particle>)
    requires Sane(h) && |t| == Total(h) && |massW| == MassCount(h)
    ensures |r| == |t| && forall i :: 0 <= i < |t| ==>
      r[i] == t[i].(ptype := TypeAt(h, i), mass := MassOf(h, massW, narrow, i))
  {
    seq(|t|, i requires 0 <= i < |t| => t[i].(ptype := TypeAt(h, i), mass := MassOf(h, massW, narrow, i)))
  }

  /** One `int` size marker. */
  method ReadMarker(fd: InStream) returns (ok: bool, m: Int32)
    requires fd.Valid()
    modifies fd
    ensures fd.Valid()
    ensures ok <==> old(fd.pos) + 1 <= |fd.data|
    ensures ok ==> fd.pos == old(fd.pos) + 1 && m == ToInt32(fd.data[old(fd.pos)])
  {
    var ws;
    ok, ws := fd.Read(1);
    m := if ok then ToInt32(ws[0]) else 0;
  }

  /** The inner Position loop over `count` records starting at table index `first`. */
  method ReadBucketPositions(fd: InStream, P: array<Particle>, first: nat, count: nat) returns (ok: bool)
    requires fd.Valid() && first + count <= P.Length
    modifies fd, P
    ensures fd.Valid()
    ensures ok <==> old(fd.pos) + 3 * count <= |fd.data|
    ensures ok ==> fd.pos == old(fd.pos) + 3 * count
    ensures ok ==> forall i :: first <= i < first + count ==>
      P[i] == old(P[i]).(pos := fd.data[old(fd.pos) + 3 * (i - first)..old(fd.pos) + 3 * (i - first) + 3])
    ensures forall i :: 0 <= i < P.Length && !(first <= i < first + count) ==> P[i] == old(P[i])
  {
    ghost var p0 := fd.pos;
    for n := 0 to count
      invariant fd.Valid() && fd.pos == p0 + 3 * n
      invariant forall i :: first <= i < first + n ==> P[i] == old(P[i]).(pos := fd.data[p0 + 3 * (i - first)..p0 + 3 * (i - first) + 3])
      invariant forall i :: 0 <= i < P.Length && !(first <= i < first + n) ==> P[i] == old(P[i])
    {
      var got, ws := fd.Read(3);
      if !got {
        return false;
      }
      P[first + n] := P[first + n].(pos := ws);
    }
    ok := true;
  }

  /** The Position loop: three floats per record, type 0 first. */
  method ReadPositions(fd: InStream, h: Header, P: array<Particle>) returns (ok: bool)
    requires fd.Valid() && Sane(h) && P.Length == Total(h)
    modifies fd, P
    ensures fd.Valid()
    ensures ok <==> old(fd.pos) + 3 * Total(h) <= |fd.data|
    ensures ok ==> fd.pos == old(fd.pos) + 3 * Total(h)
    ensures ok ==> forall i :: 0 <= i < P.Length ==>
      P[i] == old(P[i]).(pos := fd.data[old(fd.pos) + 3 * (i)..old(fd.pos) + 3 * (i) + 3])
  {
    ghost var p0 := fd.pos;
    var pc := 0;
    for k := 0 to NumTypes
      invariant 0 <= pc <= P.Length
      invariant fd.Valid() && pc == Start(h, k) && fd.pos == p0 + 3 * pc
      invariant forall i :: 0 <= i < pc ==> P[i] == old(P[i]).(pos := fd.data[p0 + 3 * (i)..p0 + 3 * (i) + 3])
      invariant forall i :: pc <= i < P.Length ==> P[i] == old(P[i])
    {
      StartMono(h, k + 1, NumTypes);
      ok := ReadBucketPositions(fd, P, pc, h.npart[k]);
      if !ok {
        return;
      }
      pc := pc + h.npart[k];
    }
    ok := true;
  }

  /** The inner Velocity loop over `count` records starting at table index `first`. */
  method ReadBucketVelocities(fd: InStream, P: array<Particle>, first: nat, count: nat) returns (ok: bool)
    requires fd.Valid() && first + count <= P.Length
    modifies fd, P
    ensures fd.Valid()
    ensures ok <==> old(fd.pos) + 3 * count <= |fd.data|
    ensures ok ==> fd.pos == old(fd.pos) + 3 * count
    ensures ok ==> forall i :: first <= i < first + count ==>
      P[i] == old(P[i]).(vel := fd.data[old(fd.pos) + 3 * (i - first)..old(fd.pos) + 3 * (i - first) + 3])
    ensures forall i :: 0 <= i < P.Length && !(first <= i < first + count) ==> P[i] == old(P[i])
  {
    ghost var p0 := fd.pos;
    for n := 0 to count
      invariant fd.Valid() && fd.pos == p0 + 3 * n
      invariant forall i :: first <= i < first + n ==> P[i] == old(P[i]).(vel := fd.data[p0 + 3 * (i - first)..p0 + 3 * (i - first) + 3])
      invariant forall i :: 0 <= i < P.Length && !(first <= i < first + n) ==> P[i] == old(P[i])
    {
      var got, ws := fd.Read(3);
      if !got {
        return false;
      }
      P[first + n] := P[first + n].(vel := ws);
    }
    ok := true;
  }

  /** The Velocity loop: three floats per record, type 0 first. */
  method ReadVelocities(fd: InStream, h: Header, P: array<Particle>) returns (ok: bool)
    requires fd.Valid() && Sane(h) && P.Length == Total(h)
    modifies fd, P
    ensures fd.Valid()
    ensures ok <==> old(fd.pos) + 3 * Total(h) <= |fd.data|
    ensures ok ==> fd.pos == old(fd.pos) + 3 * Total(h)
    ensures ok ==> forall i :: 0 <= i < P.Length ==>
      P[i] == old(P[i]).(vel := fd.data[old(fd.pos) + 3 * (i)..old(fd.pos) + 3 * (i) + 3])
  {
    ghost var p0 := fd.pos;
    var pc := 0;
    for k := 0 to NumTypes
      invariant 0 <= pc <= P.Length
      invariant fd.Valid() && pc == Start(h, k) && fd.pos == p0 + 3 * pc
      invariant forall i :: 0 <= i < pc ==> P[i] == old(P[i]).(vel := fd.data[p0 + 3 * (i)..p0 + 3 * (i) + 3])
      invariant forall i :: pc <= i < P.Length ==> P[i] == old(P[i])
    {
      StartMono(h, k + 1, NumTypes);
      ok := ReadBucketVelocities(fd, P, pc, h.npart[k]);
      if !ok {
        return;
      }
      pc := pc + h.npart[k];
    }
    ok := true;
  }

  /** The inner Id loop over `count` records starting at table index `first`. */
  method ReadBucketIds(fd: InStream, P: array<Particle>, first: nat, count: nat) returns (ok: bool)
    requires fd.Valid() && first + count <= P.Length
    modifies fd, P
    ensures fd.Valid()
    ensures ok <==> old(fd.pos) + count <= |fd.data|
    ensures ok ==> fd.pos == old(fd.pos) + count
    ensures ok ==> forall i :: first <= i < first + count ==>
      P[i] == old(P[i]).(id := ToInt32(fd.data[old(fd.pos) + (i - first)]))
    ensures forall i :: 0 <= i < P.Length && !(first <= i < first + count) ==> P[i] == old(P[i])
  {
    ghost var p0 := fd.pos;
    for n := 0 to count
      invariant fd.Valid() && fd.pos == p0 + n
      invariant forall i :: first <= i < first + n ==> P[i] == old(P[i]).(id := ToInt32(fd.data[p0 + (i - first)]))
      invariant forall i :: 0 <= i < P.Length && !(first <= i < first + n) ==> P[i] == old(P[i])
    {
      var got, ws := fd.Read(1);
      if !got {
        return false;
      }
      P[first + n] := P[first + n].(id := ToInt32(ws[0]));
    }
    ok := true;
  }

  /** The Id loop: one `int` per record, type 0 first. */
  method ReadIds(fd: InStream, h: Header, P: array<Particle>) returns (ok: bool)
    requires fd.Valid() && Sane(h) && P.Length == Total(h)
    modifies fd, P
    ensures fd.Valid()
    ensures ok <==> old(fd.pos) + Total(h) <= |fd.data|
    ensures ok ==> fd.pos == old(fd.pos) + Total(h)
    ensures ok ==> forall i :: 0 <= i < P.Length ==>
      P[i] == old(P[i]).(id := ToInt32(fd.data[old(fd.pos) + (i)]))
  {
    ghost var p0 := fd.pos;
    var pc := 0;
    for k := 0 to NumTypes
      invariant 0 <= pc <= P.Length
      invariant fd.Valid() && pc == Start(h, k) && fd.pos == p0 + pc
      invariant forall i :: 0 <= i < pc ==> P[i] == old(P[i]).(id := ToInt32(fd.data[p0 + (i)]))
      invariant forall i :: pc <= i < P.Length ==> P[i] == old(P[i])
    {
      StartMono(h, k + 1, NumTypes);
      ok := ReadBucketIds(fd, P, pc, h.npart[k]);
      if !ok {
        return;
      }
      pc := pc + h.npart[k];
    }
    ok := true;
  }

  /** The mass the Mass loop gives record i when the Mass block's words
      start at offset p0 of `data`. */
  ghost function MassRead(h: Header, data: seq<Word>, p0: nat, narrow: Double -> Word, i: int): Word
    requires Sane(h) && 0 <= i < Total(h)
  {
    var k := TypeAt(h, i);
    if !IsZero(h.mass[k]) then narrow(h.mass[k])
    else if 0 <= p0 + MassBefore(h, i) < |data| then data[p0 + MassBefore(h, i)]
    else ZeroFloat
  }

  lemma {:induction false} MassReadIsMassOf(h: Header, data: seq<Word>, p0: nat, narrow: Double -> Word)
    requires Sane(h) && p0 + MassCount(h) <= |data|
    ensures MassCount(h) >= 0
    ensures forall i :: 0 <= i < Total(h) ==>
      MassRead(h, data, p0, narrow, i) == MassOf(h, data[p0..p0 + MassCount(h)], narrow, i)
  {
    MassCountBounds(h);
    forall i | 0 <= i < Total(h)
      ensures MassRead(h, data, p0, narrow, i) == MassOf(h, data[p0..p0 + MassCount(h)], narrow, i)
    {
      if IsZero(h.mass[TypeAt(h, i)]) {
        MassBeforeBound(h, i);
      }
    }
  }

  /** The inner Mass loop over the npart[k] records of type k, which start
      at table index `first`. */
  method ReadBucketMasses(fd: InStream, h: Header, P: array<Particle>, narrow: Double -> Word,
                          k: nat, first: nat) returns (ok: bool)
    requires fd.Valid() && k < NumTypes && h.npart[k] >= 0 && first + h.npart[k] <= P.Length
    modifies fd, P
    ensures fd.Valid()
    ensures ok <==> old(fd.pos) + (if IsZero(h.mass[k]) then h.npart[k] else 0) <= |fd.data|
    ensures ok ==> fd.pos == old(fd.pos) + (if IsZero(h.mass[k]) then h.npart[k] else 0)
    ensures ok ==> forall i :: first <= i < first + h.npart[k] ==>
      P[i] == old(P[i]).(ptype := k,
        mass := if IsZero(h.mass[k]) then fd.data[old(fd.pos) + (i - first)] else narrow(h.mass[k]))
    ensures forall i :: 0 <= i < P.Length && !(first <= i < first + h.npart[k]) ==> P[i] == old(P[i])
  {
    ghost var p0 := fd.pos;
    var stored := IsZero(h.mass[k]);
    var pc := first;
    for n: int := 0 to h.npart[k]
      invariant fd.Valid() && pc == first + n && fd.pos == p0 + (if stored then n else 0)
      invariant forall i :: first <= i < pc ==>
        P[i] == old(P[i]).(ptype := k, mass := if stored then fd.data[p0 + (i - first)] else narrow(h.mass[k]))
      invariant forall i :: 0 <= i < P.Length && !(first <= i < pc) ==> P[i] == old(P[i])
    {
      var m: Word;
      if stored {
        var got, ws := fd.Read(1);
        if !got {
          return false;
        }
        m := ws[0];
      } else {
        m := narrow(h.mass[k]);
      }
      P[pc] := P[pc].(ptype := k, mass := m);
      pc := pc + 1;
    }
    ok := true;
  }

  /** Within bucket k the per-bucket mass cursor is the table-wide one. */
  lemma {:induction false} BucketMassRead(h: Header, k: nat, data: seq<Word>, p0: nat, narrow: Double -> Word, i: int)
    requires Sane(h) && k < NumTypes && Start(h, k) <= i < Start(h, k + 1)
    ensures 0 <= i < Total(h) && TypeAt(h, i) == k && 0 <= MassPrefix(h, k)
    ensures MassRead(h, data, p0, narrow, i) ==
      if !IsZero(h.mass[k]) then narrow(h.mass[k])
      else if p0 + MassPrefix(h, k) + (i - Start(h, k)) < |data| then data[p0 + MassPrefix(h, k) + (i - Start(h, k))]
      else ZeroFloat
  {
    StartMono(h, k + 1, NumTypes);
    MassPrefixBounds(h, k);
    assert i < Total(h);
    TypeAtIff(h, i, k);
  }

  /** The Mass loop: sets each record's type from the outer loop index, and
      reads a mass word only for types whose header mass is zero. */
  method ReadMasses(fd: InStream, h: Header, P: array<Particle>, narrow: Double -> Word) returns (ok: bool)
    requires fd.Valid() && Sane(h) && P.Length == Total(h)
    modifies fd, P
    ensures fd.Valid()
    ensures ok <==> old(fd.pos) + MassCount(h) <= |fd.data|
    ensures ok ==> old(fd.pos) <= fd.pos == old(fd.pos) + MassCount(h)
    ensures ok ==> forall i {:trigger P[i]} :: 0 <= i < P.Length ==>
      P[i] == old(P[i]).(ptype := TypeAt(h, i), mass := MassOf(h, fd.data[old(fd.pos)..fd.pos], narrow, i))
  {
    ghost var p0 := fd.pos;
    var pc := 0;
    for k := 0 to NumTypes
      invariant 0 <= pc <= P.Length && pc == Start(h, k)
      invariant fd.Valid() && fd.pos == p0 + MassPrefix(h, k)
      invariant forall i {:trigger P[i]} :: 0 <= i < pc ==>
        P[i] == old(P[i]).(ptype := TypeAt(h, i), mass := MassRead(h, fd.data, p0, narrow, i))
      invariant forall i :: pc <= i < P.Length ==> P[i] == old(P[i])
    {
      StartMono(h, k + 1, NumTypes);
      MassPrefixBounds(h, k);
      ok := ReadBucketMasses(fd, h, P, narrow, k, pc);
      if !ok {
        MassPrefixMono(h, k + 1);
        return;
      }
      forall i | pc <= i < pc + h.npart[k]
        ensures P[i] == old(P[i]).(ptype := TypeAt(h, i), mass := MassRead(h, fd.data, p0, narrow, i))
      {
        BucketMassRead(h, k, fd.data, p0, narrow, i);
      }
      pc := pc + h.npart[k];
    }
    MassCountBounds(h);
    MassReadIsMassOf(h, fd.data, p0, narrow);
    ok := true;
  }

  /** The trailing size marker of a block whose leading marker `blksize1`
      was read at offset `at`, followed by `block_check`. */
  method CloseBlock(fd: InStream, kind: BlockKind, h: Header, blksize1: Int32, ghost at: nat, ghost len: nat)
    returns (c: Outcome)
    requires fd.Valid() && fd.pos == at + len + 1 && ToInt32(fd.data[at]) == blksize1
    modifies fd
    ensures fd.Valid()
    ensures c == Pass <==> ReadBlock(fd.data, at, len, kind, h).Success?
    ensures ReadBlock(fd.data, at, len, kind, h).Failure? ==> c == Fail(ReadBlock(fd.data, at, len, kind, h).error)
    ensures c == Pass ==> fd.pos == at + len + 2
  {
    var ok, blksize2 := ReadMarker(fd);
    if !ok {
      return Fail(IoTruncated);
    }
    c := CheckBlock(kind, blksize1, blksize2, h);
  }

  /** The Position block: marker, the Position loop, marker, check. */
  method ReadPosBlock(fd: InStream, h: Header, P: array<Particle>) returns (c: Outcome)
    requires fd.Valid() && Sane(h) && P.Length == Total(h)
    modifies fd, P
    ensures fd.Valid()
    ensures var rb := ReadBlock(fd.data, old(fd.pos), 3 * Total(h), PosBlock, h);
      (c == Pass <==> rb.Success?) && (rb.Failure? ==> c == Fail(rb.error)) &&
      (rb.Success? ==>
        fd.pos == old(fd.pos) + 3 * Total(h) + 2 &&
        P[..] == WithPos(old(P[..]), rb.value))
  {
    ghost var at := fd.pos;
    var ok, blksize1 := ReadMarker(fd);
    if !ok {
      return Fail(IoTruncated);
    }
    ok := ReadPositions(fd, h, P);
    if !ok {
      return Fail(IoTruncated);
    }
    c := CloseBlock(fd, PosBlock, h, blksize1, at, 3 * Total(h));
    if c == Pass {
      forall i | 0 <= i < P.Length
        ensures fd.data[at + 1..at + 1 + 3 * Total(h)][3 * i..3 * i + 3] == fd.data[at + 1 + 3 * i..at + 1 + 3 * i + 3]
      {
        SliceOfSlice(fd.data, at + 1, at + 1 + 3 * Total(h), 3 * i, 3 * i + 3);
      }
    }
  }

  /** The Velocity block. */
  method ReadVelBlock(fd: InStream, h: Header, P: array<Particle>) returns (c: Outcome)
    requires fd.Valid() && Sane(h) && P.Length == Total(h)
    modifies fd, P
    ensures fd.Valid()
    ensures var rb := ReadBlock(fd.data, old(fd.pos), 3 * Total(h), VelBlock, h);
      (c == Pass <==> rb.Success?) && (rb.Failure? ==> c == Fail(rb.error)) &&
      (rb.Success? ==>
        fd.pos == old(fd.pos) + 3 * Total(h) + 2 &&
        P[..] == WithVel(old(P[..]), rb.value))
  {
    ghost var at := fd.pos;
    var ok, blksize1 := ReadMarker(fd);
    if !ok {
      return Fail(IoTruncated);
    }
    ok := ReadVelocities(fd, h, P);
    if !ok {
      return Fail(IoTruncated);
    }
    c := CloseBlock(fd, VelBlock, h, blksize1, at, 3 * Total(h));
    if c == Pass {
      forall i | 0 <= i < P.Length
        ensures fd.data[at + 1..at + 1 + 3 * Total(h)][3 * i..3 * i + 3] == fd.data[at + 1 + 3 * i..at + 1 + 3 * i + 3]
      {
        SliceOfSlice(fd.data, at + 1, at + 1 + 3 * Total(h), 3 * i, 3 * i + 3);
      }
    }
  }

  /** The Id block. */
  method ReadIdsBlock(fd: InStream, h: Header, P: array<Particle>) returns (c: Outcome)
    requires fd.Valid() && Sane(h) && P.Length == Total(h)
    modifies fd, P
    ensures fd.Valid()
    ensures var rb := ReadBlock(fd.data, old(fd.pos), Total(h), IdsBlock, h);
      (c == Pass <==> rb.Success?) && (rb.Failure? ==> c == Fail(rb.error)) &&
      (rb.Success? ==>
        fd.pos == old(fd.pos) + Total(h) + 2 &&
        P[..] == WithIds(old(P[..]), rb.value))
  {
    ghost var at := fd.pos;
    var ok, blksize1 := ReadMarker(fd);
    if !ok {
      return Fail(IoTruncated);
    }
    ok := ReadIds(fd, h, P);
    if !ok {
      return Fail(IoTruncated);
    }
    c := CloseBlock(fd, IdsBlock, h, blksize1, at, Total(h));
  }

  /** The Mass block: its markers are read and checked only when
      `nwithmass > 0`; the Mass loop runs either way and sets every type. */
  method ReadMassBlock(fd: InStream, h: Header, P: array<Particle>, narrow: Double -> Word, nwithmass: int)
    returns (c: Outcome)
    requires fd.Valid() && Sane(h) && P.Length == Total(h) && nwithmass == MassCount(h)
    modifies fd, P
    ensures fd.Valid()
    ensures MassCount(h) >= 0
    ensures var rb := if MassCount(h) > 0 then ReadBlock(fd.data, old(fd.pos), MassCount(h), MassBlock, h)
                      else Success([]);
      (c == Pass <==> rb.Success?) && (rb.Failure? ==> c == Fail(rb.error)) &&
      (rb.Success? ==>
        |rb.value| == MassCount(h) && P[..] == WithMass(h, old(P[..]), rb.value, narrow))
    ensures c == Pass ==> fd.pos == old(fd.pos) + (if MassCount(h) > 0 then MassCount(h) + 2 else 0)
  {
    MassCountBounds(h);
    ghost var at := fd.pos;
    var blksize1: Int32 := 0;
    if nwithmass > 0 {
      var ok;
      ok, blksize1 := ReadMarker(fd);
      if !ok {
        return Fail(IoTruncated);
      }
    }
    var ok := ReadMasses(fd, h, P, narrow);
    if !ok {
      return Fail(IoTruncated);
    }
    if nwithmass > 0 {
      assert fd.data[at + 1..fd.pos] == fd.data[at + 1..at + 1 + MassCount(h)];
      c := CloseBlock(fd, MassBlock, h, blksize1, at, MassCount(h));
    } else {
      assert fd.data[at..fd.pos] == [];
      c := Pass;
    }
  }

  /** The four passes over the table leave in every record the fields of
      the record the reader assembles. */
  lemma {:induction false} AssembledTable(h: Header, posW: seq<Word>, velW: seq<Word>, idW: seq<Word>,
                                          massW: seq<Word>, narrow: Double -> Word, P0: seq<Particle>)
    requires Sane(h)
    requires |posW| == |velW| == 3 * Total(h) && |idW| == Total(h) && |massW| == MassCount(h)
    requires |P0| == Total(h)
    ensures WithMass(h, WithIds(WithVel(WithPos(P0, posW), velW), idW), massW, narrow) ==
      Table(h, posW, velW, idW, massW, narrow)
  {
    var t := Table(h, posW, velW, idW, massW, narrow);
    var P1 := WithPos(P0, posW);
    var P2 := WithVel(P1, velW);
    var P3 := WithIds(P2, idW);
    var P4 := WithMass(h, P3, massW, narrow);
    forall i | 0 <= i < |P4| ensures P4[i] == t[i] {
      assert P3[i] == P2[i].(id := ToInt32(idW[i]));
      assert P2[i] == P1[i].(vel := velW[3 * i..3 * i + 3]);
      assert P1[i] == P0[i].(pos := posW[3 * i..3 * i + 3]);
    }
  }

  /** Everything `read_snapshot` reads after the header, into `P`. */
  method ReadBody(fd: InStream, h: Header, P: array<Particle>, narrow: Double -> Word, nwithmass: int)
    returns (c: Outcome)
    requires fd.Valid() && fd.pos == PosAt && Sane(h) && P.Length == Total(h) && nwithmass == MassCount(h)
    modifies fd, P
    ensures c == Pass <==> ParseBody(fd.data, h, narrow).Success?
    ensures ParseBody(fd.data, h, narrow).Failure? ==> c == Fail(ParseBody(fd.data, h, narrow).error)
    ensures c == Pass ==> P[..] == ParseBody(fd.data, h, narrow).value
    ensures c == Pass ==> fd.pos == ReadEnd(h)
  {
    StartMono(h, 0, NumTypes);
    MassCountBounds(h);
    var n := Total(h);
    ghost var file := fd.data;
    ghost var P0 := P[..];
    ghost var rp := ReadBlock(file, PosAt, 3 * n, PosBlock, h);
    ghost var rv := ReadBlock(file, VelAt(h), 3 * n, VelBlock, h);
    ghost var ri := ReadBlock(file, IdsAt(h), n, IdsBlock, h);
    ghost var rm := if MassCount(h) > 0 then ReadBlock(file, MassAt(h), MassCount(h), MassBlock, h)
                    else Success([]);
    c := ReadPosBlock(fd, h, P);
    if c != Pass {
      assert ParseBody(file, h, narrow) == Failure(rp.error);
      return;
    }
    assert fd.pos == VelAt(h);
    c := ReadVelBlock(fd, h, P);
    if c != Pass {
      assert ParseBody(file, h, narrow) == Failure(rv.error);
      return;
    }
    assert fd.pos == IdsAt(h);
    c := ReadIdsBlock(fd, h, P);
    if c != Pass {
      assert ParseBody(file, h, narrow) == Failure(ri.error);
      return;
    }
    assert fd.pos == MassAt(h);
    c := ReadMassBlock(fd, h, P, narrow, nwithmass);
    if c != Pass {
      assert ParseBody(file, h, narrow) == Failure(rm.error);
      return;
    }
    assert ParseBody(file, h, narrow) == Success(Table(h, rp.value, rv.value, ri.value, rm.value, narrow));
    AssembledTable(h, rp.value, rv.value, ri.value, rm.value, narrow, P0);
  }

  /** `read_snapshot`: opens the file, reads and checks the header block,
      counts `NumPart` and `nwithmass`, allocates the table and reads the rest. */
  method ReadSnapshot(file: seq<Word>, narrow: Double -> Word) returns (r: Result<Loaded>)
    ensures ParseSnapshot(file, narrow).Failure? ==> r == Failure(ParseSnapshot(file, narrow).error)
    ensures ParseSnapshot(file, narrow).Success? ==>
      r.Success? && r.value.header == ParseSnapshot(file, narrow).value.header &&
      r.value.particles[..] == ParseSnapshot(file, narrow).value.table
    ensures r.Success? ==> fresh(r.value.particles)
  {
    var fd := new InStream.Open(file);
    var ok, blksize1 := ReadMarker(fd);
    if !ok {
      return Failure(IoTruncated);
    }
    var got, hw := fd.Read(HeaderWords);
    if !got {
      return Failure(IoTruncated);
    }
    var h := DecodeHeader(hw);
    var c := CloseBlock(fd, HeaderBlock, h, blksize1, 0, HeaderWords);
    if c != Pass {
      return Failure(c.error);
    }
    var numPart: int, nwithmass: int := 0, 0;
    for k := 0 to NumTypes
      invariant numPart == Start(h, k) && nwithmass == MassPrefix(h, k)
    {
      numPart := numPart + h.npart[k] as int;
      if IsZero(h.mass[k]) {
        nwithmass := nwithmass + h.npart[k] as int;
      }
    }
    if !Sane(h) {
      return Failure(BadCounts);
    }
    StartMono(h, 0, NumTypes);
    var P := new Particle[numPart](_ => Blank);
    c := ReadBody(fd, h, P, narrow, nwithmass);
    if c != Pass {
      return Failure(c.error);
    }
    r := Success(Loaded(h, P));
  }
}
