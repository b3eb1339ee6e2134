/** What `read_snapshot` produces from a file, as a function of the file's
    words: the header and the particle table, or the error it stops on. */
module Snapshot {
  import opened Words
  import opened IoHeader
  import opened Layout
  import opened Blocks

  /** `PARTICLE_DATA` without `U`, which the reader never sets and the
      writer never reads. */
  datatype Particle = Particle(pos: Triple, vel: Triple, ptype: int, id: Int32, mass: Word)

  /** What freshly allocated records hold before the reader fills them. */
  const Blank := Particle([0, 0, 0], [0, 0, 0], 0, 0, 0)

  datatype Snapshot = Snapshot(header: Header, table: seq<Particle>)

  /** Offsets, in words, of the blocks of a snapshot with header h. */
  const PosAt: nat := HeaderWords + 2

  function VelAt(h: Header): int
  {
    PosAt + 3 * Total(h) + 2
  }

  function IdsAt(h: Header): int
  {
    VelAt(h) + 3 * Total(h) + 2
  }

  function MassAt(h: Header): int
  {
    IdsAt(h) + Total(h) + 2
  }

  /** Where reading stops: the Mass block, markers included, is there only
      when some type stores its masses per particle. */
  function ReadEnd(h: Header): int
  {
    MassAt(h) + (if MassCount(h) > 0 then MassCount(h) + 2 else 0)
  }

  /** The mass the reader gives record i: the next word of the Mass block
      when its type's header mass is zero, else the header mass as a float. */
  ghost function MassOf(h: Header, massW: seq<Word>, narrow: Double -> Word, i: int): Word
    requires Sane(h) && 0 <= i < Total(h) && |massW| == MassCount(h)
  {
    var k := TypeAt(h, i);
    if IsZero(h.mass[k]) then MassBeforeBound(h, i); massW[MassBefore(h, i)] else narrow(h.mass[k])
  }

  /** The record the reader assembles at index i from the four payloads. */
  ghost function Record(h: Header, posW: seq<Word>, velW: seq<Word>, idW: seq<Word>, massW: seq<Word>,
                  narrow: Double -> Word, i: int): Particle
    requires Sane(h) && 0 <= i < Total(h)
    requires |posW| == |velW| == 3 * Total(h) && |idW| == Total(h) && |massW| == MassCount(h)
  {
    Particle(posW[3 * i..3 * i + 3], velW[3 * i..3 * i + 3], TypeAt(h, i), ToInt32(idW[i]),
             MassOf(h, massW, narrow, i))
  }

  ghost function Table(h: Header, posW: seq<Word>, velW: seq<Word>, idW: seq<Word>, massW: seq<Word>,
                 narrow: Double -> Word): (t: seq<Particle>)
    requires Sane(h)
    requires |posW| == |velW| == 3 * Total(h) && |idW| == Total(h) && |massW| == MassCount(h)
    ensures |t| == Total(h)
    ensures forall i :: 0 <= i < Total(h) ==> t[i] == Record(h, posW, velW, idW, massW, narrow, i)
  {
    StartMono(h, 0, NumTypes);
    seq(Total(h), i requires 0 <= i < Total(h) => Record(h, posW, velW, idW, massW, narrow, i))
  }

  /** The blocks after the header, for sane counts: Position, Velocity and
      Id blocks, then the Mass block only when `nwithmass > 0`. `narrow` is
      the C conversion of a header mass (double) to a float. */
  ghost function ParseBody(file: seq<Word>, h: Header, narrow: Double -> Word): (r: Result<seq<Particle>>)
    requires Sane(h)
    ensures r.Success? ==> |r.value| == Total(h)
  {
    StartMono(h, 0, NumTypes);
    MassCountBounds(h);
    var n := Total(h);
    match ReadBlock(file, PosAt, 3 * n, PosBlock, h)
    case Failure(e) => Failure(e)
    case Success(posW) =>
      match ReadBlock(file, VelAt(h), 3 * n, VelBlock, h)
      case Failure(e) => Failure(e)
      case Success(velW) =>
        match ReadBlock(file, IdsAt(h), n, IdsBlock, h)
        case Failure(e) => Failure(e)
        case Success(idW) =>
          match (if MassCount(h) > 0 then ReadBlock(file, MassAt(h), MassCount(h), MassBlock, h)
                 else Success([]))
          case Failure(e) => Failure(e)
          case Success(massW) => Success(Table(h, posW, velW, idW, massW, narrow))
  }

  /** `read_snapshot` on a file: the header block first; counts the model
      cannot represent are refused before the particle blocks are read. */
  ghost function ParseSnapshot(file: seq<Word>, narrow: Double -> Word): Result<Snapshot>
  {
    if |file| < PosAt then Failure(IoTruncated)
    else
      var h := DecodeHeader(file[1..HeaderWords + 1]);
      match ReadBlock(file, 0, HeaderWords, HeaderBlock, h)
      case Failure(e) => Failure(e)
      case Success(_) =>
        if !Sane(h) then Failure(BadCounts)
        else
          match ParseBody(file, h, narrow)
          case Failure(e) => Failure(e)
          case Success(t) => Success(Snapshot(h, t))
  }
}
