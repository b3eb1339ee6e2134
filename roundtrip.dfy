/** What reading gives back: the layout facts of a successful read, the
    file `fake_gas` writes read back block by block, and the converted
    snapshot read again. */
module RoundTrip {
  import opened Words
  import opened IoHeader
  import opened Layout
  import opened Blocks
  import opened Snapshot
  import opened Transform
  import opened Writer

  /** Record i's three Position words sit at 3i in the Position payload. */
  lemma {:induction false} PositionOf(t: seq<Particle>, i: nat)
    requires i < |t|
    ensures Positions(t)[3 * i..3 * i + 3] == t[i].pos
  {
    var m := |t| - 1;
    assert Positions(t) == Positions(t[..m]) + t[m].pos;
    if i < m {
      PositionOf(t[..m], i);
      assert Positions(t)[3 * i..3 * i + 3] == Positions(t[..m])[3 * i..3 * i + 3];
    }
  }

  lemma {:induction false} VelocityOf(t: seq<Particle>, i: nat)
    requires i < |t|
    ensures Velocities(t)[3 * i..3 * i + 3] == t[i].vel
  {
    var m := |t| - 1;
    assert Velocities(t) == Velocities(t[..m]) + t[m].vel;
    if i < m {
      VelocityOf(t[..m], i);
      assert Velocities(t)[3 * i..3 * i + 3] == Velocities(t[..m])[3 * i..3 * i + 3];
    }
  }

  /** An id read back as a C `int` is the id written. */
  lemma {:induction false} IdOf(t: seq<Particle>, i: nat)
    requires i < |t|
    ensures ToInt32(Ids(t)[i]) == t[i].id
  {
    var m := |t| - 1;
    assert Ids(t) == Ids(t[..m]) + [FromInt32(t[m].id)];
    if i < m {
      IdOf(t[..m], i);
      assert Ids(t)[i] == Ids(t[..m])[i];
    }
  }

  /** A record whose type stores masses has its mass at the position given
      by the number of stored records before it. */
  lemma {:induction false} StoredMassesAt(h: Header, t: seq<Particle>, i: nat)
    requires Sane(h) && i < |t| <= Total(h) && IsZero(h.mass[TypeAt(h, i)])
    ensures StoredBefore(h, i) < |StoredMasses(h, t)|
    ensures StoredMasses(h, t)[StoredBefore(h, i)] == t[i].mass
  {
    var m := |t| - 1;
    var front := StoredMasses(h, t[..m]);
    assert StoredMasses(h, t) ==
      front + (if IsZero(h.mass[TypeAt(h, m)]) then [t[m].mass] else []);
    if i < m {
      StoredMassesAt(h, t[..m], i);
      assert StoredMasses(h, t)[StoredBefore(h, i)] == front[StoredBefore(h, i)];
    }
  }

  /** What the reader makes of a written record at index i: the record with
      the type of its bucket, and with the header mass of that type in place
      of its own mass unless the type stores masses per particle. */
  ghost function NormalRecord(h: Header, p: Particle, narrow: Double -> Word, i: int): Particle
    requires Sane(h) && 0 <= i < Total(h)
  {
    var k := TypeAt(h, i);
    p.(ptype := k, mass := if IsZero(h.mass[k]) then p.mass else narrow(h.mass[k]))
  }

  /** The first `NumPart` records of t as the reader will see them. */
  ghost function Normalize(h: Header, t: seq<Particle>, narrow: Double -> Word): (n: seq<Particle>)
    requires Sane(h) && Total(h) <= |t|
    ensures |n| == Total(h)
    ensures forall i :: 0 <= i < Total(h) ==> n[i] == NormalRecord(h, t[i], narrow, i)
  {
    StartMono(h, 0, NumTypes);
    seq(Total(h), i requires 0 <= i < Total(h) => NormalRecord(h, t[i], narrow, i))
  }

  /** Six blocks laid end to end, the five inner offsets given: where each
      one lies. */
  lemma {:induction false} SixFrames(file: seq<Word>, f0: seq<Word>, f1: seq<Word>, f2: seq<Word>,
                                     f3: seq<Word>, f4: seq<Word>, f5: seq<Word>,
                                     a1: nat, a2: nat, a3: nat, a4: nat, a5: nat)
    requires file == f0 + f1 + f2 + f3 + f4 + f5
    requires a1 == |f0| && a2 == a1 + |f1| && a3 == a2 + |f2| && a4 == a3 + |f3| && a5 == a4 + |f4|
    ensures |file| == a5 + |f5| && file[0..a1] == f0 && file[a1..a2] == f1 && file[a2..a3] == f2 &&
      file[a3..a4] == f3 && file[a4..a5] == f4 && file[a5..|file|] == f5
  {
    var p5 := f0 + f1 + f2 + f3 + f4;
    var p4 := f0 + f1 + f2 + f3;
    var p3 := f0 + f1 + f2;
    var p2 := f0 + f1;
    assert file[..a5] == p5 && file[a5..] == f5;
    assert p5[..a4] == p4 && p5[a4..] == f4;
    assert p4[..a3] == p3 && p4[a3..] == f3;
    assert p3[..a2] == p2 && p3[a2..] == f2;
    assert p2[..a1] == f0 && p2[a1..] == f1;
    assert file[a4..a5] == p5[a4..];
    assert file[a3..a4] == p4[a3..] by { assert file[..a4] == p4; }
    assert file[a2..a3] == p3[a2..] by { assert file[..a3] == p3; }
    assert file[a1..a2] == p2[a1..] by { assert file[..a2] == p2; }
    assert file[0..a1] == file[..a1];
  }

  /** A frame found between two given offsets reads back as its payload. */
  lemma {:induction false} FrameBetween(file: seq<Word>, at: nat, end: nat, size: Int32, payload: seq<Word>,
                                        kind: BlockKind, h: Header)
    requires at <= end <= |file| && file[at..end] == Frame(size, payload) && size == BlockSize(kind, h)
    ensures end == at + |payload| + 2
    ensures ReadBlock(file, at, |payload|, kind, h) == Success(payload)
  {
    ReadFramed(file, at, size, payload, kind, h);
  }

  /** Frames found at the reader's offsets read back as their payloads. */
  lemma {:induction false} BlocksAt(file: seq<Word>, h: Header, hp: seq<Word>, pp: seq<Word>, vp: seq<Word>,
                                    ip: seq<Word>, mp: seq<Word>, zp: seq<Word>)
    requires Sane(h) && 0 <= Total(h) && 0 <= MassCount(h) && ReadEnd(h) <= |file|
    requires |pp| == |vp| == 3 * Total(h) && |ip| == Total(h) && |mp| == MassCount(h)
    requires file[0..PosAt] == Frame(Marker(HeaderBlock, h), hp)
    requires file[PosAt..VelAt(h)] == Frame(Marker(PosBlock, h), pp)
    requires file[VelAt(h)..IdsAt(h)] == Frame(Marker(VelBlock, h), vp)
    requires file[IdsAt(h)..MassAt(h)] == Frame(Marker(IdsBlock, h), ip)
    requires MassCount(h) > 0 ==> file[MassAt(h)..ReadEnd(h)] == Frame(Marker(MassBlock, h), mp)
    requires file[ReadEnd(h)..|file|] == Frame(Marker(UBlock, h), zp)
    ensures ReadBlock(file, 0, |hp|, HeaderBlock, h) == Success(hp)
    ensures ReadBlock(file, PosAt, |pp|, PosBlock, h) == Success(pp)
    ensures ReadBlock(file, VelAt(h), |vp|, VelBlock, h) == Success(vp)
    ensures ReadBlock(file, IdsAt(h), |ip|, IdsBlock, h) == Success(ip)
    ensures MassCount(h) > 0 ==> ReadBlock(file, MassAt(h), |mp|, MassBlock, h) == Success(mp)
    ensures ReadBlock(file, ReadEnd(h), |zp|, UBlock, h) == Success(zp)
  {
    FrameBetween(file, 0, PosAt, Marker(HeaderBlock, h), hp, HeaderBlock, h);
    FrameBetween(file, PosAt, VelAt(h), Marker(PosBlock, h), pp, PosBlock, h);
    FrameBetween(file, VelAt(h), IdsAt(h), Marker(VelBlock, h), vp, VelBlock, h);
    FrameBetween(file, IdsAt(h), MassAt(h), Marker(IdsBlock, h), ip, IdsBlock, h);
    if MassCount(h) > 0 {
      FrameBetween(file, MassAt(h), ReadEnd(h), Marker(MassBlock, h), mp, MassBlock, h);
    }
    FrameBetween(file, ReadEnd(h), |file|, Marker(UBlock, h), zp, UBlock, h);
  }

  /** The written file cut at the reader's offsets: one frame per block. */
  lemma {:induction false} EncodedFrames(h: Header, t: seq<Particle>)
    requires Sane(h) && Total(h) <= |t|
    ensures 0 <= Total(h) && 0 <= MassCount(h) <= Total(h)
    ensures var file := EncodeSnapshot(h, t);
      var u := t[..Total(h)];
      |file| == ReadEnd(h) + h.npart[0] + 2 &&
      file[0..PosAt] == Frame(Marker(HeaderBlock, h), EncodeHeader(h)) &&
      file[PosAt..VelAt(h)] == Frame(Marker(PosBlock, h), Positions(u)) &&
      file[VelAt(h)..IdsAt(h)] == Frame(Marker(VelBlock, h), Velocities(u)) &&
      file[IdsAt(h)..MassAt(h)] == Frame(Marker(IdsBlock, h), Ids(u)) &&
      (MassCount(h) > 0 ==> file[MassAt(h)..ReadEnd(h)] == Frame(Marker(MassBlock, h), StoredMasses(h, u))) &&
      file[ReadEnd(h)..|file|] == Frame(Marker(UBlock, h), Zeros(h.npart[0] as nat))
  {
    StartMono(h, 0, 1);
    StartMono(h, 0, NumTypes);
    MassCountBounds(h);
    StoredBeforeTotal(h);
    var file := EncodeSnapshot(h, t);
    var u := t[..Total(h)];
    var f0 := Frame(Marker(HeaderBlock, h), EncodeHeader(h));
    var f1 := Frame(Marker(PosBlock, h), Positions(u));
    var f2 := Frame(Marker(VelBlock, h), Velocities(u));
    var f3 := Frame(Marker(IdsBlock, h), Ids(u));
    var f4 := if MassCount(h) > 0 then Frame(Marker(MassBlock, h), StoredMasses(h, u)) else [];
    var f5 := Frame(Marker(UBlock, h), Zeros(h.npart[0] as nat));
    assert |f0| == PosAt && |f1| == 3 * Total(h) + 2 && |f2| == 3 * Total(h) + 2 && |f3| == Total(h) + 2;
    SixFrames(file, f0, f1, f2, f3, f4, f5, PosAt, VelAt(h), IdsAt(h), MassAt(h), ReadEnd(h));
  }

  /** The written file, block by block: each block sits at the offset the
      reader expects and passes `block_check` under the header written. */
  lemma {:induction false} EncodedBlocks(h: Header, t: seq<Particle>)
    requires Sane(h) && Total(h) <= |t|
    ensures 0 <= Total(h) && 0 <= MassCount(h) <= Total(h)
    ensures var file := EncodeSnapshot(h, t);
      var u := t[..Total(h)];
      |file| == ReadEnd(h) + h.npart[0] + 2 &&
      ReadBlock(file, 0, HeaderWords, HeaderBlock, h) == Success(EncodeHeader(h)) &&
      ReadBlock(file, PosAt, 3 * Total(h), PosBlock, h) == Success(Positions(u)) &&
      ReadBlock(file, VelAt(h), 3 * Total(h), VelBlock, h) == Success(Velocities(u)) &&
      ReadBlock(file, IdsAt(h), Total(h), IdsBlock, h) == Success(Ids(u)) &&
      (MassCount(h) > 0 ==>
        ReadBlock(file, MassAt(h), MassCount(h), MassBlock, h) == Success(StoredMasses(h, u))) &&
      ReadBlock(file, ReadEnd(h), h.npart[0] as nat, UBlock, h) == Success(Zeros(h.npart[0] as nat))
  {
    EncodedFrames(h, t);
    StoredBeforeTotal(h);
    var u := t[..Total(h)];
    BlocksAt(EncodeSnapshot(h, t), h, EncodeHeader(h), Positions(u), Velocities(u), Ids(u), StoredMasses(h, u),
             Zeros(h.npart[0] as nat));
  }

  /** Record i of the table the reader assembles from the written payloads. */
  lemma {:induction false} WrittenRecord(h: Header, u: seq<Particle>, narrow: Double -> Word, i: int)
    requires Sane(h) && |u| == Total(h) && 0 <= i < Total(h)
    requires |StoredMasses(h, u)| == MassCount(h)
    ensures Record(h, Positions(u), Velocities(u), Ids(u), StoredMasses(h, u), narrow, i) ==
      NormalRecord(h, u[i], narrow, i)
  {
    PositionOf(u, i);
    VelocityOf(u, i);
    IdOf(u, i);
    if IsZero(h.mass[TypeAt(h, i)]) {
      MassBeforeCounts(h, i);
      StoredMassesAt(h, u, i);
    }
  }

  /** Reading the file `fake_gas` writes for header h and table t gives back
      h and the first `NumPart` records of t, each with the type of its
      bucket and, where the type does not store masses, the header mass. */
  lemma {:induction false} ReadBackWritten(h: Header, t: seq<Particle>, narrow: Double -> Word)
    requires Sane(h) && Total(h) <= |t|
    ensures ParseSnapshot(EncodeSnapshot(h, t), narrow) == Success(Snapshot(h, Normalize(h, t, narrow)))
  {
    var file := EncodeSnapshot(h, t);
    EncodedBlocks(h, t);
    StoredBeforeTotal(h);
    var u := t[..Total(h)];
    assert file[1..HeaderWords + 1] == EncodeHeader(h);
    DecodeEncodeHeader(h);
    var massW := if MassCount(h) > 0 then StoredMasses(h, u) else [];
    assert massW == StoredMasses(h, u);
    var table := Table(h, Positions(u), Velocities(u), Ids(u), massW, narrow);
    assert ParseBody(file, h, narrow) == Success(table);
    forall i | 0 <= i < Total(h) ensures table[i] == Normalize(h, t, narrow)[i] {
      WrittenRecord(h, u, narrow, i);
    }
    assert table == Normalize(h, t, narrow);
  }

  /** The payload of the Mass block of a file with header h, empty when
      the block is absent. */
  ghost function MassWords(file: seq<Word>, h: Header): (ws: seq<Word>)
    requires Sane(h) && ReadEnd(h) <= |file|
    ensures |ws| == if MassCount(h) > 0 then MassCount(h) else 0
  {
    StartMono(h, 0, NumTypes);
    if MassCount(h) > 0 then file[MassAt(h) + 1..MassAt(h) + 1 + MassCount(h)] else []
  }

  lemma {:induction false} MassWordAt(file: seq<Word>, h: Header, j: int)
    requires Sane(h) && 0 <= Total(h) && ReadEnd(h) <= |file| && 0 <= j < MassCount(h)
    ensures MassAt(h) + 1 + j < |file| && MassWords(file, h)[j] == file[MassAt(h) + 1 + j]
  {
    StartMono(h, 0, NumTypes);
  }

  /** After a successful read: the counts are sane, the file reaches to the
      end of the Mass block, there are `NumPart` records, and record i has
      the type of its bucket and the mass the reader picks for it. */
  lemma {:induction false} ParsedTable(file: seq<Word>, narrow: Double -> Word, s: Snapshot)
    requires ParseSnapshot(file, narrow) == Success(s)
    ensures var h := s.header;
      Sane(h) && 0 <= MassCount(h) <= Total(h) && ReadEnd(h) <= |file| &&
      |s.table| == Total(h) &&
      forall i :: 0 <= i < Total(h) ==>
        s.table[i].ptype == TypeAt(h, i) && s.table[i].mass == MassOf(h, MassWords(file, h), narrow, i)
  {
    var h := DecodeHeader(file[1..HeaderWords + 1]);
    assert s.header == h;
    StartMono(h, 0, NumTypes);
    MassCountBounds(h);
    var n := Total(h);
    var posW := ReadBlock(file, PosAt, 3 * n, PosBlock, h).value;
    var velW := ReadBlock(file, VelAt(h), 3 * n, VelBlock, h).value;
    var idW := ReadBlock(file, IdsAt(h), n, IdsBlock, h).value;
    var rm := if MassCount(h) > 0 then ReadBlock(file, MassAt(h), MassCount(h), MassBlock, h) else Success([]);
    assert rm.value == MassWords(file, h);
    assert s.table == Table(h, posW, velW, idW, MassWords(file, h), narrow);
  }

  /** After a successful read, record i has the type of its bucket: a record
      has type k exactly when it lies in bucket k, and types never decrease
      along the table. */
  lemma {:induction false} ParsedTypes(file: seq<Word>, narrow: Double -> Word, s: Snapshot)
    requires ParseSnapshot(file, narrow) == Success(s)
    ensures var h := s.header;
      Sane(h) && |s.table| == Total(h) &&
      (forall i, k :: 0 <= i < Total(h) && 0 <= k < NumTypes ==>
        (s.table[i].ptype == k <==> Start(h, k) <= i < Start(h, k + 1))) &&
      (forall i, j :: 0 <= i <= j < Total(h) ==> s.table[i].ptype <= s.table[j].ptype)
  {
    ParsedTable(file, narrow, s);
    var h := s.header;
    forall i, k | 0 <= i < Total(h) && 0 <= k < NumTypes
      ensures s.table[i].ptype == k <==> Start(h, k) <= i < Start(h, k + 1)
    {
      TypeAtIff(h, i, k);
    }
    forall i, j | 0 <= i <= j < Total(h) ensures s.table[i].ptype <= s.table[j].ptype {
      TypeAtMono(h, i, j);
    }
  }

  /** A record whose type stores masses takes the word of the Mass payload
      counted by the stored records before it. */
  lemma {:induction false} MassOfStored(h: Header, massW: seq<Word>, narrow: Double -> Word, i: int)
    requires Sane(h) && 0 <= i < Total(h) && |massW| == MassCount(h) && IsZero(h.mass[TypeAt(h, i)])
    ensures 0 <= StoredBefore(h, i) < MassCount(h)
    ensures MassOf(h, massW, narrow, i) == massW[StoredBefore(h, i)]
  {
    MassBeforeBound(h, i);
    MassBeforeCounts(h, i);
  }

  /** The mass the reader picks for a record of a type with a zero header
      mass is the Mass block word counted by the stored records before it. */
  lemma {:induction false} StoredMassAt(file: seq<Word>, h: Header, narrow: Double -> Word, i: int)
    requires Sane(h) && 0 <= MassCount(h) <= Total(h) && ReadEnd(h) <= |file|
    requires 0 <= i < Total(h) && IsZero(h.mass[TypeAt(h, i)])
    ensures 0 <= StoredBefore(h, i) < MassCount(h) && MassAt(h) + 1 + StoredBefore(h, i) < |file|
    ensures MassOf(h, MassWords(file, h), narrow, i) == file[MassAt(h) + 1 + StoredBefore(h, i)]
  {
    MassOfStored(h, MassWords(file, h), narrow, i);
    MassWordAt(file, h, StoredBefore(h, i));
  }

  /** The mass rule for types with a nonzero header mass: every record of
      such a type holds that mass, converted to a float. */
  ghost predicate FixedMassesHold(h: Header, t: seq<Particle>, narrow: Double -> Word)
    requires Sane(h) && |t| == Total(h)
  {
    forall i :: 0 <= i < Total(h) && !IsZero(h.mass[TypeAt(h, i)]) ==>
      t[i].mass == narrow(h.mass[TypeAt(h, i)])
  }

  /** The mass rule for types with a zero header mass: record i holds the
      word of the Mass block of `file` that follows those of the stored
      records before it. */
  ghost predicate StoredMassesHold(file: seq<Word>, h: Header, t: seq<Particle>)
    requires Sane(h) && |t| == Total(h)
  {
    forall i :: 0 <= i < Total(h) && IsZero(h.mass[TypeAt(h, i)]) ==>
      0 <= StoredBefore(h, i) < MassCount(h) && MassAt(h) + 1 + StoredBefore(h, i) < |file| &&
      t[i].mass == file[MassAt(h) + 1 + StoredBefore(h, i)]
  }

  /** The mass rule of the reader, for a table whose masses it picked: a
      type with a nonzero header mass gives that mass to all its records. */
  lemma {:induction false} FixedMasses(file: seq<Word>, narrow: Double -> Word, s: Snapshot)
    requires Sane(s.header) && 0 <= MassCount(s.header) <= Total(s.header) && ReadEnd(s.header) <= |file|
    requires |s.table| == Total(s.header)
    requires forall i :: 0 <= i < Total(s.header) ==>
      s.table[i].mass == MassOf(s.header, MassWords(file, s.header), narrow, i)
    ensures FixedMassesHold(s.header, s.table, narrow)
  {
    var h := s.header;
    forall i | 0 <= i < Total(h) && !IsZero(h.mass[TypeAt(h, i)])
      ensures s.table[i].mass == narrow(h.mass[TypeAt(h, i)])
    {
      assert s.table[i].mass == MassOf(h, MassWords(file, h), narrow, i);
    }
  }

  /** The other half of the mass rule: a record of a type with a zero header
      mass holds the Mass block word after those of the stored records
      before it. */
  lemma {:induction false} StoredMassesRead(file: seq<Word>, narrow: Double -> Word, s: Snapshot)
    requires Sane(s.header) && 0 <= MassCount(s.header) <= Total(s.header) && ReadEnd(s.header) <= |file|
    requires |s.table| == Total(s.header)
    requires forall i :: 0 <= i < Total(s.header) ==>
      s.table[i].mass == MassOf(s.header, MassWords(file, s.header), narrow, i)
    ensures StoredMassesHold(file, s.header, s.table)
  {
    var h := s.header;
    forall i | 0 <= i < Total(h) && IsZero(h.mass[TypeAt(h, i)])
      ensures 0 <= StoredBefore(h, i) < MassCount(h) && MassAt(h) + 1 + StoredBefore(h, i) < |file|
      ensures s.table[i].mass == file[MassAt(h) + 1 + StoredBefore(h, i)]
    {
      StoredMassAt(file, h, narrow, i);
    }
  }

  /** After a successful read, a record whose type has a nonzero header
      mass holds that mass, converted to a float. */
  lemma {:induction false} ParsedFixedMasses(file: seq<Word>, narrow: Double -> Word, s: Snapshot)
    requires ParseSnapshot(file, narrow) == Success(s)
    ensures Sane(s.header) && |s.table| == Total(s.header)
    ensures FixedMassesHold(s.header, s.table, narrow)
  {
    ParsedTable(file, narrow, s);
    FixedMasses(file, narrow, s);
  }

  /** After a successful read, a record whose type has a zero header mass
      holds its own word of the Mass block, the one after all stored records
      before it. */
  lemma {:induction false} ParsedStoredMasses(file: seq<Word>, narrow: Double -> Word, s: Snapshot)
    requires ParseSnapshot(file, narrow) == Success(s)
    ensures Sane(s.header) && |s.table| == Total(s.header)
    ensures StoredMassesHold(file, s.header, s.table)
  {
    ParsedTable(file, narrow, s);
    StoredMassesRead(file, narrow, s);
  }

  /** The table the reader produced is already in the form it reads back. */
  lemma {:induction false} ParsedIsNormal(file: seq<Word>, narrow: Double -> Word, s: Snapshot)
    requires ParseSnapshot(file, narrow) == Success(s)
    ensures Sane(s.header) && Total(s.header) <= |s.table| && Normalize(s.header, s.table, narrow) == s.table
  {
    ParsedTable(file, narrow, s);
    var h := s.header;
    forall i | 0 <= i < Total(h) ensures Normalize(h, s.table, narrow)[i] == s.table[i] {
    }
  }

  /** Writing out a snapshot that was read, under its own header, and reading
      it again gives the same snapshot. */
  lemma {:induction false} RewriteReadsSame(file: seq<Word>, narrow: Double -> Word, s: Snapshot)
    requires ParseSnapshot(file, narrow) == Success(s)
    ensures Sane(s.header) && Total(s.header) <= |s.table|
    ensures ParseSnapshot(EncodeSnapshot(s.header, s.table), narrow) == Success(s)
  {
    ParsedIsNormal(file, narrow, s);
    ReadBackWritten(s.header, s.table, narrow);
  }

  /** The Position payload of a table whose record i holds words 3i..3i+3
      of w is w. */
  lemma {:induction false} PositionsOfPayload(t: seq<Particle>, w: seq<Word>)
    requires |w| == 3 * |t| && forall i :: 0 <= i < |t| ==> t[i].pos == w[3 * i..3 * i + 3]
    ensures Positions(t) == w
  {
    forall j | 0 <= j < |w| ensures Positions(t)[j] == w[j] {
      var i := j / 3;
      PositionOf(t, i);
      assert Positions(t)[j] == Positions(t)[3 * i..3 * i + 3][j - 3 * i];
      assert w[j] == w[3 * i..3 * i + 3][j - 3 * i];
    }
  }

  lemma {:induction false} VelocitiesOfPayload(t: seq<Particle>, w: seq<Word>)
    requires |w| == 3 * |t| && forall i :: 0 <= i < |t| ==> t[i].vel == w[3 * i..3 * i + 3]
    ensures Velocities(t) == w
  {
    forall j | 0 <= j < |w| ensures Velocities(t)[j] == w[j] {
      var i := j / 3;
      VelocityOf(t, i);
      assert Velocities(t)[j] == Velocities(t)[3 * i..3 * i + 3][j - 3 * i];
      assert w[j] == w[3 * i..3 * i + 3][j - 3 * i];
    }
  }

  /** The Id payload of a table whose record i holds word i, read as an
      `int`, is that word for word. */
  lemma {:induction false} IdsOfPayload(t: seq<Particle>, w: seq<Word>)
    requires |w| == |t| && forall i :: 0 <= i < |t| ==> t[i].id == ToInt32(w[i])
    ensures Ids(t) == w
  {
    forall i | 0 <= i < |w| ensures Ids(t)[i] == w[i] {
      IdOf(t, i);
      FromToInt32(Ids(t)[i]);
      FromToInt32(w[i]);
    }
  }

  /** Every record of t holds the mass the reader picks for it from massW. */
  ghost predicate MassesFrom(h: Header, t: seq<Particle>, massW: seq<Word>, narrow: Double -> Word)
    requires Sane(h) && |t| == Total(h) && |massW| == MassCount(h)
  {
    forall i :: 0 <= i < |t| ==> t[i].mass == MassOf(h, massW, narrow, i)
  }

  /** The stored masses of the first m records of such a table are the
      first words of the Mass payload. */
  lemma {:induction false} StoredMassesOfPayload(h: Header, t: seq<Particle>, massW: seq<Word>,
                                                 narrow: Double -> Word, m: nat)
    requires Sane(h) && |t| == Total(h) && |massW| == MassCount(h) && m <= Total(h)
    requires MassesFrom(h, t, massW, narrow)
    ensures StoredBefore(h, m) <= |massW| && StoredMasses(h, t[..m]) == massW[..StoredBefore(h, m)]
  {
    if m > 0 {
      StoredMassesOfPayload(h, t, massW, narrow, m - 1);
      StoredMassOfPayload(h, t, massW, narrow, m - 1);
    }
  }

  /** One record further: record i adds the next payload word exactly when it is stored. */
  lemma {:induction false} StoredMassOfPayload(h: Header, t: seq<Particle>, massW: seq<Word>,
                                               narrow: Double -> Word, i: nat)
    requires Sane(h) && |t| == Total(h) && |massW| == MassCount(h) && i < Total(h)
    requires MassesFrom(h, t, massW, narrow)
    requires StoredBefore(h, i) <= |massW| && StoredMasses(h, t[..i]) == massW[..StoredBefore(h, i)]
    ensures StoredBefore(h, i + 1) <= |massW| && StoredMasses(h, t[..i + 1]) == massW[..StoredBefore(h, i + 1)]
  {
    var b, k := StoredBefore(h, i), TypeAt(h, i);
    assert t[..i + 1][..i] == t[..i];
    assert StoredMasses(h, t[..i + 1]) ==
      StoredMasses(h, t[..i]) + (if IsZero(h.mass[k]) then [t[i].mass] else []);
    if IsZero(h.mass[k]) {
      MassOfStored(h, massW, narrow, i);
      assert t[i].mass == massW[b];
      assert massW[..b + 1] == massW[..b] + [massW[b]];
    }
  }

  /** What the writer makes of the table the reader assembles is the
      payloads it was assembled from: the payloads are decoded without
      loss. */
  lemma {:induction false} TableEncodes(h: Header, posW: seq<Word>, velW: seq<Word>, idW: seq<Word>,
                                        massW: seq<Word>, narrow: Double -> Word)
    requires Sane(h)
    requires |posW| == |velW| == 3 * Total(h) && |idW| == Total(h) && |massW| == MassCount(h)
    ensures var t := Table(h, posW, velW, idW, massW, narrow);
      Positions(t) == posW && Velocities(t) == velW && Ids(t) == idW && StoredMasses(h, t) == massW
  {
    var t := Table(h, posW, velW, idW, massW, narrow);
    PositionsOfPayload(t, posW);
    VelocitiesOfPayload(t, velW);
    IdsOfPayload(t, idW);
    assert MassesFrom(h, t, massW, narrow);
    StoredMassesOfPayload(h, t, massW, narrow, Total(h));
    StoredBeforeTotal(h);
    assert t[..Total(h)] == t;
  }

  /** A read of `file` that passed, block by block: header h, every block
      passed `block_check`, and t is the table assembled from their payloads. */
  ghost predicate BlocksRead(file: seq<Word>, h: Header, t: seq<Particle>, narrow: Double -> Word)
  {
    Sane(h) && 0 <= MassCount(h) <= Total(h) && ReadEnd(h) <= |file| &&
    h == DecodeHeader(file[1..HeaderWords + 1]) &&
    ReadBlock(file, 0, HeaderWords, HeaderBlock, h).Success? &&
    ReadBlock(file, PosAt, 3 * Total(h), PosBlock, h).Success? &&
    ReadBlock(file, VelAt(h), 3 * Total(h), VelBlock, h).Success? &&
    ReadBlock(file, IdsAt(h), Total(h), IdsBlock, h).Success? &&
    (MassCount(h) > 0 ==> ReadBlock(file, MassAt(h), MassCount(h), MassBlock, h).Success?) &&
    t == Table(h, file[PosAt + 1..VelAt(h) - 1], file[VelAt(h) + 1..IdsAt(h) - 1],
               file[IdsAt(h) + 1..MassAt(h) - 1], MassWords(file, h), narrow)
  }

  /** A successful read is a read that passed block by block. */
  lemma {:induction false} ParsedBlocks(file: seq<Word>, narrow: Double -> Word, s: Snapshot)
    requires ParseSnapshot(file, narrow) == Success(s)
    ensures BlocksRead(file, s.header, s.table, narrow)
  {
    var h := DecodeHeader(file[1..HeaderWords + 1]);
    assert s.header == h;
    BodyBlocks(file, h, s.table, narrow);
  }

  /** The particle blocks a successful `ParseBody` has read, each its word range of the file. */
  lemma {:induction false} BodyBlocks(file: seq<Word>, h: Header, t: seq<Particle>, narrow: Double -> Word)
    requires Sane(h) && PosAt <= |file| && h == DecodeHeader(file[1..HeaderWords + 1])
    requires ReadBlock(file, 0, HeaderWords, HeaderBlock, h).Success?
    requires ParseBody(file, h, narrow) == Success(t)
    ensures BlocksRead(file, h, t, narrow)
  {
    StartMono(h, 0, NumTypes);
    MassCountBounds(h);
    var n := Total(h);
    var posW := ReadBlock(file, PosAt, 3 * n, PosBlock, h).value;
    var velW := ReadBlock(file, VelAt(h), 3 * n, VelBlock, h).value;
    var idW := ReadBlock(file, IdsAt(h), n, IdsBlock, h).value;
    var rm := if MassCount(h) > 0 then ReadBlock(file, MassAt(h), MassCount(h), MassBlock, h) else Success([]);
    assert rm.value == MassWords(file, h);
    assert t == Table(h, posW, velW, idW, MassWords(file, h), narrow);
    assert posW == file[PosAt + 1..VelAt(h) - 1];
    assert velW == file[VelAt(h) + 1..IdsAt(h) - 1];
    assert idW == file[IdsAt(h) + 1..MassAt(h) - 1];
  }

  /** A prefix cut at five offsets is the five slices joined. */
  lemma {:induction false} FiveSlices(x: seq<Word>, a1: nat, a2: nat, a3: nat, a4: nat, a5: nat)
    requires a1 <= a2 <= a3 <= a4 <= a5 <= |x|
    ensures x[..a5] == x[0..a1] + x[a1..a2] + x[a2..a3] + x[a3..a4] + x[a4..a5]
  {
    assert x[..a2] == x[..a1] + x[a1..a2];
    assert x[..a3] == x[..a2] + x[a2..a3];
    assert x[..a4] == x[..a3] + x[a3..a4];
    assert x[..a5] == x[..a4] + x[a4..a5];
  }

  /** Words at..end of the file are a block framed by the writer's marker for `kind`. */
  ghost predicate Reframed(file: seq<Word>, at: nat, end: nat, kind: BlockKind, h: Header)
    requires Sane(h)
  {
    at + 2 <= end <= |file| && file[at..end] == Frame(Marker(kind, h), file[at + 1..end - 1])
  }

  /** One block that passed the reader, framed again by the writer's marker. */
  lemma {:induction false} BlockReframed(file: seq<Word>, at: nat, end: nat, len: nat, kind: BlockKind, h: Header)
    requires Sane(h) && end == at + len + 2 && ReadBlock(file, at, len, kind, h).Success?
    ensures Reframed(file, at, end, kind, h)
  {
    ReadBlockFramed(file, at, len, kind, h);
  }

  /** The header block of a file that passed the reader, written back out:
      the same words. */
  lemma {:induction false} HeaderReframed(file: seq<Word>, h: Header)
    requires Sane(h) && PosAt <= |file| && h == DecodeHeader(file[1..HeaderWords + 1])
    requires ReadBlock(file, 0, HeaderWords, HeaderBlock, h).Success?
    ensures file[0..PosAt] == Frame(Marker(HeaderBlock, h), EncodeHeader(h))
  {
    ReadBlockFramed(file, 0, HeaderWords, HeaderBlock, h);
    EncodeDecodeHeader(file[1..HeaderWords + 1]);
  }

  /** The particle blocks of a file that passed the reader, each written
      back out as the writer frames it: the same words. */
  lemma {:induction false} BlocksReframed(file: seq<Word>, h: Header)
    requires Sane(h) && 0 <= MassCount(h) <= Total(h) && ReadEnd(h) <= |file|
    requires ReadBlock(file, PosAt, 3 * Total(h), PosBlock, h).Success?
    requires ReadBlock(file, VelAt(h), 3 * Total(h), VelBlock, h).Success?
    requires ReadBlock(file, IdsAt(h), Total(h), IdsBlock, h).Success?
    ensures Reframed(file, PosAt, VelAt(h), PosBlock, h)
    ensures Reframed(file, VelAt(h), IdsAt(h), VelBlock, h)
    ensures Reframed(file, IdsAt(h), MassAt(h), IdsBlock, h)
  {
    BlockReframed(file, PosAt, VelAt(h), 3 * Total(h), PosBlock, h);
    BlockReframed(file, VelAt(h), IdsAt(h), 3 * Total(h), VelBlock, h);
    BlockReframed(file, IdsAt(h), MassAt(h), Total(h), IdsBlock, h);
  }

  /** The Mass block of a file that passed the reader, written back out:
      the same words, and nothing when the block is absent. */
  lemma {:induction false} MassReframed(file: seq<Word>, h: Header)
    requires Sane(h) && 0 <= MassCount(h) <= Total(h) && ReadEnd(h) <= |file|
    requires MassCount(h) > 0 ==> ReadBlock(file, MassAt(h), MassCount(h), MassBlock, h).Success?
    ensures file[MassAt(h)..ReadEnd(h)] ==
      if MassCount(h) > 0 then Frame(Marker(MassBlock, h), MassWords(file, h)) else []
  {
    if MassCount(h) > 0 {
      BlockReframed(file, MassAt(h), ReadEnd(h), MassCount(h), MassBlock, h);
    }
  }

  /** A file whose blocks up to the end of the Mass block are those the
      writer frames for header h and table t is, with the U block appended,
      what the writer writes. */
  lemma {:induction false} RewrittenFile(file: seq<Word>, h: Header, t: seq<Particle>)
    requires Sane(h) && |t| == Total(h) && 0 <= MassCount(h) <= Total(h) && ReadEnd(h) <= |file|
    requires file[0..PosAt] == Frame(Marker(HeaderBlock, h), EncodeHeader(h))
    requires file[PosAt..VelAt(h)] == Frame(Marker(PosBlock, h), Positions(t))
    requires file[VelAt(h)..IdsAt(h)] == Frame(Marker(VelBlock, h), Velocities(t))
    requires file[IdsAt(h)..MassAt(h)] == Frame(Marker(IdsBlock, h), Ids(t))
    requires file[MassAt(h)..ReadEnd(h)] ==
      if MassCount(h) > 0 then Frame(Marker(MassBlock, h), StoredMasses(h, t)) else []
    ensures EncodeSnapshot(h, t) == file[..ReadEnd(h)] + Frame(Marker(UBlock, h), Zeros(h.npart[0] as nat))
  {
    assert t[..Total(h)] == t;
    FiveSlices(file, PosAt, VelAt(h), IdsAt(h), MassAt(h), ReadEnd(h));
  }

  /** A file whose blocks passed the reader, with the table assembled from
      their payloads, is what the writer writes for them, up to the U block. */
  lemma {:induction false} CheckedBlocksRewritten(file: seq<Word>, h: Header, t: seq<Particle>, narrow: Double -> Word)
    requires BlocksRead(file, h, t, narrow)
    ensures Total(h) <= |t|
    ensures EncodeSnapshot(h, t) == file[..ReadEnd(h)] + Frame(Marker(UBlock, h), Zeros(h.npart[0] as nat))
  {
    HeaderReframed(file, h);
    BlocksReframed(file, h);
    MassReframed(file, h);
    TableEncodes(h, file[PosAt + 1..VelAt(h) - 1], file[VelAt(h) + 1..IdsAt(h) - 1],
                 file[IdsAt(h) + 1..MassAt(h) - 1], MassWords(file, h), narrow);
    RewrittenFile(file, h, t);
  }

  /** Writing back a snapshot that was read, under its own header,
      reproduces the file word for word up to the end of the Mass block
      (or of the Id block), followed by the U block. */
  lemma {:induction false} RewriteBytes(file: seq<Word>, narrow: Double -> Word, s: Snapshot)
    requires ParseSnapshot(file, narrow) == Success(s)
    ensures Sane(s.header) && Total(s.header) <= |s.table| && ReadEnd(s.header) <= |file|
    ensures EncodeSnapshot(s.header, s.table) ==
      file[..ReadEnd(s.header)] + Frame(Marker(UBlock, s.header), Zeros(s.header.npart[0] as nat))
  {
    ParsedBlocks(file, narrow, s);
    CheckedBlocksRewritten(file, s.header, s.table, narrow);
  }

  /** A record with type 1 relabelled as type 0. */
  function AsGas(p: Particle): Particle
  {
    if p.ptype == 1 then p.(ptype := 0) else p
  }

  /** The table with every type 1 record relabelled as type 0. */
  function AsGasTable(t: seq<Particle>): (g: seq<Particle>)
    ensures |g| == |t| && forall i :: 0 <= i < |t| ==> g[i] == AsGas(t[i])
  {
    seq(|t|, i requires 0 <= i < |t| => AsGas(t[i]))
  }

  /** A record in read form under h, seen under the reclassified header,
      is the same record relabelled. */
  lemma {:induction false} ConvertedRecord(h: Header, p: Particle, narrow: Double -> Word, i: int)
    requires Sane(h) && h.npart[0] == 0 && 0 <= i < Total(h) && p == NormalRecord(h, p, narrow, i)
    ensures Sane(Reclassify(h)) && Total(Reclassify(h)) == Total(h)
    ensures NormalRecord(Reclassify(h), p, narrow, i) == AsGas(p)
  {
    var r := Reclassify(h);
    ReclassifyTypeAt(h, i);
    var k := TypeAt(h, i);
    assert k != 0 by {
      TypeAtIff(h, i, 0);
      assert Start(h, 1) == 0;
    }
    assert r.mass[TypeAt(r, i)] == h.mass[k];
  }

  /** A table in read form under h, seen under the reclassified header, is
      the relabelled table. */
  lemma {:induction false} ConvertedTable(h: Header, t: seq<Particle>, narrow: Double -> Word)
    requires Sane(h) && h.npart[0] == 0 && |t| == Total(h) && Normalize(h, t, narrow) == t
    ensures Sane(Reclassify(h)) && Total(Reclassify(h)) == |t|
    ensures Normalize(Reclassify(h), t, narrow) == AsGasTable(t)
  {
    var r := Reclassify(h);
    ReclassifySane(h);
    ReclassifyTotal(h);
    forall i | 0 <= i < |t| ensures Normalize(r, t, narrow)[i] == AsGasTable(t)[i] {
      assert t[i] == NormalRecord(h, t[i], narrow, i);
      ConvertedRecord(h, t[i], narrow, i);
    }
  }

  /** The purpose of `fake_gas`: for a snapshot without gas, the converted
      file reads back as the same records with dark matter relabelled as gas,
      and nothing else changed. */
  lemma {:induction false} ConvertedReadsBack(file: seq<Word>, narrow: Double -> Word, s: Snapshot)
    requires ParseSnapshot(file, narrow) == Success(s) && s.header.npart[0] == 0
    ensures Sane(Reclassify(s.header)) && Total(Reclassify(s.header)) == |s.table|
    ensures ParseSnapshot(EncodeSnapshot(Reclassify(s.header), s.table), narrow) ==
      Success(Snapshot(Reclassify(s.header), AsGasTable(s.table)))
  {
    ParsedIsNormal(file, narrow, s);
    ParsedTable(file, narrow, s);
    ConvertedTable(s.header, s.table, narrow);
    ReadBackWritten(Reclassify(s.header), s.table, narrow);
  }

  /** Reading looks no further than the end of the Mass block (or of the Id
      block): whatever follows, such as the U block `fake_gas` appends, does
      not change the result. */
  lemma {:induction false} ParseIgnoresTail(file: seq<Word>, e: nat, narrow: Double -> Word, s: Snapshot)
    requires ParseSnapshot(file, narrow) == Success(s) && ReadEnd(s.header) <= e <= |file|
    ensures ParseSnapshot(file[..e], narrow) == Success(s)
  {
    ParsedTable(file, narrow, s);
    var h := s.header;
    var f := file[..e];
    assert PosAt <= ReadEnd(h) <= e;
    forall j | 1 <= j < HeaderWords + 1 ensures f[j] == file[j] {
    }
    assert f[1..HeaderWords + 1] == file[1..HeaderWords + 1];
    ReadBlockPrefix(file, e, 0, HeaderWords, HeaderBlock, h);
    BodyIgnoresTail(file, e, h, narrow);
  }

  /** The particle blocks are read from the words before the end of the
      Mass block only. */
  lemma {:induction false} BodyIgnoresTail(file: seq<Word>, e: nat, h: Header, narrow: Double -> Word)
    requires Sane(h) && 0 <= MassCount(h) <= Total(h) && ReadEnd(h) <= e <= |file|
    ensures ParseBody(file[..e], h, narrow) == ParseBody(file, h, narrow)
  {
    ReadBlockPrefix(file, e, PosAt, 3 * Total(h), PosBlock, h);
    ReadBlockPrefix(file, e, VelAt(h), 3 * Total(h), VelBlock, h);
    ReadBlockPrefix(file, e, IdsAt(h), Total(h), IdsBlock, h);
    if MassCount(h) > 0 {
      ReadBlockPrefix(file, e, MassAt(h), MassCount(h), MassBlock, h);
    }
  }
}
