/** The writing half of `fake_gas`: the header mutation, then the header,
    Position, Velocity, Id, optional Mass and synthesized U blocks, each
    framed by its size marker, appended to the output file. */
module Writer {
  import opened Words
  import opened IoHeader
  import opened Layout
  import opened Blocks
  import opened Snapshot
  import opened Transform
  import opened Naming
  import opened Streams

  /** The Position payload of a run of records: three floats each, in order. */
  ghost function Positions(t: seq<Particle>): (ws: seq<Word>)
    ensures |ws| == 3 * |t|
  {
    if t == [] then [] else Positions(t[..|t| - 1]) + t[|t| - 1].pos
  }

  ghost function Velocities(t: seq<Particle>): (ws: seq<Word>)
    ensures |ws| == 3 * |t|
  {
    if t == [] then [] else Velocities(t[..|t| - 1]) + t[|t| - 1].vel
  }

  ghost function Ids(t: seq<Particle>): (ws: seq<Word>)
    ensures |ws| == |t|
  {
    if t == [] then [] else Ids(t[..|t| - 1]) + [FromInt32(t[|t| - 1].id)]
  }

  /** The Mass payload of the first |t| records under header h: the masses
      of the records whose type has a zero header mass, in table order. */
  ghost function StoredMasses(h: Header, t: seq<Particle>): (ws: seq<Word>)
    requires Sane(h) && |t| <= Total(h)
    ensures |ws| == StoredBefore(h, |t|)
  {
    if t == [] then []
    else
      StoredMasses(h, t[..|t| - 1])
      + (if IsZero(h.mass[TypeAt(h, |t| - 1)]) then [t[|t| - 1].mass] else [])
  }

  lemma {:induction false} PositionsStep(t: seq<Particle>, i: nat)
    requires i < |t|
    ensures Positions(t[..i + 1]) == Positions(t[..i]) + t[i].pos
  {
    assert t[..i + 1][..i] == t[..i];
  }

  lemma {:induction false} VelocitiesStep(t: seq<Particle>, i: nat)
    requires i < |t|
    ensures Velocities(t[..i + 1]) == Velocities(t[..i]) + t[i].vel
  {
    assert t[..i + 1][..i] == t[..i];
  }

  lemma {:induction false} IdsStep(t: seq<Particle>, i: nat)
    requires i < |t|
    ensures Ids(t[..i + 1]) == Ids(t[..i]) + [FromInt32(t[i].id)]
  {
    assert t[..i + 1][..i] == t[..i];
  }

  /** One record of bucket k adds its mass exactly when type k stores masses. */
  lemma {:induction false} StoredMassesStep(h: Header, t: seq<Particle>, k: nat, i: nat)
    requires Sane(h) && k < NumTypes && Start(h, k) <= i < Start(h, k + 1) && i < |t|
    ensures i + 1 <= Total(h)
    ensures StoredMasses(h, t[..i + 1]) ==
      StoredMasses(h, t[..i]) + (if IsZero(h.mass[k]) then [t[i].mass] else [])
  {
    StartMono(h, k + 1, NumTypes);
    TypeAtIff(h, i, k);
    assert t[..i + 1][..i] == t[..i];
  }

  /** The U payload: `npart[0]` floats 0.0. */
  function Zeros(n: nat): (ws: seq<Word>)
    ensures |ws| == n && forall i :: 0 <= i < n ==> ws[i] == ZeroFloat
  {
    seq(n, _ => ZeroFloat)
  }

  /** The marker of block `kind` under sane counts, as a C `int`. */
  function Marker(kind: BlockKind, h: Header): (m: Int32)
    requires Sane(h)
    ensures m as int == BlockSize(kind, h)
  {
    BlockSizeShape(kind, h);
    BlockSize(kind, h) as Int32
  }

  /** The file `fake_gas` writes for header h (already mutated) and table t:
      the first NumPart records of t, by position. */
  ghost function EncodeSnapshot(h: Header, t: seq<Particle>): seq<Word>
    requires Sane(h) && Total(h) <= |t|
  {
    StartMono(h, 0, NumTypes);
    var u := t[..Total(h)];
    Frame(Marker(HeaderBlock, h), EncodeHeader(h))
    + Frame(Marker(PosBlock, h), Positions(u))
    + Frame(Marker(VelBlock, h), Velocities(u))
    + Frame(Marker(IdsBlock, h), Ids(u))
    + (if MassCount(h) > 0 then Frame(Marker(MassBlock, h), StoredMasses(h, u)) else [])
    + Frame(Marker(UBlock, h), Zeros(h.npart[0] as nat))
  }

  /** Marker, payload, marker appended one after the other make one frame. */
  lemma {:induction false} FramedAfter(w: seq<Word>, size: Int32, p: seq<Word>)
    ensures w + [FromInt32(size)] + p + [FromInt32(size)] == w + Frame(size, p)
  {
  }

  /** Appending two pieces one after the other is appending them joined. */
  lemma {:induction false} Assoc(a: seq<Word>, b: seq<Word>, c: seq<Word>)
    ensures a + b + c == a + (b + c)
  {
  }

  /** One size marker. */
  method WriteMarker(fd: OutStream, blksize: Int32)
    modifies fd
    ensures fd.written == old(fd.written) + [FromInt32(blksize)]
  {
    fd.Write([FromInt32(blksize)]);
  }

  /** The inner Position loop over `count` records from table index `first`. */
  method WriteBucketPositions(fd: OutStream, P: array<Particle>, first: nat, count: nat, ghost w0: seq<Word>)
    requires first + count <= P.Length && fd.written == w0 + Positions(P[..first])
    modifies fd
    ensures fd.written == w0 + Positions(P[..first + count])
  {
    for n := 0 to count
      invariant fd.written == w0 + Positions(P[..first + n])
    {
      PositionsStep(P[..], first + n);
      assert P[..][..first + n] == P[..first + n] && P[..][..first + n + 1] == P[..first + n + 1];
      Assoc(w0, Positions(P[..first + n]), P[first + n].pos);
      fd.Write(P[first + n].pos);
    }
  }

  method WriteBucketVelocities(fd: OutStream, P: array<Particle>, first: nat, count: nat, ghost w0: seq<Word>)
    requires first + count <= P.Length && fd.written == w0 + Velocities(P[..first])
    modifies fd
    ensures fd.written == w0 + Velocities(P[..first + count])
  {
    for n := 0 to count
      invariant fd.written == w0 + Velocities(P[..first + n])
    {
      VelocitiesStep(P[..], first + n);
      assert P[..][..first + n] == P[..first + n] && P[..][..first + n + 1] == P[..first + n + 1];
      Assoc(w0, Velocities(P[..first + n]), P[first + n].vel);
      fd.Write(P[first + n].vel);
    }
  }

  method WriteBucketIds(fd: OutStream, P: array<Particle>, first: nat, count: nat, ghost w0: seq<Word>)
    requires first + count <= P.Length && fd.written == w0 + Ids(P[..first])
    modifies fd
    ensures fd.written == w0 + Ids(P[..first + count])
  {
    for n := 0 to count
      invariant fd.written == w0 + Ids(P[..first + n])
    {
      IdsStep(P[..], first + n);
      assert P[..][..first + n] == P[..first + n] && P[..][..first + n + 1] == P[..first + n + 1];
      Assoc(w0, Ids(P[..first + n]), [FromInt32(P[first + n].id)]);
      fd.Write([FromInt32(P[first + n].id)]);
    }
  }

  /** The inner Mass loop over bucket k: a mass is written only when the
      type's header mass is zero. */
  method WriteBucketMasses(fd: OutStream, h: Header, P: array<Particle>, k: nat, first: nat, ghost w0: seq<Word>)
    requires Sane(h) && k < NumTypes && Total(h) <= P.Length
    requires first == Start(h, k) && first + h.npart[k] <= Total(h)
    requires fd.written == w0 + StoredMasses(h, P[..first])
    modifies fd
    ensures fd.written == w0 + StoredMasses(h, P[..first + h.npart[k]])
  {
    for n: int := 0 to h.npart[k]
      invariant fd.written == w0 + StoredMasses(h, P[..first + n])
    {
      StoredMassesStep(h, P[..], k, first + n);
      assert P[..][..first + n] == P[..first + n] && P[..][..first + n + 1] == P[..first + n + 1];
      if IsZero(h.mass[k]) {
        Assoc(w0, StoredMasses(h, P[..first + n]), [P[first + n].mass]);
        fd.Write([P[first + n].mass]);
      }
    }
  }

  /** The Position loop over all six buckets of the mutated header. */
  method WritePositions(fd: OutStream, h: Header, P: array<Particle>)
    requires Sane(h) && 0 <= Total(h) <= P.Length
    modifies fd
    ensures fd.written == old(fd.written) + Positions(P[..Total(h)])
  {
    ghost var w0 := fd.written;
    var pc := 0;
    for k := 0 to NumTypes
      invariant 0 <= pc <= Total(h) && pc == Start(h, k)
      invariant fd.written == w0 + Positions(P[..pc])
    {
      StartMono(h, k + 1, NumTypes);
      WriteBucketPositions(fd, P, pc, h.npart[k], w0);
      pc := pc + h.npart[k];
    }
  }

  /** The Velocity loop over all six buckets of the mutated header. */
  method WriteVelocities(fd: OutStream, h: Header, P: array<Particle>)
    requires Sane(h) && 0 <= Total(h) <= P.Length
    modifies fd
    ensures fd.written == old(fd.written) + Velocities(P[..Total(h)])
  {
    ghost var w0 := fd.written;
    var pc := 0;
    for k := 0 to NumTypes
      invariant 0 <= pc <= Total(h) && pc == Start(h, k)
      invariant fd.written == w0 + Velocities(P[..pc])
    {
      StartMono(h, k + 1, NumTypes);
      WriteBucketVelocities(fd, P, pc, h.npart[k], w0);
      pc := pc + h.npart[k];
    }
  }

  /** The ID loop over all six buckets of the mutated header. */
  method WriteIds(fd: OutStream, h: Header, P: array<Particle>)
    requires Sane(h) && 0 <= Total(h) <= P.Length
    modifies fd
    ensures fd.written == old(fd.written) + Ids(P[..Total(h)])
  {
    ghost var w0 := fd.written;
    var pc := 0;
    for k := 0 to NumTypes
      invariant 0 <= pc <= Total(h) && pc == Start(h, k)
      invariant fd.written == w0 + Ids(P[..pc])
    {
      StartMono(h, k + 1, NumTypes);
      WriteBucketIds(fd, P, pc, h.npart[k], w0);
      pc := pc + h.npart[k];
    }
  }

  /** The Position block: the marker `fake_gas` computes, the Position loop
      over the mutated counts, the marker again. Returns the marker, which the
      Velocity block reuses. */
  method WritePosBlock(fd: OutStream, h: Header, P: array<Particle>) returns (blksize: Int32)
    requires Sane(h) && 0 <= Total(h) <= P.Length
    modifies fd
    ensures blksize == Marker(PosBlock, h) == Marker(VelBlock, h)
    ensures fd.written == old(fd.written) + Frame(blksize, Positions(P[..Total(h)]))
  {
    TotalIsSum(h);
    StartMono(h, 0, NumTypes);
    blksize := ((h.npart[0] as int + h.npart[1] + h.npart[2] + h.npart[3] + h.npart[4] + h.npart[5]) * 4 * 3) as Int32;
    WriteMarker(fd, blksize);
    WritePositions(fd, h, P);
    WriteMarker(fd, blksize);
    FramedAfter(old(fd.written), blksize, Positions(P[..Total(h)]));
  }

  method WriteVelBlock(fd: OutStream, h: Header, P: array<Particle>, blksize: Int32)
    requires Sane(h) && 0 <= Total(h) <= P.Length && blksize == Marker(VelBlock, h)
    modifies fd
    ensures fd.written == old(fd.written) + Frame(blksize, Velocities(P[..Total(h)]))
  {
    StartMono(h, 0, NumTypes);
    WriteMarker(fd, blksize);
    WriteVelocities(fd, h, P);
    WriteMarker(fd, blksize);
    FramedAfter(old(fd.written), blksize, Velocities(P[..Total(h)]));
  }

  method WriteIdsBlock(fd: OutStream, h: Header, P: array<Particle>) returns (blksize: Int32)
    requires Sane(h) && 0 <= Total(h) <= P.Length
    modifies fd
    ensures blksize == Marker(IdsBlock, h)
    ensures fd.written == old(fd.written) + Frame(blksize, Ids(P[..Total(h)]))
  {
    TotalIsSum(h);
    StartMono(h, 0, NumTypes);
    blksize := ((h.npart[0] as int + h.npart[1] + h.npart[2] + h.npart[3] + h.npart[4] + h.npart[5]) * 4) as Int32;
    WriteMarker(fd, blksize);
    WriteIds(fd, h, P);
    WriteMarker(fd, blksize);
    FramedAfter(old(fd.written), blksize, Ids(P[..Total(h)]));
  }

  /** The Mass loop over all six buckets of the mutated header. */
  method WriteMasses(fd: OutStream, h: Header, P: array<Particle>)
    requires Sane(h) && 0 <= Total(h) <= P.Length
    modifies fd
    ensures fd.written == old(fd.written) + StoredMasses(h, P[..Total(h)])
  {
    ghost var w0 := fd.written;
    var pc := 0;
    for k := 0 to NumTypes
      invariant 0 <= pc <= Total(h) && pc == Start(h, k)
      invariant fd.written == w0 + StoredMasses(h, P[..pc])
    {
      StartMono(h, k + 1, NumTypes);
      WriteBucketMasses(fd, h, P, k, pc, w0);
      pc := pc + h.npart[k];
    }
  }

  /** The Mass block: `nwithmass` summed again over the mutated header, the
      markers only when it is positive, the masses of stored types. With no
      stored masses the loop writes nothing. */
  method WriteMassBlock(fd: OutStream, h: Header, P: array<Particle>)
    requires Sane(h) && 0 <= Total(h) <= P.Length
    modifies fd
    ensures fd.written == old(fd.written) +
      if MassCount(h) > 0 then Frame(Marker(MassBlock, h), StoredMasses(h, P[..Total(h)])) else []
  {
    var nwithmass := 0;
    for i := 0 to NumTypes
      invariant nwithmass == MassPrefix(h, i)
    {
      if IsZero(h.mass[i]) {
        nwithmass := nwithmass + h.npart[i] as int;
      }
    }
    var size := nwithmass * 4;
    assert size == Marker(MassBlock, h) as int;
    var blksize := size as Int32;
    if nwithmass > 0 {
      WriteMarker(fd, blksize);
      WriteMasses(fd, h, P);
      WriteMarker(fd, blksize);
      FramedAfter(old(fd.written), blksize, StoredMasses(h, P[..Total(h)]));
    } else {
      StoredBeforeTotal(h);
      WriteMasses(fd, h, P);
    }
  }

  /** The U block: `npart[0]` zeros between two markers `4 * npart[0]`,
      written whether or not there are any gas records. */
  method WriteUBlock(fd: OutStream, h: Header)
    requires Sane(h)
    modifies fd
    ensures fd.written == old(fd.written) + Frame(Marker(UBlock, h), Zeros(h.npart[0] as nat))
  {
    var size := (h.npart[0] as int) * 4;
    assert size == Marker(UBlock, h) as int;
    var blksize := size as Int32;
    WriteMarker(fd, blksize);
    ghost var w0 := fd.written;
    for n: int := 0 to h.npart[0]
      invariant fd.written == w0 + Zeros(n)
    {
      fd.Write([ZeroFloat]);
      assert Zeros(n + 1) == Zeros(n) + [ZeroFloat];
    }
    WriteMarker(fd, blksize);
    FramedAfter(old(fd.written), blksize, Zeros(h.npart[0] as nat));
  }

  /** The writes of `fake_gas`, block after block, under the mutated header. */
  method WriteSnapshot(fd: OutStream, h: Header, P: array<Particle>)
    requires Sane(h) && 0 <= Total(h) <= P.Length
    modifies fd
    ensures fd.written == old(fd.written) + EncodeSnapshot(h, P[..])
  {
    ghost var u := P[..Total(h)];
    assert P[..][..Total(h)] == u;
    ghost var f0 := Frame(Marker(HeaderBlock, h), EncodeHeader(h));
    ghost var f1 := Frame(Marker(PosBlock, h), Positions(u));
    ghost var f2 := Frame(Marker(VelBlock, h), Velocities(u));
    ghost var f3 := Frame(Marker(IdsBlock, h), Ids(u));
    ghost var f4 := if MassCount(h) > 0 then Frame(Marker(MassBlock, h), StoredMasses(h, u)) else [];
    ghost var f5 := Frame(Marker(UBlock, h), Zeros(h.npart[0] as nat));
    ghost var w0 := fd.written;
    var blksize: Int32 := HeaderBytes as Int32;
    WriteMarker(fd, blksize);
    fd.Write(EncodeHeader(h));
    WriteMarker(fd, blksize);
    FramedAfter(w0, blksize, EncodeHeader(h));
    blksize := WritePosBlock(fd, h, P);
    WriteVelBlock(fd, h, P, blksize);
    blksize := WriteIdsBlock(fd, h, P);
    WriteMassBlock(fd, h, P);
    WriteUBlock(fd, h);
    assert fd.written == w0 + f0 + f1 + f2 + f3 + f4 + f5;
    Assoc(w0, f0, f1);
    Assoc(w0, f0 + f1, f2);
    Assoc(w0, f0 + f1 + f2, f3);
    Assoc(w0, f0 + f1 + f2 + f3, f4);
    Assoc(w0, f0 + f1 + f2 + f3 + f4, f5);
    assert EncodeSnapshot(h, P[..]) == f0 + f1 + f2 + f3 + f4 + f5;
  }

  /** `fake_gas`: derive the output name, mutate the header, and write the
      converted snapshot to a new file. The mutated header is returned; in
      the source it is the global `m_header`. */
  method FakeGas(filename: string, h: Header, P: array<Particle>)
    returns (newName: string, h2: Header, written: seq<Word>)
    requires OutputName(filename, h.numFiles).Some?
    requires Sane(Reclassify(h)) && Total(Reclassify(h)) <= P.Length
    ensures newName == OutputName(filename, h.numFiles).value
    ensures h2 == Reclassify(h)
    ensures written == EncodeSnapshot(h2, P[..])
  {
    newName := OutputName(filename, h.numFiles).value;
    var fd := new OutStream.Create();
    h2 := h;
    h2 := h2.(npart := h2.npart[0 := h2.npart[1]]);
    h2 := h2.(npartTotal := h2.npartTotal[0 := h2.npartTotal[1]]);
    h2 := h2.(npart := h2.npart[1 := 0]);
    h2 := h2.(npartTotal := h2.npartTotal[1 := 0]);
    h2 := h2.(mass := h2.mass[0 := h2.mass[1]]);
    h2 := h2.(mass := h2.mass[1 := ZeroDouble]);
    assert h2.npart == Reclassify(h).npart && h2.npartTotal == Reclassify(h).npartTotal;
    assert h2.mass == Reclassify(h).mass;
    StartMono(h2, 0, NumTypes);
    WriteSnapshot(fd, h2, P);
    written := fd.written;
  }
}
