/** The header mutation in `fake_gas`: type 1 (dark matter) takes the place
    of type 0 (gas) in the counts and the fixed masses. The code overwrites
    the type 0 entries; it does not add to them. */
module Transform {
  import opened Words
  import opened IoHeader
  import opened Layout

  /** `m_header` after the six assignments that precede the writes. */
  function Reclassify(h: Header): (r: Header)
    ensures r.npart[0] == h.npart[1] && r.npart[1] == 0
    ensures r.npartTotal[0] == h.npartTotal[1] && r.npartTotal[1] == 0
    ensures r.mass[0] == h.mass[1] && r.mass[1] == ZeroDouble
    ensures forall k :: 2 <= k < NumTypes ==>
      r.npart[k] == h.npart[k] && r.npartTotal[k] == h.npartTotal[k] && r.mass[k] == h.mass[k]
    ensures r.(npart := h.npart, npartTotal := h.npartTotal, mass := h.mass) == h
  {
    h.(npart := h.npart[0 := h.npart[1]][1 := 0],
       npartTotal := h.npartTotal[0 := h.npartTotal[1]][1 := 0],
       mass := h.mass[0 := h.mass[1]][1 := ZeroDouble])
  }

  /** The old type 0 records drop out of the count. */
  lemma {:induction false} ReclassifyTotal(h: Header)
    ensures Total(Reclassify(h)) == Total(h) - h.npart[0]
  {
    var r := Reclassify(h);
    assert Start(r, 1) == h.npart[1] && Start(h, 1) == h.npart[0];
    assert Start(r, 2) == Start(h, 2) - h.npart[0];
    assert Start(r, 3) == Start(h, 3) - h.npart[0];
    assert Start(r, 4) == Start(h, 4) - h.npart[0];
    assert Start(r, 5) == Start(h, 5) - h.npart[0];
  }

  /** Sane counts stay sane. */
  lemma {:induction false} ReclassifySane(h: Header)
    requires Sane(h)
    ensures Sane(Reclassify(h))
    ensures 0 <= Total(Reclassify(h)) <= Total(h)
  {
    ReclassifyTotal(h);
    StartMono(h, 0, 1);
  }

  /** `nwithmass` loses the old type 0 records when their masses were stored. */
  lemma {:induction false} ReclassifyMassCount(h: Header)
    ensures MassCount(Reclassify(h)) == MassCount(h) - (if IsZero(h.mass[0]) then h.npart[0] else 0)
  {
    var r := Reclassify(h);
    var d := if IsZero(h.mass[0]) then h.npart[0] else 0;
    assert IsZero(r.mass[1]);
    assert MassPrefix(r, 1) == if IsZero(h.mass[1]) then h.npart[1] else 0;
    assert MassPrefix(h, 1) == d;
    assert MassPrefix(r, 2) == MassPrefix(h, 2) - d;
    assert MassPrefix(r, 3) == MassPrefix(h, 3) - d;
    assert MassPrefix(r, 4) == MassPrefix(h, 4) - d;
    assert MassPrefix(r, 5) == MassPrefix(h, 5) - d;
  }

  /** Running the mutation on its own result changes the header unless
      that result has no gas (type 0 count zero and mass exactly +0.0): the
      operation is not idempotent. A second run removes the converted gas
      from the counts, and the records it writes are those of types 2..5 in
      number. */
  lemma {:induction false} ReclassifyTwice(h: Header)
    ensures Reclassify(Reclassify(h)) == Reclassify(h) <==>
      h.npart[1] == 0 && h.npartTotal[1] == 0 && h.mass[1] == ZeroDouble
    ensures Reclassify(Reclassify(h)).npart[0] == 0
    ensures Total(Reclassify(Reclassify(h))) == Total(h) - h.npart[0] - h.npart[1]
  {
    var r := Reclassify(h);
    ReclassifyTotal(h);
    ReclassifyTotal(r);
    var rr := Reclassify(r);
    if h.npart[1] == 0 && h.npartTotal[1] == 0 && h.mass[1] == ZeroDouble {
      assert rr.npart == r.npart;
      assert rr.npartTotal == r.npartTotal;
      assert rr.mass == r.mass;
    } else {
      assert rr.npart[0] != r.npart[0] || rr.npartTotal[0] != r.npartTotal[0] || rr.mass[0] != r.mass[0];
    }
  }

  /** With no old gas the table layout is unchanged except that bucket 1
      is now bucket 0. */
  lemma {:induction false} ReclassifyStart(h: Header, k: nat)
    requires h.npart[0] == 0 && k <= NumTypes
    ensures Start(Reclassify(h), k) == if k == 1 then Start(h, 2) else Start(h, k)
  {
    var r := Reclassify(h);
    assert Start(r, 1) == h.npart[1] && Start(h, 1) == 0;
    if k > 2 {
      ReclassifyStart(h, k - 1);
      assert Start(r, k) == Start(r, k - 1) + r.npart[k - 1];
    }
  }

  /** With no old gas, the record at index i is relabelled from type 1 to
      type 0 and keeps any other type. */
  lemma {:induction false} ReclassifyTypeAt(h: Header, i: int)
    requires Sane(h) && h.npart[0] == 0 && 0 <= i < Total(h)
    ensures Sane(Reclassify(h)) && Total(Reclassify(h)) == Total(h)
    ensures TypeAt(Reclassify(h), i) == if TypeAt(h, i) == 1 then 0 else TypeAt(h, i)
  {
    var r := Reclassify(h);
    ReclassifySane(h);
    ReclassifyTotal(h);
    var k := TypeAt(h, i);
    var k' := if k == 1 then 0 else k;
    ReclassifyStart(h, k');
    ReclassifyStart(h, k' + 1);
    ReclassifyStart(h, NumTypes);
    TypeAtIff(r, i, k');
  }
}
