/** How the header's per-type counts lay the particle table out: records
    are grouped by type 0..5, type k occupying [Start(h, k), Start(h, k+1)). */
module Layout {
  import opened Words
  import opened IoHeader

  /** Number of records of types below k (the running `pc_new` at bucket k). */
  function Start(h: Header, k: nat): int
    requires k <= NumTypes
  {
    if k == 0 then 0 else Start(h, k - 1) + h.npart[k - 1]
  }

  /** `NumPart`: the sum of `npart`. */
  function Total(h: Header): int
  {
    Start(h, NumTypes)
  }

  /** `NumPart` written out as the six-term sum of the source. */
  lemma {:induction false} TotalIsSum(h: Header)
    ensures Total(h) == h.npart[0] as int + h.npart[1] + h.npart[2] + h.npart[3] + h.npart[4] + h.npart[5]
  {
    assert Start(h, 1) == h.npart[0];
    assert Start(h, 3) == h.npart[0] as int + h.npart[1] + h.npart[2];
    assert Start(h, 5) == h.npart[0] as int + h.npart[1] + h.npart[2] + h.npart[3] + h.npart[4];
  }

  /** The `nwithmass` sum over types below k: counts of the types whose
      header mass is zero, i.e. whose masses are stored per particle. */
  function MassPrefix(h: Header, k: nat): int
    requires k <= NumTypes
  {
    if k == 0 then 0 else MassPrefix(h, k - 1) + (if IsZero(h.mass[k - 1]) then h.npart[k - 1] else 0)
  }

  /** `nwithmass` */
  function MassCount(h: Header): int
  {
    MassPrefix(h, NumTypes)
  }

  /** Counts the model accepts: none negative, and the largest block size
      12 * NumPart representable as a C `int`. */
  predicate Sane(h: Header)
  {
    (forall k :: 0 <= k < NumTypes ==> h.npart[k] >= 0) && 12 * Total(h) <= MaxInt
  }

  lemma {:induction false} StartLe(h: Header, a: nat, b: nat)
    requires Sane(h) && a <= b <= NumTypes
    ensures Start(h, a) <= Start(h, b)
    decreases b
  {
    if a < b {
      StartLe(h, a, b - 1);
    }
  }

  lemma {:induction false} StartMono(h: Header, a: nat, b: nat)
    requires Sane(h) && a <= b <= NumTypes
    ensures 0 <= Start(h, a) <= Start(h, b) <= Total(h)
  {
    StartLe(h, 0, a);
    StartLe(h, a, b);
    StartLe(h, b, NumTypes);
  }

  lemma {:induction false} MassPrefixBounds(h: Header, k: nat)
    requires Sane(h) && k <= NumTypes
    ensures 0 <= MassPrefix(h, k) <= Start(h, k)
  {
    if k > 0 {
      MassPrefixBounds(h, k - 1);
    }
  }

  lemma {:induction false} MassPrefixMono(h: Header, k: nat)
    requires Sane(h) && k <= NumTypes
    ensures MassPrefix(h, k) <= MassCount(h)
    decreases NumTypes - k
  {
    if k < NumTypes {
      MassPrefixMono(h, k + 1);
    }
  }

  lemma {:induction false} MassCountBounds(h: Header)
    requires Sane(h)
    ensures 0 <= MassCount(h) <= Total(h)
  {
    MassPrefixBounds(h, NumTypes);
  }

  /** Some bucket holds index i: the first k whose end lies beyond i. */
  lemma {:induction false} BucketExists(h: Header, i: int, k: nat)
    requires Sane(h) && k < NumTypes && Start(h, k) <= i < Total(h)
    ensures exists r :: k <= r < NumTypes && Start(h, r) <= i < Start(h, r + 1)
    decreases NumTypes - k
  {
    if i >= Start(h, k + 1) {
      BucketExists(h, i, k + 1);
    }
  }

  /** The type of the record at table index i: the outer loop index `k`
      under which the reader visits it. */
  ghost function TypeAt(h: Header, i: int): (k: nat)
    requires Sane(h) && 0 <= i < Total(h)
    ensures k < NumTypes && Start(h, k) <= i < Start(h, k + 1)
  {
    BucketExists(h, i, 0);
    var k :| 0 <= k < NumTypes && Start(h, k) <= i < Start(h, k + 1);
    k
  }

  /** A record lies in bucket k exactly when its type is k. */
  lemma {:induction false} TypeAtIff(h: Header, i: int, k: nat)
    requires Sane(h) && 0 <= i < Total(h) && k < NumTypes
    ensures TypeAt(h, i) == k <==> Start(h, k) <= i < Start(h, k + 1)
  {
    var r := TypeAt(h, i);
    if r < k {
      StartMono(h, r + 1, k);
    } else if k < r {
      StartMono(h, k + 1, r);
    }
  }

  /** Types never decrease along the table. */
  lemma {:induction false} TypeAtMono(h: Header, i: int, j: int)
    requires Sane(h) && 0 <= i <= j < Total(h)
    ensures TypeAt(h, i) <= TypeAt(h, j)
  {
    var a, b := TypeAt(h, i), TypeAt(h, j);
    if b < a {
      StartMono(h, b + 1, a);
    }
  }

  /** Where record i's word lies in the Mass block, for a record whose type
      stores its mass per particle: after the stored records of the earlier
      types and the earlier records of its own type. */
  ghost function MassBefore(h: Header, i: int): int
    requires Sane(h) && 0 <= i < Total(h)
  {
    var k := TypeAt(h, i);
    MassPrefix(h, k) + (i - Start(h, k))
  }

  /** The mass word of record n of bucket k. */
  lemma {:induction false} MassBeforeAt(h: Header, k: nat, n: int)
    requires Sane(h) && k < NumTypes && 0 <= n < h.npart[k]
    ensures 0 <= Start(h, k) + n < Total(h)
    ensures MassBefore(h, Start(h, k) + n) == MassPrefix(h, k) + n
  {
    StartMono(h, k, k + 1);
    TypeAtIff(h, Start(h, k) + n, k);
  }

  lemma {:induction false} MassPrefixLe(h: Header, a: nat, b: nat)
    requires Sane(h) && a <= b <= NumTypes
    ensures MassPrefix(h, a) <= MassPrefix(h, b)
    decreases b
  {
    if a < b {
      MassPrefixLe(h, a, b - 1);
    }
  }

  /** A record whose mass is stored has its own word of the Mass block. */
  lemma {:induction false} MassBeforeBound(h: Header, i: int)
    requires Sane(h) && 0 <= i < Total(h) && IsZero(h.mass[TypeAt(h, i)])
    ensures 0 <= MassBefore(h, i) < MassCount(h)
  {
    var k := TypeAt(h, i);
    MassPrefixBounds(h, k);
    MassPrefixLe(h, k + 1, NumTypes);
  }

  /** The number of records before index m whose type stores its mass per
      particle, counted one record at a time. */
  ghost function StoredBefore(h: Header, m: int): (r: nat)
    requires Sane(h) && 0 <= m <= Total(h)
  {
    if m == 0 then 0
    else StoredBefore(h, m - 1) + (if IsZero(h.mass[TypeAt(h, m - 1)]) then 1 else 0)
  }

  /** Within bucket k the count grows by one per record exactly when type k
      stores its masses. */
  lemma {:induction false} StoredBeforeInBucket(h: Header, k: nat, n: int)
    requires Sane(h) && k < NumTypes && 0 <= n <= h.npart[k]
    requires 0 <= Start(h, k) && Start(h, k) + h.npart[k] <= Total(h)
    ensures StoredBefore(h, Start(h, k) + n) ==
      StoredBefore(h, Start(h, k)) + (if IsZero(h.mass[k]) then n else 0)
  {
    if n > 0 {
      StoredBeforeInBucket(h, k, n - 1);
      TypeAtIff(h, Start(h, k) + n - 1, k);
    }
  }

  /** Counting stored records one at a time up to the start of bucket k
      gives the `nwithmass` prefix. */
  lemma {:induction false} StoredBeforeStart(h: Header, k: nat)
    requires Sane(h) && k <= NumTypes
    ensures 0 <= Start(h, k) <= Total(h)
    ensures StoredBefore(h, Start(h, k)) == MassPrefix(h, k)
  {
    StartMono(h, k, NumTypes);
    if k > 0 {
      StoredBeforeStart(h, k - 1);
      StoredBeforeInBucket(h, k - 1, h.npart[k - 1]);
    }
  }

  /** The closed-form word index is the per-record count: the Mass block
      holds the stored masses in table order, with no gaps. */
  lemma {:induction false} MassBeforeCounts(h: Header, i: int)
    requires Sane(h) && 0 <= i < Total(h) && IsZero(h.mass[TypeAt(h, i)])
    ensures MassBefore(h, i) == StoredBefore(h, i)
  {
    var k := TypeAt(h, i);
    StartMono(h, k, k + 1);
    StoredBeforeStart(h, k);
    StoredBeforeInBucket(h, k, i - Start(h, k));
  }

  /** Over the whole table the count is `nwithmass`. */
  lemma {:induction false} StoredBeforeTotal(h: Header)
    requires Sane(h)
    ensures 0 <= Total(h) && StoredBefore(h, Total(h)) == MassCount(h)
  {
    StoredBeforeStart(h, NumTypes);
  }
}
