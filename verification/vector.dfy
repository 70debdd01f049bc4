/**
 * Version vectors (lib/protocol/vector.go).
 *
 * A vector is a list of per-device counters kept strictly increasing by
 * device ID; a device that is not listed has counter 0. The Go type has
 * slice semantics and its operations may reuse the caller's storage; here a
 * vector is a value and every operation returns the new vector.
 */
module Vector {
  import opened Numbers

  /** One device's counter. */
  datatype Counter = Counter(id: uint64, value: uint64)

  /** A version vector: its counters, in storage order. */
  type Vector = seq<Counter>

  /** The representation invariant: IDs strictly increase, so each device appears at most once. */
  predicate Valid(v: Vector) {
    forall i, j :: 0 <= i < j < |v| ==> v[i].id < v[j].id
  }

  /** The devices that have a counter in `v`. */
  function Ids(v: Vector): set<uint64> {
    if v == [] then {} else {v[0].id} + Ids(v[1..])
  }

  /** A device is in `Ids(v)` exactly when some stored counter carries its ID. */
  lemma {:induction false} IdsAt(v: Vector, id: uint64)
    ensures id in Ids(v) <==> exists k :: 0 <= k < |v| && v[k].id == id
  {
    if v != [] {
      IdsAt(v[1..], id);
      if id in Ids(v[1..]) {
        var k :| 0 <= k < |v[1..]| && v[1..][k].id == id;
        assert v[k + 1].id == id;
      }
      if id != v[0].id && exists k :: 0 <= k < |v| && v[k].id == id {
        var k :| 0 <= k < |v| && v[k].id == id;
        assert v[1..][k - 1].id == id;
      }
    }
  }

  /**
   * The counter of device `id` as a function of the vector: the value stored
   * in the first counter with that ID, and 0 when there is none.
   */
  function Lookup(v: Vector, id: uint64): (r: uint64)
    ensures id !in Ids(v) ==> r == 0
  {
    if v == [] then 0
    else if v[0].id == id then v[0].value
    else Lookup(v[1..], id)
  }

  /** In a valid vector, every stored counter is the value `Lookup` reports for its device. */
  lemma {:induction false} LookupAt(v: Vector, k: nat)
    requires Valid(v) && k < |v|
    ensures Lookup(v, v[k].id) == v[k].value
  {
    if k > 0 {
      LookupAt(v[1..], k - 1);
    }
  }

  /** A device whose ID is below the head of a valid vector is absent from it. */
  lemma BelowHeadAbsent(v: Vector, id: uint64)
    requires Valid(v) && v != [] && id < v[0].id
    ensures id !in Ids(v) && Lookup(v, id) == 0
  {
    IdsAt(v, id);
  }

  /** `a` and `b` agree on the counter of every device other than `id`. */
  ghost predicate AgreeExcept(a: Vector, b: Vector, id: uint64) {
    forall other :: other != id ==> Lookup(a, other) == Lookup(b, other)
  }

  /** Prepending a counter whose ID is below every ID of a valid vector keeps it valid. */
  lemma ConsValid(c: Counter, s: Vector)
    requires Valid(s)
    requires forall x :: x in Ids(s) ==> c.id < x
    ensures Valid([c] + s)
  {
    forall j | 0 <= j < |s| ensures c.id < s[j].id {
      IdsAt(s, s[j].id);
    }
  }

  /** Every ID in the tail of a valid vector is above its head's ID. */
  lemma TailAboveHead(v: Vector)
    requires Valid(v) && v != []
    ensures forall x :: x in Ids(v[1..]) ==> v[0].id < x
  {
    forall x | x in Ids(v[1..]) ensures v[0].id < x {
      IdsAt(v[1..], x);
      var k :| 0 <= k < |v[1..]| && v[1..][k].id == x;
      assert v[k + 1].id == x;
    }
  }

  // ---------------------------------------------------------------------
  // Update
  // ---------------------------------------------------------------------

  /**
   * The vector that `Update` returns: the counter of `id` goes up by one
   * (Go's `Value++`, which wraps at 2^64), or a counter `(id, 1)` is inserted
   * before the first larger ID, or appended when there is none.
   */
  function Incremented(v: Vector, id: uint64): Vector
  {
    if v == [] then [Counter(id, 1)]
    else if v[0].id == id then [Counter(id, Increment(v[0].value))] + v[1..]
    else if v[0].id > id then [Counter(id, 1)] + v
    else [v[0]] + Incremented(v[1..], id)
  }

  /** `Update` adds `id` to the devices of the vector and no other. */
  lemma {:induction false} IncrementedIds(v: Vector, id: uint64)
    ensures Ids(Incremented(v, id)) == Ids(v) + {id}
  {
    if v != [] {
      assert v == [v[0]] + v[1..];
      if v[0].id < id {
        IncrementedIds(v[1..], id);
      }
    }
  }

  /** `Update` keeps a valid vector valid; it grows by one exactly when `id` was absent. */
  lemma {:induction false} IncrementedValid(v: Vector, id: uint64)
    requires Valid(v)
    ensures Valid(Incremented(v, id))
    ensures |Incremented(v, id)| == if id in Ids(v) then |v| else |v| + 1
  {
    if v == [] {
    } else if v[0].id == id {
      TailAboveHead(v);
      ConsValid(Counter(id, Increment(v[0].value)), v[1..]);
    } else if v[0].id > id {
      BelowHeadAbsent(v, id);
      TailAboveHead(v);
      ConsValid(Counter(id, 1), v);
    } else {
      TailAboveHead(v);
      IncrementedValid(v[1..], id);
      IncrementedIds(v[1..], id);
      ConsValid(v[0], Incremented(v[1..], id));
    }
  }

  /**
   * In a valid vector, `Update` raises the counter of `id` by one (modulo
   * 2^64) and leaves every other device's counter as it was.
   */
  lemma {:induction false} IncrementedLookup(v: Vector, id: uint64, other: uint64)
    requires Valid(v)
    ensures Lookup(Incremented(v, id), id) == Increment(Lookup(v, id))
    ensures other != id ==> Lookup(Incremented(v, id), other) == Lookup(v, other)
  {
    if v == [] {
    } else if v[0].id == id {
    } else if v[0].id > id {
      BelowHeadAbsent(v, id);
    } else {
      IncrementedLookup(v[1..], id, other);
    }
  }

  /**
   * Go's `Update`: scans for `id`; increments it in place when found, copies
   * the vector with `(id, 1)` inserted before the first larger ID, or appends
   * `(id, 1)` at the end.
   */
  method Update(v: Vector, id: uint64) returns (r: Vector)
    ensures r == Incremented(v, id)
    ensures Ids(r) == Ids(v) + {id}
    ensures Valid(v) ==> Valid(r)
    ensures Valid(v) ==> Lookup(r, id) == Increment(Lookup(v, id))
    ensures Valid(v) ==> AgreeExcept(r, v, id)
  {
    for i := 0 to |v|
      invariant forall k :: 0 <= k < i ==> v[k].id < id
    {
      if v[i].id == id {
        // Update an existing counter.
        r := v[i := Counter(id, Increment(v[i].value))];
        IncrementedReplaces(v, id, i);
        UpdateFacts(v, id);
        return;
      } else if v[i].id > id {
        // Insert a new counter.
        r := v[..i] + [Counter(id, 1)] + v[i..];
        IncrementedInserts(v, id, i);
        UpdateFacts(v, id);
        return;
      }
    }
    // Append a new counter.
    r := v + [Counter(id, 1)];
    IncrementedInserts(v, id, |v|);
    assert v[..|v|] + [Counter(id, 1)] + v[|v|..] == r;
    UpdateFacts(v, id);
  }

  /** When every ID before `i` is below `id` and `v[i]` carries `id`, `Update` raises `v[i]` in place. */
  lemma {:induction false} IncrementedReplaces(v: Vector, id: uint64, i: nat)
    requires i < |v| && v[i].id == id
    requires forall k :: 0 <= k < i ==> v[k].id < id
    ensures Incremented(v, id) == v[i := Counter(id, Increment(v[i].value))]
  {
    if i == 0 {
      assert Incremented(v, id) == [Counter(id, Increment(v[0].value))] + v[1..];
    } else {
      IncrementedReplaces(v[1..], id, i - 1);
      assert Incremented(v, id) == [v[0]] + v[1..][i - 1 := Counter(id, Increment(v[i].value))];
    }
  }

  /**
   * When every ID before `i` is below `id` and `v[i]` (if any) is above it,
   * `Update` inserts `(id, 1)` at position `i`.
   */
  lemma {:induction false} IncrementedInserts(v: Vector, id: uint64, i: nat)
    requires i <= |v| && (i < |v| ==> v[i].id > id)
    requires forall k :: 0 <= k < i ==> v[k].id < id
    ensures Incremented(v, id) == v[..i] + [Counter(id, 1)] + v[i..]
  {
    if i == 0 {
      assert v[..0] == [] && v[0..] == v;
    } else {
      IncrementedInserts(v[1..], id, i - 1);
      assert v[1..][..i - 1] == v[1..i] && v[1..][i - 1..] == v[i..];
      assert v[..i] == [v[0]] + v[1..i];
    }
  }

  /** The facts about `Incremented` that `Update` promises, gathered for one call. */
  lemma UpdateFacts(v: Vector, id: uint64)
    ensures Ids(Incremented(v, id)) == Ids(v) + {id}
    ensures Valid(v) ==> Valid(Incremented(v, id))
    ensures Valid(v) ==> Lookup(Incremented(v, id), id) == Increment(Lookup(v, id))
    ensures Valid(v) ==> AgreeExcept(Incremented(v, id), v, id)
  {
    IncrementedIds(v, id);
    if Valid(v) {
      IncrementedValid(v, id);
      forall other ensures other != id ==> Lookup(Incremented(v, id), other) == Lookup(v, other) {
        IncrementedLookup(v, id, other);
      }
      IncrementedLookup(v, id, id);
    }
  }

  // ---------------------------------------------------------------------
  // Merge
  // ---------------------------------------------------------------------

  /**
   * The vector that `Merge` returns: the two counter lists merged by ID,
   * taking the larger value when both have a device.
   */
  function Merged(v: Vector, b: Vector): Vector
    decreases |v| + |b|
  {
    if b == [] then v
    else if v == [] then b
    else if v[0].id < b[0].id then [v[0]] + Merged(v[1..], b)
    else if v[0].id > b[0].id then [b[0]] + Merged(v, b[1..])
    else [Counter(v[0].id, Max(v[0].value, b[0].value))] + Merged(v[1..], b[1..])
  }

  /** A merged vector has exactly the devices of both inputs. */
  lemma {:induction false} MergedIds(v: Vector, b: Vector)
    ensures Ids(Merged(v, b)) == Ids(v) + Ids(b)
    decreases |v| + |b|
  {
    if b != [] && v != [] {
      assert v == [v[0]] + v[1..];
      assert b == [b[0]] + b[1..];
      if v[0].id < b[0].id {
        MergedIds(v[1..], b);
      } else if v[0].id > b[0].id {
        MergedIds(v, b[1..]);
      } else {
        MergedIds(v[1..], b[1..]);
      }
    }
  }

  /** Merging two valid vectors gives a valid vector. */
  lemma {:induction false} MergedValid(v: Vector, b: Vector)
    requires Valid(v) && Valid(b)
    ensures Valid(Merged(v, b))
    decreases |v| + |b|
  {
    if b != [] && v != [] {
      TailAboveHead(v);
      TailAboveHead(b);
      assert v == [v[0]] + v[1..];
      assert b == [b[0]] + b[1..];
      if v[0].id < b[0].id {
        MergedValid(v[1..], b);
        MergedIds(v[1..], b);
        ConsValid(v[0], Merged(v[1..], b));
      } else if v[0].id > b[0].id {
        MergedValid(v, b[1..]);
        MergedIds(v, b[1..]);
        ConsValid(b[0], Merged(v, b[1..]));
      } else {
        MergedValid(v[1..], b[1..]);
        MergedIds(v[1..], b[1..]);
        ConsValid(Counter(v[0].id, Max(v[0].value, b[0].value)), Merged(v[1..], b[1..]));
      }
    }
  }

  /** Merging two valid vectors takes, device by device, the larger counter. */
  lemma {:induction false} MergedLookup(v: Vector, b: Vector, id: uint64)
    requires Valid(v) && Valid(b)
    ensures Lookup(Merged(v, b), id) == Max(Lookup(v, id), Lookup(b, id))
    decreases |v| + |b|
  {
    if b != [] && v != [] {
      if v[0].id < b[0].id {
        if id == v[0].id {
          BelowHeadAbsent(b, id);
        } else {
          MergedLookup(v[1..], b, id);
        }
      } else if v[0].id > b[0].id {
        if id == b[0].id {
          BelowHeadAbsent(v, id);
        } else {
          MergedLookup(v, b[1..], id);
        }
      } else if id != v[0].id {
        MergedLookup(v[1..], b[1..], id);
      }
    }
  }

  /** Merging a vector with itself gives back the same vector. */
  lemma {:induction false} MergedSelf(v: Vector)
    ensures Merged(v, v) == v
  {
    if v != [] {
      MergedSelf(v[1..]);
      assert v == [v[0]] + v[1..];
    }
  }

  /** Merge is commutative: both orders give the same vector, not only the same counters. */
  lemma {:induction false} MergedCommutes(v: Vector, b: Vector)
    ensures Merged(v, b) == Merged(b, v)
    decreases |v| + |b|
  {
    if v != [] && b != [] {
      if v[0].id < b[0].id {
        MergedCommutes(v[1..], b);
      } else if v[0].id > b[0].id {
        MergedCommutes(v, b[1..]);
      } else {
        MergedCommutes(v[1..], b[1..]);
      }
    }
  }

  /**
   * Go's `Merge`: walks `v` with `vi` and `b` with `bi`; a counter of `b`
   * below `v`'s current one is inserted into a fresh copy, an equal ID takes
   * the larger value in place, and once `v` is exhausted the rest of `b` is
   * appended.
   */
  method Merge(v: Vector, b: Vector) returns (r: Vector)
    ensures r == Merged(v, b)
    ensures Ids(r) == Ids(v) + Ids(b)
    ensures Valid(v) && Valid(b) ==> Valid(r)
    ensures Valid(v) && Valid(b) ==> forall id :: Lookup(r, id) == Max(Lookup(v, id), Lookup(b, id))
  {
    var counters := v;
    var vi, bi := 0, 0;
    assert counters[..0] + Merged(counters[0..], b[0..]) == Merged(v, b);
    while bi < |b|
      invariant 0 <= vi <= |counters| && 0 <= bi <= |b|
      invariant Merged(v, b) == Pending(counters, vi, b, bi)
      decreases |b| - bi, |counters| - vi
    {
      if vi == |counters| {
        // The end of v: all that remains of b is appended.
        MergeStepEnd(counters, b, bi);
        MergeFacts(v, b);
        return counters + b[bi..];
      }
      ghost var before := counters;
      if counters[vi].id > b[bi].id {
        // The counter from b is inserted here.
        counters := counters[..vi] + [b[bi]] + counters[vi..];
      }
      if counters[vi].id == b[bi].id {
        var val := b[bi].value;
        if val > counters[vi].value {
          counters := counters[vi := Counter(counters[vi].id, val)];
        }
      }
      if before[vi].id > b[bi].id {
        MergeStepInsert(before, vi, b, bi);
      } else if before[vi].id == b[bi].id {
        MergeStepEqual(before, vi, b, bi, counters);
      } else {
        MergeStepBelow(before, vi, b, bi);
      }
      if bi < |b| && counters[vi].id == b[bi].id {
        bi := bi + 1;
      }
      vi := vi + 1;
    }
    MergeStepDone(counters, vi, b);
    MergeFacts(v, b);
    return counters;
  }

  /** The vector `Merge` will return, seen from a point of its walk: the part of `c` already passed, then the merge of the rest. */
  ghost function Pending(c: Vector, vi: nat, b: Vector, bi: nat): Vector
    requires vi <= |c| && bi <= |b|
  {
    c[..vi] + Merged(c[vi..], b[bi..])
  }

  /** A counter of `b` below `c[vi]` is inserted before it, and both walks advance. */
  lemma MergeStepInsert(c: Vector, vi: nat, b: Vector, bi: nat)
    requires vi < |c| && bi < |b| && c[vi].id > b[bi].id
    ensures Pending(c, vi, b, bi) == Pending(c[..vi] + [b[bi]] + c[vi..], vi + 1, b, bi + 1)
  {
    var c' := c[..vi] + [b[bi]] + c[vi..];
    assert c[vi..][0] == c[vi] && b[bi..][0] == b[bi] && b[bi..][1..] == b[bi + 1..];
    assert Merged(c[vi..], b[bi..]) == [b[bi]] + Merged(c[vi..], b[bi + 1..]);
    assert c'[..vi + 1] == c[..vi] + [b[bi]] && c'[vi + 1..] == c[vi..];
  }

  /** Equal IDs: `c[vi]` takes the larger value, and both walks advance. */
  lemma MergeStepEqual(c: Vector, vi: nat, b: Vector, bi: nat, c': Vector)
    requires vi < |c| && bi < |b| && c[vi].id == b[bi].id
    requires c' == if b[bi].value > c[vi].value then c[vi := Counter(c[vi].id, b[bi].value)] else c
    ensures vi < |c'| && c'[vi].id == b[bi].id
    ensures Pending(c, vi, b, bi) == Pending(c', vi + 1, b, bi + 1)
  {
    assert c[vi..][0] == c[vi] && c[vi..][1..] == c[vi + 1..];
    assert b[bi..][0] == b[bi] && b[bi..][1..] == b[bi + 1..];
    var m := Counter(c[vi].id, Max(c[vi].value, b[bi].value));
    assert Merged(c[vi..], b[bi..]) == [m] + Merged(c[vi + 1..], b[bi + 1..]);
    assert c'[..vi + 1] == c[..vi] + [m] && c'[vi + 1..] == c[vi + 1..];
  }

  /** A counter of `c` below `b[bi]` stays; only the walk over `c` advances. */
  lemma MergeStepBelow(c: Vector, vi: nat, b: Vector, bi: nat)
    requires vi < |c| && bi < |b| && c[vi].id < b[bi].id
    ensures Pending(c, vi, b, bi) == Pending(c, vi + 1, b, bi)
  {
    assert c[vi..][0] == c[vi] && c[vi..][1..] == c[vi + 1..] && b[bi..][0] == b[bi];
    assert Merged(c[vi..], b[bi..]) == [c[vi]] + Merged(c[vi + 1..], b[bi..]);
    assert c[..vi + 1] == c[..vi] + [c[vi]];
  }

  /** Once `c` is exhausted, the rest of `b` is appended. */
  lemma MergeStepEnd(c: Vector, b: Vector, bi: nat)
    requires bi < |b|
    ensures Pending(c, |c|, b, bi) == c + b[bi..]
  {
    assert c[..|c|] == c && c[|c|..] == [];
  }

  /** Once `b` is exhausted, the rest of `c` is kept as it is. */
  lemma MergeStepDone(c: Vector, vi: nat, b: Vector)
    requires vi <= |c|
    ensures Pending(c, vi, b, |b|) == c
  {
    assert b[|b|..] == [];
    assert c[..vi] + c[vi..] == c;
  }

  /** The facts about `Merged` that `Merge` promises, gathered for one call. */
  lemma MergeFacts(v: Vector, b: Vector)
    ensures Ids(Merged(v, b)) == Ids(v) + Ids(b)
    ensures Valid(v) && Valid(b) ==> Valid(Merged(v, b))
    ensures Valid(v) && Valid(b) ==> forall id :: Lookup(Merged(v, b), id) == Max(Lookup(v, id), Lookup(b, id))
  {
    MergedIds(v, b);
    if Valid(v) && Valid(b) {
      MergedValid(v, b);
      forall id ensures Lookup(Merged(v, b), id) == Max(Lookup(v, id), Lookup(b, id)) {
        MergedLookup(v, b, id);
      }
    }
  }

  // ---------------------------------------------------------------------
  // Copy and Counter
  // ---------------------------------------------------------------------

  /** Go's `Copy`: allocates a new slice of the same length and copies every counter into it. */
  method Copy(v: Vector) returns (r: Vector)
    ensures r == v
    ensures forall id :: Lookup(r, id) == Lookup(v, id)
  {
    var nv := new Counter[|v|](i requires 0 <= i < |v| => v[i]);
    r := nv[..];
  }

  /**
   * Go's `Counter`: a linear search for `id`. It returns the value of the
   * first counter with that ID, and 0 when there is none.
   */
  method CounterValue(v: Vector, id: uint64) returns (value: uint64)
    ensures value == Lookup(v, id)
    ensures (forall k :: 0 <= k < |v| ==> v[k].id != id) ==> value == 0
    ensures Valid(v) ==> forall k :: 0 <= k < |v| && v[k].id == id ==> value == v[k].value
  {
    if Valid(v) {
      forall k | 0 <= k < |v| ensures Lookup(v, v[k].id) == v[k].value {
        LookupAt(v, k);
      }
    }
    IdsAt(v, id);
    for i := 0 to |v|
      invariant Lookup(v[i..], id) == Lookup(v, id)
    {
      assert v[i..][1..] == v[i + 1..];
      if v[i].id == id {
        return v[i].value;
      }
    }
    return 0;
  }

  // ---------------------------------------------------------------------
  // Comparison
  // ---------------------------------------------------------------------

  /** The outcome of comparing two vectors. */
  datatype Ordering = Equal | Greater | Lesser | ConcurrentGreater | ConcurrentLesser
  {
    /** The same comparison seen from the other operand. */
    function Inverse(): Ordering {
      match this
      case Equal => Ordering.Equal
      case Greater => Lesser
      case Lesser => Greater
      case ConcurrentGreater => ConcurrentLesser
      case ConcurrentLesser => ConcurrentGreater
    }
  }

  /** Pointwise order: every device's counter in `a` is at least its counter in `b`. */
  ghost predicate AtLeast(a: Vector, b: Vector) {
    forall id :: Lookup(a, id) >= Lookup(b, id)
  }

  /** The two vectors give every device the same counter. */
  ghost predicate SameCounters(a: Vector, b: Vector) {
    forall id :: Lookup(a, id) == Lookup(b, id)
  }

  lemma SameCountersBothWays(a: Vector, b: Vector)
    ensures SameCounters(a, b) <==> AtLeast(a, b) && AtLeast(b, a)
  {
    if AtLeast(a, b) && AtLeast(b, a) {
      forall id ensures Lookup(a, id) == Lookup(b, id) {
        assert Lookup(a, id) >= Lookup(b, id) && Lookup(b, id) >= Lookup(a, id);
      }
    }
  }

  /**
   * The pointwise order, computed: only the devices listed in `b` need to be
   * checked, since every other device has counter 0 in `b`.
   */
  function Dominates(a: Vector, b: Vector): (r: bool)
    ensures r <==> AtLeast(a, b)
  {
    DominatesByOwnIds(a, b);
    forall i :: 0 <= i < |b| ==> Lookup(a, b[i].id) >= Lookup(b, b[i].id)
  }

  lemma DominatesByOwnIds(a: Vector, b: Vector)
    ensures (forall i :: 0 <= i < |b| ==> Lookup(a, b[i].id) >= Lookup(b, b[i].id)) <==> AtLeast(a, b)
  {
    if forall i :: 0 <= i < |b| ==> Lookup(a, b[i].id) >= Lookup(b, b[i].id) {
      forall id ensures Lookup(a, id) >= Lookup(b, id) {
        IdsAt(b, id);
      }
    }
  }

  /**
   * The concurrent tie-break: a tie-break whose two answers for two
   * incomparable vectors always differ, whichever operand comes first.
   */
  ghost predicate AntisymmetricTieBreak(tieBreak: (Vector, Vector) -> bool) {
    forall a, b :: !AtLeast(a, b) && !AtLeast(b, a) ==> tieBreak(a, b) != tieBreak(b, a)
  }

  /**
   * `Compare`, whose body is not part of this model: Equal, Greater and
   * Lesser by the pointwise order, and for incomparable vectors
   * ConcurrentGreater or ConcurrentLesser as the tie-break decides.
   */
  function Compare(a: Vector, b: Vector, tieBreak: (Vector, Vector) -> bool): (r: Ordering)
    ensures r == Ordering.Equal <==> SameCounters(a, b)
    ensures r == Greater <==> AtLeast(a, b) && !AtLeast(b, a)
    ensures r == Lesser <==> AtLeast(b, a) && !AtLeast(a, b)
    ensures r == ConcurrentGreater <==> !AtLeast(a, b) && !AtLeast(b, a) && tieBreak(a, b)
    ensures r == ConcurrentLesser <==> !AtLeast(a, b) && !AtLeast(b, a) && !tieBreak(a, b)
  {
    SameCountersBothWays(a, b);
    var ge, le := Dominates(a, b), Dominates(b, a);
    if ge && le then Ordering.Equal
    else if ge then Greater
    else if le then Lesser
    else if tieBreak(a, b) then ConcurrentGreater
    else ConcurrentLesser
  }

  /** Every vector compares Equal to itself. */
  lemma CompareReflexive(v: Vector, tieBreak: (Vector, Vector) -> bool)
    ensures Compare(v, v, tieBreak) == Ordering.Equal
  {
  }

  /** With an antisymmetric tie-break, swapping the operands inverts the outcome. */
  lemma CompareAntisymmetric(a: Vector, b: Vector, tieBreak: (Vector, Vector) -> bool)
    requires AntisymmetricTieBreak(tieBreak)
    ensures Compare(b, a, tieBreak) == Compare(a, b, tieBreak).Inverse()
  {
  }

  /** Go's `Equal`: the two vectors give every device the same counter. */
  function Equal(a: Vector, b: Vector, tieBreak: (Vector, Vector) -> bool): (r: bool)
    ensures r <==> SameCounters(a, b)
  {
    Compare(a, b, tieBreak) == Ordering.Equal
  }

  /** Go's `LesserEqual`: no device's counter in `a` exceeds its counter in `b`. */
  function LesserEqual(a: Vector, b: Vector, tieBreak: (Vector, Vector) -> bool): (r: bool)
    ensures r <==> AtLeast(b, a)
  {
    var comp := Compare(a, b, tieBreak);
    comp == Lesser || comp == Ordering.Equal
  }

  /** Go's `GreaterEqual`: no device's counter in `b` exceeds its counter in `a`. */
  function GreaterEqual(a: Vector, b: Vector, tieBreak: (Vector, Vector) -> bool): (r: bool)
    ensures r <==> AtLeast(a, b)
  {
    var comp := Compare(a, b, tieBreak);
    comp == Greater || comp == Ordering.Equal
  }

  /** Go's `Concurrent`: each vector has some device with a larger counter than the other. */
  function Concurrent(a: Vector, b: Vector, tieBreak: (Vector, Vector) -> bool): (r: bool)
    ensures r <==> !AtLeast(a, b) && !AtLeast(b, a)
    ensures r <==> !LesserEqual(a, b, tieBreak) && !GreaterEqual(a, b, tieBreak)
  {
    var comp := Compare(a, b, tieBreak);
    comp == ConcurrentGreater || comp == ConcurrentLesser
  }

  // ---------------------------------------------------------------------
  // Update and Merge against the order
  // ---------------------------------------------------------------------

  /** Unless the counter wraps, `Update` yields a vector strictly after the old one. */
  lemma UpdateIsGreater(v: Vector, id: uint64, tieBreak: (Vector, Vector) -> bool)
    requires Valid(v) && Lookup(v, id) < MaxUint64
    ensures Compare(Incremented(v, id), v, tieBreak) == Greater
  {
    UpdateFacts(v, id);
    var r := Incremented(v, id);
    assert Lookup(r, id) > Lookup(v, id);
    forall other ensures Lookup(r, other) >= Lookup(v, other) {
      if other != id {
        assert AgreeExcept(r, v, id);
      }
    }
  }

  /** The merge is the least upper bound of its inputs in the pointwise order. */
  lemma MergedIsLeastUpperBound(a: Vector, b: Vector, c: Vector)
    requires Valid(a) && Valid(b)
    ensures AtLeast(Merged(a, b), a) && AtLeast(Merged(a, b), b)
    ensures AtLeast(c, a) && AtLeast(c, b) ==> AtLeast(c, Merged(a, b))
  {
    forall id ensures Lookup(Merged(a, b), id) == Max(Lookup(a, id), Lookup(b, id)) {
      MergedLookup(a, b, id);
    }
  }
}
