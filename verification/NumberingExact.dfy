/** The numbering of dice (dice/src/be/BEClass.cpp) without its loops: which graphs are accepted,
    where the function IDs of an interface start, and which ID each operation has. */
module NumberingExact {
  import opened Wrappers
  import opened Numbering
  import opened NumberingLaws
  import opened NumberingUnique

  // ---------------------------------------------------------------- the range of an interface

  /** The operation carries the number `v`; of a range that is the lower end. */
  predicate Carries(op: Operation, v: int)
  {
    match op.uuid
    case None => false
    case Some(Single(value, _)) => value == v
    case Some(Range(lower, _, _)) => lower == v
  }

  lemma CarriesIff(op: Operation, v: int)
    ensures Carries(op, v) <==> HasUuid(op) && GetUuid(op) == v
  {
  }

  predicate CarriesIn(ops: seq<Operation>, v: int)
  {
    exists k :: 0 <= k < |ops| && Carries(ops[k], v)
  }

  /** The larger of the number of operations and the largest number one of them carries. */
  ghost predicate Tops(i: Interface, m: int)
  {
    && |i.ops| <= m
    && (forall k, v :: 0 <= k < |i.ops| && Carries(i.ops[k], v) ==> v <= m)
    && (m == |i.ops| || CarriesIn(i.ops, m))
  }

  lemma {:induction false} MaxUuidAttained(ops: seq<Operation>, n: int)
    ensures MaxUuid(ops, n) == n || CarriesIn(ops, MaxUuid(ops, n))
  {
    if ops != [] {
      var n' := if HasUuid(ops[0]) && GetUuid(ops[0]) > n then GetUuid(ops[0]) else n;
      var m := MaxUuid(ops, n);
      MaxUuidAttained(ops[1..], n');
      if m != n' {
        var k :| 0 <= k < |ops[1..]| && Carries(ops[1..][k], m);
        assert Carries(ops[k + 1], m);
      } else if m != n {
        assert Carries(ops[0], m);
      }
    }
  }

  /** `GetMaxOpcodeNumber` is that number, and no other. */
  lemma MaxOpcodeIff(i: Interface, m: int)
    ensures m == MaxOpcodeNumber(i) <==> Tops(i, m)
  {
    var max := MaxOpcodeNumber(i);
    MaxUuidAttained(i.ops, |i.ops|);
    forall k, v | 0 <= k < |i.ops| && Carries(i.ops[k], v) ensures v <= max { CarriesIff(i.ops[k], v); }
    assert Tops(i, max);
  }

  // ---------------------------------------------------------------- the start

  function Total(sizes: seq<nat>): nat
  {
    if sizes == [] then 0 else sizes[0] + Total(sizes[1..])
  }

  lemma {:induction false} SumIsTotal(xs: seq<Interface>, sizes: seq<nat>)
    requires |xs| == |sizes| && forall k :: 0 <= k < |xs| ==> Tops(xs[k], sizes[k])
    ensures SumOfMax(xs) == Total(sizes)
  {
    if xs != [] {
      MaxOpcodeIff(xs[0], sizes[0]);
      SumIsTotal(xs[1..], sizes[1..]);
    }
  }

  /** The function IDs of an interface start behind the ranges of all its bases with its number, each
      counted once, however often and along whichever way it is inherited. */
  lemma StartIsTotal(i: Interface, xs: seq<Interface>, sizes: seq<nat>)
    requires NoDup(xs) && forall x :: x in xs <==> IsBase(x, i) && InterfaceNumber(x) == InterfaceNumber(i)
    requires |xs| == |sizes| && forall k :: 0 <= k < |xs| ==> Tops(xs[k], sizes[k])
    ensures Start(i) == Total(sizes)
  {
    SameNumberedFacts(i);
    SumOfSubset(xs, SameNumbered(i));
    SumOfSubset(SameNumbered(i), xs);
    SumIsTotal(xs, sizes);
  }

  // ---------------------------------------------------------------- which graphs are accepted

  lemma {:induction false} ScanOpsPasses(i: Interface, ops: seq<Operation>, numbers: map<int, string>)
    requires numbers.Keys !! UuidSet(ops) && DistinctUuids(ops)
    requires forall k :: 0 <= k < |ops| && HasUuid(ops[k]) ==> BaseRange(i, GetUuid(ops[k])).Some?
    ensures ScanOps(i, ops, numbers).Some?
  {
    hide BaseRange;
    if ops != [] {
      UuidSetCons(ops);
      var numbers' := if HasUuid(ops[0]) then numbers[GetUuid(ops[0]) := ops[0].name] else numbers;
      assert HasUuid(ops[0]) ==> GetUuid(ops[0]) in UuidSet(ops);
      forall k | 0 < k < |ops| && HasUuid(ops[k]) ensures HasUuid(ops[0]) ==> GetUuid(ops[k]) != GetUuid(ops[0]) { }
      forall u | u in UuidSet(ops[1..]) ensures u !in numbers' {
        var k :| 0 <= k < |ops[1..]| && HasUuid(ops[1..][k]) && GetUuid(ops[1..][k]) == u;
        assert ops[k + 1] == ops[1..][k];
      }
      ScanOpsPasses(i, ops[1..], numbers');
    }
  }

  /** The numbers of each interface differ and pass its check, and no two interfaces share one. */
  ghost predicate Unshared(xs: seq<Interface>)
  {
    && (forall x :: x in xs ==> AcceptedUuids(x))
    && (forall j, k :: 0 <= j < k < |xs| ==> UuidSet(xs[j].ops) !! UuidSet(xs[k].ops))
  }

  lemma {:induction false} ScanInterfacesPasses(xs: seq<Interface>, numbers: map<int, string>)
    requires Unshared(xs) && forall x :: x in xs ==> numbers.Keys !! UuidSet(x.ops)
    ensures ScanInterfaces(xs, numbers).Some?
  {
    hide ScanOps, UuidSet, AcceptedUuids;
    if xs != [] {
      assert AcceptedUuids(xs[0]) && numbers.Keys !! UuidSet(xs[0].ops);
      FirstPasses(xs[0], numbers);
      var numbers' := ScanOps(xs[0], xs[0].ops, numbers).value;
      forall x | x in xs[1..] ensures numbers'.Keys !! UuidSet(x.ops) {
        var k :| 0 <= k < |xs[1..]| && xs[1..][k] == x;
        assert xs[k + 1] == x && UuidSet(xs[0].ops) !! UuidSet(xs[k + 1].ops);
        assert numbers.Keys !! UuidSet(x.ops);
      }
      forall j, k | 0 <= j < k < |xs[1..]| ensures UuidSet(xs[1..][j].ops) !! UuidSet(xs[1..][k].ops) {
        assert UuidSet(xs[j + 1].ops) !! UuidSet(xs[k + 1].ops);
      }
      ScanInterfacesPasses(xs[1..], numbers');
    }
  }

  lemma FirstPasses(x: Interface, numbers: map<int, string>)
    requires AcceptedUuids(x) && numbers.Keys !! UuidSet(x.ops)
    ensures ScanOps(x, x.ops, numbers).Some?
    ensures ScanOps(x, x.ops, numbers).value.Keys == numbers.Keys + UuidSet(x.ops)
  {
    ScanOpsPasses(x, x.ops, numbers);
    ScanOpsFacts(x, x.ops, numbers);
  }

  /** Exactly when dice numbers the operations of an interface instead of stopping with an error. */
  lemma AcceptedIff(i: Interface)
    ensures Accepted(i) <==> Unshared(SameNumbered(i) + [i])
  {
    var xs := SameNumbered(i) + [i];
    if Accepted(i) {
      ScanInterfacesFacts(xs, map[]);
    }
    if Unshared(xs) {
      ScanInterfacesPasses(xs, map[]);
    }
  }

  // ---------------------------------------------------------------- which ID an operation has

  /** The number is carried in the interface or in one of its bases with its number. */
  ghost predicate Blocked(i: Interface, v: int)
  {
    exists x :: (x == i || (IsBase(x, i) && InterfaceNumber(x) == InterfaceNumber(i))) && CarriesIn(x.ops, v)
  }

  lemma CarriedInSet(ops: seq<Operation>, v: int)
    ensures v in UuidSet(ops) <==> CarriesIn(ops, v)
  {
    if v in UuidSet(ops) {
      var k :| 0 <= k < |ops| && HasUuid(ops[k]) && GetUuid(ops[k]) == v;
      assert Carries(ops[k], v);
    }
    if CarriesIn(ops, v) {
      var k :| 0 <= k < |ops| && Carries(ops[k], v);
      CarriesIff(ops[k], v);
    }
  }

  lemma TakenIff(i: Interface, v: int)
    requires Accepted(i)
    ensures v in Taken(i) <==> Blocked(i, v)
  {
    hide Taken, UuidSet, CarriesIn, Accepted;
    TakenFacts(i);
    SameNumberedFacts(i);
    if v in Taken(i) {
      if v in UuidSet(i.ops) {
        CarriedInSet(i.ops, v);
      } else {
        var x :| x in SameNumbered(i) && v in UuidSet(x.ops);
        CarriedInSet(x.ops, v);
      }
    }
    if Blocked(i, v) {
      var x :| (x == i || (IsBase(x, i) && InterfaceNumber(x) == InterfaceNumber(i))) && CarriesIn(x.ops, v);
      CarriedInSet(x.ops, v);
    }
  }

  /** The numbers beyond the start, up to `n`, that are not carried. */
  ghost function FreeUpTo(i: Interface, n: int): set<int>
  {
    set v | Start(i) < v <= n && !Blocked(i, v)
  }

  lemma {:induction false} FreeCount(i: Interface, n: int)
    requires Accepted(i) && Start(i) <= n
    ensures |FreeUpTo(i, n)| == FreeBetween(Start(i), n, Taken(i))
    decreases n - Start(i)
  {
    hide Start, Taken, Blocked, Accepted;
    if n == Start(i) {
      assert FreeUpTo(i, n) == {};
    } else {
      FreeCount(i, n - 1);
      TakenIff(i, n);
      var (s, s') := (FreeUpTo(i, n), FreeUpTo(i, n - 1));
      assert n !in s' && s == if Blocked(i, n) then s' else s' + {n};
    }
  }

  /** An operation that carries a number has it as its function ID; the others, in the order of
      declaration, have the free numbers beyond the start that stand at their places. */
  lemma NumberIff(i: Interface, k: nat, n: int)
    requires Accepted(i) && k < |i.ops|
    ensures OperationNumber(i, k) == Some(n) <==>
      if i.ops[k].uuid.Some? then Carries(i.ops[k], n)
      else n > Start(i) && !Blocked(i, n) && |FreeUpTo(i, n)| == k + 1
  {
    hide OperationNumber, Taken, Start, Accepted, Blocked, FreeUpTo;
    CarriesIff(i.ops[k], n);
    if HasUuid(i.ops[k]) {
      UuidNumber(i, k);
    } else {
      var (start, taken) := (Start(i), Taken(i));
      var c := Counter(start, k + 1, taken);
      PlainNumber(i, k);
      CounterIsNthFree(start, k + 1, taken);
      TakenIff(i, n);
      if n > start {
        FreeCount(i, n);
        if n < c { FreeExtend(start, n, c, taken); }
        if c < n { FreeExtend(start, c, n, taken); }
      }
    }
  }

  /** The interface number: the uuid, or one more than the largest among the bases, and at least 1. */
  lemma InterfaceNumberIff(i: Interface, n: int)
    ensures n == InterfaceNumber(i) <==>
      if i.uuid.Some? then i.uuid == Some(n)
      else
        && n >= 1
        && (forall k :: 0 <= k < |i.bases| ==> InterfaceNumber(i.bases[k]) < n)
        && (n == 1 || exists k :: 0 <= k < |i.bases| && InterfaceNumber(i.bases[k]) == n - 1)
  {
    if i.uuid.None? { InterfaceNumberLeast(i); }
  }

  /** Over one base without bases, an interface without carried numbers counts on from the range of
      the base. */
  lemma CountsOnFromBase(i: Interface, b: Interface, m: nat, k: nat)
    requires i.bases == [b] && b.bases == [] && InterfaceNumber(b) == InterfaceNumber(i)
    requires Accepted(i) && NoUuids(i) && k < |i.ops| && Tops(b, m)
    ensures OperationNumber(i, k) == Some(m + k + 1)
  {
    hide Taken, Accepted;
    forall x ensures IsBase(x, i) <==> x == b {
      if x == b { assert x == i.bases[0]; }
    }
    StartIsTotal(i, [b], [m]);
    assert Total([m]) == m + Total([]);
    assert Start(i) == m;
    var n := m + k + 1;
    forall v | v > m ensures !Blocked(i, v) { }
    FreeRun(i, n);
    NumberIff(i, k, n);
  }

  lemma {:induction false} FreeRun(i: Interface, n: int)
    requires Start(i) <= n && forall v :: v > Start(i) ==> !Blocked(i, v)
    ensures |FreeUpTo(i, n)| == n - Start(i)
    decreases n - Start(i)
  {
    hide Start, Blocked;
    if n == Start(i) {
      assert FreeUpTo(i, n) == {};
    } else {
      FreeRun(i, n - 1);
      assert FreeUpTo(i, n) == FreeUpTo(i, n - 1) + {n};
    }
  }

  // ---------------------------------------------------------------- what the uuid check looks at

  /** Exactly the bases reached through interfaces with the number. */
  lemma {:induction false} CheckedIff(x: Interface, bases: seq<Interface>, number: int)
    ensures x in Checked(bases, number) <==>
      exists k :: 0 <= k < |bases| && InterfaceNumber(bases[k]) == number && (x == bases[k] || Linked(x, bases[k]))
    decreases bases
  {
    hide InterfaceNumber;
    if k: nat :| k < |bases| && InterfaceNumber(bases[k]) == number && (x == bases[k] || Linked(x, bases[k])) {
      LinkedIsChecked(x, bases, number, k);
    }
    if x in Checked(bases, number) {
      if InterfaceNumber(bases[0]) == number && x in Checked(bases[0].bases, number) {
        CheckedIff(x, bases[0].bases, number);
        assert Linked(x, bases[0]);
      } else if !(InterfaceNumber(bases[0]) == number && x == bases[0]) {
        CheckedIff(x, bases[1..], number);
        var k :| 0 <= k < |bases[1..]| && InterfaceNumber(bases[1..][k]) == number && (x == bases[1..][k] || Linked(x, bases[1..][k]));
        assert bases[k + 1] == bases[1..][k];
      }
    }
  }

  /** Over one base without bases the check keeps uuids out of the range of the base. */
  lemma UuidOverBaseIff(i: Interface, b: Interface, m: nat, uuid: int)
    requires i.bases == [b] && b.bases == [] && InterfaceNumber(b) == InterfaceNumber(i) && Tops(b, m)
    ensures BaseRange(i, uuid).Some? <==> uuid <= 0 || uuid > m
  {
    MaxOpcodeIff(b, m);
    assert [b][1..] == [];
    assert BaseRange(b, uuid) == Some(0);
    assert BaseRangeOver([], InterfaceNumber(i), uuid, m) == Some(m);
    assert BaseRange(i, uuid) == BaseRangeOver([b], InterfaceNumber(i), uuid, 0);
  }
}
