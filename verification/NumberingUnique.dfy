/** When operation numbers are unique: within an interface, and between an interface and the
    bases that share its number. */
module NumberingUnique {
  import opened Wrappers
  import opened Numbering
  import opened NumberingLaws

  ghost predicate Accepted(i: Interface)
  {
    Predefined(i).Some?
  }

  predicate IsPlain(i: Interface, k: nat)
  {
    k < |i.ops| && !HasUuid(i.ops[k])
  }

  /** All predefined numbers that the numbering of `i` avoids. */
  ghost function Taken(i: Interface): set<int>
    requires Accepted(i)
  {
    Predefined(i).value.Keys
  }

  lemma TakenFacts(i: Interface)
    requires Accepted(i)
    ensures UuidSet(i.ops) <= Taken(i) && AcceptedUuids(i)
    ensures forall x :: x in SameNumbered(i) ==> UuidSet(x.ops) <= Taken(i) && UuidSet(x.ops) !! UuidSet(i.ops)
    ensures forall u :: u in Taken(i) ==> u in UuidSet(i.ops) || exists x :: x in SameNumbered(i) && u in UuidSet(x.ops)
  {
    var same := SameNumbered(i);
    var xs := same + [i];
    ScanInterfacesFacts(xs, map[]);
    assert xs[|same|] == i && i in xs;
    forall x | x in same ensures UuidSet(x.ops) <= Taken(i) && UuidSet(x.ops) !! UuidSet(i.ops) {
      var k :| 0 <= k < |same| && same[k] == x;
      assert xs[k] == x && x in xs;
    }
  }

  // ---------------------------------------------------------------- one interface

  /** The numbering of one interface that dice accepts: injective, increasing in declaration
      order for operations without uuid, clear of every predefined number, and bounded. */
  lemma WithinInterface(i: Interface)
    requires Accepted(i)
    ensures forall j, k :: 0 <= j < k < |i.ops| ==> OperationNumber(i, j) != OperationNumber(i, k)
    ensures forall j: nat, k: nat :: j < k && IsPlain(i, j) && IsPlain(i, k) ==>
      OperationNumber(i, j).value < OperationNumber(i, k).value
    ensures forall k: nat :: IsPlain(i, k) ==> OperationNumber(i, k).value !in Taken(i)
    ensures forall k: nat :: IsPlain(i, k) ==>
      Start(i) + k + 1 <= OperationNumber(i, k).value <= Start(i) + k + 1 + |Taken(i)|
  {
    hide OperationNumber, Taken, Start, Counter, Accepted;
    forall k: nat | IsPlain(i, k)
      ensures OperationNumber(i, k).Some? && OperationNumber(i, k).value !in Taken(i)
      ensures Start(i) + k + 1 <= OperationNumber(i, k).value <= Start(i) + k + 1 + |Taken(i)|
    {
      PlainNumber(i, k);
      CounterIsNthFree(Start(i), k + 1, Taken(i));
      CounterBound(Start(i), k + 1, Taken(i));
    }
    forall j, k | 0 <= j < k < |i.ops|
      ensures OperationNumber(i, j) != OperationNumber(i, k)
      ensures IsPlain(i, j) && IsPlain(i, k) ==> OperationNumber(i, j).value < OperationNumber(i, k).value
    {
      DifferentNumbers(i, j, k);
    }
  }

  lemma UuidInSet(i: Interface, k: nat)
    requires k < |i.ops| && HasUuid(i.ops[k])
    ensures GetUuid(i.ops[k]) in UuidSet(i.ops)
  {
  }

  lemma PlainNumber(i: Interface, k: nat)
    requires Accepted(i) && IsPlain(i, k)
    ensures OperationNumber(i, k) == Some(Counter(Start(i), k + 1, Taken(i)))
    ensures OperationNumber(i, k).value !in Taken(i)
  {
    CounterIsNthFree(Start(i), k + 1, Taken(i));
  }

  lemma UuidNumber(i: Interface, k: nat)
    requires Accepted(i) && k < |i.ops| && HasUuid(i.ops[k])
    ensures OperationNumber(i, k) == Some(GetUuid(i.ops[k]))
    ensures OperationNumber(i, k).value in Taken(i)
  {
    UuidInSet(i, k);
    TakenFacts(i);
  }

  lemma DifferentNumbers(i: Interface, j: nat, k: nat)
    requires Accepted(i) && j < k < |i.ops|
    ensures OperationNumber(i, j) != OperationNumber(i, k)
    ensures IsPlain(i, j) && IsPlain(i, k) ==> OperationNumber(i, j).value < OperationNumber(i, k).value
  {
    hide OperationNumber, Taken, Start, Counter;
    if IsPlain(i, j) { PlainNumber(i, j); } else { UuidNumber(i, j); }
    if IsPlain(i, k) { PlainNumber(i, k); } else { UuidNumber(i, k); }
    TakenFacts(i);
    CounterIncreases(Start(i), j + 1, k + 1, Taken(i));
  }

  // ---------------------------------------------------------------- the range of an interface

  /** The uuids of `i` beyond its start. */
  ghost function Above(i: Interface): set<int>
  {
    set u | u in UuidSet(i.ops) && u > Start(i)
  }

  lemma {:induction false} SumMember(xs: seq<Interface>, x: Interface)
    requires x in xs
    ensures MaxOpcodeNumber(x) <= SumOfMax(xs)
  {
    if xs[0] != x {
      SumMember(xs[1..], x);
    }
  }

  lemma UuidsBelowMax(i: Interface)
    ensures forall u :: u in UuidSet(i.ops) ==> u <= MaxOpcodeNumber(i)
  {
  }

  lemma TakenInRange(i: Interface)
    requires Accepted(i)
    ensures (set u | u in Taken(i) && Start(i) < u <= Start(i) + MaxOpcodeNumber(i)) == Above(i)
  {
    TakenFacts(i);
    UuidsBelowMax(i);
    forall u | u in Taken(i) && u !in UuidSet(i.ops) ensures u <= Start(i) {
      var x :| x in SameNumbered(i) && u in UuidSet(x.ops);
      UuidsBelowMax(x);
      SumMember(SameNumbered(i), x);
    }
  }

  /** Exactly when `GetMaxOpcodeNumber` bounds the number of an operation without uuid: the
      operations up to it and the uuids beyond the start together fit into the range. */
  lemma FitsIff(i: Interface, k: nat)
    requires Accepted(i) && IsPlain(i, k)
    ensures OperationNumber(i, k).value <= Start(i) + MaxOpcodeNumber(i) <==> k + 1 + |Above(i)| <= MaxOpcodeNumber(i)
  {
    var (start, max, taken) := (Start(i), MaxOpcodeNumber(i), Taken(i));
    CounterWithinIff(start, k + 1, taken, start + max);
    FreeAndTaken(start, start + max, taken);
    TakenInRange(i);
  }

  /** The number of the operation lies behind the range. */
  ghost predicate Overflows(i: Interface, k: nat)
  {
    IsPlain(i, k) && k + 1 + |Above(i)| > MaxOpcodeNumber(i)
  }

  /** No number does. */
  ghost predicate Fits(i: Interface)
  {
    forall k: nat :: !Overflows(i, k)
  }

  /** A uuid declared before a plain operation pushes the plain one out of the range. */
  lemma UuidFirstDoesNotFit(id: nat, number: Option<int>, a: string, b: string)
    ensures var i := Interface(id, number, [], [Operation(a, Some(Single(1, false)), false), Operation(b, None, false)]);
      MaxOpcodeNumber(i) == 2 && OperationNumber(i, 1) == Some(3)
  {
    var ops := [Operation(a, Some(Single(1, false)), false), Operation(b, None, false)];
    var i := Interface(id, number, [], ops);
    assert ops[1..] == [ops[1]] && ops[1..][1..] == [];
    assert SameNumbered(i) == [] && [] + [i] == [i] && [i][1..] == [];
    assert BaseRange(i, 1) == Some(0);
    assert ScanOps(i, ops[1..], map[1 := a]) == Some(map[1 := a]);
    assert ScanOps(i, ops, map[]) == Some(map[1 := a]);
    assert ScanInterfaces([i], map[]) == ScanInterfaces([i][1..], map[1 := a]) == Some(map[1 := a]);
    assert SameNumbered(i) + [i] == [i];
    assert Predefined(i) == Some(map[1 := a]);
    var taken := map[1 := a].Keys;
    assert Counter(0, 0, taken) == 0;
    assert Skip(1, taken) == 2;
    assert Counter(0, 1, taken) == 2;
    assert Skip(3, taken) == 3;
    assert MaxUuid(ops[1..], 2) == 2;
  }

  // ---------------------------------------------------------------- an interface and its bases

  /** `x` is reached from `i` through interfaces that share the number of `i`. */
  predicate Linked(x: Interface, i: Interface)
    decreases i
  {
    exists k :: 0 <= k < |i.bases| && InterfaceNumber(i.bases[k]) == InterfaceNumber(i)
             && (x == i.bases[k] || Linked(x, i.bases[k]))
  }

  /** The interfaces whose ranges `CheckOpcodeCollision` adds up. */
  function Checked(bases: seq<Interface>, number: int): seq<Interface>
    decreases bases
  {
    if bases == [] then []
    else if InterfaceNumber(bases[0]) != number then Checked(bases[1..], number)
    else Checked(bases[0].bases, number) + [bases[0]] + Checked(bases[1..], number)
  }

  lemma {:induction false} SumConcat(a: seq<Interface>, b: seq<Interface>)
    ensures SumOfMax(a + b) == SumOfMax(a) + SumOfMax(b)
  {
    if a == [] {
      assert a + b == b;
    } else {
      SumConcat(a[1..], b);
      assert (a + b)[1..] == a[1..] + b;
    }
  }

  lemma {:induction false} BaseRangeIsSum(bases: seq<Interface>, number: int, uuid: int, taken: nat)
    requires BaseRangeOver(bases, number, uuid, taken).Some?
    ensures BaseRangeOver(bases, number, uuid, taken).value == taken + SumOfMax(Checked(bases, number))
    ensures 0 < uuid && SumOfMax(Checked(bases, number)) > 0 ==> uuid > taken + SumOfMax(Checked(bases, number))
    decreases bases
  {
    if bases != [] {
      var b := bases[0];
      if InterfaceNumber(b) != number {
        BaseRangeIsSum(bases[1..], number, uuid, taken);
      } else {
        var below := Checked(b.bases, number);
        BaseRangeIsSum(b.bases, number, uuid, 0);
        BaseRangeIsSum(bases[1..], number, uuid, taken + SumOfMax(below) + MaxOpcodeNumber(b));
        SumConcat(below, [b]);
        SumConcat(below + [b], Checked(bases[1..], number));
        assert SumOfMax([b]) == MaxOpcodeNumber(b) by { assert [b][1..] == []; }
      }
    }
  }

  lemma {:induction false} LinkedIsChecked(x: Interface, bases: seq<Interface>, number: int, k: nat)
    requires k < |bases| && InterfaceNumber(bases[k]) == number && (x == bases[k] || Linked(x, bases[k]))
    ensures x in Checked(bases, number)
    decreases bases
  {
    if k > 0 {
      LinkedIsChecked(x, bases[1..], number, k - 1);
    } else if x != bases[0] {
      var b := bases[0];
      var j :| 0 <= j < |b.bases| && InterfaceNumber(b.bases[j]) == InterfaceNumber(b) && (x == b.bases[j] || Linked(x, b.bases[j]));
      LinkedIsChecked(x, b.bases, number, j);
    }
  }

  /** Every base that shares the number is reached through interfaces that do. */
  ghost predicate Contiguous(i: Interface)
  {
    forall x :: x in SameNumbered(i) ==> Linked(x, i)
  }

  /** The uuids of `i` keep out of the ranges of its bases. */
  ghost predicate Reserved(i: Interface)
  {
    forall u :: u in UuidSet(i.ops) ==> u <= 0 || u > Start(i)
  }

  /** What `CheckOpcodeCollision` is for. */
  lemma AcceptedIsReserved(i: Interface)
    requires Accepted(i) && Contiguous(i)
    ensures Reserved(i)
  {
    var (same, checked) := (SameNumbered(i), Checked(i.bases, InterfaceNumber(i)));
    TakenFacts(i);
    SameNumberedFacts(i);
    forall x | x in same ensures x in checked {
      var k :| 0 <= k < |i.bases| && InterfaceNumber(i.bases[k]) == InterfaceNumber(i) && (x == i.bases[k] || Linked(x, i.bases[k]));
      LinkedIsChecked(x, i.bases, InterfaceNumber(i), k);
    }
    SumOfSubset(same, checked);
    forall u | u in UuidSet(i.ops) ensures u <= 0 || u > Start(i) {
      var k :| 0 <= k < |i.ops| && HasUuid(i.ops[k]) && GetUuid(i.ops[k]) == u;
      assert BaseRange(i, u).Some?;
      BaseRangeIsSum(i.bases, InterfaceNumber(i), u, 0);
    }
  }

  lemma NumberInRange(i: Interface, k: nat)
    requires Accepted(i) && k < |i.ops| && !Overflows(i, k)
    ensures OperationNumber(i, k).value <= Start(i) + MaxOpcodeNumber(i)
  {
    if IsPlain(i, k) { FitsIff(i, k); }
  }

  /** Numbers of an interface and of a base with the same interface number differ, although each
      is computed by itself, as long as that of the base lies inside its range. */
  lemma IdsDisjoint(i: Interface, b: Interface, j: nat, k: nat)
    requires IsBase(b, i) && InterfaceNumber(b) == InterfaceNumber(i)
    requires Accepted(i) && Accepted(b) && Reserved(i)
    requires j < |i.ops| && k < |b.ops| && !Overflows(b, k)
    ensures OperationNumber(i, j).value != OperationNumber(b, k).value
    ensures IsPlain(i, j) ==> OperationNumber(i, j).value > OperationNumber(b, k).value
  {
    StartsAfter(b, i);
    NumberInRange(b, k);
    SameNumberedFacts(i);
    TakenFacts(i);
    WithinInterface(i);
    WithinInterface(b);
    if HasUuid(i.ops[j]) {
      UuidInSet(i, j);
      if HasUuid(b.ops[k]) { UuidInSet(b, k); } else { assert IsPlain(b, k); }
    } else {
      assert IsPlain(i, j);
    }
  }

  // ---------------------------------------------------------------- without uuids

  predicate NoUuids(i: Interface)
  {
    forall k :: 0 <= k < |i.ops| ==> !HasUuid(i.ops[k])
  }

  ghost predicate PlainDag(i: Interface)
  {
    NoUuids(i) && forall x :: IsBase(x, i) ==> NoUuids(x)
  }

  lemma {:induction false} ScanPlain(i: Interface, ops: seq<Operation>, numbers: map<int, string>)
    requires forall k :: 0 <= k < |ops| ==> !HasUuid(ops[k])
    ensures ScanOps(i, ops, numbers) == Some(numbers)
  {
    if ops != [] {
      ScanPlain(i, ops[1..], numbers);
    }
  }

  lemma {:induction false} ScanAllPlain(xs: seq<Interface>, numbers: map<int, string>)
    requires forall x :: x in xs ==> NoUuids(x)
    ensures ScanInterfaces(xs, numbers) == Some(numbers)
  {
    if xs != [] {
      assert xs[0] in xs && NoUuids(xs[0]);
      ScanPlain(xs[0], xs[0].ops, numbers);
      ScanAllPlain(xs[1..], numbers);
    }
  }

  /** Such an interface is accepted, fits its range and reserves nothing. */
  lemma PlainFits(i: Interface)
    requires PlainDag(i)
    ensures Accepted(i) && Fits(i) && Reserved(i)
  {
    SameNumberedFacts(i);
    ScanAllPlain(SameNumbered(i) + [i], map[]);
    assert UuidSet(i.ops) == {};
    assert Above(i) == {};
  }

  lemma PlainBase(x: Interface, i: Interface)
    requires PlainDag(i) && IsBase(x, i)
    ensures PlainDag(x)
  {
    forall y | IsBase(y, x) ensures NoUuids(y) { BaseTransitive(y, x, i); }
  }

  /** For every inheritance graph without operation uuids, all numbers of an interface lie above
      all numbers of every base that shares its interface number. */
  lemma PlainAboveBases(i: Interface, b: Interface, j: nat, k: nat)
    requires PlainDag(i) && IsBase(b, i) && InterfaceNumber(b) == InterfaceNumber(i)
    requires j < |i.ops| && k < |b.ops|
    ensures OperationNumber(i, j).Some? && OperationNumber(b, k).Some?
    ensures OperationNumber(i, j).value > OperationNumber(b, k).value
  {
    PlainBase(b, i);
    PlainFits(i);
    PlainFits(b);
    IdsDisjoint(i, b, j, k);
  }
}
