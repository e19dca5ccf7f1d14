/** The case a server runs for an opcode (dice/src/be/BEDispatchFunction.cpp,
    dice/src/be/BESwitchCase.cpp): ranges are tried before the switch. */
module Selection {
  import opened Wrappers
  import opened Numbering
  import opened NumberingLaws
  import opened NumberingUnique
  import opened NumberingExact
  import opened Dispatch
  import opened Collisions

  // ---------------------------------------------------------------- selecting

  /** The constant for the upper end of a range, which itself is not in it. */
  function UpperOpcode(l: Layout, c: Case): int
  {
    if c.k >= |c.owner.ops| || !IsRange(c.owner.ops[c.k]) then 0
    else
      var u := c.owner.ops[c.k].uuid.value;
      if u.absolute then u.upper else Opcode(l, InterfaceNumber(c.owner), u.upper)
  }

  predicate Holds(l: Layout, r: Case, opcode: int)
  {
    CaseOpcode(l, r).Some? && CaseOpcode(l, r).value <= opcode < UpperOpcode(l, r)
  }

  /** The first range that holds the opcode, else the first case with that label. */
  function Select(l: Layout, rangeCases: seq<Case>, switchCases: seq<Case>, opcode: int): Option<Case>
  {
    if rangeCases != [] then
      if Holds(l, rangeCases[0], opcode) then Some(rangeCases[0])
      else Select(l, rangeCases[1..], switchCases, opcode)
    else if switchCases != [] then
      if CaseOpcode(l, switchCases[0]) == Some(opcode) then Some(switchCases[0])
      else Select(l, [], switchCases[1..], opcode)
    else None
  }

  lemma {:induction false} SelectFacts(l: Layout, rs: seq<Case>, cs: seq<Case>, opcode: int)
    ensures var s := Select(l, rs, cs, opcode);
      && (s.Some? ==>
            || (s.value in rs && Holds(l, s.value, opcode))
            || (s.value in cs && CaseOpcode(l, s.value) == Some(opcode) && forall r :: r in rs ==> !Holds(l, r, opcode)))
      && (s.None? ==>
            && (forall r :: r in rs ==> !Holds(l, r, opcode))
            && (forall c :: c in cs ==> CaseOpcode(l, c) != Some(opcode)))
    decreases |rs| + |cs|
  {
    hide CaseOpcode, Holds;
    if rs != [] {
      assert rs == [rs[0]] + rs[1..];
      SelectFacts(l, rs[1..], cs, opcode);
    } else if cs != [] {
      assert cs == [cs[0]] + cs[1..];
      SelectFacts(l, [], cs[1..], opcode);
    }
  }

  // ---------------------------------------------------------------- labels and ranges

  /** The operation stands for the number it carries, as it is. */
  predicate StandsForItself(op: Operation)
  {
    match op.uuid
    case None => false
    case Some(Single(_, absolute)) => absolute
    case Some(Range(_, _, absolute)) => absolute
  }

  /** The label of an operation that stands for itself is its number; any other is taken apart into
      interface number and function ID. */
  lemma LabelIs(l: Layout, c: Case)
    requires c.k < |c.owner.ops| && Accepted(c.owner)
    ensures OperationNumber(c.owner, c.k).Some? && CaseOpcode(l, c).Some?
    ensures StandsForItself(c.owner.ops[c.k]) ==> Carries(c.owner.ops[c.k], CaseOpcode(l, c).value)
    ensures var (number, id) := (InterfaceNumber(c.owner), OperationNumber(c.owner, c.k).value);
      !StandsForItself(c.owner.ops[c.k]) && InWord(l, number, id) ==>
        OpcodeNumber(l, CaseOpcode(l, c).value) == number && OpcodeId(l, CaseOpcode(l, c).value) == id
  {
    hide OpcodeNumber, OpcodeId, Opcode, InWord, InterfaceNumber, Accepted;
    NumberSome(c);
    var n := OperationNumber(c.owner, c.k).value;
    if StandsForItself(c.owner.ops[c.k]) {
      UuidNumber(c.owner, c.k);
      CarriesIff(c.owner.ops[c.k], n);
    } else if InWord(l, InterfaceNumber(c.owner), n) {
      OpcodeDecodes(l, InterfaceNumber(c.owner), n);
    }
  }

  /** A range holds the opcodes of its interface from its lower number up to below its upper one. */
  lemma RangeHoldsIff(l: Layout, r: Case, lower: int, upper: int, number: int, id: int)
    requires r.k < |r.owner.ops| && Accepted(r.owner) && r.owner.ops[r.k].uuid == Some(Range(lower, upper, false))
    requires InWord(l, InterfaceNumber(r.owner), lower) && InWord(l, InterfaceNumber(r.owner), upper) && InWord(l, number, id)
    ensures Holds(l, r, Opcode(l, number, id)) <==> number == InterfaceNumber(r.owner) && lower <= id < upper
  {
    hide Opcode, InterfaceNumber, Accepted, OperationNumber;
    var n := InterfaceNumber(r.owner);
    UuidNumber(r.owner, r.k);
    assert CaseOpcode(l, r) == Some(Opcode(l, n, lower)) && UpperOpcode(l, r) == Opcode(l, n, upper);
    OpcodeHolds(l, n, lower);
    OpcodeHolds(l, n, upper);
    OpcodeHolds(l, number, id);
    hide InWord;
    ByNumberThenId(l, n, lower, number, id);
    ByNumberThenId(l, number, id, n, upper);
  }

  /** An absolute range holds the opcodes between its two numbers as they are. */
  lemma AbsoluteRangeHoldsIff(l: Layout, r: Case, lower: int, upper: int, opcode: int)
    requires r.k < |r.owner.ops| && Accepted(r.owner) && r.owner.ops[r.k].uuid == Some(Range(lower, upper, true))
    ensures Holds(l, r, opcode) <==> lower <= opcode < upper
  {
    hide Accepted;
    UuidNumber(r.owner, r.k);
  }

  /** Opcodes are ordered by interface number first. */
  lemma ByNumberThenId(l: Layout, m: int, i: int, n: int, j: int)
    requires InWord(l, m, i) && InWord(l, n, j)
    ensures m * Unit(l) + i <= n * Unit(l) + j <==> m < n || (m == n && i <= j)
  {
  }

  /** The ranges are tried first, in order, then the labels. */
  lemma {:induction false} SelectFirst(l: Layout, rs: seq<Case>, cs: seq<Case>, opcode: int)
    ensures forall k :: 0 <= k < |rs| && Holds(l, rs[k], opcode) && (forall j :: 0 <= j < k ==> !Holds(l, rs[j], opcode)) ==>
      Select(l, rs, cs, opcode) == Some(rs[k])
    ensures (forall r :: r in rs ==> !Holds(l, r, opcode)) ==> Select(l, rs, cs, opcode) == Select(l, [], cs, opcode)
  {
    hide Holds, CaseOpcode;
    if rs != [] {
      SelectFirst(l, rs[1..], cs, opcode);
      forall k | 0 <= k < |rs| && Holds(l, rs[k], opcode) && (forall j :: 0 <= j < k ==> !Holds(l, rs[j], opcode))
        ensures Select(l, rs, cs, opcode) == Some(rs[k])
      {
        if k > 0 {
          assert rs[1..][k - 1] == rs[k] && !Holds(l, rs[0], opcode);
          forall j | 0 <= j < k - 1 ensures !Holds(l, rs[1..][j], opcode) { assert rs[1..][j] == rs[j + 1]; }
        }
      }
      assert forall r :: r in rs[1..] ==> r in rs;
    }
  }

  // ---------------------------------------------------------------- reaching every operation

  /** Every switch case runs for its opcode, every range case for all opcodes of its range. */
  ghost predicate EveryCaseRuns(l: Layout, rs: seq<Case>, cs: seq<Case>)
  {
    && (forall c :: c in cs ==> RunsAt(l, rs, cs, c, CaseOpcode(l, c)))
    && (forall r, opcode :: r in rs && Holds(l, r, opcode) ==> Select(l, rs, cs, opcode) == Some(r))
  }

  ghost predicate RunsAt(l: Layout, rs: seq<Case>, cs: seq<Case>, c: Case, opcode: Option<int>)
  {
    opcode.Some? ==> Select(l, rs, cs, opcode.value) == Some(c)
  }

  /** No label lies in a range. */
  ghost predicate LabelsOutsideRanges(l: Layout, rs: seq<Case>, cs: seq<Case>)
  {
    forall r, c :: r in rs && c in cs && Usable(l, c) ==> !Holds(l, r, CaseOpcode(l, c).value)
  }

  ghost predicate RangesDisjoint(l: Layout, rs: seq<Case>)
  {
    forall r, r', opcode :: r in rs && r' in rs && r != r' && Holds(l, r, opcode) ==> !Holds(l, r', opcode)
  }

  /** Exactly when every request reaches the operation it names. */
  lemma EveryCaseRunsIff(l: Layout, rs: seq<Case>, cs: seq<Case>)
    requires forall c :: c in cs ==> Usable(l, c) && c !in rs
    ensures EveryCaseRuns(l, rs, cs) <==> OneCaseEach(l, cs) && LabelsOutsideRanges(l, rs, cs) && RangesDisjoint(l, rs)
  {
    hide CaseOpcode, Holds, Select;
    if OneCaseEach(l, cs) && LabelsOutsideRanges(l, rs, cs) && RangesDisjoint(l, rs) {
      forall c | c in cs ensures RunsAt(l, rs, cs, c, CaseOpcode(l, c)) {
        SelectFacts(l, rs, cs, CaseOpcode(l, c).value);
      }
      forall r, opcode | r in rs && Holds(l, r, opcode) ensures Select(l, rs, cs, opcode) == Some(r) {
        SelectFacts(l, rs, cs, opcode);
      }
    }
    if EveryCaseRuns(l, rs, cs) {
      forall c, d | c in cs && d in cs && c != d ensures CaseOpcode(l, c) != CaseOpcode(l, d) {
        assert RunsAt(l, rs, cs, c, CaseOpcode(l, c)) && RunsAt(l, rs, cs, d, CaseOpcode(l, d));
      }
      forall r, c | r in rs && c in cs && Usable(l, c) ensures !Holds(l, r, CaseOpcode(l, c).value) {
        assert RunsAt(l, rs, cs, c, CaseOpcode(l, c));
      }
    }
  }

  lemma {:induction false} CasesAreOfKind(i: Interface, ranges: bool)
    ensures forall c :: c in CasesFor(i, ranges) ==> c.k < |c.owner.ops| && IsRange(c.owner.ops[c.k]) == ranges
    decreases i, 1
  {
    CasesOverAreOfKind(i.bases, ranges);
  }

  lemma {:induction false} CasesOverAreOfKind(bases: seq<Interface>, ranges: bool)
    ensures forall c :: c in CasesOver(bases, ranges) ==> c.k < |c.owner.ops| && IsRange(c.owner.ops[c.k]) == ranges
    decreases bases, 0
  {
    if bases != [] {
      CasesAreOfKind(bases[0], ranges);
      CasesOverAreOfKind(bases[1..], ranges);
    }
  }

  /** A server runs the named operation for every opcode of the interface and its bases exactly when
      same-numbered interfaces have different function IDs, no opcode lies in a range, and ranges
      do not overlap.  A base reached twice does no harm here. */
  lemma EveryOperationDispatchedIff(l: Layout, i: Interface)
    requires AllSound(l, i)
    ensures var (rs, cs) := (CasesFor(i, true), CasesFor(i, false));
      EveryCaseRuns(l, rs, cs) <==> Apart(i) && LabelsOutsideRanges(l, rs, cs) && RangesDisjoint(l, rs)
  {
    hide AllSound, EveryCaseRuns, OneCaseEach, Apart, LabelsOutsideRanges, RangesDisjoint, CaseOpcode;
    var (rs, cs) := (CasesFor(i, true), CasesFor(i, false));
    CasesAreOfKind(i, true);
    CasesAreOfKind(i, false);
    forall c | c in cs ensures Usable(l, c) && c !in rs { CaseFacts(l, i, c); }
    EveryCaseRunsIff(l, rs, cs);
    OneCaseEachIff(l, i);
  }

  predicate NoRanges(i: Interface)
  {
    forall k :: 0 <= k < |i.ops| ==> !IsRange(i.ops[k])
  }

  /** Without ranges the first condition is all. */
  lemma DispatchedWithoutRanges(l: Layout, i: Interface)
    requires AllSound(l, i) && forall x :: x in Visits(i) ==> NoRanges(x)
    ensures CasesFor(i, true) == []
    ensures EveryCaseRuns(l, CasesFor(i, true), CasesFor(i, false)) <==> Apart(i)
  {
    hide AllSound, Apart, EveryCaseRuns;
    VisitsAreBases(i);
    NoRangeCases(i);
    EveryOperationDispatchedIff(l, i);
  }

  lemma {:induction false} NoOwnRanges(i: Interface, k: nat)
    requires NoRanges(i) && k <= |i.ops|
    ensures OwnCases(i, k, true) == []
    decreases |i.ops| - k
  {
    if k < |i.ops| {
      NoOwnRanges(i, k + 1);
    }
  }

  lemma {:induction false} NoRangeCases(i: Interface)
    requires NoRanges(i) && forall x :: IsBase(x, i) ==> NoRanges(x)
    ensures CasesFor(i, true) == []
    decreases i, 1
  {
    NoOwnRanges(i, 0);
    forall x | BaseAmong(x, i.bases) ensures NoRanges(x) { assert IsBase(x, i); }
    NoRangeCasesOver(i.bases);
  }

  lemma {:induction false} NoRangeCasesOver(bases: seq<Interface>)
    requires forall x :: BaseAmong(x, bases) ==> NoRanges(x)
    ensures CasesOver(bases, true) == []
    decreases bases, 0
  {
    if bases != [] {
      forall x | x == bases[0] || IsBase(x, bases[0]) || BaseAmong(x, bases[1..]) ensures NoRanges(x) { BaseAmongCons(x, bases); }
      NoRangeCases(bases[0]);
      NoRangeCasesOver(bases[1..]);
    }
  }

  // ---------------------------------------------------------------- a range reserves its lower end only

  lemma RangeNumbers(a: Operation, b: Operation, number: Option<int>, upper: int)
    requires a.uuid == Some(Range(1, upper, false)) && b.uuid.None?
    ensures var i := Interface(0, number, [], [a, b]);
      Accepted(i) && OperationNumber(i, 0) == Some(1) && OperationNumber(i, 1) == Some(3)
  {
    var i := Interface(0, number, [], [a, b]);
    var ops := i.ops;
    assert ops[1..] == [b] && [b][1..] == [] && [i][1..] == [];
    assert SameNumbered(i) == [] && SameNumbered(i) + [i] == [i];
    assert BaseRange(i, 1) == Some(0);
    assert ScanOps(i, [b], map[1 := a.name]) == ScanOps(i, [], map[1 := a.name]) == Some(map[1 := a.name]);
    assert ScanOps(i, ops, map[]) == Some(map[1 := a.name]);
    assert ScanInterfaces([i], map[]) == ScanInterfaces([], map[1 := a.name]);
    var taken := map[1 := a.name].Keys;
    assert Predefined(i).value.Keys == taken == {1};
    CountPastOne(taken);
  }

  lemma CountPastOne(taken: set<int>)
    requires taken == {1}
    ensures Counter(0, 1, taken) == 2 && Counter(0, 2, taken) == 3
  {
    hide Skip;
    assert Skip(1, taken) == 2 by { assert 2 !in taken; }
    assert Skip(3, taken) == 3 by { assert 3 !in taken; }
    assert Counter(0, 0, taken) == 0;
    assert Counter(0, 1, taken) == Skip(Counter(0, 0, taken) + 1, taken);
    assert Counter(0, 2, taken) == Skip(Counter(0, 1, taken) + 1, taken);
  }

  /** An operation behind a range is given an ID inside the range, and the server runs the range's
      function for it. */
  lemma RangeCaptures(l: Layout, a: Operation, b: Operation, number: int, upper: int)
    requires a.uuid == Some(Range(1, upper, false)) && b.uuid.None? && !a.isOut && !b.isOut
    requires 3 < upper && InWord(l, number, upper)
    ensures var i := Interface(0, Some(number), [], [a, b]);
      && Accepted(i) && CasesFor(i, true) == [Case(i, 0)] && CasesFor(i, false) == [Case(i, 1)]
      && CaseOpcode(l, Case(i, 1)).Some?
      && Select(l, CasesFor(i, true), CasesFor(i, false), CaseOpcode(l, Case(i, 1)).value) == Some(Case(i, 0))
  {
    var i := Interface(0, Some(number), [], [a, b]);
    hide OperationNumber, Predefined;
    RangeNumbers(a, b, Some(number), upper);
    NoOwnCases(i);
    OwnCasesStep(i, 1, true);
    OwnCasesStep(i, 1, false);
    OwnCasesStep(i, 0, true);
    OwnCasesStep(i, 0, false);
    NoCasesOver();
    assert CasesFor(i, true) == [Case(i, 0)] && CasesFor(i, false) == [Case(i, 1)];
    InOrder(l, number, 1, 3);
    InOrder(l, number, 3, upper);
  }

  lemma InOrder(l: Layout, number: int, id: int, id': int)
    requires 0 <= id < id' && InWord(l, number, id')
    ensures Opcode(l, number, id) < Opcode(l, number, id')
  {
    OpcodeHolds(l, number, id);
    OpcodeHolds(l, number, id');
  }
}
