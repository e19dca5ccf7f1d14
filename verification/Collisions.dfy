/** When two cases of a server's switch carry one opcode (dice/src/be/BEClass.cpp,
    dice/src/be/BEDispatchFunction.cpp): exactly when, for every inheritance graph dice accepts. */
module Collisions {
  import opened Wrappers
  import opened Numbering
  import opened NumberingLaws
  import opened NumberingUnique
  import opened Dispatch

  // ---------------------------------------------------------------- what is asked of the numbers

  predicate IsAbsolute(op: Operation)
  {
    op.uuid.Some? && op.uuid.value.absolute
  }

  /** Accepted by dice, with numbers that fit the opcode word and no absolute uuid. */
  ghost predicate Sound(l: Layout, i: Interface)
  {
    && Accepted(i)
    && forall k :: 0 <= k < |i.ops| ==>
        InWord(l, InterfaceNumber(i), OperationNumber(i, k).value) && !IsAbsolute(i.ops[k])
  }

  ghost predicate AllSound(l: Layout, i: Interface)
  {
    Sound(l, i) && forall x :: IsBase(x, i) ==> Sound(l, x)
  }

  ghost predicate Usable(l: Layout, c: Case)
  {
    CaseOpcode(l, c).Some?
  }

  /** No opcode labels two cases. */
  ghost predicate NoCollision(l: Layout, cs: seq<Case>)
  {
    forall a, b :: 0 <= a < b < |cs| ==>
      Usable(l, cs[a]) && Usable(l, cs[b]) && CaseOpcode(l, cs[a]) != CaseOpcode(l, cs[b])
  }

  /** The operation gets a label of the switch. */
  predicate Labelled(x: Interface, k: nat)
  {
    k < |x.ops| && !x.ops[k].isOut && !IsRange(x.ops[k])
  }

  /** The labelled operations of the two interfaces have different function IDs. */
  ghost predicate DisjointIds(x: Interface, y: Interface)
  {
    forall j: nat, k: nat :: Labelled(x, j) && Labelled(y, k) ==> OperationNumber(x, j) != OperationNumber(y, k)
  }

  ghost predicate SameNumberPair(i: Interface, x: Interface, y: Interface)
  {
    x in Visits(i) && y in Visits(i) && x != y && InterfaceNumber(x) == InterfaceNumber(y)
  }

  /** Interfaces with the same number have different function IDs. */
  ghost predicate Apart(i: Interface)
  {
    forall x, y :: SameNumberPair(i, x, y) ==> DisjointIds(x, y)
  }

  // ---------------------------------------------------------------- the theorem

  /** Two operations share an opcode exactly when they share both numbers. */
  lemma SameOpcodeIff(l: Layout, c: Case, d: Case)
    requires c.k < |c.owner.ops| && d.k < |d.owner.ops| && Sound(l, c.owner) && Sound(l, d.owner)
    ensures Usable(l, c) && Usable(l, d)
    ensures CaseOpcode(l, c) == CaseOpcode(l, d) <==>
      InterfaceNumber(c.owner) == InterfaceNumber(d.owner) && OperationNumber(c.owner, c.k) == OperationNumber(d.owner, d.k)
  {
    hide OperationNumber, InterfaceNumber, Opcode, InWord, OpcodeNumber, OpcodeId;
    assert OperationNumber(c.owner, c.k).Some? && OperationNumber(d.owner, d.k).Some? by { NumberSome(c); NumberSome(d); }
    OpcodeDecodes(l, InterfaceNumber(c.owner), OperationNumber(c.owner, c.k).value);
    OpcodeDecodes(l, InterfaceNumber(d.owner), OperationNumber(d.owner, d.k).value);
  }

  lemma NumberSome(c: Case)
    requires c.k < |c.owner.ops| && Accepted(c.owner)
    ensures OperationNumber(c.owner, c.k).Some?
  {
  }

  lemma CaseFacts(l: Layout, i: Interface, c: Case)
    requires AllSound(l, i)
    ensures c in CasesFor(i, false) <==> c.owner in Visits(i) && Labelled(c.owner, c.k)
    ensures c in CasesFor(i, false) ==> Sound(l, c.owner) && Usable(l, c)
  {
    CasesAreVisits(i);
    VisitsAreBases(i);
    CasesOfMember(Visits(i), c);
    if c in CasesFor(i, false) { SameOpcodeIff(l, c, c); }
  }

  /** Under one opcode there is one case. */
  ghost predicate OneCaseEach(l: Layout, cs: seq<Case>)
  {
    forall c, d :: c in cs && d in cs && c != d ==> CaseOpcode(l, c) != CaseOpcode(l, d)
  }

  /** Different cases have different opcodes exactly when same-numbered interfaces are apart. */
  lemma OneCaseEachIff(l: Layout, i: Interface)
    requires AllSound(l, i)
    ensures OneCaseEach(l, CasesFor(i, false)) <==> Apart(i)
  {
    hide OperationNumber, InterfaceNumber, CasesFor, CaseOpcode, AllSound, Sound, Visits;
    var cs := CasesFor(i, false);
    if Apart(i) {
      forall c, d | c in cs && d in cs && c != d ensures CaseOpcode(l, c) != CaseOpcode(l, d) {
        CaseFacts(l, i, c);
        CaseFacts(l, i, d);
        SameOpcodeIff(l, c, d);
        if c.owner == d.owner {
          SoundAccepted(l, c.owner);
          if c.k < d.k { DifferentNumbers(c.owner, c.k, d.k); } else { DifferentNumbers(c.owner, d.k, c.k); }
        } else if InterfaceNumber(c.owner) == InterfaceNumber(d.owner) {
          assert SameNumberPair(i, c.owner, d.owner);
        }
      }
    }
    if OneCaseEach(l, cs) {
      forall x, y | SameNumberPair(i, x, y) ensures DisjointIds(x, y) {
        forall j: nat, k: nat | Labelled(x, j) && Labelled(y, k) ensures OperationNumber(x, j) != OperationNumber(y, k) {
          CaseFacts(l, i, Case(x, j));
          CaseFacts(l, i, Case(y, k));
          SameOpcodeIff(l, Case(x, j), Case(y, k));
        }
      }
    }
  }

  lemma SoundAccepted(l: Layout, x: Interface)
    requires Sound(l, x)
    ensures Accepted(x)
  {
  }

  /** No label is repeated exactly when opcodes tell the cases apart and no case is repeated. */
  lemma NoCollisionIsNoDup(l: Layout, cs: seq<Case>)
    requires forall c :: c in cs ==> Usable(l, c)
    ensures NoCollision(l, cs) <==> NoDup(cs) && OneCaseEach(l, cs)
  {
    hide CaseOpcode;
    if NoDup(cs) && OneCaseEach(l, cs) {
      forall a, b | 0 <= a < b < |cs|
        ensures Usable(l, cs[a]) && Usable(l, cs[b]) && CaseOpcode(l, cs[a]) != CaseOpcode(l, cs[b])
      {
        assert cs[a] in cs && cs[b] in cs;
      }
    }
    if NoCollision(l, cs) {
      forall a, b | 0 <= a < b < |cs| ensures cs[a] != cs[b] { }
      forall c, d | c in cs && d in cs && c != d ensures CaseOpcode(l, c) != CaseOpcode(l, d) {
        var a :| 0 <= a < |cs| && cs[a] == c;
        var b :| 0 <= b < |cs| && cs[b] == d;
      }
    }
  }

  /** The switch has no repeated label exactly when no interface with a case is reached twice and
      interfaces with the same number have different function IDs. */
  lemma NoCollisionIff(l: Layout, i: Interface)
    requires AllSound(l, i)
    ensures NoCollision(l, CasesFor(i, false)) <==> NoRepeat(Visits(i)) && Apart(i)
  {
    hide CaseOpcode, AllSound, OneCaseEach, NoRepeat, Apart;
    forall c | c in CasesFor(i, false) ensures Usable(l, c) { CaseFacts(l, i, c); }
    NoCollisionIsNoDup(l, CasesFor(i, false));
    OneCaseEachIff(l, i);
    CasesAreVisits(i);
    NoDupIff(Visits(i));
  }

  // ---------------------------------------------------------------- an interface and its bases

  /** What keeps an interface apart from its bases: its numbers stay inside its range, its uuids
      out of theirs. */
  ghost predicate InRange(i: Interface)
  {
    Fits(i) && Reserved(i)
  }

  ghost predicate AllInRange(i: Interface)
  {
    InRange(i) && forall x :: IsBase(x, i) ==> InRange(x)
  }

  lemma BaseApart(i: Interface, b: Interface)
    requires IsBase(b, i) && InterfaceNumber(b) == InterfaceNumber(i)
    requires Accepted(i) && Accepted(b) && Fits(b) && Reserved(i)
    ensures DisjointIds(i, b) && DisjointIds(b, i)
  {
    hide OperationNumber;
    forall j: nat, k: nat | Labelled(i, j) && Labelled(b, k) ensures OperationNumber(i, j) != OperationNumber(b, k) {
      IdsDisjoint(i, b, j, k);
    }
  }

  /** Exactly when an interface is apart from a base: only numbers behind the range of the base can
      be met again. */
  lemma BaseApartIff(i: Interface, b: Interface)
    requires IsBase(b, i) && InterfaceNumber(b) == InterfaceNumber(i)
    requires Accepted(i) && Accepted(b) && Reserved(i)
    ensures DisjointIds(i, b) <==>
      forall j: nat, k: nat :: Labelled(i, j) && Labelled(b, k) && Overflows(b, k) ==> OperationNumber(i, j) != OperationNumber(b, k)
  {
    hide OperationNumber, Overflows;
    forall j: nat, k: nat | Labelled(i, j) && Labelled(b, k) && !Overflows(b, k)
      ensures OperationNumber(i, j) != OperationNumber(b, k)
    {
      IdsDisjoint(i, b, j, k);
    }
  }

  predicate Comparable(x: Interface, y: Interface)
  {
    IsBase(x, y) || IsBase(y, x)
  }

  /** Then only interfaces of which neither derives from the other can collide. */
  lemma OnlyIncomparable(l: Layout, i: Interface)
    requires AllSound(l, i) && AllInRange(i)
    ensures NoCollision(l, CasesFor(i, false)) <==>
      && NoRepeat(Visits(i))
      && (forall x, y :: SameNumberPair(i, x, y) && !Comparable(x, y) ==> DisjointIds(x, y))
  {
    hide DisjointIds, NoRepeat, NoCollision, Fits, Reserved;
    NoCollisionIff(l, i);
    VisitsAreBases(i);
    forall x, y | SameNumberPair(i, x, y) && Comparable(x, y) ensures DisjointIds(x, y) {
      if IsBase(x, y) { BaseApart(y, x); } else { BaseApart(x, y); }
    }
  }

  // ---------------------------------------------------------------- graphs without uuids

  lemma NothingTaken(i: Interface)
    requires PlainDag(i) && Accepted(i)
    ensures Taken(i) == {}
  {
    hide Taken, Accepted, InterfaceNumber, SameNumbered;
    SameNumberedFacts(i);
    TakenFacts(i);
    forall x | x in SameNumbered(i) ensures UuidSet(x.ops) == {} { assert NoUuids(x); }
    assert UuidSet(i.ops) == {};
    assert forall u :: u !in Taken(i);
  }

  /** The function IDs are consecutive from the start on. */
  lemma PlainIds(i: Interface, k: nat)
    requires PlainDag(i) && k < |i.ops|
    ensures Accepted(i) && OperationNumber(i, k) == Some(Start(i) + k + 1)
  {
    hide Taken, Accepted, Start;
    PlainFits(i);
    NothingTaken(i);
    assert IsPlain(i, k);
    PlainNumber(i, k);
    CounterWithoutTaken(Start(i), k + 1, Taken(i));
  }

  lemma {:induction false} CounterWithoutTaken(start: int, k: nat, taken: set<int>)
    requires taken == {}
    ensures Counter(start, k, taken) == start + k
  {
    if k > 0 {
      CounterWithoutTaken(start, k - 1, taken);
    }
  }

  /** Some labelled operations of `x` and `y` are at the same place of the number line. */
  ghost predicate Meet(x: Interface, y: Interface)
  {
    exists j: nat, k: nat :: Labelled(x, j) && Labelled(y, k) && Start(x) + j == Start(y) + k
  }

  lemma PlainDisjointIff(x: Interface, y: Interface)
    requires PlainDag(x) && PlainDag(y)
    ensures DisjointIds(x, y) <==> !Meet(x, y)
  {
    hide OperationNumber, Start;
    if !Meet(x, y) {
      forall j: nat, k: nat | Labelled(x, j) && Labelled(y, k) ensures OperationNumber(x, j) != OperationNumber(y, k) {
        PlainIds(x, j);
        PlainIds(y, k);
      }
    } else {
      var j: nat, k: nat :| Labelled(x, j) && Labelled(y, k) && Start(x) + j == Start(y) + k;
      PlainIds(x, j);
      PlainIds(y, k);
    }
  }

  /** The numbers from the start on, one for each operation, do not overlap. */
  ghost predicate SeparateRanges(x: Interface, y: Interface)
  {
    x.ops == [] || y.ops == [] || Start(x) + |x.ops| <= Start(y) || Start(y) + |y.ops| <= Start(x)
  }

  predicate NoOuts(x: Interface)
  {
    forall k :: 0 <= k < |x.ops| ==> !x.ops[k].isOut
  }

  lemma RangesIff(x: Interface, y: Interface)
    requires NoUuids(x) && NoUuids(y)
    ensures SeparateRanges(x, y) ==> !Meet(x, y)
    ensures NoOuts(x) && NoOuts(y) ==> (SeparateRanges(x, y) <==> !Meet(x, y))
  {
    hide Start;
    if NoOuts(x) && NoOuts(y) && !SeparateRanges(x, y) {
      if Start(x) <= Start(y) {
        assert Labelled(x, Start(y) - Start(x)) && Labelled(y, 0);
      } else {
        assert Labelled(x, 0) && Labelled(y, Start(x) - Start(y));
      }
    }
  }

  /** Numbers fit the opcode word. */
  ghost predicate WithinMask(l: Layout, i: Interface)
  {
    forall x, k :: x in Visits(i) && 0 <= k < |x.ops| && OperationNumber(x, k).Some? ==>
      InWord(l, InterfaceNumber(x), OperationNumber(x, k).value)
  }

  lemma PlainSound(l: Layout, i: Interface)
    requires PlainDag(i) && WithinMask(l, i)
    ensures AllSound(l, i)
    ensures forall x :: x in Visits(i) ==> PlainDag(x)
  {
    VisitsAreBases(i);
    forall x | x in Visits(i) ensures PlainDag(x) && Sound(l, x) {
      if x != i { PlainBase(x, i); }
      PlainFits(x);
    }
  }

  /** For every inheritance graph without operation uuids: no label is repeated exactly when no
      interface with a case is reached twice and no two same-numbered interfaces have labelled
      operations at the same place. */
  lemma PlainCollisionIff(l: Layout, i: Interface)
    requires PlainDag(i) && WithinMask(l, i)
    ensures NoCollision(l, CasesFor(i, false)) <==>
      NoRepeat(Visits(i)) && forall x, y :: SameNumberPair(i, x, y) ==> !Meet(x, y)
  {
    hide DisjointIds, Meet, NoRepeat, NoCollision, WithinMask;
    PlainSound(l, i);
    NoCollisionIff(l, i);
    forall x, y | SameNumberPair(i, x, y) ensures DisjointIds(x, y) <==> !Meet(x, y) {
      PlainDisjointIff(x, y);
    }
  }

  /** Without OUT functions: exactly when the ranges of same-numbered interfaces are separate. */
  lemma PlainRangesIff(l: Layout, i: Interface)
    requires PlainDag(i) && WithinMask(l, i)
    requires forall x :: x in Visits(i) ==> NoOuts(x)
    ensures NoCollision(l, CasesFor(i, false)) <==>
      NoRepeat(Visits(i)) && forall x, y :: SameNumberPair(i, x, y) ==> SeparateRanges(x, y)
  {
    hide Meet, SeparateRanges, NoRepeat, NoCollision, WithinMask, NoOuts;
    PlainCollisionIff(l, i);
    PlainSound(l, i);
    forall x, y | SameNumberPair(i, x, y) ensures SeparateRanges(x, y) <==> !Meet(x, y) {
      RangesIff(x, y);
    }
  }

  /** Two different interfaces without bases that share a number and begin with a labelled
      operation always collide. */
  lemma RootsCollide(l: Layout, i: Interface, x: Interface, y: Interface)
    requires PlainDag(i) && WithinMask(l, i) && SameNumberPair(i, x, y)
    requires x.bases == [] && y.bases == [] && Labelled(x, 0) && Labelled(y, 0)
    ensures !NoCollision(l, CasesFor(i, false))
  {
    hide WithinMask, NoCollision, NoRepeat;
    PlainCollisionIff(l, i);
    assert Start(x) == 0 == Start(y);
    assert Meet(x, y);
  }

  // ---------------------------------------------------------------- single inheritance

  predicate IsChain(i: Interface)
    decreases i
  {
    |i.bases| <= 1 && (|i.bases| == 1 ==> IsChain(i.bases[0]))
  }

  lemma {:induction false} ChainVisits(i: Interface)
    requires IsChain(i)
    ensures forall a, b :: 0 <= a < b < |Visits(i)| ==> IsBase(Visits(i)[b], Visits(i)[a])
    decreases i
  {
    var vs := Visits(i);
    if |i.bases| == 1 {
      var b0 := i.bases[0];
      ChainVisits(b0);
      assert i.bases[1..] == [];
      assert VisitsOver(i.bases) == Visits(b0) + VisitsOver([]);
      assert vs == [i] + Visits(b0);
      VisitsAreBases(b0);
      forall a, b | 0 <= a < b < |vs| ensures IsBase(vs[b], vs[a]) {
        if a == 0 {
          assert vs[b] in Visits(b0);
          assert vs[b] == b0 || IsBase(vs[b], b0);
        }
      }
    } else {
      assert i.bases == [];
    }
  }

  /** On a chain nothing is reached twice and any two interfaces are comparable. */
  lemma ChainIsOrderly(i: Interface)
    requires IsChain(i)
    ensures NoRepeat(Visits(i))
    ensures forall x, y :: x in Visits(i) && y in Visits(i) && x != y ==> Comparable(x, y)
  {
    var vs := Visits(i);
    ChainVisits(i);
    forall a, b | 0 <= a < b < |vs| ensures vs[a] != vs[b] { BaseSmaller(vs[b], vs[a]); }
    forall x, y | x in vs && y in vs && x != y ensures Comparable(x, y) {
      var a :| 0 <= a < |vs| && vs[a] == x;
      var b :| 0 <= b < |vs| && vs[b] == y;
    }
  }

  /** No two cases collide: every single-inheritance chain without operation uuids whose numbers
      fit the opcode word, and every case decodes to its numbers. */
  lemma ChainNoCollision(l: Layout, i: Interface)
    requires IsChain(i) && PlainDag(i) && WithinMask(l, i)
    ensures NoCollision(l, CasesFor(i, false))
    ensures forall c :: c in CasesFor(i, false) ==>
      && Usable(l, c) && OperationNumber(c.owner, c.k).Some?
      && OpcodeNumber(l, CaseOpcode(l, c).value) == InterfaceNumber(c.owner)
      && OpcodeId(l, CaseOpcode(l, c).value) == OperationNumber(c.owner, c.k).value
  {
    hide NoCollision, NoRepeat, WithinMask, Opcode;
    PlainSound(l, i);
    forall x | x in Visits(i) ensures InRange(x) { PlainFits(x); }
    VisitsAreBases(i);
    ChainIsOrderly(i);
    OnlyIncomparable(l, i);
    forall c | c in CasesFor(i, false)
      ensures Usable(l, c) && OperationNumber(c.owner, c.k).Some?
      ensures OpcodeNumber(l, CaseOpcode(l, c).value) == InterfaceNumber(c.owner)
      ensures OpcodeId(l, CaseOpcode(l, c).value) == OperationNumber(c.owner, c.k).value
    {
      CaseFacts(l, i, c);
      OpcodeDecodes(l, InterfaceNumber(c.owner), OperationNumber(c.owner, c.k).value);
    }
  }
}
