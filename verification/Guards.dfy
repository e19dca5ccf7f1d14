/** What the two collision checks of dice guarantee (dice/src/be/BEClass.cpp): that of a uuid
    against the ranges of the bases, and the pairwise one of the direct bases. */
module Guards {
  import opened Wrappers
  import opened Numbering
  import opened NumberingLaws
  import opened NumberingUnique
  import opened Dispatch
  import opened Collisions

  // ---------------------------------------------------------------- uuids against bases

  lemma {:induction false} AboveIsFree(bases: seq<Interface>, number: int, uuid: int, taken: nat)
    requires uuid <= 0 || uuid > taken + SumOfMax(Checked(bases, number))
    ensures BaseRangeOver(bases, number, uuid, taken).Some?
    decreases bases
  {
    if bases != [] {
      var b := bases[0];
      if InterfaceNumber(b) != number {
        AboveIsFree(bases[1..], number, uuid, taken);
      } else {
        var below := Checked(b.bases, number);
        SumConcat(below, [b]);
        SumConcat(below + [b], Checked(bases[1..], number));
        assert SumOfMax([b]) == MaxOpcodeNumber(b) by { assert [b][1..] == []; }
        AboveIsFree(b.bases, number, uuid, 0);
        BaseRangeIsSum(b.bases, number, uuid, 0);
        AboveIsFree(bases[1..], number, uuid, taken + SumOfMax(below) + MaxOpcodeNumber(b));
      }
    }
  }

  /** Exactly which uuids the check lets pass. */
  lemma UuidCheckIff(i: Interface, uuid: int)
    ensures BaseRange(i, uuid).Some? <==> uuid <= 0 || uuid > SumOfMax(Checked(i.bases, InterfaceNumber(i)))
  {
    if uuid <= 0 || uuid > SumOfMax(Checked(i.bases, InterfaceNumber(i))) {
      AboveIsFree(i.bases, InterfaceNumber(i), uuid, 0);
    } else {
      if BaseRange(i, uuid).Some? { BaseRangeIsSum(i.bases, InterfaceNumber(i), uuid, 0); }
    }
  }

  /** Exactly when the check keeps every positive uuid out of the ranges of the same-numbered
      bases: when the bases it looks at take up as much as all of them. */
  lemma UuidCheckGuardsIff(i: Interface)
    ensures (forall uuid :: BaseRange(i, uuid).Some? ==> uuid <= 0 || uuid > Start(i)) <==>
      Start(i) <= SumOfMax(Checked(i.bases, InterfaceNumber(i)))
  {
    hide BaseRange, Checked, SumOfMax, Start, InterfaceNumber;
    var sum: nat := SumOfMax(Checked(i.bases, InterfaceNumber(i)));
    forall uuid ensures BaseRange(i, uuid).Some? <==> uuid <= 0 || uuid > sum { UuidCheckIff(i, uuid); }
    assert BaseRange(i, sum + 1).Some? && sum + 1 > 0;
  }

  /** One common function ID of an interface and a same-numbered base is enough. */
  lemma MeetingCollides(l: Layout, i: Interface, b: Interface, j: nat, k: nat)
    requires AllSound(l, i) && IsBase(b, i) && InterfaceNumber(b) == InterfaceNumber(i)
    requires Labelled(i, j) && Labelled(b, k) && OperationNumber(i, j) == OperationNumber(b, k)
    ensures !NoCollision(l, CasesFor(i, false))
  {
    hide AllSound, NoCollision, NoRepeat, OperationNumber, InterfaceNumber;
    VisitsAreBases(i);
    BaseSmaller(b, i);
    NoCollisionIff(l, i);
    assert SameNumberPair(i, i, b);
    assert !DisjointIds(i, b);
  }

  /** A same-numbered base behind an interface with another number is not looked at: its operation
      and the uuid of the derived one get the same function ID. */
  lemma SkippedBase(l: Layout, f: Operation, u: Operation)
    requires f.uuid.None? && !f.isOut && u.uuid == Some(Single(1, false)) && !u.isOut
    ensures var x := Interface(1, Some(7), [], [f]);
      var m := Interface(2, Some(8), [x], []);
      var i := Interface(3, Some(7), [m], [u]);
      && Accepted(i) && Accepted(x) && OperationNumber(i, 0) == OperationNumber(x, 0) == Some(1)
      && AllSound(l, i) && !NoCollision(l, CasesFor(i, false))
  {
    var x := Interface(1, Some(7), [], [f]);
    var m := Interface(2, Some(8), [x], []);
    var i := Interface(3, Some(7), [m], [u]);
    SkippedNumbers(f, u);
    hide Predefined, Start, SameNumbered;
    PlainDagOf(x);
    PlainDagOver(m, x);
    PlainIds(x, 0);
    PlainFits(m);
    SmallInWord(l, 7, 1);
    BasesOfOne(i, m);
    BasesOfOne(m, x);
    BasesOfNone(x);
    assert Sound(l, i) && Sound(l, m) && Sound(l, x);
    assert Labelled(i, 0) && Labelled(x, 0);
    MeetingCollides(l, i, x, 0, 0);
  }

  lemma SkippedNumbers(f: Operation, u: Operation)
    requires f.uuid.None? && u.uuid == Some(Single(1, false))
    ensures var x := Interface(1, Some(7), [], [f]);
      var i := Interface(3, Some(7), [Interface(2, Some(8), [x], [])], [u]);
      Accepted(i) && OperationNumber(i, 0) == Some(1) && Start(x) == 0
  {
    var x := Interface(1, Some(7), [], [f]);
    var m := Interface(2, Some(8), [x], []);
    var i := Interface(3, Some(7), [m], [u]);
    assert [m][1..] == [] && [x][1..] == [] && [f][1..] == [] && [u][1..] == [];
    assert FindInBases([x], 7, []) == [x];
    assert FindInBases([m], 7, []) == FindInBases([], 7, FindInBases([x], 7, []));
    assert SameNumbered(i) == [x];
    var xs := SameNumbered(i) + [i];
    assert xs == [x, i] && xs[1..] == [i] && [i][1..] == [];
    assert ScanOps(x, [f], map[]) == ScanOps(x, [], map[]) == Some(map[]);
    assert InterfaceNumber(m) == 8 && InterfaceNumber(i) == 7;
    assert BaseRange(i, 1) == BaseRangeOver([m], 7, 1, 0) == BaseRangeOver([], 7, 1, 0);
    assert ScanOps(i, [u], map[]) == ScanOps(i, [], map[1 := u.name]) == Some(map[1 := u.name]);
    assert ScanInterfaces([i], map[]) == ScanInterfaces([], map[1 := u.name]);
    assert ScanInterfaces(xs, map[]) == ScanInterfaces([i], map[]);
  }

  lemma BasesOfOne(i: Interface, b: Interface)
    requires i.bases == [b]
    ensures forall x :: IsBase(x, i) <==> x == b || IsBase(x, b)
  {
    forall x | x == b || IsBase(x, b) ensures IsBase(x, i) { assert x == i.bases[0] || IsBase(x, i.bases[0]); }
  }

  lemma BasesOfNone(i: Interface)
    requires i.bases == []
    ensures forall x :: !IsBase(x, i)
  {
  }

  lemma BasesOfTwo(i: Interface, b: Interface, c: Interface)
    requires i.bases == [b, c]
    ensures forall x :: IsBase(x, i) <==> x == b || IsBase(x, b) || x == c || IsBase(x, c)
  {
    forall x | x == b || IsBase(x, b) ensures IsBase(x, i) { assert x == i.bases[0] || IsBase(x, i.bases[0]); }
    forall x | x == c || IsBase(x, c) ensures IsBase(x, i) { assert x == i.bases[1] || IsBase(x, i.bases[1]); }
  }

  lemma PlainDagOf(x: Interface)
    requires x.bases == [] && NoUuids(x)
    ensures PlainDag(x)
  {
  }

  lemma PlainDagOver(i: Interface, b: Interface)
    requires i.bases == [b] && NoUuids(i) && PlainDag(b)
    ensures PlainDag(i)
  {
  }

  // ---------------------------------------------------------------- direct bases against each other

  /** The interfaces whose direct bases are compared: the interface itself, and those reached
      through bases that have a successor. */
  predicate Examined(x: Interface, i: Interface)
    decreases i
  {
    x == i || exists a :: 0 <= a < |i.bases| - 1 && Examined(x, i.bases[a])
  }

  ghost predicate BasesPairwise(x: Interface)
  {
    forall a, b :: 0 <= a < b < |x.bases| ==> PairPasses(x.bases[a], x.bases[b])
  }

  /** Two interfaces fail against each other exactly when they share their number and one of their
      pairs of operations cannot be numbered or has one function ID; so the order does not matter. */
  lemma PairFailsIff(x: Interface, y: Interface)
    ensures !PairPasses(x, y) <==>
      && InterfaceNumber(x) == InterfaceNumber(y)
      && exists j, k :: 0 <= j < |x.ops| && 0 <= k < |y.ops| && Clash(x, j, y, k)
    ensures PairPasses(x, y) <==> PairPasses(y, x)
  {
    hide InterfaceNumber, Predefined;
    if InterfaceNumber(x) == InterfaceNumber(y) && x.ops != [] && y.ops != [] {
      NumberedIff(x, 0);
      NumberedIff(y, 0);
      assert Clash(x, 0, y, 0) <== Predefined(x).None? || Predefined(y).None?;
      forall j, k | 0 <= j < |x.ops| && 0 <= k < |y.ops|
        ensures Clash(x, j, y, k) <==>
          Predefined(x).None? || Predefined(y).None? || OperationNumber(x, j) == OperationNumber(y, k)
      {
        NumberedIff(x, j);
        NumberedIff(y, k);
      }
    }
  }

  ghost predicate Clash(x: Interface, j: nat, y: Interface, k: nat)
    requires j < |x.ops| && k < |y.ops|
  {
    OperationNumber(x, j).None? || OperationNumber(y, k).None? || OperationNumber(x, j) == OperationNumber(y, k)
  }

  lemma NumberedIff(x: Interface, k: nat)
    requires k < |x.ops|
    ensures OperationNumber(x, k).Some? <==> Predefined(x).Some?
  {
  }

  /** Exactly what the check guarantees. */
  lemma {:induction false} SiblingsPassIff(i: Interface)
    ensures SiblingsPass(i) <==> forall x :: Examined(x, i) ==> BasesPairwise(x)
    decreases i
  {
    hide PairPasses;
    forall a | 0 <= a < |i.bases| - 1
      ensures SiblingsPass(i.bases[a]) <==> forall x :: Examined(x, i.bases[a]) ==> BasesPairwise(x)
    {
      SiblingsPassIff(i.bases[a]);
    }
    if SiblingsPass(i) {
      forall x | Examined(x, i) ensures BasesPairwise(x) {
        if x != i {
          var a :| 0 <= a < |i.bases| - 1 && Examined(x, i.bases[a]);
          assert SiblingsPass(i.bases[a]);
        }
      }
    }
    if forall x :: Examined(x, i) ==> BasesPairwise(x) {
      assert Examined(i, i);
      forall a | 0 <= a < |i.bases| - 1 ensures SiblingsPass(i.bases[a]) {
        forall x | Examined(x, i.bases[a]) ensures BasesPairwise(x) { assert Examined(x, i); }
      }
    }
  }

  // ---------------------------------------------------------------- two levels

  /** Every base is without bases. */
  predicate TwoLevels(i: Interface)
  {
    forall a :: 0 <= a < |i.bases| ==> i.bases[a].bases == []
  }

  /** Direct bases that share the number of `i` have their numbers inside their ranges. */
  ghost predicate SharingBasesFit(i: Interface)
  {
    forall a :: 0 <= a < |i.bases| && InterfaceNumber(i.bases[a]) == InterfaceNumber(i) ==> Fits(i.bases[a])
  }

  /** And the interface shares no function ID with a direct base that shares its number. */
  ghost predicate ApartFromBases(i: Interface)
  {
    forall a :: 0 <= a < |i.bases| && InterfaceNumber(i.bases[a]) == InterfaceNumber(i) ==> DisjointIds(i, i.bases[a])
  }

  lemma {:induction false} FlatVisits(bases: seq<Interface>)
    requires forall a :: 0 <= a < |bases| ==> bases[a].bases == []
    ensures VisitsOver(bases) == bases
  {
    if bases != [] {
      FlatVisits(bases[1..]);
      RootVisits(bases[0]);
      hide Visits;
      assert bases == [bases[0]] + bases[1..];
    }
  }

  lemma RootVisits(b: Interface)
    requires b.bases == []
    ensures Visits(b) == [b]
  {
    assert VisitsOver([]) == [];
  }

  lemma RootFacts(b: Interface)
    requires b.bases == []
    ensures SiblingsPass(b)
  {
  }

  lemma PassingApart(x: Interface, y: Interface)
    requires PairPasses(x, y) && InterfaceNumber(x) == InterfaceNumber(y)
    ensures DisjointIds(x, y) && DisjointIds(y, x)
  {
    hide OperationNumber, InterfaceNumber, Predefined;
  }

  lemma Compared(i: Interface, a: nat, b: nat)
    requires SiblingsPass(i) && a < b < |i.bases|
    ensures PairPasses(i.bases[a], i.bases[b])
  {
  }

  lemma DirectBase(i: Interface, x: Interface) returns (a: nat)
    requires TwoLevels(i) && x in Visits(i) && x != i
    ensures a < |i.bases| && i.bases[a] == x && IsBase(x, i)
  {
    FlatVisits(i.bases);
    assert Visits(i) == [i] + i.bases;
    a :| 0 <= a < |i.bases| && i.bases[a] == x;
  }

  lemma DisjointSwap(x: Interface, y: Interface)
    requires DisjointIds(x, y)
    ensures DisjointIds(y, x)
  {
    hide OperationNumber;
  }

  lemma DirectPair(i: Interface, x: Interface, y: Interface)
    requires TwoLevels(i) && SiblingsPass(i) && ApartFromBases(i) && SameNumberPair(i, x, y)
    ensures DisjointIds(x, y)
  {
    hide InterfaceNumber, PairPasses, DisjointIds, SiblingsPass, IsBase, Visits, TwoLevels;
    if x == i {
      var b := DirectBase(i, y);
    } else if y == i {
      var a := DirectBase(i, x);
      DisjointSwap(i, x);
    } else {
      var a := DirectBase(i, x);
      var b := DirectBase(i, y);
      if a < b {
        Compared(i, a, b);
        PassingApart(x, y);
      } else {
        Compared(i, b, a);
        PassingApart(y, x);
      }
    }
  }

  /** A base that is listed twice only passes when it has no operation. */
  lemma RepeatedBase(x: Interface)
    ensures PairPasses(x, x) <==> x.ops == []
  {
    if x.ops != [] {
      var n := OperationNumber(x, 0);
    }
  }

  /** Over bases that have no bases themselves the check leaves one thing open, whether the interface
      is apart from its bases: what passes and is has no repeated label. */
  lemma TwoLevelsSafe(l: Layout, i: Interface)
    requires TwoLevels(i) && AllSound(l, i) && SiblingsPass(i) && ApartFromBases(i)
    ensures NoCollision(l, CasesFor(i, false))
  {
    hide OperationNumber, InterfaceNumber, DisjointIds, NoCollision, PairPasses, AllSound, ApartFromBases;
    var vs := Visits(i);
    FlatVisits(i.bases);
    assert vs == [i] + i.bases;
    NotItsOwnBase(i);
    forall a, b | 0 <= a < b < |vs| && vs[a] == vs[b] ensures OwnCases(vs[a], 0, false) == [] {
      if a > 0 {
        assert PairPasses(i.bases[a - 1], i.bases[b - 1]);
        RepeatedBase(vs[a]);
      }
    }
    forall x, y | SameNumberPair(i, x, y) ensures DisjointIds(x, y) { DirectPair(i, x, y); }
    NoCollisionIff(l, i);
  }

  lemma NotItsOwnBase(i: Interface)
    ensures forall a :: 0 <= a < |i.bases| ==> i.bases[a] != i
  {
    forall a | 0 <= a < |i.bases| ensures i.bases[a] != i { BaseSmaller(i.bases[a], i); }
  }

  predicate BasesLabelled(i: Interface)
  {
    forall a, k: nat :: 0 <= a < |i.bases| && k < |i.bases[a].ops| ==> Labelled(i.bases[a], k)
  }

  /** Without OUT functions and ranges in the bases these two together are exact. */
  lemma TwoLevelsIff(l: Layout, i: Interface)
    requires TwoLevels(i) && AllSound(l, i) && BasesLabelled(i)
    ensures SiblingsPass(i) && ApartFromBases(i) <==> NoCollision(l, CasesFor(i, false))
  {
    hide NoCollision, AllSound, DisjointIds, PairPasses, NoRepeat, BasesLabelled, InterfaceNumber;
    if SiblingsPass(i) && ApartFromBases(i) {
      TwoLevelsSafe(l, i);
    }
    if NoCollision(l, CasesFor(i, false)) {
      NoCollisionIff(l, i);
      forall a | 0 <= a < |i.bases| - 1 ensures SiblingsPass(i.bases[a]) { RootFacts(i.bases[a]); }
      forall a, b | 0 <= a < b < |i.bases| ensures PairPasses(i.bases[a], i.bases[b]) { DirectPairPasses(l, i, a, b); }
      VisitsAreBases(i);
      NotItsOwnBase(i);
      forall a | 0 <= a < |i.bases| && InterfaceNumber(i.bases[a]) == InterfaceNumber(i) ensures DisjointIds(i, i.bases[a]) {
        assert IsBase(i.bases[a], i);
        assert SameNumberPair(i, i, i.bases[a]);
      }
    }
  }

  /** When the bases that share the number of `i` have their numbers inside their ranges, the check
      is enough by itself. */
  lemma TwoLevelsFitIff(l: Layout, i: Interface)
    requires TwoLevels(i) && AllSound(l, i) && BasesLabelled(i) && SharingBasesFit(i)
    ensures SiblingsPass(i) <==> NoCollision(l, CasesFor(i, false))
  {
    hide NoCollision, BasesLabelled, SiblingsPass;
    FittingApart(l, i);
    TwoLevelsIff(l, i);
  }

  /** A direct base is linked, so the uuid check covers it. */
  lemma DirectBaseReserved(i: Interface)
    requires TwoLevels(i) && Accepted(i)
    ensures Reserved(i)
  {
    SameNumberedFacts(i);
    forall x | x in SameNumbered(i) ensures Linked(x, i) {
      var k :| 0 <= k < |i.bases| && (x == i.bases[k] || IsBase(x, i.bases[k]));
      assert x == i.bases[k];
    }
    AcceptedIsReserved(i);
  }

  lemma FittingApart(l: Layout, i: Interface)
    requires TwoLevels(i) && AllSound(l, i) && SharingBasesFit(i)
    ensures ApartFromBases(i)
  {
    hide InterfaceNumber, Fits, InWord, DisjointIds, TwoLevels, Reserved, Accepted;
    SoundAccepted(l, i);
    DirectBaseReserved(i);
    forall a | 0 <= a < |i.bases| && InterfaceNumber(i.bases[a]) == InterfaceNumber(i) ensures DisjointIds(i, i.bases[a]) {
      assert IsBase(i.bases[a], i);
      SoundAccepted(l, i.bases[a]);
      BaseApart(i, i.bases[a]);
    }
  }

  /** A base that does not fit: its uuid, declared first, pushes its other operation to the number
      that the derived interface starts with, and nothing compares the two. */
  lemma OverflowMissed(l: Layout, u: Operation, f: Operation, g: Operation)
    requires u.uuid == Some(Single(1, false)) && f.uuid.None? && g.uuid.None?
    requires !u.isOut && !f.isOut && !g.isOut
    ensures var b := Interface(1, Some(7), [], [u, f]);
      var i := Interface(2, Some(7), [b], [g]);
      && TwoLevels(i) && AllSound(l, i) && BasesLabelled(i) && SiblingsPass(i)
      && OperationNumber(b, 1) == OperationNumber(i, 0) == Some(3)
      && !NoCollision(l, CasesFor(i, false))
  {
    var b := Interface(1, Some(7), [], [u, f]);
    var i := Interface(2, Some(7), [b], [g]);
    hide Predefined, Start, SameNumbered, OperationNumber, InWord;
    OverflowNumbers(u, f, g);
    BasesOfOne(i, b);
    BasesOfNone(b);
    SmallInWord(l, 7, 1);
    SmallInWord(l, 7, 3);
    assert Sound(l, b) && Sound(l, i);
    assert Labelled(i, 0) && Labelled(b, 1);
    MeetingCollides(l, i, b, 0, 1);
  }

  lemma OverflowNumbers(u: Operation, f: Operation, g: Operation)
    requires u.uuid == Some(Single(1, false)) && f.uuid.None? && g.uuid.None?
    ensures var b := Interface(1, Some(7), [], [u, f]);
      var i := Interface(2, Some(7), [b], [g]);
      && Accepted(b) && OperationNumber(b, 0) == Some(1) && OperationNumber(b, 1) == Some(3)
      && Accepted(i) && OperationNumber(i, 0) == Some(3)
  {
    var b := Interface(1, Some(7), [], [u, f]);
    var i := Interface(2, Some(7), [b], [g]);
    var (m, taken) := (map[1 := u.name], map[1 := u.name].Keys);
    assert b.ops[1..] == [f] && [f][1..] == [] && [g][1..] == [] && [b][1..] == [] && [i][1..] == [];
    assert SameNumbered(b) == [] && SameNumbered(b) + [b] == [b];
    assert BaseRange(b, 1) == Some(0);
    assert ScanOps(b, [f], m) == ScanOps(b, [], m) == Some(m);
    assert ScanOps(b, b.ops, map[]) == Some(m);
    assert ScanInterfaces([b], map[]) == ScanInterfaces([], m) == Some(m);
    assert FindInBases([b], 7, []) == FindInBases([], 7, FindInBases([], 7, [b]));
    assert SameNumbered(i) == [b];
    var xs := SameNumbered(i) + [i];
    assert xs == [b, i] && xs[1..] == [i];
    assert ScanOps(i, [g], m) == ScanOps(i, [], m) == Some(m);
    assert ScanInterfaces([i], m) == ScanInterfaces([], m);
    assert ScanInterfaces(xs, map[]) == ScanInterfaces([i], m);
    assert MaxUuid([f], 2) == MaxUuid([], 2) == 2;
    assert MaxOpcodeNumber(b) == 2 && Start(b) == 0;
    assert SumOfMax([b]) == 2 + SumOfMax([]);
    assert Start(i) == 2;
    assert Skip(1, taken) == 2 && Skip(3, taken) == 3;
    assert Counter(0, 1, taken) == 2 && Counter(0, 2, taken) == 3 && Counter(2, 1, taken) == 3;
  }

  lemma DirectAt(i: Interface, a: nat)
    requires TwoLevels(i) && a < |i.bases|
    ensures a + 1 < |Visits(i)| && Visits(i)[a + 1] == i.bases[a] && IsBase(i.bases[a], i)
  {
    FlatVisits(i.bases);
    assert Visits(i) == [i] + i.bases;
  }

  lemma DirectPairPasses(l: Layout, i: Interface, a: nat, b: nat)
    requires TwoLevels(i) && AllSound(l, i) && a < b < |i.bases|
    requires NoRepeat(Visits(i)) && Apart(i)
    requires BasesLabelled(i)
    ensures PairPasses(i.bases[a], i.bases[b])
  {
    hide InterfaceNumber, InWord, Accepted, PairPasses, Visits, OwnCases, IsBase, TwoLevels, DisjointIds, Labelled;
    var (x, y) := (i.bases[a], i.bases[b]);
    DirectAt(i, a);
    DirectAt(i, b);
    if x == y {
      assert OwnCases(x, 0, false) == [];
      NoCaseNoOps(x);
      RepeatedBase(x);
    } else if InterfaceNumber(x) == InterfaceNumber(y) {
      assert SameNumberPair(i, x, y);
      SoundAccepted(l, x);
      SoundAccepted(l, y);
      AllLabelledPass(x, y);
    } else {
      DifferentPass(x, y);
    }
  }

  lemma NoCaseNoOps(x: Interface)
    requires OwnCases(x, 0, false) == [] && forall k: nat :: k < |x.ops| ==> Labelled(x, k)
    ensures x.ops == []
  {
    assert |x.ops| > 0 ==> Labelled(x, 0);
  }

  lemma AllLabelledPass(x: Interface, y: Interface)
    requires Accepted(x) && Accepted(y) && DisjointIds(x, y)
    requires forall k: nat :: k < |x.ops| ==> Labelled(x, k)
    requires forall k: nat :: k < |y.ops| ==> Labelled(y, k)
    ensures PairPasses(x, y)
  {
    hide OperationNumber;
    forall j, k | 0 <= j < |x.ops| && 0 <= k < |y.ops| ensures OperationNumber(x, j) != OperationNumber(y, k) {
      assert Labelled(x, j) && Labelled(y, k);
    }
  }

  // ---------------------------------------------------------------- three levels

  /** One level deeper it is not: of two roots below different bases neither is compared with the
      other. */
  lemma CousinsMissed(l: Layout, f: Operation)
    requires f.uuid.None? && !f.isOut
    ensures var (a1, a2) := (Interface(1, None, [], [f]), Interface(2, None, [], [f]));
      var (b1, b2) := (Interface(3, Some(5), [a1], [f]), Interface(4, Some(6), [a2], [f]));
      var c := Interface(5, Some(7), [b1, b2], [f]);
      PlainDag(c) && WithinMask(l, c) && SiblingsPass(c) && !NoCollision(l, CasesFor(c, false))
  {
    var (a1, a2) := (Interface(1, None, [], [f]), Interface(2, None, [], [f]));
    var (b1, b2) := (Interface(3, Some(5), [a1], [f]), Interface(4, Some(6), [a2], [f]));
    var c := Interface(5, Some(7), [b1, b2], [f]);
    PlainDagOf(a1);
    PlainDagOf(a2);
    PlainDagOver(b1, a1);
    PlainDagOver(b2, a2);
    CousinBases(f);
    PlainDagAll(c);
    VisitsAreBases(c);
    RootNumber(a1);
    RootNumber(a2);
    forall x, k | x in Visits(c) && 0 <= k < |x.ops| && OperationNumber(x, k).Some?
      ensures InWord(l, InterfaceNumber(x), OperationNumber(x, k).value)
    {
      assert x in {c, b1, b2, a1, a2} && k == 0 && Start(x) == 0;
      assert InterfaceNumber(x) in {1, 5, 6, 7};
      PlainIds(x, k);
      SmallInWord(l, InterfaceNumber(x), 1);
    }
    assert SameNumberPair(c, a1, a2) && Labelled(a1, 0) && Labelled(a2, 0);
    RootsCollide(l, c, a1, a2);
  }

  lemma SmallInWord(l: Layout, number: int, id: int)
    requires 0 <= number < 16 && 0 <= id < 16
    ensures InWord(l, number, id)
  {
  }

  lemma PlainDagAll(c: Interface)
    requires NoUuids(c) && forall k :: 0 <= k < |c.bases| ==> PlainDag(c.bases[k])
    ensures PlainDag(c)
    ensures forall x :: x in Visits(c) ==> PlainDag(x)
  {
    VisitsAreBases(c);
    forall x | IsBase(x, c) ensures NoUuids(x) && PlainDag(x) {
      var k :| 0 <= k < |c.bases| && (x == c.bases[k] || IsBase(x, c.bases[k]));
      if x != c.bases[k] { PlainBase(x, c.bases[k]); }
    }
  }

  lemma RootNumber(x: Interface)
    requires x.bases == [] && x.uuid.None?
    ensures InterfaceNumber(x) == 1
  {
    assert NumberOver([], 1) == 1;
    assert InterfaceNumber(x) == NumberOver(x.bases, 1);
  }

  /** No base shares the number of `i`. */
  lemma OwnNumber(i: Interface)
    requires forall x :: IsBase(x, i) ==> InterfaceNumber(x) != InterfaceNumber(i)
    ensures Start(i) == 0
  {
    SameNumberedFacts(i);
    EmptyIff(SameNumbered(i));
  }

  lemma CousinBases(f: Operation)
    ensures var (a1, a2) := (Interface(1, None, [], [f]), Interface(2, None, [], [f]));
      var (b1, b2) := (Interface(3, Some(5), [a1], [f]), Interface(4, Some(6), [a2], [f]));
      var c := Interface(5, Some(7), [b1, b2], [f]);
      && (forall x :: IsBase(x, c) <==> x in {a1, a2, b1, b2})
      && Start(c) == Start(b1) == Start(b2) == Start(a1) == Start(a2) == 0
      && SiblingsPass(c)
  {
    var (a1, a2) := (Interface(1, None, [], [f]), Interface(2, None, [], [f]));
    var (b1, b2) := (Interface(3, Some(5), [a1], [f]), Interface(4, Some(6), [a2], [f]));
    var c := Interface(5, Some(7), [b1, b2], [f]);
    BasesOfTwo(c, b1, b2);
    BasesOfOne(b1, a1);
    BasesOfOne(b2, a2);
    BasesOfNone(a1);
    BasesOfNone(a2);
    RootNumber(a1);
    RootNumber(a2);
    assert InterfaceNumber(b1) == 5 && InterfaceNumber(b2) == 6 && InterfaceNumber(c) == 7;
    DifferentPass(b1, b2);
    assert SiblingsPass(b1) && SiblingsPass(c);
    hide IsBase, InterfaceNumber, SiblingsPass, SameNumbered;
    OwnNumber(c);
    OwnNumber(b1);
    OwnNumber(b2);
    OwnNumber(a1);
    OwnNumber(a2);
  }

  lemma DifferentPass(x: Interface, y: Interface)
    requires InterfaceNumber(x) != InterfaceNumber(y)
    ensures PairPasses(x, y)
  {
  }
}
