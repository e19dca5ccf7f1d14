/** The opcodes of a server and the switch that tells them apart (dice/src/be/BEClass.cpp,
    dice/src/be/BEDispatchFunction.cpp, dice/src/be/BESwitchCase.cpp). */
module Dispatch {
  import opened Wrappers
  import opened Numbering
  import opened NumberingLaws

  // ---------------------------------------------------------------- opcodes

  const WORD: int := 0x1_0000_0000

  /** Bits of the function ID: DICE_IID_BITS, with DICE_FID_MASK one bit run of that length. */
  datatype Layout = Wide | Narrow

  /** One more than DICE_FID_MASK; shifting by DICE_IID_BITS multiplies by it. */
  function Unit(l: Layout): int
  {
    if l.Wide? then 0x10_0000 else 0x1000
  }

  function Opcode(l: Layout, number: int, id: int): int
  {
    (number * Unit(l) + id % Unit(l)) % WORD
  }

  function OpcodeId(l: Layout, opcode: int): int
  {
    opcode % Unit(l)
  }

  function OpcodeNumber(l: Layout, opcode: int): int
  {
    opcode / Unit(l)
  }

  predicate InWord(l: Layout, number: int, id: int)
  {
    0 <= number < WORD / Unit(l) && 0 <= id < Unit(l)
  }

  /** Inside the word nothing wraps around. */
  lemma OpcodeHolds(l: Layout, number: int, id: int)
    requires InWord(l, number, id)
    ensures Opcode(l, number, id) == number * Unit(l) + id
  {
    if l.Wide? { Wrapless(0x10_0000, number, id); } else { Wrapless(0x1000, number, id); }
  }

  lemma Wrapless(unit: int, number: int, id: int)
    requires unit == 0x10_0000 || unit == 0x1000
    requires 0 <= number < WORD / unit && 0 <= id < unit
    ensures (number * unit + id % unit) % WORD == number * unit + id
  {
    assert id % unit == id;
  }

  /** Shift and mask are undone by mask and shift. */
  lemma OpcodeDecodes(l: Layout, number: int, id: int)
    requires InWord(l, number, id)
    ensures OpcodeNumber(l, Opcode(l, number, id)) == number && OpcodeId(l, Opcode(l, number, id)) == id
  {
    OpcodeHolds(l, number, id);
    hide Opcode;
    if l.Wide? {
      assert (number * 0x10_0000 + id) / 0x10_0000 == number;
    } else {
      assert (number * 0x1000 + id) / 0x1000 == number;
    }
  }

  // ---------------------------------------------------------------- the cases

  datatype Case = Case(owner: Interface, k: nat)

  predicate IsRange(op: Operation)
  {
    op.uuid.Some? && op.uuid.value.Range?
  }

  /** The operations of one interface, from `k` on, that are no OUT functions. */
  function OwnCases(i: Interface, k: nat, ranges: bool): (r: seq<Case>)
    requires k <= |i.ops|
    ensures forall c :: c in r ==> c.owner == i && k <= c.k < |i.ops| && !i.ops[c.k].isOut && IsRange(i.ops[c.k]) == ranges
    ensures forall n :: k <= n < |i.ops| && !i.ops[n].isOut && IsRange(i.ops[n]) == ranges ==> Case(i, n) in r
    decreases |i.ops| - k
  {
    if k == |i.ops| then []
    else
      (if !i.ops[k].isOut && IsRange(i.ops[k]) == ranges then [Case(i, k)] else []) + OwnCases(i, k + 1, ranges)
  }

  /** What `AddSwitchCases` appends to one of its two lists. */
  function CasesFor(i: Interface, ranges: bool): seq<Case>
    decreases i, 1
  {
    OwnCases(i, 0, ranges) + CasesOver(i.bases, ranges)
  }

  function CasesOver(bases: seq<Interface>, ranges: bool): seq<Case>
    decreases bases, 0
  {
    if bases == [] then [] else CasesFor(bases[0], ranges) + CasesOver(bases[1..], ranges)
  }

  /** The dispatch function object: its two lists, filled in place. */
  class DispatchFunction {
    var switchCases: seq<Case>
    var rangeCases: seq<Case>

    constructor ()
      ensures switchCases == [] && rangeCases == []
    {
      switchCases, rangeCases := [], [];
    }

    /** The first loop of `AddSwitchCases`: the operations of the interface itself. */
    method AddOwnCases(i: Interface)
      modifies this
      ensures switchCases == old(switchCases) + OwnCases(i, 0, false)
      ensures rangeCases == old(rangeCases) + OwnCases(i, 0, true)
    {
      hide OwnCases;
      for k := 0 to |i.ops|
        invariant switchCases + OwnCases(i, k, false) == old(switchCases) + OwnCases(i, 0, false)
        invariant rangeCases + OwnCases(i, k, true) == old(rangeCases) + OwnCases(i, 0, true)
      {
        OwnCasesStep(i, k, false);
        OwnCasesStep(i, k, true);
        Regroup(switchCases, OwnHead(i, k, false), OwnCases(i, k + 1, false));
        Regroup(rangeCases, OwnHead(i, k, true), OwnCases(i, k + 1, true));
        if i.ops[k].isOut {
          continue;
        }
        if IsRange(i.ops[k]) {
          rangeCases := rangeCases + [Case(i, k)];
        } else {
          switchCases := switchCases + [Case(i, k)];
        }
      }
      NoOwnCases(i);
    }

    /** `AddSwitchCases`. */
    method AddSwitchCases(i: Interface)
      modifies this
      ensures switchCases == old(switchCases) + CasesFor(i, false)
      ensures rangeCases == old(rangeCases) + CasesFor(i, true)
      decreases i
    {
      hide OwnCases, CasesOver;
      AddOwnCases(i);
      NoCasesOver();
      ghost var (s0, r0) := (switchCases, rangeCases);
      assert i.bases[0..] == i.bases;
      for k := 0 to |i.bases|
        invariant switchCases + CasesOver(i.bases[k..], false) == s0 + CasesOver(i.bases, false)
        invariant rangeCases + CasesOver(i.bases[k..], true) == r0 + CasesOver(i.bases, true)
      {
        CasesOverStep(i.bases, k, false);
        CasesOverStep(i.bases, k, true);
        AddSwitchCases(i.bases[k]);
      }
      assert i.bases[|i.bases|..] == [];
      ghost var (own, ownRanges) := (OwnCases(i, 0, false), OwnCases(i, 0, true));
      assert switchCases == old(switchCases) + own + CasesOver(i.bases, false) == old(switchCases) + (own + CasesOver(i.bases, false));
      assert rangeCases == old(rangeCases) + ownRanges + CasesOver(i.bases, true) == old(rangeCases) + (ownRanges + CasesOver(i.bases, true));
    }
  }

  /** The case of operation `k`, if it belongs to the list. */
  function OwnHead(i: Interface, k: nat, ranges: bool): seq<Case>
    requires k < |i.ops|
  {
    if !i.ops[k].isOut && IsRange(i.ops[k]) == ranges then [Case(i, k)] else []
  }

  lemma OwnCasesStep(i: Interface, k: nat, ranges: bool)
    requires k < |i.ops|
    ensures OwnCases(i, k, ranges) == OwnHead(i, k, ranges) + OwnCases(i, k + 1, ranges)
  {
  }

  lemma NoOwnCases(i: Interface)
    ensures OwnCases(i, |i.ops|, false) == [] && OwnCases(i, |i.ops|, true) == []
  {
  }

  lemma Regroup(a: seq<Case>, b: seq<Case>, c: seq<Case>)
    ensures (a + b) + c == a + (b + c)
    ensures a + [] == a
  {
  }

  lemma NoCasesOver()
    ensures CasesOver([], false) == [] && CasesOver([], true) == []
  {
  }

  lemma CasesOverStep(bases: seq<Interface>, k: nat, ranges: bool)
    requires k < |bases|
    ensures CasesOver(bases[k..], ranges) == CasesFor(bases[k], ranges) + CasesOver(bases[k + 1..], ranges)
  {
    assert bases[k..][1..] == bases[k + 1..];
  }

  /** The opcode constant of a case (`AddOpcodesToFile`); an absolute uuid stands for itself. */
  function CaseOpcode(l: Layout, c: Case): Option<int>
  {
    var n := if c.k < |c.owner.ops| then OperationNumber(c.owner, c.k) else None;
    if n.None? then None
    else if c.owner.ops[c.k].uuid.Some? && c.owner.ops[c.k].uuid.value.absolute then Some(n.value)
    else Some(Opcode(l, InterfaceNumber(c.owner), n.value))
  }

  // ---------------------------------------------------------------- visits

  /** The interfaces in the order in which `AddSwitchCases` reaches them. */
  function Visits(i: Interface): seq<Interface>
    decreases i, 1
  {
    [i] + VisitsOver(i.bases)
  }

  function VisitsOver(bases: seq<Interface>): seq<Interface>
    decreases bases, 0
  {
    if bases == [] then [] else Visits(bases[0]) + VisitsOver(bases[1..])
  }

  function CasesOf(vs: seq<Interface>): seq<Case>
  {
    if vs == [] then [] else OwnCases(vs[0], 0, false) + CasesOf(vs[1..])
  }

  /** The interface itself comes first, then its bases with what is below them, one after the other. */
  lemma {:induction false} VisitsInOrder(i: Interface, a: seq<Interface>, b: seq<Interface>)
    requires i.bases == a + b
    ensures Visits(i) == [i] + VisitsOver(a) + VisitsOver(b)
    ensures forall x :: VisitsOver([x]) == Visits(x)
  {
    VisitsConcat(a, b);
    forall x ensures VisitsOver([x]) == Visits(x) { assert [x][1..] == []; }
  }

  lemma {:induction false} VisitsConcat(a: seq<Interface>, b: seq<Interface>)
    ensures VisitsOver(a + b) == VisitsOver(a) + VisitsOver(b)
    decreases |a|
  {
    if a == [] {
      assert a + b == b;
    } else {
      VisitsConcat(a[1..], b);
      assert (a + b)[1..] == a[1..] + b;
      var (v, w) := (VisitsOver(a[1..]), VisitsOver(b));
      assert VisitsOver(a + b) == Visits(a[0]) + (v + w) && VisitsOver(a) == Visits(a[0]) + v;
      hide Visits, VisitsOver;
      assert Visits(a[0]) + (v + w) == (Visits(a[0]) + v) + w;
    }
  }

  lemma {:induction false} CasesOfConcat(a: seq<Interface>, b: seq<Interface>)
    ensures CasesOf(a + b) == CasesOf(a) + CasesOf(b)
  {
    if a == [] {
      assert a + b == b;
    } else {
      CasesOfConcat(a[1..], b);
      assert (a + b)[1..] == a[1..] + b;
      Regroup(OwnCases(a[0], 0, false), CasesOf(a[1..]), CasesOf(b));
    }
  }

  lemma {:induction false} CasesAreVisits(i: Interface)
    ensures CasesFor(i, false) == CasesOf(Visits(i))
    decreases i, 1
  {
    CasesOverAreVisits(i.bases);
    assert Visits(i)[1..] == VisitsOver(i.bases);
  }

  lemma {:induction false} CasesOverAreVisits(bases: seq<Interface>)
    ensures CasesOver(bases, false) == CasesOf(VisitsOver(bases))
    decreases bases, 0
  {
    if bases != [] {
      CasesAreVisits(bases[0]);
      CasesOverAreVisits(bases[1..]);
      CasesOfConcat(Visits(bases[0]), VisitsOver(bases[1..]));
    }
  }

  lemma {:induction false} VisitsAreBases(i: Interface)
    ensures forall x :: x in Visits(i) <==> x == i || IsBase(x, i)
    decreases i, 1
  {
    VisitsOverAreBases(i.bases);
    forall x ensures BaseAmong(x, i.bases) <==> IsBase(x, i) { }
  }

  lemma {:induction false} VisitsOverAreBases(bases: seq<Interface>)
    ensures forall x :: x in VisitsOver(bases) <==> BaseAmong(x, bases)
    decreases bases, 0
  {
    if bases != [] {
      VisitsAreBases(bases[0]);
      VisitsOverAreBases(bases[1..]);
      forall x ensures x in VisitsOver(bases) <==> BaseAmong(x, bases) { BaseAmongCons(x, bases); }
    }
  }

  // ---------------------------------------------------------------- repeated cases

  /** No interface with a case is reached twice. */
  ghost predicate NoRepeat(vs: seq<Interface>)
  {
    forall a, b :: 0 <= a < b < |vs| && vs[a] == vs[b] ==> OwnCases(vs[a], 0, false) == []
  }

  lemma LaterCases(i: Interface, k: nat, ranges: bool)
    requires k < |i.ops|
    ensures forall c :: c in OwnHead(i, k, ranges) ==> c !in OwnCases(i, k + 1, ranges)
  {
  }

  lemma {:induction false} OwnCasesSorted(i: Interface, k: nat, ranges: bool)
    requires k <= |i.ops|
    ensures NoDup(OwnCases(i, k, ranges))
    decreases |i.ops| - k
  {
    if k < |i.ops| {
      hide OwnCases;
      OwnCasesSorted(i, k + 1, ranges);
      OwnCasesStep(i, k, ranges);
      assert NoDup(OwnHead(i, k, ranges));
      LaterCases(i, k, ranges);
      NoDupConcat(OwnHead(i, k, ranges), OwnCases(i, k + 1, ranges));
    } else {
      NoOwnCases(i);
    }
  }

  ghost predicate Ascend(cs: seq<Case>)
  {
    forall a, b :: 0 <= a < b < |cs| ==> cs[a].k < cs[b].k
  }

  lemma AscendCons(c: Case, cs: seq<Case>)
    requires Ascend(cs) && forall d :: d in cs ==> c.k < d.k
    ensures Ascend([c] + cs)
  {
  }

  /** The operations of an interface come in the order of their declaration. */
  lemma {:induction false} OwnCasesAscend(i: Interface, k: nat, ranges: bool)
    requires k <= |i.ops|
    ensures Ascend(OwnCases(i, k, ranges))
    decreases |i.ops| - k
  {
    hide Ascend;
    if k < |i.ops| {
      var rest := OwnCases(i, k + 1, ranges);
      OwnCasesAscend(i, k + 1, ranges);
      AscendCons(Case(i, k), rest);
      assert [] + rest == rest;
    } else {
      NoneAscend();
    }
  }

  lemma NoneAscend()
    ensures Ascend([])
  {
  }

  lemma {:induction false} CasesOfMember(vs: seq<Interface>, c: Case)
    ensures c in CasesOf(vs) <==> c.owner in vs && c in OwnCases(c.owner, 0, false)
  {
    if vs != [] {
      CasesOfMember(vs[1..], c);
    }
  }

  /** Cases as such repeat exactly when an interface that has one does. */
  lemma {:induction false} NoDupIff(vs: seq<Interface>)
    ensures NoDup(CasesOf(vs)) <==> NoRepeat(vs)
  {
    if vs != [] {
      var x, rest := vs[0], vs[1..];
      var own, cs := OwnCases(x, 0, false), CasesOf(rest);
      NoDupIff(rest);
      OwnCasesSorted(x, 0, false);
      NoRepeatCons(x, rest);
      assert vs == [x] + rest;
      NoDupConcat(own, cs);
      OwnMeetsRest(x, rest);
    }
  }

  lemma OwnMeetsRest(x: Interface, rest: seq<Interface>)
    ensures (forall c :: c in OwnCases(x, 0, false) ==> c !in CasesOf(rest))
       <==> (x in rest ==> OwnCases(x, 0, false) == [])
  {
    var own := OwnCases(x, 0, false);
    if x in rest && own != [] {
      CasesOfMember(rest, own[0]);
      assert own[0] in own;
    } else {
      forall c | c in own ensures c !in CasesOf(rest) { CasesOfMember(rest, c); }
    }
  }

  lemma NoDupConcat(a: seq<Case>, b: seq<Case>)
    requires NoDup(a)
    ensures NoDup(a + b) <==> NoDup(b) && forall c :: c in a ==> c !in b
  {
    var s := a + b;
    if NoDup(s) {
      forall j, k | 0 <= j < k < |b| ensures b[j] != b[k] { assert s[|a| + j] == b[j] && s[|a| + k] == b[k]; }
      forall c | c in a ensures c !in b {
        var j :| 0 <= j < |a| && a[j] == c;
        forall k | 0 <= k < |b| ensures b[k] != c { assert s[j] == a[j] && s[|a| + k] == b[k]; }
      }
    }
    if NoDup(b) && forall c :: c in a ==> c !in b {
      forall j, k | 0 <= j < k < |s| ensures s[j] != s[k] {
        if k < |a| {
          assert s[j] == a[j] && s[k] == a[k];
        } else if j < |a| {
          assert a[j] in a && b[k - |a|] in b;
        } else {
          assert s[j] == b[j - |a|] && s[k] == b[k - |a|];
        }
      }
    }
  }

  lemma NoRepeatCons(x: Interface, rest: seq<Interface>)
    ensures NoRepeat([x] + rest) <==> NoRepeat(rest) && (x in rest ==> OwnCases(x, 0, false) == [])
  {
    hide OwnCases;
    var vs := [x] + rest;
    if NoRepeat(vs) {
      forall a, b | 0 <= a < b < |rest| && rest[a] == rest[b] ensures OwnCases(rest[a], 0, false) == [] {
        assert vs[a + 1] == rest[a] && vs[b + 1] == rest[b];
      }
      if x in rest {
        var k :| 0 <= k < |rest| && rest[k] == x;
        assert vs[0] == vs[k + 1];
      }
    }
    if NoRepeat(rest) && (x in rest ==> OwnCases(x, 0, false) == []) {
      forall a, b | 0 <= a < b < |vs| && vs[a] == vs[b] ensures OwnCases(vs[a], 0, false) == [] {
        if a > 0 { assert rest[a - 1] == rest[b - 1]; } else { assert rest[b - 1] == x; }
      }
    }
  }
}
