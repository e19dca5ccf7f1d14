/** What the numbering guarantees within one interface and between an interface and its bases. */
module NumberingLaws {
  import opened Numbering

  // ---------------------------------------------------------------- interface numbers

  lemma {:induction false} NumberOverLeast(bases: seq<Interface>, n: int)
    ensures var r := NumberOver(bases, n);
      && n <= r
      && (forall k :: 0 <= k < |bases| ==> InterfaceNumber(bases[k]) < r)
      && (r == n || exists k :: 0 <= k < |bases| && r == InterfaceNumber(bases[k]) + 1)
  {
    if bases != [] {
      var b := InterfaceNumber(bases[0]);
      var n' := if b >= n then b + 1 else n;
      NumberOverLeast(bases[1..], n');
      var r := NumberOver(bases, n);
      forall k | 0 <= k < |bases| ensures InterfaceNumber(bases[k]) < r {
        if k > 0 { assert bases[k] == bases[1..][k - 1]; }
      }
      if r != n' {
        var k :| 0 <= k < |bases[1..]| && r == InterfaceNumber(bases[1..][k]) + 1;
        assert r == InterfaceNumber(bases[k + 1]) + 1;
      }
    }
  }

  /** An interface without a uuid gets the least positive number above those of its bases. */
  lemma InterfaceNumberLeast(i: Interface)
    requires i.uuid.None?
    ensures InterfaceNumber(i) >= 1
    ensures forall k :: 0 <= k < |i.bases| ==> InterfaceNumber(i.bases[k]) < InterfaceNumber(i)
    ensures InterfaceNumber(i) == 1 || exists k :: 0 <= k < |i.bases| && InterfaceNumber(i) == InterfaceNumber(i.bases[k]) + 1
  {
    NumberOverLeast(i.bases, 1);
  }

  // ---------------------------------------------------------------- bases

  /** `x` is among `bases` or below one of them. */
  predicate BaseAmong(x: Interface, bases: seq<Interface>)
  {
    exists k :: 0 <= k < |bases| && (x == bases[k] || IsBase(x, bases[k]))
  }

  lemma {:induction false} BaseTransitive(x: Interface, y: Interface, i: Interface)
    requires IsBase(x, y) && IsBase(y, i)
    ensures IsBase(x, i)
    decreases i
  {
    var k :| 0 <= k < |i.bases| && (y == i.bases[k] || IsBase(y, i.bases[k]));
    if y != i.bases[k] {
      BaseTransitive(x, y, i.bases[k]);
    }
  }

  /** Inheritance is well founded: nothing is its own base. */
  lemma {:induction false} BaseSmaller(x: Interface, i: Interface)
    requires IsBase(x, i)
    ensures x < i && x != i
    decreases i
  {
    var k :| 0 <= k < |i.bases| && (x == i.bases[k] || IsBase(x, i.bases[k]));
    if x != i.bases[k] {
      BaseSmaller(x, i.bases[k]);
    }
  }

  ghost predicate NoDup<T>(xs: seq<T>)
  {
    forall j, k :: 0 <= j < k < |xs| ==> xs[j] != xs[k]
  }

  lemma BaseAmongCons(x: Interface, bases: seq<Interface>)
    requires bases != []
    ensures BaseAmong(x, bases) <==> x == bases[0] || IsBase(x, bases[0]) || BaseAmong(x, bases[1..])
  {
    if BaseAmong(x, bases[1..]) {
      var k :| 0 <= k < |bases[1..]| && (x == bases[1..][k] || IsBase(x, bases[1..][k]));
      assert bases[k + 1] == bases[1..][k];
    }
    if BaseAmong(x, bases) {
      var k :| 0 <= k < |bases| && (x == bases[k] || IsBase(x, bases[k]));
      if k > 0 { assert bases[k] == bases[1..][k - 1]; }
    }
  }

  /** `FindInterfaceWithNumber` finds every base with the number, each once. */
  lemma {:induction false} FindFacts(bases: seq<Interface>, number: int, found: seq<Interface>)
    ensures NoDup(found) ==> NoDup(FindInBases(bases, number, found))
    ensures forall x :: x in FindInBases(bases, number, found) <==>
      x in found || (InterfaceNumber(x) == number && BaseAmong(x, bases))
    decreases bases
  {
    if bases != [] {
      var b := bases[0];
      var here := if InterfaceNumber(b) == number && b !in found then found + [b] else found;
      var below := FindInBases(b.bases, number, here);
      FindFacts(b.bases, number, here);
      FindFacts(bases[1..], number, below);
      forall x ensures x in FindInBases(bases, number, found) <==>
          x in found || (InterfaceNumber(x) == number && BaseAmong(x, bases)) {
        BaseAmongCons(x, bases);
        assert BaseAmong(x, b.bases) <==> IsBase(x, b);
        assert x in here <==> x in found || (x == b && InterfaceNumber(b) == number);
      }
    }
  }

  lemma SameNumberedFacts(i: Interface)
    ensures NoDup(SameNumbered(i))
    ensures forall x :: x in SameNumbered(i) <==> InterfaceNumber(x) == InterfaceNumber(i) && IsBase(x, i)
  {
    FindFacts(i.bases, InterfaceNumber(i), []);
    forall x ensures BaseAmong(x, i.bases) <==> IsBase(x, i) { }
  }

  // ---------------------------------------------------------------- starts

  function Drop(xs: seq<Interface>, x: Interface): (r: seq<Interface>)
    ensures forall y :: y in xs && y != x ==> y in r
  {
    if xs == [] then [] else if xs[0] == x then xs[1..] else [xs[0]] + Drop(xs[1..], x)
  }

  lemma {:induction false} SumDrop(xs: seq<Interface>, x: Interface)
    requires x in xs
    ensures SumOfMax(xs) == MaxOpcodeNumber(x) + SumOfMax(Drop(xs, x))
  {
    if xs[0] != x {
      SumDrop(xs[1..], x);
    }
  }

  lemma {:induction false} SumOfSubset(a: seq<Interface>, b: seq<Interface>)
    requires NoDup(a) && forall x :: x in a ==> x in b
    ensures SumOfMax(a) <= SumOfMax(b)
    decreases |a|
  {
    if a != [] {
      assert a[0] in a;
      SumDrop(b, a[0]);
      forall x | x in a[1..] ensures x in Drop(b, a[0]) { assert x in a; }
      SumOfSubset(a[1..], Drop(b, a[0]));
    }
  }

  /** Although every interface computes its own start, a base with the same number ends where
      the range of the derived interface has not begun. */
  lemma StartsAfter(b: Interface, i: Interface)
    requires IsBase(b, i) && InterfaceNumber(b) == InterfaceNumber(i)
    ensures Start(b) + MaxOpcodeNumber(b) <= Start(i)
  {
    SameNumberedFacts(b);
    SameNumberedFacts(i);
    var a := [b] + SameNumbered(b);
    forall x | x in a ensures x in SameNumbered(i) {
      if x != b { BaseTransitive(x, b, i); }
    }
    if b in SameNumbered(b) { BaseSmaller(b, b); }
    SumOfSubset(a, SameNumbered(i));
    assert a[1..] == SameNumbered(b);
  }

  // ---------------------------------------------------------------- the counter

  /** How many numbers above `lo` up to `hi` are not taken. */
  function FreeBetween(lo: int, hi: int, taken: set<int>): (r: nat)
    ensures lo <= hi ==> r <= hi - lo
    decreases if hi <= lo then 0 else hi - lo
  {
    if hi <= lo then 0 else FreeBetween(lo, hi - 1, taken) + (if hi in taken then 0 else 1)
  }

  lemma {:induction false} FreeExtend(lo: int, hi: int, hi': int, taken: set<int>)
    requires lo <= hi <= hi'
    ensures FreeBetween(lo, hi, taken) <= FreeBetween(lo, hi', taken)
    ensures (forall x :: hi < x <= hi' ==> x in taken) ==> FreeBetween(lo, hi', taken) == FreeBetween(lo, hi, taken)
    ensures hi < hi' && hi' !in taken ==> FreeBetween(lo, hi, taken) < FreeBetween(lo, hi', taken)
    decreases hi' - hi
  {
    if hi < hi' {
      FreeExtend(lo, hi, hi' - 1, taken);
    }
  }

  /** The numbers that are not free are taken. */
  lemma {:induction false} FreeAndTaken(lo: int, hi: int, taken: set<int>)
    requires lo <= hi
    ensures FreeBetween(lo, hi, taken) + |set x | x in taken && lo < x <= hi| == hi - lo
    decreases hi - lo
  {
    var s := set x | x in taken && lo < x <= hi;
    if lo == hi {
      assert s == {};
    } else {
      FreeAndTaken(lo, hi - 1, taken);
      var s' := set x | x in taken && lo < x <= hi - 1;
      assert hi !in s';
      assert s == if hi in taken then s' + {hi} else s';
    }
  }

  /** The counter after `k` operations is the `k`-th number above the start that is not
      predefined. */
  lemma {:induction false} CounterIsNthFree(start: int, k: nat, taken: set<int>)
    ensures var c := Counter(start, k, taken);
      && start + k <= c
      && FreeBetween(start, c, taken) == k
      && (k > 0 ==> c !in taken)
  {
    if k > 0 {
      CounterIsNthFree(start, k - 1, taken);
      var p, c := Counter(start, k - 1, taken), Counter(start, k, taken);
      FreeExtend(start, p, c - 1, taken);
    }
  }

  lemma {:induction false} CounterIncreases(start: int, j: nat, k: nat, taken: set<int>)
    requires j < k
    ensures Counter(start, j, taken) < Counter(start, k, taken)
    decreases k
  {
    if j < k - 1 {
      CounterIncreases(start, j, k - 1, taken);
    }
  }

  lemma SubsetSize(a: set<int>, b: set<int>)
    requires a <= b
    ensures |a| <= |b|
  {
    assert b == a + (b - a);
  }

  /** The counter passes at most the predefined numbers. */
  lemma CounterBound(start: int, k: nat, taken: set<int>)
    ensures Counter(start, k, taken) <= start + k + |taken|
  {
    CounterIsNthFree(start, k, taken);
    var c := Counter(start, k, taken);
    FreeAndTaken(start, c, taken);
    SubsetSize((set x | x in taken && start < x <= c), taken);
  }

  /** Exactly when the counter stays below a bound. */
  lemma CounterWithinIff(start: int, k: nat, taken: set<int>, bound: int)
    requires start <= bound && k > 0
    ensures Counter(start, k, taken) <= bound <==> k <= FreeBetween(start, bound, taken)
  {
    CounterIsNthFree(start, k, taken);
    var c := Counter(start, k, taken);
    if c <= bound { FreeExtend(start, c, bound, taken); } else { FreeExtend(start, bound, c, taken); }
  }

  // ---------------------------------------------------------------- predefined numbers

  function UuidSet(ops: seq<Operation>): set<int>
  {
    set k | 0 <= k < |ops| && HasUuid(ops[k]) :: GetUuid(ops[k])
  }

  ghost predicate DistinctUuids(ops: seq<Operation>)
  {
    forall j, k :: 0 <= j < k < |ops| && HasUuid(ops[j]) && HasUuid(ops[k]) ==> GetUuid(ops[j]) != GetUuid(ops[k])
  }

  /** The uuids of an interface differ, and none lies in the range of its bases. */
  ghost predicate AcceptedUuids(i: Interface)
  {
    && DistinctUuids(i.ops)
    && forall k :: 0 <= k < |i.ops| && HasUuid(i.ops[k]) ==> BaseRange(i, GetUuid(i.ops[k])).Some?
  }

  lemma UuidSetCons(ops: seq<Operation>)
    requires ops != []
    ensures UuidSet(ops) == (if HasUuid(ops[0]) then {GetUuid(ops[0])} else {}) + UuidSet(ops[1..])
  {
    forall u | u in UuidSet(ops) ensures u in (if HasUuid(ops[0]) then {GetUuid(ops[0])} else {}) + UuidSet(ops[1..]) {
      var k :| 0 <= k < |ops| && HasUuid(ops[k]) && GetUuid(ops[k]) == u;
      if k > 0 { assert ops[1..][k - 1] == ops[k]; }
    }
    forall u | u in UuidSet(ops[1..]) ensures u in UuidSet(ops) {
      var k :| 0 <= k < |ops[1..]| && HasUuid(ops[1..][k]) && GetUuid(ops[1..][k]) == u;
      assert ops[k + 1] == ops[1..][k];
    }
  }

  /** What a scan without error established. */
  lemma {:induction false} ScanOpsFacts(i: Interface, ops: seq<Operation>, numbers: map<int, string>)
    requires ScanOps(i, ops, numbers).Some?
    ensures ScanOps(i, ops, numbers).value.Keys == numbers.Keys + UuidSet(ops)
    ensures numbers.Keys !! UuidSet(ops) && DistinctUuids(ops)
    ensures forall k :: 0 <= k < |ops| && HasUuid(ops[k]) ==> BaseRange(i, GetUuid(ops[k])).Some?
  {
    if ops != [] {
      UuidSetCons(ops);
      var uuid := GetUuid(ops[0]);
      ScanOpsFacts(i, ops[1..], if HasUuid(ops[0]) then numbers[uuid := ops[0].name] else numbers);
      forall k | 0 < k < |ops| && HasUuid(ops[k])
        ensures BaseRange(i, GetUuid(ops[k])).Some? && GetUuid(ops[k]) in UuidSet(ops[1..])
      {
        assert ops[k] == ops[1..][k - 1];
      }
      forall j, k | 0 <= j < k < |ops| && HasUuid(ops[j]) && HasUuid(ops[k]) ensures GetUuid(ops[j]) != GetUuid(ops[k]) {
        assert ops[k] == ops[1..][k - 1];
        if j > 0 { assert ops[j] == ops[1..][j - 1]; }
      }
    }
  }

  lemma {:induction false} ScanInterfacesFacts(xs: seq<Interface>, numbers: map<int, string>)
    requires ScanInterfaces(xs, numbers).Some?
    ensures var m := ScanInterfaces(xs, numbers).value;
      && numbers.Keys <= m.Keys
      && (forall x :: x in xs ==> UuidSet(x.ops) <= m.Keys && UuidSet(x.ops) !! numbers.Keys)
      && (forall u :: u in m.Keys ==> u in numbers || exists x :: x in xs && u in UuidSet(x.ops))
    ensures forall x :: x in xs ==> AcceptedUuids(x)
    ensures forall j, k :: 0 <= j < k < |xs| ==> UuidSet(xs[j].ops) !! UuidSet(xs[k].ops)
  {
    if xs != [] {
      ScanOpsFacts(xs[0], xs[0].ops, numbers);
      ScanInterfacesFacts(xs[1..], ScanOps(xs[0], xs[0].ops, numbers).value);
      assert forall x :: x in xs ==> x == xs[0] || x in xs[1..];
      forall j, k | 0 <= j < k < |xs| ensures UuidSet(xs[j].ops) !! UuidSet(xs[k].ops) {
        assert xs[k] == xs[1..][k - 1] && xs[k] in xs[1..];
        if j > 0 { assert xs[j] == xs[1..][j - 1]; }
      }
    }
  }
}
