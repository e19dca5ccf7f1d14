/** The numbering functions of dice/src/be/BEClass.cpp as the loops they are, each proved equal
    to its function in module Numbering. */
module NumberingCode {
  import opened Wrappers
  import opened Numbering

  /** `GetInterfaceNumber`, and `GetClassNumber` likewise. */
  method GetInterfaceNumber(i: Interface) returns (number: int)
    ensures number == InterfaceNumber(i)
    decreases i
  {
    if i.uuid.Some? {
      return i.uuid.value;
    }
    number := 1;
    assert i.bases[0..] == i.bases;
    for k := 0 to |i.bases|
      invariant NumberOver(i.bases[k..], number) == NumberOver(i.bases, 1)
    {
      assert i.bases[k..][1..] == i.bases[k + 1..];
      var base := GetInterfaceNumber(i.bases[k]);
      if base >= number {
        number := base + 1;
      }
    }
  }

  /** `FindInterfaceWithNumber`: the collection grows as the bases are searched. */
  method FindInterfaceWithNumber(i: Interface, number: int, collection: seq<Interface>) returns (found: seq<Interface>)
    ensures found == FindInBases(i.bases, number, collection)
    decreases i
  {
    found := collection;
    assert i.bases[0..] == i.bases;
    for k := 0 to |i.bases|
      invariant FindInBases(i.bases[k..], number, found) == FindInBases(i.bases, number, collection)
    {
      assert i.bases[k..][1..] == i.bases[k + 1..];
      var n := GetInterfaceNumber(i.bases[k]);
      if n == number && i.bases[k] !in found {
        found := found + [i.bases[k]];
      }
      found := FindInterfaceWithNumber(i.bases[k], number, found);
    }
  }

  /** `GetMaxOpcodeNumber`. */
  method GetMaxOpcodeNumber(i: Interface) returns (max: nat)
    ensures max == MaxOpcodeNumber(i)
    ensures |i.ops| <= max && forall k :: 0 <= k < |i.ops| && HasUuid(i.ops[k]) ==> GetUuid(i.ops[k]) <= max
    ensures max == |i.ops| || exists k :: 0 <= k < |i.ops| && HasUuid(i.ops[k]) && GetUuid(i.ops[k]) == max
  {
    max := |i.ops|;
    assert i.ops[0..] == i.ops;
    for k := 0 to |i.ops|
      invariant MaxUuid(i.ops[k..], max) == MaxUuid(i.ops, |i.ops|)
      invariant max == |i.ops| || exists j :: 0 <= j < k && HasUuid(i.ops[j]) && GetUuid(i.ops[j]) == max
    {
      assert i.ops[k..][1..] == i.ops[k + 1..];
      if HasUuid(i.ops[k]) && GetUuid(i.ops[k]) > max {
        max := GetUuid(i.ops[k]);
      }
    }
  }

  /** `CheckOpcodeCollision` of a uuid against the bases. */
  method CheckOpcodeCollision(i: Interface, uuid: int) returns (range: Option<nat>)
    ensures range == BaseRange(i, uuid)
    decreases i
  {
    var taken: nat := 0;
    var number := GetInterfaceNumber(i);
    assert i.bases[0..] == i.bases;
    for k := 0 to |i.bases|
      invariant BaseRangeOver(i.bases[k..], number, uuid, taken) == BaseRange(i, uuid)
    {
      assert i.bases[k..][1..] == i.bases[k + 1..];
      var n := GetInterfaceNumber(i.bases[k]);
      if n != number {
        continue;
      }
      var below := CheckOpcodeCollision(i.bases[k], uuid);
      if below.None? {
        return None;
      }
      var max := GetMaxOpcodeNumber(i.bases[k]);
      taken := taken + below.value + max;
      if 0 < uuid <= taken {
        return None;
      }
    }
    range := Some(taken);
  }

  /** The inner loop of `FindPredefinedNumbers`. */
  method ScanOperations(i: Interface, numbers: map<int, string>) returns (r: Option<map<int, string>>)
    ensures r == ScanOps(i, i.ops, numbers)
  {
    var found := numbers;
    assert i.ops[0..] == i.ops;
    for k := 0 to |i.ops|
      invariant ScanOps(i, i.ops[k..], found) == ScanOps(i, i.ops, numbers)
    {
      assert i.ops[k..][1..] == i.ops[k + 1..];
      if HasUuid(i.ops[k]) {
        var uuid := GetUuid(i.ops[k]);
        if uuid in found {
          return None;
        }
        var range := CheckOpcodeCollision(i, uuid);
        if range.None? {
          return None;
        }
        found := found[uuid := i.ops[k].name];
      }
    }
    r := Some(found);
  }

  /** `FindPredefinedNumbers`; None when dice exits with an error. */
  method FindPredefinedNumbers(collection: seq<Interface>) returns (r: Option<map<int, string>>)
    ensures r == ScanInterfaces(collection, map[])
  {
    var found := map[];
    assert collection[0..] == collection;
    for k := 0 to |collection|
      invariant ScanInterfaces(collection[k..], found) == ScanInterfaces(collection, map[])
    {
      assert collection[k..][1..] == collection[k + 1..];
      var next := ScanOperations(collection[k], found);
      if next.None? {
        return None;
      }
      found := next.value;
    }
    r := Some(found);
  }

  /** The counting loop of `GetOperationNumber`. */
  method CountOperations(i: Interface, k: nat, start: int, ids: map<int, string>) returns (id: int)
    requires k < |i.ops|
    ensures id == Counter(start, k + 1, ids.Keys)
  {
    id := start;
    for n := 0 to k + 1
      invariant id == Counter(start, n, ids.Keys)
    {
      id := id + 1;
      ghost var first := id;
      while id in ids
        invariant Skip(id, ids.Keys) == Skip(first, ids.Keys)
        decreases |set x | x in ids.Keys && x >= id|
      {
        assert (set x | x in ids.Keys && x >= id) == (set x | x in ids.Keys && x >= id + 1) + {id};
        id := id + 1;
      }
    }
  }

  /** `GetOperationNumber`. */
  method GetOperationNumber(i: Interface, k: nat) returns (r: Option<int>)
    requires k < |i.ops|
    ensures r == OperationNumber(i, k)
  {
    var number := GetInterfaceNumber(i);
    var same := FindInterfaceWithNumber(i, number, []);
    var ids := FindPredefinedNumbers(same + [i]);
    if ids.None? {
      return None;
    }
    if HasUuid(i.ops[k]) {
      return Some(GetUuid(i.ops[k]));
    }
    var start: nat := 0;
    assert same[0..] == same;
    for n := 0 to |same|
      invariant start + SumOfMax(same[n..]) == SumOfMax(same)
    {
      assert same[n..][1..] == same[n + 1..];
      var max := GetMaxOpcodeNumber(same[n]);
      start := start + max;
    }
    var id := CountOperations(i, k, start, ids.value);
    r := Some(id);
  }

  /** The double loop of `CheckOpcodeCollision` over the operations of two interfaces. */
  method CompareOperations(first: Interface, second: Interface) returns (ok: bool)
    ensures ok == PairPasses(first, second)
  {
    var n := GetInterfaceNumber(first);
    var m := GetInterfaceNumber(second);
    if n != m {
      return true;
    }
    for j := 0 to |first.ops|
      invariant first.ops != [] && second.ops != [] && j > 0 ==> Predefined(first).Some? && Predefined(second).Some?
      invariant forall a, b :: 0 <= a < j && 0 <= b < |second.ops| ==> OperationNumber(first, a) != OperationNumber(second, b)
    {
      for k := 0 to |second.ops|
        invariant k > 0 ==> Predefined(first).Some? && Predefined(second).Some?
        invariant forall b :: 0 <= b < k ==> OperationNumber(first, j) != OperationNumber(second, b)
      {
        var x := GetOperationNumber(first, j);
        if x.None? {
          return false;
        }
        var y := GetOperationNumber(second, k);
        if y.None? || x == y {
          return false;
        }
      }
    }
    ok := true;
  }

  /** `CheckOpcodeCollision` of a base and one of its successors. */
  method CheckPair(first: Interface, second: Interface) returns (ok: bool)
    ensures ok == (SiblingsPass(first) && PairPasses(first, second))
    decreases first, 1
  {
    ok := CheckSiblings(first);
    if ok {
      ok := CompareOperations(first, second);
    }
  }

  /** `CheckOpcodeCollision` of an interface; false when dice exits with an error. */
  method CheckSiblings(i: Interface) returns (ok: bool)
    ensures ok == SiblingsPass(i)
    decreases i, 0
  {
    for a := 0 to |i.bases|
      invariant forall c :: 0 <= c < a && c < |i.bases| - 1 ==> SiblingsPass(i.bases[c])
      invariant forall c, d :: 0 <= c < a && c < d < |i.bases| ==> PairPasses(i.bases[c], i.bases[d])
    {
      for b := a + 1 to |i.bases|
        invariant a + 1 < b ==> SiblingsPass(i.bases[a])
        invariant forall d :: a < d < b ==> PairPasses(i.bases[a], i.bases[d])
      {
        ok := CheckPair(i.bases[a], i.bases[b]);
        if !ok {
          return;
        }
      }
    }
    ok := true;
  }
}
