/** How dice numbers interfaces and operations (dice/src/be/BEClass.cpp).  An interface is a
    value that contains its bases; `id` tells apart objects that would otherwise be equal. */
module Numbering {
  import opened Wrappers

  /** A uuid attribute of an operation: a number, or a range of which the lower end counts. */
  datatype Uuid =
    | Single(value: int, absolute: bool)
    | Range(lower: int, upper: int, absolute: bool)

  datatype Operation = Operation(name: string, uuid: Option<Uuid>, isOut: bool)

  datatype Interface = Interface(id: nat, uuid: Option<int>, bases: seq<Interface>, ops: seq<Operation>)

  function HasUuid(op: Operation): bool
  {
    op.uuid.Some?
  }

  function GetUuid(op: Operation): int
  {
    match op.uuid
    case Some(Single(value, _)) => value
    case Some(Range(lower, _, _)) => lower
    case None => -1
  }

  // ---------------------------------------------------------------- interface numbers

  function InterfaceNumber(i: Interface): int
    decreases i, 1
  {
    if i.uuid.Some? then i.uuid.value else NumberOver(i.bases, 1)
  }

  /** The loop over the bases, with `n` reached. */
  function NumberOver(bases: seq<Interface>, n: int): int
    decreases bases, 0
  {
    if bases == [] then n
    else
      var b := InterfaceNumber(bases[0]);
      NumberOver(bases[1..], if b >= n then b + 1 else n)
  }

  /** `x` is a base of `i`, direct or not. */
  predicate IsBase(x: Interface, i: Interface)
    decreases i
  {
    exists k :: 0 <= k < |i.bases| && (x == i.bases[k] || IsBase(x, i.bases[k]))
  }

  // ---------------------------------------------------------------- interfaces with the same number

  /** `FindInterfaceWithNumber`: the search through `bases`, adding to `found`. */
  function FindInBases(bases: seq<Interface>, number: int, found: seq<Interface>): seq<Interface>
    decreases bases
  {
    if bases == [] then found
    else
      var b := bases[0];
      var here := if InterfaceNumber(b) == number && b !in found then found + [b] else found;
      FindInBases(bases[1..], number, FindInBases(b.bases, number, here))
  }

  function SameNumbered(i: Interface): seq<Interface>
  {
    FindInBases(i.bases, InterfaceNumber(i), [])
  }

  // ---------------------------------------------------------------- the range of an interface

  function MaxUuid(ops: seq<Operation>, n: int): (r: int)
    ensures n <= r
    ensures forall k :: 0 <= k < |ops| && HasUuid(ops[k]) ==> GetUuid(ops[k]) <= r
  {
    if ops == [] then n
    else
      var r := MaxUuid(ops[1..], if HasUuid(ops[0]) && GetUuid(ops[0]) > n then GetUuid(ops[0]) else n);
      assert forall k :: 0 < k < |ops| ==> ops[k] == ops[1..][k - 1];
      r
  }

  /** `GetMaxOpcodeNumber`. */
  function MaxOpcodeNumber(i: Interface): (r: nat)
    ensures |i.ops| <= r
    ensures forall k :: 0 <= k < |i.ops| && HasUuid(i.ops[k]) ==> GetUuid(i.ops[k]) <= r
  {
    MaxUuid(i.ops, |i.ops|)
  }

  function SumOfMax(xs: seq<Interface>): nat
  {
    if xs == [] then 0 else MaxOpcodeNumber(xs[0]) + SumOfMax(xs[1..])
  }

  /** Where the function IDs of an interface start. */
  function Start(i: Interface): nat
  {
    SumOfMax(SameNumbered(i))
  }

  // ---------------------------------------------------------------- predefined numbers

  /** `CheckOpcodeCollision` of a uuid: the range taken by the bases, or None for the error. */
  function BaseRange(i: Interface, uuid: int): Option<nat>
    decreases i, 1
  {
    BaseRangeOver(i.bases, InterfaceNumber(i), uuid, 0)
  }

  function BaseRangeOver(bases: seq<Interface>, number: int, uuid: int, taken: nat): Option<nat>
    decreases bases, 0
  {
    if bases == [] then Some(taken)
    else if InterfaceNumber(bases[0]) != number then BaseRangeOver(bases[1..], number, uuid, taken)
    else
      var below := BaseRange(bases[0], uuid);
      if below.None? then None
      else
        var taken' := taken + below.value + MaxOpcodeNumber(bases[0]);
        if 0 < uuid <= taken' then None else BaseRangeOver(bases[1..], number, uuid, taken')
  }

  /** `FindPredefinedNumbers` over the operations of `i`; None when it stops with an error. */
  function ScanOps(i: Interface, ops: seq<Operation>, numbers: map<int, string>): Option<map<int, string>>
  {
    if ops == [] then Some(numbers)
    else if !HasUuid(ops[0]) then ScanOps(i, ops[1..], numbers)
    else
      var uuid := GetUuid(ops[0]);
      if uuid in numbers || BaseRange(i, uuid).None? then None
      else ScanOps(i, ops[1..], numbers[uuid := ops[0].name])
  }

  function ScanInterfaces(xs: seq<Interface>, numbers: map<int, string>): Option<map<int, string>>
  {
    if xs == [] then Some(numbers)
    else
      var r := ScanOps(xs[0], xs[0].ops, numbers);
      if r.None? then None else ScanInterfaces(xs[1..], r.value)
  }

  function Predefined(i: Interface): Option<map<int, string>>
  {
    ScanInterfaces(SameNumbered(i) + [i], map[])
  }

  // ---------------------------------------------------------------- operation numbers

  /** The first number from `n` on that is not predefined. */
  function Skip(n: int, taken: set<int>): (r: int)
    ensures n <= r && r !in taken && forall x :: n <= x < r ==> x in taken
    decreases |set x | x in taken && x >= n|
  {
    if n !in taken then n
    else
      assert (set x | x in taken && x >= n) == (set x | x in taken && x >= n + 1) + {n};
      Skip(n + 1, taken)
  }

  /** The counter after `k` operations. */
  function Counter(start: int, k: nat, taken: set<int>): int
  {
    if k == 0 then start else Skip(Counter(start, k - 1, taken) + 1, taken)
  }

  /** `GetOperationNumber` of the operation at `k`; None when dice stops with an error. */
  function OperationNumber(i: Interface, k: nat): Option<int>
    requires k < |i.ops|
  {
    var numbers := Predefined(i);
    if numbers.None? then None
    else if HasUuid(i.ops[k]) then Some(GetUuid(i.ops[k]))
    else Some(Counter(Start(i), k + 1, numbers.value.Keys))
  }

  // ---------------------------------------------------------------- direct bases against each other

  /** `CheckOpcodeCollision` of two interfaces, in default error mode: the numbers of all their
      operations can be computed and differ. */
  predicate PairPasses(x: Interface, y: Interface)
  {
    InterfaceNumber(x) == InterfaceNumber(y) && x.ops != [] && y.ops != [] ==>
      && Predefined(x).Some? && Predefined(y).Some?
      && forall j, k :: 0 <= j < |x.ops| && 0 <= k < |y.ops| ==> OperationNumber(x, j) != OperationNumber(y, k)
  }

  /** `CheckOpcodeCollision` of an interface: every base is compared with its successors, and each
      time the bases of the first are checked before. */
  predicate SiblingsPass(i: Interface)
    decreases i
  {
    && (forall a :: 0 <= a < |i.bases| - 1 ==> SiblingsPass(i.bases[a]))
    && (forall a, b :: 0 <= a < b < |i.bases| ==> PairPasses(i.bases[a], i.bases[b]))
  }
}
