/** The helper variables dice emits for pointer parameters (dice/src/be/BEDeclarator.cpp), for a
    declarator without bounded dimensions whose type is no pointer and transmitted as it is.
    A variable is named by the number of underscores in front of the parameter's name. */
module Indirection {
  /** A declared variable with its stars. */
  datatype Declared = Declared(under: int, stars: int)

  /** `under = &target;` */
  datatype Assigned = Assigned(under: int, target: int)

  /** What is emitted for dynamic memory: `under = malloc(..)`, `free(under)`, or
      `dice_set_ptr(env, under)`, which leaves the freeing until after the reply. */
  datatype Memory = Allocate(under: int) | Free(under: int) | Defer(under: int)

  /** A declarator: its stars, its unbounded dimensions, whether it is used as a pointer, and
      whether its type is a constructed one. */
  datatype Declarator = Declarator(stars: nat, empties: nat, usePointer: bool, constructed: bool)
  {
    function Start(): nat
    {
      stars + empties
    }

    /** The stars that get no variable of their own. */
    function Fake(): (r: nat)
      ensures r <= Start()
    {
      if usePointer && stars > 0 && empties == 0 then 1 else empties
    }

    function Offset(): nat
    {
      if constructed && Fake() == 0 then 0 else 1
    }
  }

  /** `WriteIndirect`. */
  method WriteIndirect(d: Declarator) returns (decls: seq<Declared>)
    ensures |decls| == d.Start() - d.Fake() + 1
    ensures forall k :: 0 <= k < |decls| ==> decls[k] == Declared(k, d.Start() - k)
  {
    decls := [];
    var n: int := d.Start();
    while n >= d.Fake()
      invariant d.Fake() - 1 <= n <= d.Start() && |decls| == d.Start() - n
      invariant forall k :: 0 <= k < |decls| ==> decls[k] == Declared(k, d.Start() - k)
    {
      decls := decls + [Declared(d.Start() - n, n)];
      n := n - 1;
    }
  }

  /** `WriteIndirectInitialization`. */
  method WriteIndirectInitialization(d: Declarator) returns (inits: seq<Assigned>)
    ensures |inits| == d.Start() - d.Fake()
    ensures forall k :: 0 <= k < |inits| ==> inits[k] == Assigned(k, k + 1)
  {
    inits := [];
    var n: int := d.Start();
    while n > d.Fake()
      invariant d.Fake() <= n <= d.Start() && |inits| == d.Start() - n
      invariant forall k :: 0 <= k < |inits| ==> inits[k] == Assigned(k, k + 1)
    {
      inits := inits + [Assigned(d.Start() - n, d.Start() - n + 1)];
      n := n - 1;
    }
  }

  /** `WriteIndirectInitializationMemory`. */
  method WriteIndirectInitializationMemory(d: Declarator) returns (allocs: seq<Memory>)
    ensures |allocs| == d.Start() - d.Fake()
    ensures forall k :: 0 <= k < |allocs| ==> allocs[k] == Allocate(k + d.Offset())
  {
    allocs := [];
    var n: int := d.Start();
    while n > d.Fake()
      invariant d.Fake() <= n <= d.Start() && |allocs| == d.Start() - n
      invariant forall k :: 0 <= k < |allocs| ==> allocs[k] == Allocate(k + d.Offset())
    {
      allocs := allocs + [Allocate(d.Start() - n + d.Offset())];
      n := n - 1;
    }
  }

  /** `WriteCleanup`. */
  method WriteCleanup(d: Declarator, deferred: bool) returns (frees: seq<Memory>)
    ensures |frees| == d.Start() - d.Fake()
    ensures forall k :: 0 <= k < |frees| ==>
      frees[k] == if deferred then Defer(k + d.Offset()) else Free(k + d.Offset())
  {
    frees := [];
    var n: int := d.Start();
    while n > d.Fake()
      invariant d.Fake() <= n <= d.Start() && |frees| == d.Start() - n
      invariant forall k :: 0 <= k < |frees| ==>
        frees[k] == if deferred then Defer(k + d.Offset()) else Free(k + d.Offset())
    {
      var under := d.Start() - n + d.Offset();
      frees := frees + [if deferred then Defer(under) else Free(under)];
      n := n - 1;
    }
  }

  ghost predicate IsDeclared(decls: seq<Declared>, under: int)
  {
    exists k :: 0 <= k < |decls| && decls[k].under == under
  }

  ghost predicate HasStars(decls: seq<Declared>, under: int, stars: int)
  {
    Declared(under, stars) in decls
  }

  /** One declaration for each star from all of them down to the fake ones. */
  ghost predicate Declares(d: Declarator, decls: seq<Declared>)
  {
    |decls| == d.Start() - d.Fake() + 1 && forall k :: 0 <= k < |decls| ==> decls[k] == Declared(k, d.Start() - k)
  }

  lemma Levels(d: Declarator, decls: seq<Declared>)
    requires Declares(d, decls)
    ensures decls != [] && decls[0] == Declared(0, d.stars + d.empties)
    ensures decls[|decls| - 1].stars == if d.empties > 0 then d.empties else if d.usePointer && d.stars > 0 then 1 else 0
    ensures forall k :: 0 < k < |decls| ==> decls[k] == Declared(decls[k - 1].under + 1, decls[k - 1].stars - 1)
    ensures forall i, j :: 0 <= i < j < |decls| ==> decls[i].under != decls[j].under
  {
  }

  lemma Targets(d: Declarator, decls: seq<Declared>, inits: seq<Assigned>, a: Assigned)
    requires Declares(d, decls) && |inits| == |decls| - 1 && a in inits
    requires forall k :: 0 <= k < |inits| ==> inits[k] == Assigned(k, k + 1)
    ensures exists s :: HasStars(decls, a.under, s + 1) && HasStars(decls, a.target, s)
  {
    var k :| 0 <= k < |inits| && inits[k] == a;
    var s := d.Start() - k - 1;
    assert decls[k] == Declared(a.under, s + 1) && decls[k + 1] == Declared(a.target, s);
    assert HasStars(decls, a.under, s + 1) && HasStars(decls, a.target, s);
  }

  lemma IsDeclaredAt(d: Declarator, decls: seq<Declared>, under: int)
    requires Declares(d, decls) && 0 <= under < |decls|
    ensures IsDeclared(decls, under)
  {
    assert decls[under].under == under;
  }

  /** The emitted code is coherent: what is assigned, allocated or freed is declared, an assigned
      variable has one star more than its target, and what is freed or deferred is exactly what
      was allocated, once each. */
  method Emit(d: Declarator, deferred: bool)
    returns (decls: seq<Declared>, inits: seq<Assigned>, allocs: seq<Memory>, frees: seq<Memory>)
    ensures decls != [] && decls[0] == Declared(0, d.stars + d.empties)
    ensures decls[|decls| - 1].stars == if d.empties > 0 then d.empties else if d.usePointer && d.stars > 0 then 1 else 0
    ensures forall k :: 0 < k < |decls| ==> decls[k] == Declared(decls[k - 1].under + 1, decls[k - 1].stars - 1)
    ensures |inits| == |allocs| == |decls| - 1
    ensures forall k :: 0 <= k < |inits| ==> inits[k] == Assigned(decls[k].under, decls[k + 1].under)
    ensures forall k :: 0 <= k < |allocs| ==>
      allocs[k].under == (if d.constructed && decls[|decls| - 1].stars == 0 then inits[k].under else inits[k].target)
    ensures forall i, j :: 0 <= i < j < |decls| ==> decls[i].under != decls[j].under
    ensures forall a :: a in inits ==> exists s :: HasStars(decls, a.under, s + 1) && HasStars(decls, a.target, s)
    ensures forall m :: m in allocs ==> m.Allocate? && IsDeclared(decls, m.under)
    ensures forall i, j :: 0 <= i < j < |allocs| ==> allocs[i].under != allocs[j].under
    ensures |frees| == |allocs|
    ensures forall k :: 0 <= k < |frees| ==>
      frees[k] == if deferred then Defer(allocs[k].under) else Free(allocs[k].under)
  {
    hide HasStars, IsDeclared;
    decls := WriteIndirect(d);
    inits := WriteIndirectInitialization(d);
    allocs := WriteIndirectInitializationMemory(d);
    frees := WriteCleanup(d, deferred);
    Levels(d, decls);
    forall a | a in inits ensures exists s :: HasStars(decls, a.under, s + 1) && HasStars(decls, a.target, s) {
      Targets(d, decls, inits, a);
    }
    forall m | m in allocs ensures m.Allocate? && IsDeclared(decls, m.under) {
      IsDeclaredAt(d, decls, m.under);
    }
  }
}
