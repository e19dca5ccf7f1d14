/** What any registry call may change: `Evolves` relates the state before to the state after.
    Closing and opening are shown to keep the invariant and to evolve the registry. */
module RegistryEvolution {
  import opened Wrappers
  import opened Registry
  import opened RegistryInvariant

  /** The members of `hs` that are in `keep`, in order. */
  ghost function KeepIn(hs: seq<HandleId>, keep: set<HandleId>): seq<HandleId>
  {
    if hs == [] then []
    else (if hs[0] in keep then [hs[0]] else []) + KeepIn(hs[1..], keep)
  }

  /** The two records describe the same module; only the count may differ. */
  predicate SameModule(a: Info, b: Info)
  {
    a.(refCount := 0) == b.(refCount := 0)
  }

  ghost predicate Evolves(s: State, s': State)
  {
    && s.nextId <= s'.nextId
    && s.loaders == s'.loaders
    && s.log <= s'.log
    // handles that survive are unchanged but for their count; addresses are not reused
    && (forall h :: h in s'.info && h < s.nextId ==> h in s.info && SameModule(s.info[h], s'.info[h]))
    // resident handles stay, and no handle becomes resident
    && (forall h :: h in s.info && s.info[h].resident ==> h in s'.info)
    && (forall h :: h in s'.info && s.nextId <= h ==> !s'.info[h].resident)
    // survivors keep their order
    && KeepIn(s'.handles, s.info.Keys) == KeepIn(s.handles, s'.info.Keys)
  }

  // ---------------------------------------------------------------- KeepIn

  lemma {:induction false} KeepInTwice(hs: seq<HandleId>, a: set<HandleId>, b: set<HandleId>)
    ensures KeepIn(KeepIn(hs, a), b) == KeepIn(hs, a * b)
  {
    if hs != [] {
      KeepInTwice(hs[1..], a, b);
      var rest := KeepIn(hs[1..], a);
      if hs[0] in a {
        assert ([hs[0]] + rest)[1..] == rest;
      } else {
        assert KeepIn(hs, a) == rest;
      }
    }
  }

  lemma {:induction false} KeepInAgree(hs: seq<HandleId>, a: set<HandleId>, b: set<HandleId>)
    requires forall h :: h in hs ==> (h in a <==> h in b)
    ensures KeepIn(hs, a) == KeepIn(hs, b)
  {
    if hs != [] {
      KeepInAgree(hs[1..], a, b);
    }
  }

  lemma {:induction false} KeepInAll(hs: seq<HandleId>, a: set<HandleId>)
    requires forall h :: h in hs ==> h in a
    ensures KeepIn(hs, a) == hs
  {
    if hs != [] {
      KeepInAll(hs[1..], a);
    }
  }

  lemma {:induction false} WithoutIsKeepIn(hs: seq<HandleId>, h: HandleId, keep: set<HandleId>)
    requires Distinct(hs)
    requires forall x :: x in hs && x != h ==> x in keep
    requires h !in keep
    ensures Without(hs, h) == KeepIn(hs, keep)
  {
    if hs != [] {
      if hs[0] == h {
        KeepInAll(hs[1..], keep);
      } else {
        WithoutIsKeepIn(hs[1..], h, keep);
      }
    }
  }

  // ---------------------------------------------------------------- Evolves

  lemma EvolvesRefl(s: State)
    requires WellFormed(s)
    ensures Evolves(s, s)
  {
  }

  lemma SurvivorsTransitive(s0: State, s1: State, s2: State)
    requires WellFormed(s0) && WellFormed(s1) && WellFormed(s2)
    requires Evolves(s0, s1) && Evolves(s1, s2)
    ensures KeepIn(s2.handles, s0.info.Keys) == KeepIn(s0.handles, s2.info.Keys)
  {
    var (k0, k1, k2) := (s0.info.Keys, s1.info.Keys, s2.info.Keys);
    calc {
      KeepIn(s2.handles, k0);
      { KeepInAgree(s2.handles, k0, k1 * k0); }
      KeepIn(s2.handles, k1 * k0);
      { KeepInTwice(s2.handles, k1, k0); }
      KeepIn(KeepIn(s1.handles, k2), k0);
      { KeepInTwice(s1.handles, k2, k0); assert k2 * k0 == k0 * k2; KeepInTwice(s1.handles, k0, k2); }
      KeepIn(KeepIn(s0.handles, k1), k2);
      { KeepInTwice(s0.handles, k1, k2); }
      KeepIn(s0.handles, k1 * k2);
      { KeepInAgree(s0.handles, k1 * k2, k2); }
      KeepIn(s0.handles, k2);
    }
  }

  lemma EvolvesTrans(s0: State, s1: State, s2: State)
    requires WellFormed(s0) && WellFormed(s1) && WellFormed(s2)
    requires Evolves(s0, s1) && Evolves(s1, s2)
    ensures Evolves(s0, s2)
  {
    SurvivorsTransitive(s0, s1, s2);
  }

  lemma BumpEvolves(s: State, h: HandleId, delta: int)
    requires WellFormed(s) && h in s.info
    ensures Evolves(s, Bump(s, h, delta))
  {
    assert Bump(s, h, delta).info.Keys == s.info.Keys;
  }

  lemma DiscardEvolves(s: State, h: HandleId)
    requires WellFormed(s) && h in s.info && !s.info[h].resident
    ensures Evolves(s, Discard(s, h))
  {
    var s' := Discard(s, h);
    WithoutIsKeepIn(s.handles, h, s'.info.Keys);
    KeepInAll(s'.handles, s.info.Keys);
  }

  lemma NewHead(hs: seq<HandleId>, id: HandleId, keys: set<HandleId>)
    requires id !in keys && forall h :: h in hs ==> h in keys
    ensures KeepIn([id] + hs, keys) == hs == KeepIn(hs, keys + {id})
  {
    KeepInAll(hs, keys);
    KeepInAll(hs, keys + {id});
    assert ([id] + hs)[1..] == hs;
  }

  lemma RegisterEvolves(s: State, log: seq<Event>, file: Option<string>, loader: Loader, deps: seq<HandleId>)
    requires WellFormed(s) && s.log <= log
    ensures Evolves(s, Register(s.(log := log), file, loader, deps, false).s)
  {
    hide LoaderLevel, Distinct, Ordered, KeepIn;
    var s' := Register(s.(log := log), file, loader, deps, false).s;
    NewHead(s.handles, s.nextId, s.info.Keys);
    assert s'.info.Keys == s.info.Keys + {s.nextId};
    assert forall h :: h in s'.info && h < s.nextId ==> h in s.info && s'.info[h] == s.info[h];
  }

  // ---------------------------------------------------------------- closing

  /** Everything the loaders were told since `log` are closes. */
  ghost predicate OnlyCloses(log: seq<Event>, log': seq<Event>)
  {
    && log <= log'
    && forall i :: |log| <= i < |log'| ==> log'[i].ModuleClose?
  }

  /** `s'` is a legal result of giving references back in `s` until `ext` is left. */
  ghost predicate Released(s: State, s': State, ext: multiset<HandleId>)
  {
    && Inv(s', ext)
    && Evolves(s, s')
    && OnlyCloses(s.log, s'.log)
    && s'.searchPath == s.searchPath
    && s'.nextId == s.nextId
  }

  lemma ReleasedTrans(s0: State, s1: State, s2: State, ext1: multiset<HandleId>, ext2: multiset<HandleId>)
    requires WellFormed(s0) && Released(s0, s1, ext1) && Released(s1, s2, ext2)
    ensures Released(s0, s2, ext2)
  {
    hide WellFormed, LoaderLevel, Conserved, Evolves;
    EvolvesTrans(s0, s1, s2);
  }

  lemma DiscardReleases(s: State, h: HandleId, ext: multiset<HandleId>)
    requires Inv(s, ext + multiset{h}) && h in s.info
    requires !s.info[h].resident && s.info[h].refCount <= 1
    ensures Released(s, Discard(Bump(s, h, -1), h), ext + multiset(s.info[h].deplibs))
  {
    hide WellFormed, LoaderLevel, Conserved, Evolves;
    var s1 := Bump(s, h, -1);
    DiscardInv(s, h, ext);
    BumpShape(s, h, -1);
    BumpEvolves(s, h, -1);
    DiscardEvolves(s1, h);
    EvolvesTrans(s, s1, Discard(s1, h));
  }

  lemma GiveReleases(s: State, h: HandleId, ext: multiset<HandleId>)
    requires Inv(s, ext + multiset{h}) && h in s.info
    requires s.info[h].resident || s.info[h].refCount > 1
    ensures Released(s, Bump(s, h, -1), ext)
  {
    hide WellFormed, LoaderLevel, Conserved, Evolves;
    GiveInv(s, h, ext);
    BumpEvolves(s, h, -1);
  }

  /** Giving back one reference keeps the invariant, however far the close cascades. */
  lemma {:induction false} CloseInv(s: State, h: HandleId, ext: multiset<HandleId>)
    requires Inv(s, ext + multiset{h})
    ensures h in s.info && Released(s, Close(s, h).s, ext)
    ensures Close(s, h).errors == if s.info[h].resident then 1 else 0
    decreases |s.handles|, 0, 0
  {
    hide LoaderLevel, Conserved, Evolves;
    assert h in ext + multiset{h};
    assert h in s.handles;
    var s1 := Bump(s, h, -1);
    if s.info[h].refCount <= 1 && !s.info[h].resident {
      var deps := s.info[h].deplibs;
      var s2 := Discard(s1, h);
      DiscardReleases(s, h, ext);
      UnloadInv(s2, deps, ext);
      ReleasedTrans(s, s2, Unload(s2, deps).s, ext + multiset(deps), ext);
    } else {
      GiveReleases(s, h, ext);
    }
  }

  lemma {:induction false} UnloadInv(s: State, deps: seq<HandleId>, ext: multiset<HandleId>)
    requires Inv(s, ext + multiset(deps))
    ensures Released(s, Unload(s, deps).s, ext)
    ensures Unload(s, deps).errors == 0
    decreases |s.handles|, 1, |deps|
  {
    if deps == [] {
      assert ext + multiset(deps) == ext;
      EvolvesRefl(s);
    } else {
      var d, rest := deps[0], ext + multiset(deps[1..]);
      assert deps == [d] + deps[1..];
      assert ext + multiset(deps) == rest + multiset{d};
      assert d in rest + multiset{d};
      if s.info[d].resident {
        DropResident(s, d, rest);
        UnloadInv(s, deps[1..], ext);
      } else {
        CloseInv(s, d, rest);
        var s1 := Close(s, d).s;
        UnloadInv(s1, deps[1..], ext);
        ReleasedTrans(s, s1, Unload(s1, deps[1..]).s, rest, ext);
      }
    }
  }
}
