/** `lt_dlexit` at the last call (dice/libltdl/ltdl.c): passes over the list with a rising level,
    each closing the handles whose count is not above it. */
module RegistryExit {
  import opened Wrappers
  import opened Registry
  import opened RegistryInvariant
  import opened RegistryEvolution
  import opened RegistryReachability

  /** All that the loops need of the list. */
  ghost predicate ListOk(s: State)
  {
    Distinct(s.handles) && Allocated(s.handles, s.info)
  }

  // ---------------------------------------------------------------- what a close does to the list

  /** Some handles left the list and the map, the rest kept their place and flags. */
  ghost predicate Shrinks(s: State, s': State)
  {
    && ListOk(s')
    && s'.info.Keys <= s.info.Keys
    && s'.handles == KeepIn(s.handles, s'.info.Keys)
    && (forall h :: h in s'.info ==> SameModule(s.info[h], s'.info[h]))
  }

  lemma {:induction false} KeepInFacts(hs: seq<HandleId>, keep: set<HandleId>)
    ensures forall h :: h in KeepIn(hs, keep) <==> h in hs && h in keep
    ensures Distinct(hs) ==> Distinct(KeepIn(hs, keep))
  {
    if hs != [] {
      KeepInFacts(hs[1..], keep);
      var rest := KeepIn(hs[1..], keep);
      assert KeepIn(hs, keep) == if hs[0] in keep then [hs[0]] + rest else rest;
      assert ([hs[0]] + rest)[1..] == rest;
    }
  }

  lemma ShrinksTrans(s0: State, s1: State, s2: State)
    requires Shrinks(s0, s1) && Shrinks(s1, s2)
    ensures Shrinks(s0, s2)
  {
    KeepInTwice(s0.handles, s1.info.Keys, s2.info.Keys);
    assert s1.info.Keys * s2.info.Keys == s2.info.Keys;
  }

  lemma ShrinksRefl(s: State, s': State)
    requires ListOk(s) && s'.handles == s.handles && s'.info.Keys == s.info.Keys
    requires forall h :: h in s.info ==> SameModule(s.info[h], s'.info[h])
    ensures Shrinks(s, s')
  {
    KeepInAll(s.handles, s.info.Keys);
  }

  lemma DiscardShrinks(s: State, h: HandleId)
    requires ListOk(s) && h in s.handles
    ensures Shrinks(s, Discard(s, h))
  {
    var s' := Discard(s, h);
    var keep := s'.info.Keys;
    WithoutIsKeepIn(s.handles, h, keep);
    KeepInFacts(s.handles, keep);
  }

  /** The work that is left: closing lowers it. */
  ghost function Weight(hs: seq<HandleId>, info: map<HandleId, Info>): nat
  {
    if hs == [] then 0
    else
      (if hs[0] in info && !info[hs[0]].resident then 1 + (if info[hs[0]].refCount > 0 then info[hs[0]].refCount else 0) else 0)
      + Weight(hs[1..], info)
  }

  lemma {:induction false} WeightSame(hs: seq<HandleId>, a: map<HandleId, Info>, b: map<HandleId, Info>)
    requires forall h :: h in hs ==> h in a && h in b && a[h] == b[h]
    ensures Weight(hs, a) == Weight(hs, b)
  {
    if hs != [] {
      WeightSame(hs[1..], a, b);
    }
  }

  lemma {:induction false} WeightBump(hs: seq<HandleId>, info: map<HandleId, Info>, h: HandleId)
    requires Distinct(hs) && Allocated(hs, info) && h in hs
    requires !info[h].resident && info[h].refCount > 1
    ensures Weight(hs, info[h := info[h].(refCount := info[h].refCount - 1)]) == Weight(hs, info) - 1
  {
    var info' := info[h := info[h].(refCount := info[h].refCount - 1)];
    if hs[0] == h {
      WeightSame(hs[1..], info, info');
    } else {
      WeightBump(hs[1..], info, h);
    }
  }

  lemma {:induction false} WeightWithout(hs: seq<HandleId>, info: map<HandleId, Info>, info': map<HandleId, Info>, h: HandleId)
    requires Distinct(hs) && Allocated(hs, info) && h in hs && !info[h].resident
    requires forall x :: x in hs && x != h ==> x in info' && info'[x] == info[x]
    ensures Weight(Without(hs, h), info') < Weight(hs, info)
  {
    if hs[0] == h {
      WeightSame(hs[1..], info, info');
    } else {
      WeightWithout(hs[1..], info, info', h);
      assert Without(hs, h)[1..] == Without(hs[1..], h);
    }
  }

  ghost predicate Lighter(s: State, s': State)
  {
    Shrinks(s, s') && Weight(s'.handles, s'.info) <= Weight(s.handles, s.info)
  }

  lemma LighterTrans(s0: State, s1: State, s2: State)
    requires Lighter(s0, s1) && Lighter(s1, s2)
    ensures Lighter(s0, s2)
  {
    hide Shrinks, Weight;
    ShrinksTrans(s0, s1, s2);
  }

  lemma BumpLighter(s: State, h: HandleId)
    requires ListOk(s) && h in s.handles && (s.info[h].resident || s.info[h].refCount > 1)
    ensures Lighter(s, Bump(s, h, -1))
    ensures !s.info[h].resident ==> Weight(s.handles, Bump(s, h, -1).info) < Weight(s.handles, s.info)
  {
    ShrinksRefl(s, Bump(s, h, -1));
    if s.info[h].resident {
      WeightResident(s.handles, s.info, h);
    } else {
      WeightBump(s.handles, s.info, h);
    }
  }

  lemma {:induction false} WeightResident(hs: seq<HandleId>, info: map<HandleId, Info>, h: HandleId)
    requires Allocated(hs, info) && h in info && info[h].resident
    ensures Weight(hs, info[h := info[h].(refCount := info[h].refCount - 1)]) == Weight(hs, info)
  {
    if hs != [] {
      WeightResident(hs[1..], info, h);
    }
  }

  lemma DiscardLighter(s: State, h: HandleId)
    requires ListOk(s) && h in s.handles && !s.info[h].resident
    ensures var s' := Discard(Bump(s, h, -1), h);
      Lighter(s, s') && Weight(s'.handles, s'.info) < Weight(s.handles, s.info)
  {
    var s1 := Bump(s, h, -1);
    ShrinksRefl(s, s1);
    DiscardShrinks(s1, h);
    ShrinksTrans(s, s1, Discard(s1, h));
    WeightWithout(s.handles, s.info, Discard(s1, h).info, h);
  }

  /** Closing a registered handle that is not resident lowers the weight. */
  lemma {:induction false} CloseLighter(s: State, h: HandleId)
    requires ListOk(s) && h in s.handles
    ensures var s' := Close(s, h).s;
      && Lighter(s, s')
      && (!s.info[h].resident ==> Weight(s'.handles, s'.info) < Weight(s.handles, s.info))
    decreases |s.handles|, 0, 0
  {
    var s1 := Bump(s, h, -1);
    if s1.info[h].refCount <= 0 && !s1.info[h].resident {
      DiscardLighter(s, h);
      var s2, deps := Discard(s1, h), s1.info[h].deplibs;
      UnloadLighter(s2, deps);
      LighterTrans(s, s2, Unload(s2, deps).s);
    } else {
      BumpLighter(s, h);
    }
  }

  lemma {:induction false} UnloadLighter(s: State, deps: seq<HandleId>)
    requires ListOk(s)
    ensures Lighter(s, Unload(s, deps).s)
    decreases |s.handles|, 1, |deps|
  {
    ShrinksRefl(s, s);
    if deps != [] && deps[0] in s.info {
      if s.info[deps[0]].resident {
        UnloadLighter(s, deps[1..]);
      } else {
        var s1 := Close(s, deps[0]).s;
        if deps[0] in s.handles { CloseLighter(s, deps[0]); }
        UnloadLighter(s1, deps[1..]);
        LighterTrans(s, s1, Unload(s1, deps[1..]).s);
      }
    } else if deps != [] {
      ShrinksRefl(s, Unload(s, deps).s);
    }
  }

  // ---------------------------------------------------------------- one pass

  /** The list from `h` on; empty when `h` is not linked. */
  ghost function From(hs: seq<HandleId>, h: HandleId): (r: seq<HandleId>)
    ensures |r| <= |hs|
    ensures h in hs <==> r != []
    ensures r != [] ==> r[0] == h
    ensures forall x :: x in r ==> x in hs
  {
    if hs == [] then [] else if hs[0] == h then hs else From(hs[1..], h)
  }

  /** `h->next`. */
  ghost function Next(hs: seq<HandleId>, h: HandleId): Option<HandleId>
  {
    var r := From(hs, h);
    if |r| > 1 then Some(r[1]) else None
  }

  lemma {:induction false} FromNext(hs: seq<HandleId>, h: HandleId)
    requires Distinct(hs) && |From(hs, h)| > 1
    ensures From(hs, From(hs, h)[1]) == From(hs, h)[1..]
  {
    var n := From(hs, h)[1];
    if hs[0] == h {
      assert n == hs[1..][0];
    } else {
      FromNext(hs[1..], h);
      assert n in From(hs[1..], h);
    }
  }

  lemma {:induction false} FromShrinks(hs: seq<HandleId>, keep: set<HandleId>, h: HandleId)
    ensures |From(KeepIn(hs, keep), h)| <= |From(hs, h)|
  {
    if hs != [] {
      FromShrinks(hs[1..], keep, h);
      var rest := KeepIn(hs[1..], keep);
      assert KeepIn(hs, keep) == if hs[0] in keep then [hs[0]] + rest else rest;
      assert ([hs[0]] + rest)[1..] == rest;
      if hs[0] == h { KeepInShorter(hs, keep); }
    }
  }

  lemma {:induction false} KeepInShorter(hs: seq<HandleId>, keep: set<HandleId>)
    ensures |KeepIn(hs, keep)| <= |hs|
  {
    if hs != [] {
      KeepInShorter(hs[1..], keep);
    }
  }

  datatype Pass = Pass(s: State, sawNonresident: bool, closed: bool)

  predicate ClosedAt(s: State, h: HandleId, level: int)
    requires h in s.info
  {
    !s.info[h].resident && s.info[h].refCount <= level
  }

  ghost function AfterVisit(s: State, h: HandleId, level: int): State
    requires h in s.info
  {
    if ClosedAt(s, h, level) then Close(s, h).s else s
  }

  /** The inner loop at `cur`.  The next handle is read before the close and may be freed by it:
      the loop then runs on through freed memory. */
  ghost function PassFrom(s: State, level: int, cur: Option<HandleId>): Pass
    requires ListOk(s)
    decreases if cur.None? then 0 else |From(s.handles, cur.value)|
  {
    if cur.None? then Pass(s, false, false)
    else if cur.value !in s.handles then Pass(s.(corrupt := true), false, false)
    else
      var h := cur.value;
      var next := Next(s.handles, h);
      var s1 := AfterVisit(s, h, level);
      VisitShrinks(s, h, level);
      var rest := PassFrom(s1, level, next);
      Pass(rest.s, rest.sawNonresident || !s.info[h].resident, rest.closed || ClosedAt(s, h, level))
  }

  lemma VisitShrinks(s: State, h: HandleId, level: int)
    requires ListOk(s) && h in s.handles
    ensures var s1, next := AfterVisit(s, h, level), Next(s.handles, h);
      && Lighter(s, s1)
      && (ClosedAt(s, h, level) ==> Weight(s1.handles, s1.info) < Weight(s.handles, s.info))
      && (next.Some? ==> |From(s1.handles, next.value)| < |From(s.handles, h)|)
  {
    ShrinksRefl(s, s);
    if ClosedAt(s, h, level) { CloseLighter(s, h); }
    var s1, next := AfterVisit(s, h, level), Next(s.handles, h);
    if next.Some? {
      FromNext(s.handles, h);
      FromShrinks(s.handles, s1.info.Keys, next.value);
    }
  }

  /** A pass that closes nothing leaves everything as it was; one that closes makes progress. */
  lemma {:induction false} PassProgress(s: State, level: int, cur: Option<HandleId>)
    requires ListOk(s)
    ensures var p := PassFrom(s, level, cur);
      && ListOk(p.s)
      && Weight(p.s.handles, p.s.info) <= Weight(s.handles, s.info)
      && (p.closed ==> Weight(p.s.handles, p.s.info) < Weight(s.handles, s.info))
      && (!p.closed ==> p.s == s.(corrupt := p.s.corrupt))
    decreases if cur.None? then 0 else |From(s.handles, cur.value)|
  {
    if cur.Some? && cur.value in s.handles {
      VisitShrinks(s, cur.value, level);
      PassProgress(AfterVisit(s, cur.value, level), level, Next(s.handles, cur.value));
    }
  }

  /** The list from `h` on is `h` and the list from the next handle on. */
  lemma FromCons(hs: seq<HandleId>, h: HandleId)
    requires Distinct(hs) && h in hs
    ensures Next(hs, h).None? ==> From(hs, h) == [h]
    ensures Next(hs, h).Some? ==> Next(hs, h).value in hs && From(hs, h) == [h] + From(hs, Next(hs, h).value)
  {
    var f := From(hs, h);
    assert f == [h] + f[1..];
    if |f| > 1 {
      FromNext(hs, h);
      assert f[1] in f;
    }
  }

  /** Without a close, every handle met is resident or above the level. */
  lemma {:induction false} QuietPass(s: State, level: int, h: HandleId)
    requires ListOk(s) && h in s.handles
    requires var p := PassFrom(s, level, Some(h)); !p.closed && !p.s.corrupt
    ensures forall x :: x in From(s.handles, h) ==> s.info[x].resident || s.info[x].refCount > level
    ensures !PassFrom(s, level, Some(h)).sawNonresident ==> forall x :: x in From(s.handles, h) ==> s.info[x].resident
    decreases |From(s.handles, h)|
  {
    hide From, Next, Close, Distinct, Lighter, Weight;
    var next := Next(s.handles, h);
    VisitShrinks(s, h, level);
    FromCons(s.handles, h);
    if next.Some? {
      QuietPass(s, level, next.value);
    }
  }

  // ---------------------------------------------------------------- the levels

  /** The smallest count of a handle that is not resident. */
  ghost function MinCount(hs: seq<HandleId>, info: map<HandleId, Info>): (r: Option<int>)
    ensures r.None? ==> forall h :: h in hs && h in info ==> info[h].resident
    ensures r.Some? ==> exists h :: h in hs && h in info && !info[h].resident && info[h].refCount == r.value
  {
    if hs == [] then None
    else
      var rest := MinCount(hs[1..], info);
      if hs[0] !in info || info[hs[0]].resident then rest
      else if rest.None? || info[hs[0]].refCount < rest.value then Some(info[hs[0]].refCount)
      else rest
  }

  /** How far the level is below the smallest count. */
  ghost function Distance(s: State, level: int): nat
  {
    var m := MinCount(s.handles, s.info);
    if m.None? || m.value <= level then 0 else m.value - level
  }

  ghost function Head(hs: seq<HandleId>): Option<HandleId>
  {
    if hs == [] then None else Some(hs[0])
  }

  /** The outer loop.  It ends at once when a pass ran through freed memory. */
  ghost function LevelsFrom(s: State, level: int): State
    requires ListOk(s)
    decreases Weight(s.handles, s.info), Distance(s, level)
  {
    if s.handles == [] then s
    else
      var p := PassFrom(s, level, Head(s.handles));
      LevelProgress(s, level);
      if p.s.corrupt || !p.sawNonresident then p.s else LevelsFrom(p.s, level + 1)
  }

  /** Every level closes something or comes closer to the smallest count. */
  lemma LevelProgress(s: State, level: int)
    requires ListOk(s) && s.handles != []
    ensures var p := PassFrom(s, level, Head(s.handles));
      && ListOk(p.s)
      && (!p.s.corrupt && p.sawNonresident ==>
            || Weight(p.s.handles, p.s.info) < Weight(s.handles, s.info)
            || (Weight(p.s.handles, p.s.info) == Weight(s.handles, s.info) && Distance(p.s, level + 1) < Distance(s, level)))
  {
    var p := PassFrom(s, level, Head(s.handles));
    PassProgress(s, level, Head(s.handles));
    if !p.closed && !p.s.corrupt && p.sawNonresident {
      QuietPass(s, level, s.handles[0]);
      SawNonresident(s, level, s.handles[0]);
      assert From(s.handles, s.handles[0]) == s.handles;
    }
  }

  lemma {:induction false} SawNonresident(s: State, level: int, h: HandleId)
    requires ListOk(s) && h in s.handles
    requires var p := PassFrom(s, level, Some(h)); !p.closed && p.sawNonresident
    ensures exists x :: x in s.handles && !s.info[x].resident
    decreases |From(s.handles, h)|
  {
    var next := Next(s.handles, h);
    VisitShrinks(s, h, level);
    if s.info[h].resident && next.Some? {
      SawNonresident(s, level, next.value);
    }
  }

  /** The handles behind the resident ones at the front, which are dropped from the list. */
  function SkipResident(hs: seq<HandleId>, info: map<HandleId, Info>): (r: seq<HandleId>)
    ensures |r| <= |hs| && r == hs[|hs| - |r|..]
  {
    if hs != [] && hs[0] in info && info[hs[0]].resident then SkipResident(hs[1..], info) else hs
  }

  lemma {:induction false} SuffixOk(hs: seq<HandleId>, n: nat)
    requires Distinct(hs) && n <= |hs|
    ensures Distinct(hs[n..])
  {
    if n > 0 {
      SuffixOk(hs[1..], n - 1);
      assert hs[1..][n - 1..] == hs[n..];
    } else {
      assert hs[0..] == hs;
    }
  }

  lemma ListedAllocated(s: State)
    requires ListOk(s)
    ensures forall h :: h in s.handles ==> h in s.info
  {
  }

  lemma SkipOk(s: State)
    requires ListOk(s)
    ensures ListOk(s.(handles := SkipResident(s.handles, s.info)))
  {
    var hs := SkipResident(s.handles, s.info);
    SuffixOk(s.handles, |s.handles| - |hs|);
  }

  /** `lt_dlexit` when it is the last call. */
  ghost function Exit(s: State): State
    requires ListOk(s)
  {
    SkipOk(s);
    LevelsFrom(s.(handles := SkipResident(s.handles, s.info)), 1).(loaders := [])
  }

  // ---------------------------------------------------------------- without dependencies that could go

  /** A handle that may be closed depends on nothing that may be freed. */
  ghost predicate NoLiveDeps(s: State)
  {
    forall h, d :: h in s.handles && h in s.info && !s.info[h].resident && d in s.info[h].deplibs ==>
      d in s.info && s.info[d].resident
  }

  lemma {:induction false} UnloadResident(s: State, deps: seq<HandleId>)
    requires forall d :: d in deps ==> d in s.info && s.info[d].resident
    ensures Unload(s, deps).s == s
  {
    if deps != [] {
      UnloadResident(s, deps[1..]);
    }
  }

  /** Closing such a handle frees at most the handle itself. */
  lemma VisitAlone(s: State, h: HandleId, level: int)
    requires ListOk(s) && NoLiveDeps(s) && h in s.handles
    ensures var s1 := AfterVisit(s, h, level);
      && ListOk(s1) && NoLiveDeps(s1) && s1.corrupt == s.corrupt
      && (forall x :: x in s.handles && x != h ==> x in s1.handles)
      && (forall x :: x in s1.handles ==> x in s.handles)
      && (forall x :: x in s1.info ==> x in s.info && s1.info[x].resident == s.info[x].resident)
  {
    hide Weight, KeepIn, From;
    VisitShrinks(s, h, level);
    var s1 := Bump(s, h, -1);
    if ClosedAt(s, h, level) && s.info[h].refCount <= 1 {
      var s2 := Discard(s1, h);
      forall d | d in s.info[h].deplibs ensures d in s2.info && s2.info[d].resident { }
      UnloadResident(s2, s.info[h].deplibs);
    }
  }

  lemma {:induction false} PassSafe(s: State, level: int, cur: Option<HandleId>)
    requires ListOk(s) && NoLiveDeps(s) && !s.corrupt && (cur.Some? ==> cur.value in s.handles)
    ensures var p := PassFrom(s, level, cur);
      !p.s.corrupt && ListOk(p.s) && NoLiveDeps(p.s)
    decreases if cur.None? then 0 else |From(s.handles, cur.value)|
  {
    if cur.Some? {
      var h, next := cur.value, Next(s.handles, cur.value);
      VisitShrinks(s, h, level);
      VisitAlone(s, h, level);
      if next.Some? {
        var f := From(s.handles, h);
        FromNext(s.handles, h);
        NextDiffers(s.handles, h);
      }
      PassSafe(AfterVisit(s, h, level), level, next);
    }
  }

  lemma {:induction false} NextDiffers(hs: seq<HandleId>, h: HandleId)
    requires Distinct(hs) && |From(hs, h)| > 1
    ensures From(hs, h)[1] != h && From(hs, h)[1] in hs
  {
    if hs[0] == h {
      assert hs[1..][0] in hs[1..];
    } else {
      NextDiffers(hs[1..], h);
    }
  }

  /** A pass that saw only resident handles left only resident handles. */
  lemma {:induction false} ResidentPass(s: State, level: int, h: HandleId)
    requires ListOk(s) && h in s.handles
    requires var p := PassFrom(s, level, Some(h)); !p.s.corrupt && !p.sawNonresident
    ensures PassFrom(s, level, Some(h)).s == s
    ensures forall x :: x in From(s.handles, h) ==> s.info[x].resident
    decreases |From(s.handles, h)|
  {
    hide From, Next, Close, Distinct, Lighter, Weight;
    var next := Next(s.handles, h);
    VisitShrinks(s, h, level);
    FromCons(s.handles, h);
    if next.Some? {
      ResidentPass(s, level, next.value);
    }
  }

  lemma {:induction false} LevelsLeaveResidents(s: State, level: int)
    requires ListOk(s) && NoLiveDeps(s) && !s.corrupt
    ensures var r := LevelsFrom(s, level);
      !r.corrupt && ListOk(r) && forall h :: h in r.handles ==> r.info[h].resident
    decreases Weight(s.handles, s.info), Distance(s, level)
  {
    if s.handles != [] {
      var p := PassFrom(s, level, Head(s.handles));
      LevelProgress(s, level);
      PassSafe(s, level, Head(s.handles));
      if p.sawNonresident {
        LevelsLeaveResidents(p.s, level + 1);
      } else {
        ResidentPass(s, level, s.handles[0]);
        assert From(s.handles, s.handles[0]) == s.handles;
      }
    }
  }

  /** The last `lt_dlexit` terminates (it is a function) and, when no handle that may be closed
      depends on one that may be freed, leaves only resident handles in the list. */
  lemma ExitLeavesResidents(s: State)
    requires ListOk(s) && NoLiveDeps(s) && !s.corrupt
    ensures var r := Exit(s);
      !r.corrupt && ListOk(r) && forall h :: h in r.handles ==> r.info[h].resident
  {
    SkipOk(s);
    LevelsLeaveResidents(s.(handles := SkipResident(s.handles, s.info)), 1);
  }

  // ---------------------------------------------------------------- with one

  /** When the first handle that may be closed has one reference left and holds the only
      reference to the handle behind it, its close frees the handle the loop goes on with. */
  lemma ExitDangles(s: State)
    requires ListOk(s)
    requires |s.handles| > 1 && !s.info[s.handles[0]].resident && s.info[s.handles[0]].refCount <= 1
    requires var h, d := s.handles[0], s.handles[1];
      s.info[h].deplibs == [d] && !s.info[d].resident && s.info[d].refCount <= 1
    ensures Exit(s).corrupt
  {
    var h, d := s.handles[0], s.handles[1];
    assert d == s.handles[1..][0] && d in s.handles[1..];
    assert SkipResident(s.handles, s.info) == s.handles;
    assert s.(handles := s.handles) == s;
    CloseTakesDependency(s, h, d);
    var s1 := Close(s, h).s;
    VisitShrinks(s, h, 1);
    KeepInFacts(s.handles, s1.info.Keys);
    assert From(s.handles, h) == s.handles;
    assert Next(s.handles, h) == Some(d);
    assert PassFrom(s1, 1, Some(d)).s.corrupt;
    assert PassFrom(s, 1, Some(h)).s.corrupt;
  }

  lemma CloseTakesDependency(s: State, h: HandleId, d: HandleId)
    requires ListOk(s) && h in s.handles && d in s.handles && d != h
    requires !s.info[h].resident && s.info[h].refCount <= 1 && s.info[h].deplibs == [d]
    requires !s.info[d].resident && s.info[d].refCount <= 1
    ensures d !in Close(s, h).s.info
  {
    hide Weight, KeepIn;
    var s2 := Discard(Bump(s, h, -1), h);
    DiscardLighter(s, h);
    assert s2.info[d] == s.info[d] && d in s2.handles;
    CloseRemoves(s2, d);
    assert [d][1..] == [];
    assert Unload(s2, [d]).s == Close(s2, d).s;
  }

  lemma CloseRemoves(s: State, h: HandleId)
    requires ListOk(s) && h in s.handles && !s.info[h].resident && s.info[h].refCount <= 1
    ensures h !in Close(s, h).s.info
  {
    hide Weight, KeepIn;
    DiscardLighter(s, h);
    UnloadLighter(Discard(Bump(s, h, -1), h), s.info[h].deplibs);
  }

  // ---------------------------------------------------------------- one visit

  /** Exactly when the close of a visited handle frees the handle the loop goes on with: a client
      holds the visited handle, and without that reference nothing leads to the next one. */
  lemma NextFreedIff(s: State, h: HandleId, ext: multiset<HandleId>)
    requires Inv(s, ext + multiset{h}) && Next(s.handles, h).Some?
    ensures var next := Next(s.handles, h).value;
      next in s.handles && (next !in Close(s, h).s.handles <==> !Reachable(s, ext, next))
  {
    hide LoaderLevel, Conserved, Reachable;
    CloseCascade(s, h, ext);
    CloseInv(s, h, ext);
    Listed(Close(s, h).s, ext);
  }

  lemma Listed(s: State, ext: multiset<HandleId>)
    requires Inv(s, ext)
    ensures forall h :: h in s.handles <==> h in s.info
  {
  }
}
