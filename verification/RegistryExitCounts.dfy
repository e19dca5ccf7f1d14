/** What the passes of `lt_dlexit` do to the counts (dice/libltdl/ltdl.c), when no handle that may be
    closed depends on one that may be freed. */
module RegistryExitCounts {
  import opened Wrappers
  import opened Registry
  import opened RegistryInvariant
  import opened RegistryEvolution
  import opened RegistryExit

  /** The resident handles at the front are skipped, and no other. */
  lemma {:induction false} SkipResidentIs(hs: seq<HandleId>, info: map<HandleId, Info>) returns (n: nat)
    ensures n <= |hs| && SkipResident(hs, info) == hs[n..]
    ensures forall k :: 0 <= k < n ==> hs[k] in info && info[hs[k]].resident
    ensures n < |hs| && hs[n] in info ==> !info[hs[n]].resident
  {
    if hs != [] && hs[0] in info && info[hs[0]].resident {
      var m := SkipResidentIs(hs[1..], info);
      n := m + 1;
      assert hs[1..][m..] == hs[n..];
      forall k | 0 <= k < n ensures hs[k] in info && info[hs[k]].resident {
        if k > 0 { assert hs[k] == hs[1..][k - 1]; }
      }
    } else {
      n := 0;
      assert hs[0..] == hs;
    }
  }

  // ---------------------------------------------------------------- one visit

  /** Closing a handle without live dependencies concerns that handle alone. */
  lemma VisitExactly(s: State, h: HandleId, level: int)
    requires ListOk(s) && NoLiveDeps(s) && h in s.handles
    ensures AfterVisit(s, h, level) ==
      if !ClosedAt(s, h, level) then s
      else if s.info[h].refCount > 1 then Bump(s, h, -1)
      else Discard(Bump(s, h, -1), h)
  {
    if ClosedAt(s, h, level) && s.info[h].refCount <= 1 {
      var s2 := Discard(Bump(s, h, -1), h);
      forall d | d in s.info[h].deplibs ensures d in s2.info && s2.info[d].resident { }
      UnloadResident(s2, s.info[h].deplibs);
    }
  }

  lemma {:induction false} FromWithout(hs: seq<HandleId>, h: HandleId, n: HandleId)
    requires Distinct(hs) && h in hs && Next(hs, h) == Some(n)
    ensures From(Without(hs, h), n) == From(hs, n) && h !in From(hs, n) && h != n
  {
    NextDiffers(hs, h);
    if hs[0] == h {
      assert From(hs, h) == hs && hs[1..][0] == n;
    } else {
      FromWithout(hs[1..], h, n);
      FromNext(hs, h);
      assert Without(hs, h)[1..] == Without(hs[1..], h);
      assert n in hs[1..];
    }
  }

  // ---------------------------------------------------------------- one pass

  /** What a pass makes of the record of `x`, if it comes past it. */
  ghost predicate Passed(a: Info, x: HandleId, info: map<HandleId, Info>, level: int)
  {
    if a.resident || a.refCount > level then x in info && info[x] == a
    else if a.refCount > 1 then x in info && info[x] == a.(refCount := a.refCount - 1)
    else x !in info
  }

  ghost predicate Kept(a: Info, x: HandleId, info: map<HandleId, Info>)
  {
    x in info && info[x] == a
  }

  lemma VisitPasses(s: State, h: HandleId, level: int)
    requires ListOk(s) && NoLiveDeps(s) && h in s.handles && level >= 1
    ensures var s1 := AfterVisit(s, h, level);
      && Passed(s.info[h], h, s1.info, level)
      && (forall x :: x in s.info && x != h ==> Kept(s.info[x], x, s1.info))
      && (forall n :: Next(s.handles, h) == Some(n) ==> n != h && n in s1.handles && From(s1.handles, n) == From(s.handles, n))
  {
    VisitExactly(s, h, level);
    if Next(s.handles, h).Some? {
      var n := Next(s.handles, h).value;
      FromWithout(s.handles, h, n);
      NextDiffers(s.handles, h);
    }
  }

  /** A pass at `level` takes one reference from every handle it comes past that is not resident and
      whose count is not above the level, and frees it with the last one; it touches no other. */
  lemma {:induction false} PassCounts(s: State, level: int, h: HandleId)
    requires ListOk(s) && NoLiveDeps(s) && !s.corrupt && h in s.handles && level >= 1
    ensures var info := PassFrom(s, level, Some(h)).s.info;
      && info.Keys <= s.info.Keys
      && (forall x :: x in From(s.handles, h) ==> x in s.info && Passed(s.info[x], x, info, level))
      && (forall x :: x in s.info && x !in From(s.handles, h) ==> Kept(s.info[x], x, info))
    decreases |From(s.handles, h)|
  {
    hide From, Next, Passed, Close, Distinct, Lighter, NoLiveDeps;
    var s1, next := AfterVisit(s, h, level), Next(s.handles, h);
    VisitShrinks(s, h, level);
    VisitAlone(s, h, level);
    VisitPasses(s, h, level);
    FromCons(s.handles, h);
    DistinctHead(s.handles, h);
    ListedAllocated(s);
    if next.Some? {
      PassCounts(s1, level, next.value);
      LaterKept(s, s1, PassFrom(s1, level, next).s.info, h, next.value, level);
    }
  }

  lemma DistinctHead(hs: seq<HandleId>, h: HandleId)
    requires Distinct(hs) && h in hs
    ensures Next(hs, h).Some? ==> h !in From(hs, Next(hs, h).value)
  {
    if Next(hs, h).Some? { FromWithout(hs, h, Next(hs, h).value); }
  }

  /** The rest of the pass does not come back to `h`. */
  lemma LaterKept(s: State, s1: State, info: map<HandleId, Info>, h: HandleId, n: HandleId, level: int)
    requires h in s.info && Passed(s.info[h], h, s1.info, level) && s1.info.Keys <= s.info.Keys
    requires forall x :: x in s.info && x != h ==> Kept(s.info[x], x, s1.info)
    requires forall x :: x in From(s1.handles, n) ==> x in s1.info && Passed(s1.info[x], x, info, level)
    requires forall x :: x in s1.info && x !in From(s1.handles, n) ==> Kept(s1.info[x], x, info)
    requires h !in From(s1.handles, n) && info.Keys <= s1.info.Keys
    ensures Passed(s.info[h], h, info, level)
    ensures forall x :: x in s.info && x != h && x in From(s1.handles, n) ==> Passed(s.info[x], x, info, level)
    ensures forall x :: x in s.info && x != h && x !in From(s1.handles, n) ==> Kept(s.info[x], x, info)
  {
  }

  // ---------------------------------------------------------------- the whole exit

  lemma {:induction false} PassLighter(s: State, level: int, cur: Option<HandleId>)
    requires ListOk(s)
    ensures Lighter(s, PassFrom(s, level, cur).s)
    decreases if cur.None? then 0 else |From(s.handles, cur.value)|
  {
    hide From, Next, Close, Shrinks, Weight;
    if cur.Some? && cur.value in s.handles {
      var s1 := AfterVisit(s, cur.value, level);
      VisitShrinks(s, cur.value, level);
      LighterOk(s, s1);
      PassLighter(s1, level, Next(s.handles, cur.value));
      LighterTrans(s, s1, PassFrom(s1, level, Next(s.handles, cur.value)).s);
    } else {
      ShrinksRefl(s, PassFrom(s, level, cur).s);
    }
  }

  lemma LighterOk(s: State, s': State)
    requires Lighter(s, s')
    ensures ListOk(s')
  {
  }

  /** Every handle that is not resident is linked. */
  ghost predicate LooseLinked(s: State)
  {
    forall x :: x in s.info && !s.info[x].resident ==> x in s.handles
  }

  lemma PassLinked(s: State, level: int)
    requires ListOk(s) && LooseLinked(s) && s.handles != []
    ensures LooseLinked(PassFrom(s, level, Head(s.handles)).s)
  {
    hide Weight, KeepIn;
    var s' := PassFrom(s, level, Head(s.handles)).s;
    PassLighter(s, level, Head(s.handles));
    KeepInFacts(s.handles, s'.info.Keys);
    forall x | x in s'.info ensures s'.info[x].resident == s.info[x].resident { assert SameModule(s.info[x], s'.info[x]); }
  }

  ghost predicate Freed(s: State, info: map<HandleId, Info>)
  {
    forall x :: x in s.info ==> if s.info[x].resident then Kept(s.info[x], x, info) else x !in info
  }

  lemma {:induction false} LevelsFree(s: State, level: int)
    requires ListOk(s) && NoLiveDeps(s) && !s.corrupt && LooseLinked(s) && level >= 1
    ensures Freed(s, LevelsFrom(s, level).info) && LevelsFrom(s, level).info.Keys <= s.info.Keys
    decreases Weight(s.handles, s.info), Distance(s, level)
  {
    hide Weight, Distance, Distinct, NoLiveDeps;
    if s.handles != [] {
      var p := PassFrom(s, level, Head(s.handles));
      assert From(s.handles, s.handles[0]) == s.handles;
      LevelProgress(s, level);
      PassSafe(s, level, Head(s.handles));
      PassCounts(s, level, s.handles[0]);
      if p.sawNonresident {
        PassLinked(s, level);
        LevelsFree(p.s, level + 1);
        ResidentsKept(s, p.s, level);
      } else {
        ResidentPass(s, level, s.handles[0]);
      }
    }
  }

  lemma ResidentsKept(s: State, s': State, level: int)
    requires s'.info.Keys <= s.info.Keys
    requires forall x :: x in s.handles ==> x in s.info && Passed(s.info[x], x, s'.info, level)
    requires forall x :: x in s.info && x !in s.handles ==> Kept(s.info[x], x, s'.info)
    ensures forall x :: x in s.info && s.info[x].resident ==> Kept(s.info[x], x, s'.info)
    ensures forall x :: x in s'.info ==> s'.info[x].resident == s.info[x].resident
  {
  }

  /** The last `lt_dlexit` frees every handle that is not resident and leaves the records of the
      others, counts included, as they were. */
  lemma ExitFrees(s: State)
    requires ListOk(s) && NoLiveDeps(s) && !s.corrupt && LooseLinked(s)
    ensures Freed(s, Exit(s).info) && Exit(s).info.Keys <= s.info.Keys
  {
    hide LevelsFrom, LooseLinked, NoLiveDeps, ListOk, Freed, SkipResident;
    SkipOk(s);
    Skipped(s);
    LevelsFree(s.(handles := SkipResident(s.handles, s.info)), 1);
    SameFreed(s, SkipResident(s.handles, s.info), Exit(s).info);
  }

  lemma Skipped(s: State)
    requires NoLiveDeps(s) && LooseLinked(s)
    ensures var s1 := s.(handles := SkipResident(s.handles, s.info)); NoLiveDeps(s1) && LooseLinked(s1)
  {
    hide SkipResident, LooseLinked, NoLiveDeps;
    var n := SkipResidentIs(s.handles, s.info);
    SuffixNoDeps(s, n);
    SuffixLinked(s, n);
  }

  lemma SuffixNoDeps(s: State, n: nat)
    requires n <= |s.handles| && NoLiveDeps(s)
    ensures NoLiveDeps(s.(handles := s.handles[n..]))
  {
    forall h | h in s.handles[n..] ensures h in s.handles { }
  }

  lemma SuffixLinked(s: State, n: nat)
    requires n <= |s.handles| && LooseLinked(s)
    requires forall k :: 0 <= k < n ==> s.handles[k] in s.info && s.info[s.handles[k]].resident
    ensures LooseLinked(s.(handles := s.handles[n..]))
  {
    var hs := s.handles[n..];
    forall x | x in s.info && !s.info[x].resident ensures x in hs {
      var k :| 0 <= k < |s.handles| && s.handles[k] == x;
      assert hs[k - n] == x;
    }
  }

  lemma SameFreed(s: State, hs: seq<HandleId>, info: map<HandleId, Info>)
    ensures Freed(s.(handles := hs), info) <==> Freed(s, info)
  {
  }
}
