/** The first pass of `lt_dlexit` (dice/libltdl/ltdl.c), from any registry in order: exactly when it
    runs onto freed memory.

    The pass closes handles whose one reference may belong to another handle, so counts and deplibs
    arrays drift apart behind it.  Ahead of it they do not: a second state, in which the handles
    already visited have given up their deplibs arrays and what these held counts as held from
    outside, is always in order and sees the same closes. */
module RegistryLevelOne {
  import opened Wrappers
  import opened Registry
  import opened RegistryInvariant
  import opened RegistryEvolution
  import opened RegistryOpening
  import opened RegistryReachability
  import opened RegistryExit

  // ---------------------------------------------------------------- the condition

  /** Closing `h` takes the handle `next` behind it along: all references to it are entries of the
      deplibs array of `h`. */
  ghost predicate TakesAlong(s: State, h: HandleId, next: HandleId)
    requires h in s.info && next in s.info
  {
    && ClosedAt(s, h, 1)
    && !s.info[next].resident
    && s.info[next].refCount == multiset(s.info[h].deplibs)[next]
  }

  /** Some visit of the pass from `cur` on does. */
  ghost predicate TripsFrom(s: State, cur: Option<HandleId>)
    requires ListOk(s)
    decreases if cur.None? then 0 else |From(s.handles, cur.value)|
  {
    && cur.Some? && cur.value in s.handles && Next(s.handles, cur.value).Some?
    && var (h, next) := (cur.value, Next(s.handles, cur.value).value);
      NextListed(s.handles, h);
      VisitShrinks(s, h, 1);
      TakesAlong(s, h, next) || TripsFrom(AfterVisit(s, h, 1), Some(next))
  }

  lemma NextListed(hs: seq<HandleId>, h: HandleId)
    requires Next(hs, h).Some?
    ensures Next(hs, h).value in hs
  {
    assert From(hs, h)[1] in From(hs, h);
  }

  // ---------------------------------------------------------------- the second state

  /** `t` is `s` with the deplibs arrays of the visited handles given up; no other handle depends on
      a visited one. */
  ghost predicate Veiled(s: State, t: State, visited: set<HandleId>)
  {
    && t == s.(info := t.info)
    && s.info.Keys == t.info.Keys
    && (forall x :: x in s.info && x in visited ==> t.info[x] == s.info[x].(deplibs := []))
    && (forall x :: x in s.info && x !in visited ==> t.info[x] == s.info[x])
    && (forall x, d :: x in s.info && x !in visited && d in s.info[x].deplibs ==> d !in visited)
  }

  lemma {:induction false} CloseVeiled(s: State, t: State, visited: set<HandleId>, h: HandleId)
    requires Veiled(s, t, visited) && h !in visited
    ensures Veiled(Close(s, h).s, Close(t, h).s, visited)
    decreases |s.handles|, 0, 0
  {
    if h in s.handles && h in s.info {
      var (s1, t1) := (Bump(s, h, -1), Bump(t, h, -1));
      if s1.info[h].refCount <= 0 && !s1.info[h].resident {
        UnloadVeiled(Discard(s1, h), Discard(t1, h), visited, s1.info[h].deplibs);
      }
    }
  }

  lemma {:induction false} UnloadVeiled(s: State, t: State, visited: set<HandleId>, deps: seq<HandleId>)
    requires Veiled(s, t, visited) && forall d :: d in deps ==> d !in visited
    ensures Veiled(Unload(s, deps).s, Unload(t, deps).s, visited)
    decreases |s.handles|, 1, |deps|
  {
    if deps != [] && deps[0] in s.info {
      if s.info[deps[0]].resident {
        UnloadVeiled(s, t, visited, deps[1..]);
      } else {
        CloseVeiled(s, t, visited, deps[0]);
        UnloadVeiled(Close(s, deps[0]).s, Close(t, deps[0]).s, visited, deps[1..]);
      }
    }
  }

  // ---------------------------------------------------------------- giving up a deplibs array

  function Cleared(info: map<HandleId, Info>, h: HandleId): map<HandleId, Info>
    requires h in info
  {
    info[h := info[h].(deplibs := [])]
  }

  lemma {:induction false} ClearedList(hs: seq<HandleId>, info: map<HandleId, Info>, h: HandleId)
    requires Distinct(hs) && Allocated(hs, info) && Ordered(hs, info) && h in info
    ensures Ordered(hs, Cleared(info, h))
    ensures AllDeps(hs, info) == AllDeps(hs, Cleared(info, h)) + (if h in hs then multiset(info[h].deplibs) else multiset{})
  {
    if hs != [] {
      ClearedList(hs[1..], info, h);
    }
  }

  lemma ClearedShape(t: State, h: HandleId)
    requires WellFormed(t) && h in t.info
    ensures WellFormed(t.(info := Cleared(t.info, h)))
    ensures AllDeps(t.handles, t.info) == AllDeps(t.handles, Cleared(t.info, h)) + multiset(t.info[h].deplibs)
    ensures forall d :: d in t.info[h].deplibs ==> d in t.info
  {
    hide AllDeps, Distinct, Ordered;
    ClearedList(t.handles, t.info, h);
    forall d | d in t.info[h].deplibs ensures d in t.info { DepsInList(t.handles, t.info, h, d); }
  }

  /** The references pass to the outside. */
  lemma ClearedInv(t: State, h: HandleId, ext: multiset<HandleId>)
    requires Inv(t, ext) && h in t.info
    ensures Inv(t.(info := Cleared(t.info, h)), ext + multiset(t.info[h].deplibs))
  {
    hide WellFormed, LoaderLevel, Conserved, AllDeps;
    ClearedShape(t, h);
    ClearedLevel(t, h);
    ClearedConserved(t, h, ext);
  }

  lemma ClearedLevel(t: State, h: HandleId)
    requires LoaderLevel(t) && h in t.info
    ensures LoaderLevel(t.(info := Cleared(t.info, h)))
  {
    forall file, loader ensures OpenBy(t.info, file, loader) == OpenBy(Cleared(t.info, h), file, loader) {
      SameFiles(t.info, Cleared(t.info, h), file, loader);
    }
  }

  lemma ClearedConserved(t: State, h: HandleId, ext: multiset<HandleId>)
    requires Conserved(t, ext) && h in t.info
    requires AllDeps(t.handles, t.info) == AllDeps(t.handles, Cleared(t.info, h)) + multiset(t.info[h].deplibs)
    ensures Conserved(t.(info := Cleared(t.info, h)), ext + multiset(t.info[h].deplibs))
  {
    hide AllDeps;
    var (deps, deps') := (AllDeps(t.handles, t.info), AllDeps(t.handles, Cleared(t.info, h)));
    forall x | x in t.info
      ensures Balanced(Cleared(t.info, h)[x], (ext + multiset(t.info[h].deplibs))[x] + deps'[x])
    {
      assert Balanced(t.info[x], ext[x] + deps[x]);
    }
  }

  // ---------------------------------------------------------------- owners

  /** A handle further down the list does not depend on `h`. */
  lemma {:induction false} LaterOwnsNot(hs: seq<HandleId>, info: map<HandleId, Info>, h: HandleId, x: HandleId)
    requires Distinct(hs) && Allocated(hs, info) && Ordered(hs, info) && x in From(hs, h)
    ensures h !in DepsOf(info, x)
  {
    if hs[0] == h {
      if x != h && h in DepsOf(info, x) { DepsInList(hs[1..], info, x, h); }
    } else {
      LaterOwnsNot(hs[1..], info, h, x);
    }
  }

  lemma {:induction false} OnlyOwner(hs: seq<HandleId>, info: map<HandleId, Info>, h: HandleId, n: HandleId)
    requires Distinct(hs) && forall y :: y in hs && y != h ==> n !in DepsOf(info, y)
    ensures AllDeps(hs, info)[n] == if h in hs then multiset(DepsOf(info, h))[n] else 0
  {
    if hs != [] {
      OnlyOwner(hs[1..], info, h, n);
    }
  }

  lemma {:induction false} NoOwner(hs: seq<HandleId>, info: map<HandleId, Info>, n: HandleId)
    requires forall y :: y in hs ==> n !in DepsOf(info, y)
    ensures AllDeps(hs, info)[n] == 0
  {
    if hs != [] {
      NoOwner(hs[1..], info, n);
    }
  }

  // ---------------------------------------------------------------- one visit

  /** The pass has come to `h`: everything before it is visited, nothing from it on is. */
  ghost predicate At(s: State, t: State, visited: set<HandleId>, h: HandleId, ext: multiset<HandleId>)
  {
    && Veiled(s, t, visited) && Inv(t, ext) && h in s.handles
    && (forall x :: x in s.handles ==> (x in visited <==> x !in From(s.handles, h)))
  }

  lemma ListFacts(s: State, t: State, visited: set<HandleId>, h: HandleId, ext: multiset<HandleId>)
    requires At(s, t, visited, h, ext)
    ensures ListOk(s) && ListOk(t) && !s.corrupt && Ordered(t.handles, t.info)
    ensures s.handles == t.handles && h in s.info && h in From(s.handles, h) && h !in visited && s.info[h] == t.info[h]
    ensures forall x :: x in t.info <==> x in t.handles
  {
    assert From(s.handles, h)[0] == h;
  }

  /** Nobody ahead of the pass or behind it still owns `h`: its one reference is held from outside. */
  lemma VisitedUnowned(s: State, t: State, visited: set<HandleId>, h: HandleId, ext: multiset<HandleId>)
    requires At(s, t, visited, h, ext)
    ensures AllDeps(t.handles, t.info)[h] == 0
    ensures ClosedAt(s, h, 1) ==> ext[h] == 1 && s.info[h].refCount == 1
  {
    hide LoaderLevel, AllDeps, Ordered, Distinct, From;
    ListFacts(s, t, visited, h, ext);
    forall y | y in t.handles ensures h !in DepsOf(t.info, y) {
      if y !in visited { LaterOwnsNot(t.handles, t.info, h, y); }
    }
    NoOwner(t.handles, t.info, h);
    assert Balanced(t.info[h], ext[h] + AllDeps(t.handles, t.info)[h]);
  }

  lemma NextFacts(hs: seq<HandleId>, h: HandleId)
    requires Distinct(hs) && Next(hs, h).Some?
    ensures var n := Next(hs, h).value;
      && n in hs && n != h && h !in From(hs, n)
      && (forall x :: x in From(hs, h) <==> x == h || x in From(hs, n))
  {
    FromNext(hs, h);
    NextDiffers(hs, h);
    var f := From(hs, h);
    assert f == [h] + f[1..];
    FromDistinct(hs, h);
  }

  lemma {:induction false} FromDistinct(hs: seq<HandleId>, h: HandleId)
    requires Distinct(hs)
    ensures Distinct(From(hs, h))
  {
    if hs != [] && hs[0] != h {
      FromDistinct(hs[1..], h);
    }
  }

  /** The next handle is owned by the visited one alone, if at all. */
  lemma NextOwned(s: State, t: State, visited: set<HandleId>, h: HandleId, ext: multiset<HandleId>)
    requires At(s, t, visited, h, ext) && Next(s.handles, h).Some?
    ensures var n := Next(s.handles, h).value;
      && n in s.info && t.info[n] == s.info[n]
      && (forall y :: y in t.handles && y != h ==> n !in DepsOf(t.info, y))
      && (!s.info[n].resident ==> s.info[n].refCount == ext[n] + multiset(s.info[h].deplibs)[n])
  {
    hide LoaderLevel, AllDeps, Ordered, Distinct, From, Next;
    ListFacts(s, t, visited, h, ext);
    var n := Next(s.handles, h).value;
    DistinctOf(s);
    NextFacts(s.handles, h);
    FromSelf(s.handles, n);
    forall y | y in t.handles && y != h ensures n !in DepsOf(t.info, y) {
      if y !in visited { LaterOwnsNot(t.handles, t.info, n, y); }
    }
    OnlyOwner(t.handles, t.info, h, n);
    assert Balanced(t.info[n], ext[n] + AllDeps(t.handles, t.info)[n]);
  }

  lemma FromSelf(hs: seq<HandleId>, n: HandleId)
    requires n in hs
    ensures n in From(hs, n)
  {
    assert From(hs, n)[0] == n;
  }

  lemma DistinctOf(s: State)
    requires ListOk(s)
    ensures Distinct(s.handles)
  {
  }

  lemma {:induction false} FromKeepIn(hs: seq<HandleId>, keep: set<HandleId>, n: HandleId, x: HandleId)
    requires n in keep && x in keep
    ensures x in From(KeepIn(hs, keep), n) <==> x in From(hs, n)
  {
    if hs != [] {
      FromKeepIn(hs[1..], keep, n, x);
      KeepInFacts(hs, keep);
      KeepInFacts(hs[1..], keep);
      var rest := KeepIn(hs[1..], keep);
      assert KeepIn(hs, keep) == if hs[0] in keep then [hs[0]] + rest else rest;
      assert ([hs[0]] + rest)[1..] == rest;
    }
  }

  /** The close of the visited handle, in both states. */
  lemma VisitCloses(s: State, t: State, visited: set<HandleId>, h: HandleId, ext: multiset<HandleId>)
    requires At(s, t, visited, h, ext) && ClosedAt(s, h, 1)
    ensures var (s1, t1) := (Close(s, h).s, Close(t, h).s);
      && Veiled(s1, t1, visited) && Inv(t1, ext - multiset{h}) && Evolves(t, t1) && t1.nextId == t.nextId
      && h !in t1.info && s1.handles == t1.handles
  {
    hide LoaderLevel, Conserved, AllDeps, Ordered, Distinct, From, Evolves, Close, Veiled, WellFormed;
    var ext1 := ext - multiset{h};
    VisitedUnowned(s, t, visited, h, ext);
    ListFacts(s, t, visited, h, ext);
    CloseVeiled(s, t, visited, h);
    assert ext1 + multiset{h} == ext;
    CloseInv(t, h, ext1);
    CloseRemoves(t, h);
    SameHandles(Close(s, h).s, Close(t, h).s, visited);
  }

  /** What it does to the next handle. */
  lemma NextAfterClose(s: State, t: State, visited: set<HandleId>, h: HandleId, ext: multiset<HandleId>)
    requires At(s, t, visited, h, ext) && ClosedAt(s, h, 1) && Next(s.handles, h).Some?
    ensures var n := Next(s.handles, h).value;
      n in s.info && n != h && (n in Close(s, h).s.handles <==> !TakesAlong(s, h, n))
  {
    hide Inv, From, Next, Evolves, Close, Veiled, Conserved, Ordered, Distinct, ClosedAt;
    var (t1, n) := (Close(t, h).s, Next(s.handles, h).value);
    ListFacts(s, t, visited, h, ext);
    VisitCloses(s, t, visited, h, ext);
    NextOwned(s, t, visited, h, ext);
    DistinctOf(s);
    NextFacts(s.handles, h);
    InvWellFormed(t, ext);
    SurvivesIff(t, t1, h, n, ext - multiset{h});
  }

  lemma InvWellFormed(t: State, ext: multiset<HandleId>)
    requires Inv(t, ext)
    ensures WellFormed(t)
  {
  }

  lemma SameHandles(s: State, t: State, visited: set<HandleId>)
    requires Veiled(s, t, visited)
    ensures s.handles == t.handles
  {
  }

  /** A handle owned by nobody but the closed one stays exactly when it is resident or held from
      outside. */
  lemma SurvivesIff(t: State, t1: State, h: HandleId, n: HandleId, ext: multiset<HandleId>)
    requires WellFormed(t) && n in t.info && Inv(t1, ext) && Evolves(t, t1) && h !in t1.info && t1.nextId == t.nextId
    requires forall y :: y in t.handles && y != h ==> n !in DepsOf(t.info, y)
    ensures n in t1.handles <==> t.info[n].resident || ext[n] > 0
  {
    hide LoaderLevel, AllDeps, Ordered, Distinct;
    if n in t1.info && !t.info[n].resident {
      forall y | y in t1.handles ensures n !in DepsOf(t1.info, y) {
        assert y in t1.info && y < t.nextId;
        assert y in t.info && SameModule(t.info[y], t1.info[y]);
      }
      NoOwner(t1.handles, t1.info, n);
      assert SameModule(t.info[n], t1.info[n]);
      assert Balanced(t1.info[n], ext[n] + AllDeps(t1.handles, t1.info)[n]);
    }
    assert ext[n] > 0 ==> n in ext;
  }

  /** The pass moves on past a handle it does not close. */
  lemma PassedBy(s: State, t: State, visited: set<HandleId>, h: HandleId, ext: multiset<HandleId>)
    requires At(s, t, visited, h, ext) && Next(s.handles, h).Some?
    ensures At(s, t.(info := Cleared(t.info, h)), visited + {h}, Next(s.handles, h).value, ext + multiset(t.info[h].deplibs))
  {
    hide Inv, From, Next, Ordered, Distinct;
    ListFacts(s, t, visited, h, ext);
    DistinctOf(s);
    NextFacts(s.handles, h);
    ClearedInv(t, h, ext);
    forall x, d | x in s.info && x !in visited + {h} && d in s.info[x].deplibs ensures d !in visited + {h} {
      LaterOwnsNot(t.handles, t.info, h, x);
    }
  }

  /** And past one that it closed, when the next one stayed. */
  lemma PassedOn(s: State, t: State, visited: set<HandleId>, h: HandleId, ext: multiset<HandleId>)
    requires At(s, t, visited, h, ext) && ClosedAt(s, h, 1) && Next(s.handles, h).Some?
    requires Next(s.handles, h).value in Close(s, h).s.handles
    ensures At(Close(s, h).s, Close(t, h).s, visited, Next(s.handles, h).value, ext - multiset{h})
  {
    hide Inv, From, Next, Ordered, Distinct, Close, Veiled, KeepIn;
    var (s1, n) := (Close(s, h).s, Next(s.handles, h).value);
    ListFacts(s, t, visited, h, ext);
    DistinctOf(s);
    NextFacts(s.handles, h);
    VisitCloses(s, t, visited, h, ext);
    VeiledKeys(s1, Close(t, h).s, visited);
    CloseLighter(s, h);
    Shrunk(s, s1);
    forall x | x in s1.handles ensures x in visited <==> x !in From(s1.handles, n) {
      FromKeepIn(s.handles, s1.info.Keys, n, x);
    }
  }

  lemma VeiledKeys(s: State, t: State, visited: set<HandleId>)
    requires Veiled(s, t, visited)
    ensures s.info.Keys == t.info.Keys
  {
  }

  lemma Shrunk(s: State, s': State)
    requires Lighter(s, s')
    ensures s'.handles == KeepIn(s.handles, s'.info.Keys)
    ensures forall x :: x in s'.handles ==> x in s.handles && x in s'.info
  {
    KeepInFacts(s.handles, s'.info.Keys);
  }

  // ---------------------------------------------------------------- the pass

  lemma {:induction false} LevelOneFrom(s: State, t: State, visited: set<HandleId>, h: HandleId, ext: multiset<HandleId>)
    requires At(s, t, visited, h, ext) && ListOk(s)
    ensures PassFrom(s, 1, Some(h)).s.corrupt <==> TripsFrom(s, Some(h))
    decreases |From(s.handles, h)|
  {
    hide At, Inv, From, Next, Close, ListOk;
    ListFacts(s, t, visited, h, ext);
    VisitShrinks(s, h, 1);
    var next := Next(s.handles, h);
    if ClosedAt(s, h, 1) {
      VisitCloses(s, t, visited, h, ext);
      if next.Some? { NextAfterClose(s, t, visited, h, ext); }
      var (s1, t1) := (Close(s, h).s, Close(t, h).s);
      StillSound(s1, t1, visited, ext - multiset{h});
      if next.Some? && next.value in s1.handles {
        PassedOn(s, t, visited, h, ext);
        LevelOneFrom(s1, t1, visited, next.value, ext - multiset{h});
      }
    } else if next.Some? {
      NextListed(s.handles, h);
      PassedBy(s, t, visited, h, ext);
      LevelOneFrom(s, t.(info := Cleared(t.info, h)), visited + {h}, next.value, ext + multiset(t.info[h].deplibs));
    }
  }

  lemma StillSound(s: State, t: State, visited: set<HandleId>, ext: multiset<HandleId>)
    requires Veiled(s, t, visited) && Inv(t, ext)
    ensures !s.corrupt
  {
  }

  /** From any registry in order, the first pass of `lt_dlexit` runs onto freed memory exactly when a
      handle that it closes is all that holds the handle behind it. */
  lemma LevelOneIff(s: State, ext: multiset<HandleId>)
    requires Inv(s, ext)
    ensures ListOk(s)
    ensures PassFrom(s, 1, Head(s.handles)).s.corrupt <==> TripsFrom(s, Head(s.handles))
  {
    hide LoaderLevel, Conserved, Ordered;
    if s.handles != [] {
      var h := s.handles[0];
      assert From(s.handles, h) == s.handles;
      assert At(s, s, {}, h, ext);
      LevelOneFrom(s, s, {}, h, ext);
    }
  }

  /** Then `lt_dlexit` itself does, unless resident handles at the front are skipped first. */
  lemma ExitTrips(s: State, ext: multiset<HandleId>)
    requires Inv(s, ext) && s.handles != [] && !s.info[s.handles[0]].resident
    requires ListOk(s) && TripsFrom(s, Head(s.handles))
    ensures Exit(s).corrupt
  {
    hide LoaderLevel, Conserved, Ordered, TripsFrom, PassFrom;
    LevelOneIff(s, ext);
    assert SkipResident(s.handles, s.info) == s.handles;
    assert s.(handles := s.handles) == s;
    LevelProgress(s, 1);
  }
}
