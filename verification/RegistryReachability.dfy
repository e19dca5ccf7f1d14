/** A module stays loaded exactly as long as it is needed: the registered handles are those
    reachable, through deplibs arrays, from a handle a client holds or a resident one. */
module RegistryReachability {
  import opened Wrappers
  import opened Registry
  import opened RegistryInvariant
  import opened RegistryEvolution
  import opened RegistryOpening

  ghost predicate Root(s: State, ext: multiset<HandleId>, h: HandleId)
  {
    h in s.info && (h in ext || s.info[h].resident)
  }

  /** `p` follows deplibs entries. */
  ghost predicate Chain(s: State, p: seq<HandleId>)
  {
    && (forall i :: 0 <= i < |p| ==> p[i] in s.info)
    && (forall i :: 0 < i < |p| ==> p[i] in s.info[p[i - 1]].deplibs)
  }

  ghost predicate PathTo(s: State, ext: multiset<HandleId>, p: seq<HandleId>, h: HandleId)
  {
    |p| > 0 && Root(s, ext, p[0]) && p[|p| - 1] == h && Chain(s, p)
  }

  ghost predicate Reachable(s: State, ext: multiset<HandleId>, h: HandleId)
  {
    exists p :: PathTo(s, ext, p, h)
  }

  // ---------------------------------------------------------------- registered = reachable

  lemma {:induction false} DistinctIndex(hs: seq<HandleId>, i: nat, j: nat)
    requires Distinct(hs) && i < |hs| && j < |hs| && hs[i] == hs[j]
    ensures i == j
  {
    if i > 0 && j > 0 {
      DistinctIndex(hs[1..], i - 1, j - 1);
    }
  }

  /** A dependency has an owner earlier in the list. */
  lemma {:induction false} Owner(hs: seq<HandleId>, info: map<HandleId, Info>, h: HandleId) returns (j: nat, k: nat)
    requires Allocated(hs, info) && Ordered(hs, info) && AllDeps(hs, info)[h] > 0
    ensures j < k < |hs| && h in info[hs[j]].deplibs && hs[k] == h
  {
    if h in info[hs[0]].deplibs {
      j := 0;
      var i :| 0 <= i < |hs[1..]| && hs[1..][i] == h;
      k := i + 1;
    } else {
      j, k := Owner(hs[1..], info, h);
      j, k := j + 1, k + 1;
    }
  }

  /** A registered handle that is no root is somebody's dependency. */
  lemma DependedOn(s: State, ext: multiset<HandleId>, h: HandleId)
    requires Conserved(s, ext) && h in s.info && !Root(s, ext, h)
    ensures AllDeps(s.handles, s.info)[h] > 0
  {
    assert Balanced(s.info[h], ext[h] + AllDeps(s.handles, s.info)[h]);
  }

  lemma ExtendPath(s: State, ext: multiset<HandleId>, g: HandleId, h: HandleId)
    requires Reachable(s, ext, g) && g in s.info && h in s.info && h in s.info[g].deplibs
    ensures Reachable(s, ext, h)
  {
    var p :| PathTo(s, ext, p, g);
    assert PathTo(s, ext, p + [h], h);
  }

  lemma {:induction false} RegisteredIsReachable(s: State, ext: multiset<HandleId>, k: nat)
    requires Inv(s, ext) && k < |s.handles|
    ensures Reachable(s, ext, s.handles[k])
  {
    hide LoaderLevel, Conserved, AllDeps;
    var h := s.handles[k];
    assert h in s.handles;
    if Root(s, ext, h) {
      assert PathTo(s, ext, [h], h);
    } else {
      DependedOn(s, ext, h);
      var j, k' := Owner(s.handles, s.info, h);
      DistinctIndex(s.handles, k, k');
      assert s.handles[j] in s.handles;
      RegisteredIsReachable(s, ext, j);
      ExtendPath(s, ext, s.handles[j], h);
    }
  }

  /** The registered handles are exactly the reachable ones. */
  lemma RegisteredIffReachable(s: State, ext: multiset<HandleId>, h: HandleId)
    requires Inv(s, ext)
    ensures h in s.info <==> Reachable(s, ext, h)
  {
    if h in s.info {
      var k :| 0 <= k < |s.handles| && s.handles[k] == h;
      RegisteredIsReachable(s, ext, k);
    }
  }

  // ---------------------------------------------------------------- paths across a call

  lemma {:induction false} DepsInList(hs: seq<HandleId>, info: map<HandleId, Info>, g: HandleId, d: HandleId)
    requires Allocated(hs, info) && Ordered(hs, info) && g in hs && d in info[g].deplibs
    ensures d in hs
  {
    if hs[0] != g {
      DepsInList(hs[1..], info, g, d);
    }
  }

  /** What is still rooted survives, along the whole path. */
  lemma {:induction false} ChainSurvives(s: State, s': State, p: seq<HandleId>, i: nat)
    requires WellFormed(s) && WellFormed(s') && Evolves(s, s')
    requires Chain(s, p) && i < |p| && p[0] in s'.info
    ensures p[i] in s'.info
  {
    if i > 0 {
      ChainSurvives(s, s', p, i - 1);
      DepsInList(s'.handles, s'.info, p[i - 1], p[i]);
    }
  }

  /** From a handle that was registered before, a path only meets such handles. */
  lemma {:induction false} ChainIsOld(s: State, s': State, p: seq<HandleId>, i: nat)
    requires WellFormed(s) && WellFormed(s') && Evolves(s, s')
    requires Chain(s', p) && i < |p| && p[0] in s.info
    ensures p[i] in s.info
  {
    if i > 0 {
      ChainIsOld(s, s', p, i - 1);
      DepsInList(s.handles, s.info, p[i - 1], p[i]);
    }
  }

  lemma RootedSurvives(s: State, s': State, ext: multiset<HandleId>, h: HandleId)
    requires WellFormed(s) && WellFormed(s') && Evolves(s, s')
    requires forall x :: x in ext ==> x in s'.info
    requires Reachable(s, ext, h)
    ensures h in s'.info
  {
    var p :| PathTo(s, ext, p, h);
    ChainSurvives(s, s', p, |p| - 1);
  }

  // ---------------------------------------------------------------- closing collects exactly the unreachable

  lemma ReleaseCollects(s: State, s': State, ext: multiset<HandleId>, x: HandleId)
    requires WellFormed(s) && Released(s, s', ext)
    ensures x in s'.info <==> Reachable(s, ext, x)
  {
    hide LoaderLevel, Conserved, AllDeps, Ordered, Distinct, KeepIn;
    if Reachable(s, ext, x) {
      RootedSurvives(s, s', ext, x);
    }
    if x in s'.info {
      RegisteredIffReachable(s', ext, x);
      var p :| PathTo(s', ext, p, x);
      assert PathTo(s, ext, p, x);
    }
  }

  /** How often `e` is among the events. */
  ghost function Occurrences(events: seq<Event>, e: Event): nat
  {
    multiset(events)[e]
  }

  lemma {:induction false} ClosesCounted(log: seq<Event>, log': seq<Event>, file: Option<string>, loader: Loader)
    requires OnlyCloses(log, log')
    ensures OpenCount(log', file, loader) ==
      OpenCount(log, file, loader) - Occurrences(log'[|log|..], ModuleClose(file, loader))
    decreases |log'|
  {
    if |log| < |log'| {
      var init := log'[..|log'| - 1];
      ClosesCounted(log, init, file, loader);
      assert log'[|log|..] == init[|log|..] + [log'[|log'| - 1]];
    } else {
      assert log' == log;
    }
  }

  /** The loader of a registered handle has its file open once. */
  lemma OpenOnce(s: State, h: HandleId)
    requires LoaderLevel(s) && h in s.info
    ensures OpenCount(s.log, s.info[h].filename, s.info[h].loader) == 1
  {
    assert OpenBy(s.info, s.info[h].filename, s.info[h].loader);
  }

  /** After a removal nobody has the file open. */
  lemma OpenNoMore(s: State, s': State, h: HandleId)
    requires WellFormed(s) && LoaderLevel(s') && h in s.info && h !in s'.info
    requires forall x :: x in s'.info ==> x in s.info && SameModule(s.info[x], s'.info[x])
    ensures OpenCount(s'.log, s.info[h].filename, s.info[h].loader) == 0
  {
    hide OpenCount, Ordered, Distinct;
    forall g | g in s'.info ensures s'.info[g].filename != s.info[h].filename { assert SameModule(s.info[g], s'.info[g]); }
    assert !OpenBy(s'.info, s.info[h].filename, s.info[h].loader);
  }

  lemma SurvivorsSame(s: State, s': State)
    requires WellFormed(s') && Evolves(s, s') && s'.nextId == s.nextId
    ensures forall x :: x in s'.info ==> x in s.info && SameModule(s.info[x], s'.info[x])
  {
  }

  lemma ClosedOnce(s: State, s': State, ext0: multiset<HandleId>, ext: multiset<HandleId>, h: HandleId)
    requires Inv(s, ext0) && Released(s, s', ext) && h in s.info
    ensures Occurrences(s'.log[|s.log|..], ModuleClose(s.info[h].filename, s.info[h].loader)) == if h in s'.info then 0 else 1
  {
    hide WellFormed, LoaderLevel, Conserved, Evolves, Occurrences, OpenCount;
    ClosesCounted(s.log, s'.log, s.info[h].filename, s.info[h].loader);
    SurvivorsSame(s, s');
    OpenOnce(s, h);
    if h in s'.info {
      assert SameModule(s.info[h], s'.info[h]);
      OpenOnce(s', h);
    } else {
      OpenNoMore(s, s', h);
    }
  }

  lemma ClosedIsRemoved(s: State, s': State, ext0: multiset<HandleId>, ext: multiset<HandleId>, e: Event)
    requires Inv(s, ext0) && Released(s, s', ext) && e in s'.log[|s.log|..]
    ensures ClosesSome(s, s', e)
  {
    var events := s'.log[|s.log|..];
    hide WellFormed, Conserved, Evolves, OpenCount;
    var i :| 0 <= i < |events| && events[i] == e;
    assert s'.log[|s.log| + i] == e;
    ClosesCounted(s.log, s'.log, e.file, e.loader);
    assert OpenCount(s.log, e.file, e.loader) >= 1 + OpenCount(s'.log, e.file, e.loader);
    assert OpenBy(s.info, e.file, e.loader) && !OpenBy(s'.info, e.file, e.loader);
    var h :| h in s.info && s.info[h].filename == e.file && s.info[h].loader == e.loader;
    SurvivorsSame(s, s');
    assert h in s'.info ==> SameModule(s.info[h], s'.info[h]);
  }

  /** For a removed handle its own loader closes its file, once; nothing else is called. */
  lemma ReleaseClosesOnce(s: State, s': State, ext0: multiset<HandleId>, ext: multiset<HandleId>)
    requires Inv(s, ext0) && Released(s, s', ext)
    ensures ClosesRemoved(s, s')
  {
    hide Inv, Evolves, Occurrences, ClosesSome;
    var events := s'.log[|s.log|..];
    forall h | h in s.info
      ensures Occurrences(events, ModuleClose(s.info[h].filename, s.info[h].loader)) == if h in s'.info then 0 else 1
    {
      ClosedOnce(s, s', ext0, ext, h);
    }
    forall e | e in events ensures ClosesSome(s, s', e) { ClosedIsRemoved(s, s', ext0, ext, e); }
  }

  ghost predicate ClosesSome(s: State, s': State, e: Event)
  {
    exists h :: h in s.info && h !in s'.info && e == ModuleClose(s.info[h].filename, s.info[h].loader)
  }

  /** The new events are one `module_close` for each removed handle, by the handle's own loader. */
  ghost predicate ClosesRemoved(s: State, s': State)
  {
    && s.log <= s'.log
    && var events := s'.log[|s.log|..];
      && (forall h :: h in s.info ==>
            Occurrences(events, ModuleClose(s.info[h].filename, s.info[h].loader)) == if h in s'.info then 0 else 1)
      && (forall e :: e in events ==> ClosesSome(s, s', e))
  }

  /** The closing cascade: one client reference to `h` is given back.  What is no longer
      reachable goes, each removed file is closed once, the rest keeps its order. */
  lemma CloseCascade(s: State, h: HandleId, ext: multiset<HandleId>)
    requires Inv(s, ext + multiset{h})
    ensures var s' := Close(s, h).s;
      && Inv(s', ext)
      && (forall x :: x in s'.info <==> Reachable(s, ext, x))
      && s'.handles == KeepIn(s.handles, s'.info.Keys)
      && (forall x :: x in s'.info ==> x in s.info && SameModule(s.info[x], s'.info[x]))
      && ClosesRemoved(s, s')
  {
    CloseInv(s, h, ext);
    var s' := Close(s, h).s;
    forall x ensures x in s'.info <==> Reachable(s, ext, x) {
      ReleaseCollects(s, s', ext, x);
    }
    ReleaseClosesOnce(s, s', ext + multiset{h}, ext);
    KeepInAll(s'.handles, s.info.Keys);
  }

  // ---------------------------------------------------------------- an open that loads nothing new

  lemma NothingLost(s: State, o: Opened, ext: multiset<HandleId>, x: HandleId)
    requires Inv(s, ext) && OpenOk(s, o, ext) && x in s.info
    ensures x in o.s.info
  {
    hide LoaderLevel, Conserved;
    RegisteredIffReachable(s, ext, x);
    forall y | y in ext ensures y in o.s.info { assert y in Holding(ext, o.result); }
    RootedSurvives(s, o.s, ext, x);
  }

  lemma NothingNew(s: State, o: Opened, ext: multiset<HandleId>, x: HandleId)
    requires Inv(s, ext) && OpenOk(s, o, ext)
    requires o.result.Some? ==> o.result.value in s.info
    requires x in o.s.info
    ensures x in s.info
  {
    hide LoaderLevel, Conserved, AllDeps, Ordered, Distinct, KeepIn;
    var ext' := Holding(ext, o.result);
    RegisteredIffReachable(o.s, ext', x);
    var p :| PathTo(o.s, ext', p, x);
    OldRoot(s, o, ext, p[0]);
    ChainIsOld(s, o.s, p, |p| - 1);
  }

  /** What an open that adds nothing holds or keeps resident was registered before. */
  lemma OldRoot(s: State, o: Opened, ext: multiset<HandleId>, h: HandleId)
    requires Inv(s, ext) && OpenOk(s, o, ext) && Root(o.s, Holding(ext, o.result), h)
    requires o.result.Some? ==> o.result.value in s.info
    ensures h in s.info
  {
    hide LoaderLevel, Conserved, AllDeps, Ordered, Distinct, KeepIn;
  }

  lemma SameKeys(s: State, o: Opened, ext: multiset<HandleId>)
    requires Inv(s, ext) && OpenOk(s, o, ext)
    requires o.result.Some? ==> o.result.value in s.info
    ensures o.s.info.Keys == s.info.Keys
  {
    hide Inv, OpenOk;
    forall x | x in s.info ensures x in o.s.info { NothingLost(s, o, ext, x); }
    forall x | x in o.s.info ensures x in s.info { NothingNew(s, o, ext, x); }
  }

  lemma SameList(s: State, s': State)
    requires WellFormed(s) && WellFormed(s') && Evolves(s, s') && s'.info.Keys == s.info.Keys
    ensures s'.handles == s.handles
    ensures forall x :: x in s.info ==> SameModule(s.info[x], s'.info[x])
  {
    forall x | x in s.info ensures SameModule(s.info[x], s'.info[x]) { assert x in s'.info; }
    KeepInAll(s.handles, s.info.Keys);
    KeepInAll(s'.handles, s.info.Keys);
  }

  lemma SameCounts(s: State, o: Opened, ext: multiset<HandleId>, x: HandleId)
    requires Inv(s, ext) && Inv(o.s, Holding(ext, o.result))
    requires o.s.info.Keys == s.info.Keys && o.s.handles == s.handles
    requires forall h :: h in s.info ==> SameModule(s.info[h], o.s.info[h])
    requires x in s.info && !s.info[x].resident
    ensures o.s.info[x].refCount == s.info[x].refCount + (if o.result == Some(x) then 1 else 0)
  {
    hide WellFormed, LoaderLevel, AllDeps;
    SameShape(s, o.s);
    assert SameModule(s.info[x], o.s.info[x]);
    assert Balanced(s.info[x], ext[x] + AllDeps(s.handles, s.info)[x]);
    assert Balanced(o.s.info[x], Holding(ext, o.result)[x] + AllDeps(s.handles, s.info)[x]);
  }

  lemma SameShape(s: State, s': State)
    requires WellFormed(s) && s'.info.Keys == s.info.Keys && s'.handles == s.handles
    requires forall h :: h in s.info ==> SameModule(s.info[h], s'.info[h])
    ensures AllDeps(s'.handles, s'.info) == AllDeps(s.handles, s.info)
  {
    SameDepsSameShape(s.handles, s.info, s'.info);
  }

  /** An open that fails, or that finds the module already loaded, leaves the list as it was,
      whatever it opened and rolled back on the way; only the found handle gains a reference.
      (A resident dependency that was met on the way may keep a higher count.) */
  lemma RollbackRestores(s: State, tries: seq<Request>, ext: multiset<HandleId>)
    requires Inv(s, ext)
    requires var r := OpenTries(s, tries).result; r.Some? ==> r.value in s.info
    ensures var o := OpenTries(s, tries);
      && o.s.handles == s.handles
      && o.s.info.Keys == s.info.Keys
      && o.s.searchPath == s.searchPath
      && (forall x :: x in s.info ==> SameModule(s.info[x], o.s.info[x]))
      && (forall x :: x in s.info && !s.info[x].resident ==>
            o.s.info[x].refCount == s.info[x].refCount + (if o.result == Some(x) then 1 else 0))
      && (forall file, loader :: OpenCount(o.s.log, file, loader) == OpenCount(s.log, file, loader))
  {
    var o := OpenTries(s, tries);
    OpenTriesInv(s, tries, ext);
    SameKeys(s, o, ext);
    SameList(s, o.s);
    forall x | x in s.info && !s.info[x].resident
      ensures o.s.info[x].refCount == s.info[x].refCount + (if o.result == Some(x) then 1 else 0)
    {
      SameCounts(s, o, ext, x);
    }
    forall file, loader ensures OpenCount(o.s.log, file, loader) == OpenCount(s.log, file, loader) {
      SameFiles(s.info, o.s.info, file, loader);
    }
  }
}
