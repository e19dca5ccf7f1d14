/** What an open answers, in terms of the list, the loaders and the names tried
    (dice/libltdl/ltdl.c): which name is taken, which handle or loader serves it, and what is
    recorded about it. */
module RegistryAnswers {
  import opened Wrappers
  import opened Registry
  import opened RegistryInvariant
  import opened RegistryEvolution
  import opened RegistryOpening
  import opened RegistryRuns

  // ---------------------------------------------------------------- one name

  /** `loader` accepts, and none before it in the list does. */
  ghost predicate FirstToAccept(loaders: seq<Loader>, accepts: set<Loader>, loader: Loader)
  {
    exists i :: 0 <= i < |loaders| && loaders[i] == loader && loader in accepts && NoneAccepts(loaders[..i], accepts)
  }

  ghost predicate NoneAccepts(loaders: seq<Loader>, accepts: set<Loader>)
  {
    forall j :: 0 <= j < |loaders| ==> loaders[j] !in accepts
  }

  lemma {:induction false} FirstAcceptingIs(loaders: seq<Loader>, accepts: set<Loader>)
    ensures var r := FirstAccepting(loaders, accepts);
      if r.Some? then FirstToAccept(loaders, accepts, r.value) else NoneAccepts(loaders, accepts)
  {
    if loaders != [] && loaders[0] !in accepts {
      FirstAcceptingIs(loaders[1..], accepts);
      var r := FirstAccepting(loaders, accepts);
      if r.Some? {
        var i :| 0 <= i < |loaders[1..]| && loaders[1..][i] == r.value && NoneAccepts(loaders[1..][..i], accepts);
        assert loaders[..i + 1] == [loaders[0]] + loaders[1..][..i];
        assert loaders[i + 1] == r.value && NoneAccepts(loaders[..i + 1], accepts);
      }
    } else if loaders != [] {
      assert loaders[0] in accepts && NoneAccepts(loaders[..0], accepts);
    }
  }

  /** The name can be opened: it is registered, or a loader accepts it. */
  ghost predicate Openable(s: State, a: Attempt)
  {
    FileRegistered(s.info, a.file) || !NoneAccepts(s.loaders, a.accepts)
  }

  /** What `tryall_dlopen` of `a` does: the registered handle of the file, whatever the loaders would
      say, or else the first loader that accepts is called. */
  ghost predicate TriedAs(s: State, a: Attempt, t: Tried)
  {
    match t
    case Found(s1, h) => h in s.info && s.info[h].filename == a.file && s1 == Bump(s, h, 1)
    case Loaded(s1, file, loader) =>
      && !FileRegistered(s.info, a.file)
      && file == a.file
      && FirstToAccept(s.loaders, a.accepts, loader)
      && s1 == s.(log := s.log + [ModuleOpen(a.file, loader)])
    case NotLoaded => !Openable(s, a)
  }

  lemma TryAllIs(s: State, a: Attempt)
    requires WellFormed(s)
    ensures TriedAs(s, a, TryAll(s, a))
  {
    FirstAcceptingIs(s.loaders, a.accepts);
  }

  // ---------------------------------------------------------------- the names find_module tries

  /** The first of the names that can be opened. */
  ghost predicate FirstOpenable(s: State, candidates: seq<Attempt>, k: nat)
  {
    && k < |candidates|
    && Openable(s, candidates[k])
    && forall j :: 0 <= j < k ==> !Openable(s, candidates[j])
  }

  lemma {:induction false} CandidatesTried(s: State, candidates: seq<Attempt>)
    requires WellFormed(s)
    ensures var t := TryCandidates(s, candidates);
      if t.NotLoaded? then forall j :: 0 <= j < |candidates| ==> !Openable(s, candidates[j])
      else exists k: nat :: k < |candidates| && FirstOpenable(s, candidates, k) && TriedAs(s, candidates[k], t)
  {
    hide WellFormed, Openable;
    if candidates != [] {
      TryAllIs(s, candidates[0]);
      var t := TryCandidates(s, candidates);
      if TryAll(s, candidates[0]).NotLoaded? {
        CandidatesTried(s, candidates[1..]);
        if !t.NotLoaded? {
          var k: nat :| k < |candidates[1..]| && FirstOpenable(s, candidates[1..], k) && TriedAs(s, candidates[1..][k], t);
          NothingTried(s, candidates[0], TryAll(s, candidates[0]));
          assert candidates[1..][k] == candidates[k + 1];
          assert FirstOpenable(s, candidates, k + 1) && TriedAs(s, candidates[k + 1], t);
        }
      } else {
        TriedOpenable(s, candidates[0], t);
        assert FirstOpenable(s, candidates, 0);
      }
    }
  }

  lemma TriedOpenable(s: State, a: Attempt, t: Tried)
    requires TriedAs(s, a, t) && !t.NotLoaded?
    ensures Openable(s, a)
  {
  }

  // ---------------------------------------------------------------- the answer of an open

  /** `h` is a new handle for `a`: the head of the list, owned by the first loader that accepts, with
      one reference and the dependencies `hs`; nothing else has changed. */
  ghost predicate LinkedNew(s: State, hs: seq<HandleId>, a: Attempt, resident: bool, s': State, h: HandleId)
  {
    && h == s.nextId && h in s'.info
    && FirstToAccept(s.loaders, a.accepts, s'.info[h].loader)
    && s'.info[h] == Info(a.file, s'.info[h].loader, 1, hs, resident)
    && s' == s.(handles := [h] + s.handles, info := s.info[h := s'.info[h]],
                log := s.log + [ModuleOpen(a.file, s'.info[h].loader)], nextId := s.nextId + 1)
  }

  /** The answer when the names `candidates` are tried with the dependencies `hs` at hand. */
  ghost predicate Yields(s: State, hs: seq<HandleId>, candidates: seq<Attempt>, resident: bool, o: Opened)
  {
    if o.result.None? then forall j :: 0 <= j < |candidates| ==> !Openable(s, candidates[j])
    else exists k: nat :: FirstOpenable(s, candidates, k) && Serves(s, hs, candidates[k], resident, o.s, o.result.value)
  }

  ghost predicate Serves(s: State, hs: seq<HandleId>, a: Attempt, resident: bool, s': State, h: HandleId)
  {
    if FileRegistered(s.info, a.file)
    then h in s.info && h in s'.info && s.info[h].filename == s'.info[h].filename == a.file
    else LinkedNew(s, hs, a, resident, s', h)
  }

  lemma FinishArchiveYields(s: State, hs: seq<HandleId>, candidates: seq<Attempt>, ext: multiset<HandleId>)
    requires Inv(s, ext + multiset(hs))
    ensures Yields(s, hs, candidates, false, FinishArchive(s, hs, candidates))
  {
    hide Inv, Openable, Unload, Admit, TryCandidates, TriedAs, FirstOpenable, Serves;
    var (o, t) := (FinishArchive(s, hs, candidates), TryCandidates(s, candidates));
    InvWellFormed(s, ext + multiset(hs));
    CandidatesTried(s, candidates);
    FinishArchiveOk(s, hs, candidates, ext);
    if !t.NotLoaded? {
      var k: nat :| k < |candidates| && FirstOpenable(s, candidates, k) && TriedAs(s, candidates[k], t);
      if t.Found? {
        AdmitAnswers(Unload(t.s, hs).s, t.h);
        FoundServes(s, hs, candidates[k], t, o, ext);
      } else {
        LoadedServes(s, hs, candidates[k], t, false);
      }
    }
  }

  lemma InvWellFormed(s: State, ext: multiset<HandleId>)
    requires Inv(s, ext)
    ensures WellFormed(s)
  {
  }

  lemma AdmitAnswers(s: State, h: HandleId)
    ensures Admit(s, h).result == Some(h)
  {
  }

  lemma FoundServes(s: State, hs: seq<HandleId>, a: Attempt, t: Tried, o: Opened, ext: multiset<HandleId>)
    requires WellFormed(s) && OpenOk(s, o, ext) && t.Found? && TriedAs(s, a, t) && o.result == Some(t.h)
    ensures Serves(s, hs, a, false, o.s, t.h)
  {
    hide LoaderLevel, Conserved, Ordered, Distinct, KeepIn;
    HeldStays(o.s, ext, t.h);
    SameFile(s, o.s, t.h);
  }

  /** Linking what `tryall_dlopen` loaded. */
  lemma LoadedServes(s: State, hs: seq<HandleId>, a: Attempt, t: Tried, resident: bool)
    requires t.Loaded? && TriedAs(s, a, t)
    ensures Register(t.s, t.file, t.loader, hs, resident).result == Some(s.nextId)
    ensures Serves(s, hs, a, resident, Register(t.s, t.file, t.loader, hs, resident).s, s.nextId)
  {
    hide FirstToAccept;
  }

  lemma HeldStays(s: State, ext: multiset<HandleId>, h: HandleId)
    requires Inv(s, ext + multiset{h})
    ensures h in s.info
  {
    assert h in ext + multiset{h};
  }

  lemma SameFile(s: State, s': State, h: HandleId)
    requires WellFormed(s) && Evolves(s, s') && h in s.info && h in s'.info
    ensures s'.info[h].filename == s.info[h].filename
  {
    assert SameModule(s.info[h], s'.info[h]);
  }

  /** Every `try_dlopen` of a file answers with the first of its names that can be opened at the time,
      an archive after its dependencies were loaded. */
  lemma OpenYields(s: State, r: Request, ext: multiset<HandleId>)
    requires Inv(s, ext)
    ensures match r
      case Unavailable => Open(s, r) == Opened(s, None)
      case Plain(a) => Yields(s, [], [a], false, Open(s, r))
      case Archive(text, deps, candidates) =>
        var l := LoadDeplibs(s, text, deps);
        Yields(l.s, l.hs, candidates, false, Open(s, r))
  {
    hide Inv, Yields, LoadDeplibs, FinishArchive, Evolves;
    match r {
      case Unavailable =>
      case Plain(a) => PlainYields(s, a, ext);
      case Archive(text, deps, candidates) =>
        var l := LoadDeplibs(s, text, deps);
        LoadDeplibsInv(s, text, deps, ext);
        FinishArchiveYields(l.s, l.hs, candidates, ext);
    }
  }

  lemma PlainYields(s: State, a: Attempt, ext: multiset<HandleId>)
    requires Inv(s, ext)
    ensures Yields(s, [], [a], false, Open(s, Plain(a)))
  {
    hide Inv, Openable, Admit, TryAll, TriedAs, Serves, Evolves;
    var (o, t) := (Open(s, Plain(a)), TryAll(s, a));
    InvWellFormed(s, ext);
    TryAllIs(s, a);
    PlainOk(s, a, ext);
    if t.NotLoaded? {
      NothingTried(s, a, t);
    } else {
      TriedOpenable(s, a, t);
      assert FirstOpenable(s, [a], 0);
      if t.Found? {
        AdmitAnswers(t.s, t.h);
        FoundServes(s, [], a, t, o, ext);
      } else {
        LoadedServes(s, [], a, t, false);
      }
      assert Serves(s, [], [a][0], false, o.s, o.result.value);
    }
  }

  lemma NothingTried(s: State, a: Attempt, t: Tried)
    requires TriedAs(s, a, t) && t.NotLoaded?
    ensures !Openable(s, a)
  {
  }

  /** The program itself likewise, as a resident handle. */
  lemma OpenSelfYields(s: State, accepts: set<Loader>, ext: multiset<HandleId>)
    requires Inv(s, ext)
    ensures Yields(s, [], [Attempt(None, accepts)], true, OpenSelf(s, accepts))
  {
    hide LoaderLevel, Conserved, Ordered, Distinct, FirstToAccept;
    var a := Attempt(None, accepts);
    TryAllIs(s, a);
    TryAllInv(s, a, ext);
    var t := TryAll(s, a);
    if t.Found? { AdmitOk(t.s, t.h, ext); }
    if !t.NotLoaded? {
      TriedOpenable(s, a, t);
      assert FirstOpenable(s, [a], 0);
      assert Serves(s, [], [a][0], true, OpenSelf(s, accepts).s, OpenSelf(s, accepts).result.value);
    }
  }

  // ---------------------------------------------------------------- lt_dlopenext

  /** `states` are the states between the attempts, of which all but the last failed. */
  ghost predicate Attempts(s: State, tries: seq<Request>, states: seq<State>, o: Opened)
  {
    && 0 < |states| <= |tries| + 1
    && states[0] == s
    && (forall j :: 0 <= j < |states| - 1 ==> Open(states[j], tries[j]) == Opened(states[j + 1], None))
    && var last := states[|states| - 1];
      if o.result.None? then |states| == |tries| + 1 && o.s == last
      else |states| <= |tries| && o == Open(last, tries[|states| - 1])
  }

  /** The attempts are made in order, each in the state the one before left, up to the first that
      succeeds. */
  lemma {:induction false} OpenTriesAttempts(s: State, tries: seq<Request>) returns (states: seq<State>)
    ensures Attempts(s, tries, states, OpenTries(s, tries))
    decreases |tries|
  {
    hide Open;
    if tries == [] || Open(s, tries[0]).result.Some? {
      states := [s];
    } else {
      var s1 := Open(s, tries[0]).s;
      var rest := OpenTriesAttempts(s1, tries[1..]);
      states := [s] + rest;
      forall j | 0 <= j < |states| - 1 ensures Open(states[j], tries[j]) == Opened(states[j + 1], None) {
        if j > 0 { assert tries[j] == tries[1..][j - 1]; }
      }
    }
  }

  // ---------------------------------------------------------------- closing what is not there

  /** When `lt_dlclose` reports an error: for a handle that is not registered, with nothing changed,
      and for a resident one. */
  lemma CloseErrorIff(s: State, h: HandleId, held: multiset<HandleId>)
    requires Inv(s, held) && (h in held || h !in s.handles)
    ensures Close(s, h).errors == if h in s.info && !s.info[h].resident then 0 else 1
    ensures h !in s.info ==> Close(s, h).s == s
  {
    hide LoaderLevel, Conserved, Ordered, Distinct, Evolves, Close;
    if h in held {
      assert held == (held - multiset{h}) + multiset{h};
      CloseInv(s, h, held - multiset{h});
    } else {
      NotRegistered(s, h);
    }
  }

  lemma NotRegistered(s: State, h: HandleId)
    requires h !in s.handles
    ensures Close(s, h) == Outcome(s, 1)
  {
  }

  // ---------------------------------------------------------------- the order of a cascade

  /** Dependencies are given back one after the other, first to last. */
  lemma {:induction false} UnloadInOrder(s: State, a: seq<HandleId>, b: seq<HandleId>, ext: multiset<HandleId>)
    requires Inv(s, ext + multiset(a) + multiset(b))
    ensures Unload(s, a + b).s == Unload(Unload(s, a).s, b).s
    decreases |a|
  {
    hide LoaderLevel, Conserved, Evolves, WellFormed;
    if a == [] {
      assert a + b == b;
    } else {
      var (d, rest) := (a[0], a[1..]);
      var ext' := ext + multiset(rest) + multiset(b);
      assert a == [d] + rest && (a + b)[1..] == rest + b;
      assert ext + multiset(a) + multiset(b) == ext' + multiset{d};
      HeldStays(s, ext', d);
      if s.info[d].resident {
        DropResident(s, d, ext');
        UnloadInOrder(s, rest, b, ext);
      } else {
        CloseInv(s, d, ext');
        UnloadInOrder(Close(s, d).s, rest, b, ext);
      }
    }
  }

  /** The last reference to a handle: its own file is closed before the dependencies are given back. */
  lemma OwnFileFirst(s: State, h: HandleId, ext: multiset<HandleId>)
    requires Inv(s, ext + multiset{h})
    requires h in s.info && !s.info[h].resident && s.info[h].refCount == 1
    ensures var log := Close(s, h).s.log;
      |s.log| < |log| && log[|s.log|] == ModuleClose(s.info[h].filename, s.info[h].loader)
  {
    hide LoaderLevel, Conserved, Evolves, Ordered, Distinct;
    assert h in s.handles;
    var s2 := Discard(Bump(s, h, -1), h);
    DiscardInv(s, h, ext);
    UnloadInv(s2, s.info[h].deplibs, ext);
    assert OnlyCloses(s2.log, Unload(s2, s.info[h].deplibs).s.log);
  }

  // ---------------------------------------------------------------- the loader list

  /** `lt_dlloader_add` puts the loader in front of the first occurrence of the place, at the end
      without one, and changes nothing else. */
  lemma LoaderAddPlaces(s: State, place: Option<Loader>, loader: Loader)
    requires place.Some? && s.loaders != [] ==> place.value in s.loaders
    ensures var s' := LoaderAdd(s, place, loader);
      && s' == s.(loaders := s'.loaders)
      && (place.None? || s.loaders == [] ==> s'.loaders == s.loaders + [loader])
      && (place.Some? && s.loaders != [] ==>
            exists i :: 0 <= i < |s.loaders| && s.loaders[i] == place.value && place.value !in s.loaders[..i]
                     && s'.loaders == s.loaders[..i] + [loader] + s.loaders[i..])
  {
    if place.Some? && s.loaders != [] {
      var i := InsertedBefore(s.loaders, place.value, loader);
    }
  }

  lemma {:induction false} InsertedBefore(ls: seq<Loader>, place: Loader, loader: Loader) returns (i: nat)
    requires place in ls
    ensures i < |ls| && ls[i] == place && place !in ls[..i]
    ensures InsertBefore(ls, place, loader) == ls[..i] + [loader] + ls[i..]
  {
    if ls[0] == place {
      i := 0;
    } else {
      var j := InsertedBefore(ls[1..], place, loader);
      i := j + 1;
      Later(ls, j, loader);
    }
  }

  lemma Later(ls: seq<Loader>, j: nat, loader: Loader)
    requires j < |ls| - 1
    ensures ls[..j + 1] == [ls[0]] + ls[1..][..j] && ls[1..][j..] == ls[j + 1..]
    ensures [ls[0]] + (ls[1..][..j] + [loader] + ls[1..][j..]) == ls[..j + 1] + [loader] + ls[j + 1..]
  {
  }

  /** The first loader of the name. */
  ghost predicate NamedFirst(ls: seq<Loader>, name: string, i: nat)
  {
    i < |ls| && ls[i].name == name && forall j :: 0 <= j < i ==> ls[j].name != name
  }

  lemma {:induction false} FoundFirst(ls: seq<Loader>, name: string, i: nat)
    requires NamedFirst(ls, name, i)
    ensures FindLoader(ls, name) == Some(ls[i]) && RemoveLoader(ls, ls[i]) == ls[..i] + ls[i + 1..]
  {
    if i > 0 {
      assert NamedFirst(ls[1..], name, i - 1);
      FoundFirst(ls[1..], name, i - 1);
    }
  }

  /** `lt_dlloader_remove` takes out the first loader of the name exactly when no listed handle
      belongs to it; otherwise it reports an error and changes nothing. */
  lemma LoaderRemoveIff(s: State, name: string, i: nat)
    requires NamedFirst(s.loaders, name, i) || (forall l :: l in s.loaders ==> l.name != name)
    ensures var free := NamedFirst(s.loaders, name, i)
        && (forall h :: h in s.handles && h in s.info ==> s.info[h].loader != s.loaders[i]);
      LoaderRemove(s, name) ==
        if free then Outcome(s.(loaders := s.loaders[..i] + s.loaders[i + 1..]), 0) else Outcome(s, 1)
  {
    if NamedFirst(s.loaders, name, i) {
      FoundFirst(s.loaders, name, i);
    }
  }

  /** `lt_dlmakeresident` sets the flag of one registered handle and reports no error. */
  lemma MakeResidentOnly(s: State, h: HandleId, ext: multiset<HandleId>)
    requires Inv(s, ext) && h in s.info
    ensures var r := MakeResident(s, h);
      && r.errors == 0 && Inv(r.s, ext) && r.s == s.(info := r.s.info) && r.s.info.Keys == s.info.Keys
      && (forall x :: x in s.info ==>
            r.s.info[x] == Info(s.info[x].filename, s.info[x].loader, s.info[x].refCount, s.info[x].deplibs,
                                x == h || s.info[x].resident))
  {
    hide Inv;
    MakeResidentInv(s, h, ext);
  }
}
