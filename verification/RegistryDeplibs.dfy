/** `load_deplibs` in the registry: the order of loading and the search path, in every state and
    for every tree of nested opens. */
module RegistryDeplibs {
  import opened Wrappers
  import opened Registry
  import Deplibs

  // ---------------------------------------------------------------- order

  function Reverse(deps: seq<Dep>): seq<Dep>
  {
    if deps == [] then [] else [deps[|deps| - 1]] + Reverse(deps[..|deps| - 1])
  }

  /** Opens one after the other, front to back, with what each returned. */
  function OpenAll(s: State, deps: seq<Dep>): (State, seq<Option<HandleId>>)
    decreases |deps|
  {
    if deps == [] then (s, [])
    else
      var o := OpenTries(s, deps[0].tries);
      var rest := OpenAll(o.s, deps[1..]);
      (rest.0, [o.result] + rest.1)
  }

  function Successful(results: seq<Option<HandleId>>): seq<HandleId>
  {
    if results == [] then []
    else (if results[0].Some? then [results[0].value] else []) + Successful(results[1..])
  }

  /** The names are opened in reverse order, and the handles that could be opened are packed. */
  lemma {:induction false} LoadsInReverse(s: State, deps: seq<Dep>)
    ensures var all := OpenAll(s, Reverse(deps));
      LoadNames(s, deps) == Loads(all.0, Successful(all.1)) && |all.1| == |deps|
    decreases |deps|
  {
    if deps != [] {
      var last, init := deps[|deps| - 1], deps[..|deps| - 1];
      var o := OpenTries(s, last.tries);
      LoadsInReverse(o.s, init);
      assert Reverse(deps)[1..] == Reverse(init);
      var rest := OpenAll(o.s, Reverse(init));
      assert ([o.result] + rest.1)[1..] == rest.1;
    }
  }

  // ---------------------------------------------------------------- the search path

  lemma {:induction false} ClosePath(s: State, h: HandleId)
    ensures Close(s, h).s.searchPath == s.searchPath
    decreases |s.handles|, 0, 0
  {
    if h in s.handles && h in s.info {
      var s1 := Bump(s, h, -1);
      if s1.info[h].refCount <= 0 && !s1.info[h].resident {
        UnloadPath(Discard(s1, h), s1.info[h].deplibs);
      }
    }
  }

  lemma {:induction false} UnloadPath(s: State, deps: seq<HandleId>)
    ensures Unload(s, deps).s.searchPath == s.searchPath
    decreases |s.handles|, 1, |deps|
  {
    if deps != [] && deps[0] in s.info {
      if s.info[deps[0]].resident {
        UnloadPath(s, deps[1..]);
      } else {
        ClosePath(s, deps[0]);
        UnloadPath(Close(s, deps[0]).s, deps[1..]);
      }
    }
  }

  lemma {:induction false} CandidatesPath(s: State, candidates: seq<Attempt>)
    ensures var t := TryCandidates(s, candidates); !t.NotLoaded? ==> t.s.searchPath == s.searchPath
  {
    if candidates != [] {
      CandidatesPath(s, candidates[1..]);
    }
  }

  lemma {:induction false} OpenPath(s: State, r: Request)
    ensures Open(s, r).s.searchPath == s.searchPath
    decreases r, 1
  {
    if r.Archive? {
      var l := LoadDeplibs(s, r.text, r.deps);
      LoadDeplibsPath(s, r.text, r.deps);
      CandidatesPath(l.s, r.candidates);
      UnloadPath(l.s, l.hs);
      match TryCandidates(l.s, r.candidates) {
        case Found(s1, h) => UnloadPath(s1, l.hs);
        case _ =>
      }
    }
  }

  lemma {:induction false} OpenTriesPath(s: State, tries: seq<Request>)
    ensures OpenTries(s, tries).s.searchPath == s.searchPath
    decreases tries, 2
  {
    if tries != [] {
      OpenPath(s, tries[0]);
      OpenTriesPath(Open(s, tries[0]).s, tries[1..]);
    }
  }

  lemma {:induction false} LoadNamesPath(s: State, deps: seq<Dep>)
    ensures LoadNames(s, deps).s.searchPath == s.searchPath
    decreases deps, 0
  {
    if deps != [] {
      OpenTriesPath(s, deps[|deps| - 1].tries);
      LoadNamesPath(OpenTries(s, deps[|deps| - 1].tries).s, deps[..|deps| - 1]);
    }
  }

  /** Loading dependencies leaves the search path as it was, however it was extended on the way:
      the nested opens see it extended by the directories of the dependency string. */
  lemma {:induction false} LoadDeplibsPath(s: State, text: Option<string>, deps: seq<Dep>)
    ensures LoadDeplibs(s, text, deps).s.searchPath == s.searchPath
    ensures text.Some? ==>
      LoadNames(s.(searchPath := Deplibs.Extend(s.searchPath, text.value)), deps).s.searchPath
        == Deplibs.Extend(s.searchPath, text.value)
    decreases deps, 1
  {
    if text.Some? {
      LoadNamesPath(s.(searchPath := Deplibs.Extend(s.searchPath, text.value)), deps);
    }
  }
}
