/** `handles` lists the newest module first (dice/libltdl/ltdl.c): in every run, whatever is closed
    and however often, a handle stands in front of those that were linked before it. */
module RegistryOrder {
  import opened Wrappers
  import opened Registry
  import opened RegistryRuns
  import Deplibs

  /** Every handle is older than `limit` and than those in front of it. */
  ghost predicate NewestFirst(hs: seq<HandleId>, limit: HandleId)
  {
    forall j :: 0 <= j < |hs| ==> hs[j] < limit && forall i :: 0 <= i < j ==> hs[j] < hs[i]
  }

  ghost predicate InOrder(s: State)
  {
    NewestFirst(s.handles, s.nextId)
  }

  lemma NewestCons(h: HandleId, hs: seq<HandleId>, limit: HandleId)
    ensures NewestFirst([h] + hs, limit) <==> h < limit && NewestFirst(hs, h)
  {
    var r := [h] + hs;
    if NewestFirst(r, limit) {
      assert r[0] == h;
      forall j | 0 <= j < |hs| ensures hs[j] < h && forall i :: 0 <= i < j ==> hs[j] < hs[i] {
        assert r[j + 1] == hs[j];
        forall i | 0 <= i < j ensures hs[j] < hs[i] { assert r[i + 1] == hs[i]; }
      }
    }
  }

  lemma {:induction false} WithoutNewest(hs: seq<HandleId>, h: HandleId, limit: HandleId)
    requires NewestFirst(hs, limit)
    ensures NewestFirst(Without(hs, h), limit)
  {
    hide NewestFirst;
    if hs != [] {
      assert hs == [hs[0]] + hs[1..];
      NewestCons(hs[0], hs[1..], limit);
      if hs[0] == h {
        OlderLimit(hs[1..], h, limit);
      } else {
        WithoutNewest(hs[1..], h, hs[0]);
        NewestCons(hs[0], Without(hs[1..], h), limit);
      }
    }
  }

  lemma OlderLimit(hs: seq<HandleId>, limit: HandleId, limit': HandleId)
    requires NewestFirst(hs, limit) && limit <= limit'
    ensures NewestFirst(hs, limit')
  {
  }

  // ---------------------------------------------------------------- every call

  lemma {:induction false} CloseOrder(s: State, h: HandleId)
    requires InOrder(s)
    ensures InOrder(Close(s, h).s)
    decreases |s.handles|, 0, 0
  {
    hide NewestFirst;
    if h in s.handles && h in s.info {
      var s1 := Bump(s, h, -1);
      if s1.info[h].refCount <= 0 && !s1.info[h].resident {
        WithoutNewest(s.handles, h, s.nextId);
        UnloadOrder(Discard(s1, h), s1.info[h].deplibs);
      }
    }
  }

  lemma {:induction false} UnloadOrder(s: State, deps: seq<HandleId>)
    requires InOrder(s)
    ensures InOrder(Unload(s, deps).s)
    decreases |s.handles|, 1, |deps|
  {
    hide NewestFirst;
    if deps != [] && deps[0] in s.info {
      if s.info[deps[0]].resident {
        UnloadOrder(s, deps[1..]);
      } else {
        CloseOrder(s, deps[0]);
        UnloadOrder(Close(s, deps[0]).s, deps[1..]);
      }
    }
  }

  lemma RegisterOrder(s: State, file: Option<string>, loader: Loader, deps: seq<HandleId>, resident: bool)
    requires InOrder(s)
    ensures InOrder(Register(s, file, loader, deps, resident).s)
  {
    NewestCons(s.nextId, s.handles, s.nextId + 1);
  }

  lemma {:induction false} CandidatesOrder(s: State, candidates: seq<Attempt>)
    requires InOrder(s)
    ensures var t := TryCandidates(s, candidates); !t.NotLoaded? ==> InOrder(t.s)
  {
    hide NewestFirst;
    if candidates != [] {
      CandidatesOrder(s, candidates[1..]);
    }
  }

  lemma FinishOrder(s: State, hs: seq<HandleId>, candidates: seq<Attempt>)
    requires InOrder(s)
    ensures InOrder(FinishArchive(s, hs, candidates).s)
  {
    hide NewestFirst;
    CandidatesOrder(s, candidates);
    UnloadOrder(s, hs);
    match TryCandidates(s, candidates) {
      case Found(s1, h) => UnloadOrder(s1, hs);
      case Loaded(s1, file, loader) => RegisterOrder(s1, file, loader, hs, false);
      case NotLoaded =>
    }
  }

  lemma TryOrder(s: State, a: Attempt, resident: bool)
    requires InOrder(s)
    ensures match TryAll(s, a)
      case Found(s1, h) => InOrder(Admit(s1, h).s)
      case Loaded(s1, file, loader) => InOrder(Register(s1, file, loader, [], resident).s)
      case NotLoaded => true
  {
    hide NewestFirst;
    match TryAll(s, a) {
      case Loaded(s1, file, loader) => RegisterOrder(s1, file, loader, [], resident);
      case _ =>
    }
  }

  lemma {:induction false} OpenOrder(s: State, r: Request)
    requires InOrder(s)
    ensures InOrder(Open(s, r).s)
    decreases r, 1
  {
    hide NewestFirst;
    match r {
      case Unavailable =>
      case Plain(a) => TryOrder(s, a, false);
      case Archive(text, deps, candidates) =>
        LoadDeplibsOrder(s, text, deps);
        var l := LoadDeplibs(s, text, deps);
        FinishOrder(l.s, l.hs, candidates);
    }
  }

  lemma {:induction false} OpenTriesOrder(s: State, tries: seq<Request>)
    requires InOrder(s)
    ensures InOrder(OpenTries(s, tries).s)
    decreases tries, 2
  {
    hide NewestFirst;
    if tries != [] {
      OpenOrder(s, tries[0]);
      OpenTriesOrder(Open(s, tries[0]).s, tries[1..]);
    }
  }

  lemma {:induction false} LoadNamesOrder(s: State, deps: seq<Dep>)
    requires InOrder(s)
    ensures InOrder(LoadNames(s, deps).s)
    decreases deps, 0
  {
    hide NewestFirst;
    if deps != [] {
      OpenTriesOrder(s, deps[|deps| - 1].tries);
      LoadNamesOrder(OpenTries(s, deps[|deps| - 1].tries).s, deps[..|deps| - 1]);
    }
  }

  lemma {:induction false} LoadDeplibsOrder(s: State, text: Option<string>, deps: seq<Dep>)
    requires InOrder(s)
    ensures InOrder(LoadDeplibs(s, text, deps).s)
    decreases deps, 1
  {
    hide NewestFirst;
    if text.Some? {
      LoadNamesOrder(s.(searchPath := Deplibs.Extend(s.searchPath, text.value)), deps);
    }
  }

  lemma StepOrder(c: Config, op: Op)
    requires Tolerable(c, op) && InOrder(c.s)
    ensures InOrder(Step(c, op).s)
  {
    hide NewestFirst, Close, OpenTries;
    match op {
      case OpenOp(tries) => OpenTriesOrder(c.s, tries);
      case OpenSelfOp(accepts) => TryOrder(c.s, Attempt(None, accepts), true);
      case CloseOp(h) => CloseOrder(c.s, h);
      case _ =>
    }
  }

  /** In every run the newest handle comes first. */
  lemma {:induction false} RunNewestFirst(c: Config, ops: seq<Op>)
    requires Tolerated(c, ops) && InOrder(c.s)
    ensures InOrder(Run(c, ops).s)
    decreases |ops|
  {
    if ops != [] {
      StepOrder(c, ops[0]);
      RunNewestFirst(Step(c, ops[0]), ops[1..]);
    }
  }
}
