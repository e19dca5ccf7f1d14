/** Resident handles whose counts are anything at all (dice/libltdl/ltdl.c).  A resident handle is
    never closed, so its count matters at one place only: when an open finds the handle and the
    count it reaches is zero, the handle is linked again. */
module RegistryResidents {
  import opened Wrappers
  import opened Registry
  import opened RegistryInvariant
  import opened RegistryEvolution
  import opened RegistryOpening
  import Deplibs

  // ---------------------------------------------------------------- the looser invariant

  /** The invariant without what it says about the counts of resident handles. */
  ghost predicate Loose(s: State, ext: multiset<HandleId>)
  {
    && WellFormed(s)
    && (forall h :: h in ext ==> h in s.info)
    && LoaderLevel(s)
    && var deps := AllDeps(s.handles, s.info);
      forall h :: h in s.info && !s.info[h].resident ==> Balanced(s.info[h], ext[h] + deps[h])
  }

  /** The two states differ in the counts of resident handles at most. */
  ghost predicate Alike(s: State, t: State)
  {
    && t == s.(info := t.info)
    && s.info.Keys == t.info.Keys
    && (forall h :: h in s.info ==> SameModule(s.info[h], t.info[h]))
    && (forall h :: h in s.info && !s.info[h].resident ==> s.info[h] == t.info[h])
  }

  /** The state with just enough in the counts of resident handles. */
  ghost function Cover(s: State, ext: multiset<HandleId>): State
  {
    var deps := AllDeps(s.handles, s.info);
    s.(info := map h | h in s.info ::
      if s.info[h].resident then s.info[h].(refCount := ext[h] + deps[h]) else s.info[h])
  }

  lemma CoverInv(s: State, ext: multiset<HandleId>)
    requires Loose(s, ext)
    ensures Alike(s, Cover(s, ext)) && Inv(Cover(s, ext), ext)
  {
    hide WellFormed, LoaderLevel, AllDeps;
    var t, deps := Cover(s, ext), AllDeps(s.handles, s.info);
    InfoShape(s, t.info);
    forall h | h in t.info ensures Balanced(t.info[h], ext[h] + deps[h]) {
      assert !s.info[h].resident ==> Balanced(s.info[h], ext[h] + deps[h]);
    }
  }

  lemma AlikeLoose(s: State, t: State, ext: multiset<HandleId>)
    requires Alike(s, t) && Inv(t, ext)
    ensures Loose(s, ext)
  {
    hide WellFormed, LoaderLevel, AllDeps;
    InfoShape(t, s.info);
    assert t.(info := s.info) == s;
    var deps := AllDeps(s.handles, s.info);
    forall h | h in s.info && !s.info[h].resident ensures Balanced(s.info[h], ext[h] + deps[h]) {
      assert Balanced(t.info[h], ext[h] + AllDeps(t.handles, t.info)[h]);
    }
  }

  // ---------------------------------------------------------------- closing

  lemma BumpAlike(s: State, t: State, h: HandleId, delta: int)
    requires Alike(s, t) && h in s.info
    ensures Alike(Bump(s, h, delta), Bump(t, h, delta))
  {
  }

  lemma DiscardAlike(s: State, t: State, h: HandleId)
    requires Alike(s, t) && h in s.info
    ensures Alike(Discard(s, h), Discard(t, h))
  {
  }

  /** Closing does the same in both. */
  lemma {:induction false} CloseAlike(s: State, t: State, h: HandleId)
    requires Alike(s, t)
    ensures Alike(Close(s, h).s, Close(t, h).s) && Close(s, h).errors == Close(t, h).errors
    decreases |s.handles|, 0, 0
  {
    if h in s.handles && h in s.info {
      BumpAlike(s, t, h, -1);
      var (s1, t1) := (Bump(s, h, -1), Bump(t, h, -1));
      if s1.info[h].refCount <= 0 && !s1.info[h].resident {
        DiscardAlike(s1, t1, h);
        UnloadAlike(Discard(s1, h), Discard(t1, h), s1.info[h].deplibs);
      }
    }
  }

  lemma {:induction false} UnloadAlike(s: State, t: State, deps: seq<HandleId>)
    requires Alike(s, t)
    ensures Alike(Unload(s, deps).s, Unload(t, deps).s) && Unload(s, deps).errors == Unload(t, deps).errors
    decreases |s.handles|, 1, |deps|
  {
    if deps != [] && deps[0] in s.info {
      if s.info[deps[0]].resident {
        UnloadAlike(s, t, deps[1..]);
      } else {
        CloseAlike(s, t, deps[0]);
        UnloadAlike(Close(s, deps[0]).s, Close(t, deps[0]).s, deps[1..]);
      }
    }
  }

  // ---------------------------------------------------------------- what an open meets

  /** The handles an open finds already loaded, as they are at that moment. */
  function MetTry(s: State, a: Attempt): seq<Info>
  {
    var cur := FindFile(s.handles, s.info, a.file);
    if cur.Some? then [s.info[cur.value]] else []
  }

  function MetCandidates(s: State, candidates: seq<Attempt>): seq<Info>
  {
    if candidates == [] then []
    else if TryAll(s, candidates[0]).NotLoaded? then MetCandidates(s, candidates[1..])
    else MetTry(s, candidates[0])
  }

  function MetOpen(s: State, r: Request): seq<Info>
    decreases r, 1
  {
    match r
    case Unavailable => []
    case Plain(a) => MetTry(s, a)
    case Archive(text, deps, candidates) =>
      MetDeplibs(s, text, deps) + MetCandidates(LoadDeplibs(s, text, deps).s, candidates)
  }

  function MetTries(s: State, tries: seq<Request>): seq<Info>
    decreases tries, 2
  {
    if tries == [] then []
    else
      var o := Open(s, tries[0]);
      MetOpen(s, tries[0]) + (if o.result.Some? then [] else MetTries(o.s, tries[1..]))
  }

  function MetNames(s: State, deps: seq<Dep>): seq<Info>
    decreases deps, 0
  {
    if deps == [] then []
    else
      var last := deps[|deps| - 1].tries;
      MetTries(s, last) + MetNames(OpenTries(s, last).s, deps[..|deps| - 1])
  }

  function MetDeplibs(s: State, text: Option<string>, deps: seq<Dep>): seq<Info>
    decreases deps, 1
  {
    if text.None? then [] else MetNames(s.(searchPath := Deplibs.Extend(s.searchPath, text.value)), deps)
  }

  /** One of them is resident with a count of minus one. */
  ghost predicate Ominous(met: seq<Info>)
  {
    exists i :: 0 <= i < |met| && met[i].resident && met[i].refCount == -1
  }

  lemma OminousConcat(a: seq<Info>, b: seq<Info>)
    ensures Ominous(a + b) <==> Ominous(a) || Ominous(b)
  {
    if Ominous(b) {
      var i :| 0 <= i < |b| && b[i].resident && b[i].refCount == -1;
      assert (a + b)[|a| + i] == b[i];
    }
    if Ominous(a) {
      var i :| 0 <= i < |a| && a[i].resident && a[i].refCount == -1;
      assert (a + b)[i] == a[i];
    }
  }

  // ---------------------------------------------------------------- corruption stays

  lemma {:induction false} CloseSticks(s: State, h: HandleId)
    requires s.corrupt
    ensures Close(s, h).s.corrupt
    decreases |s.handles|, 0, 0
  {
    if h in s.handles && h in s.info {
      var s1 := Bump(s, h, -1);
      if s1.info[h].refCount <= 0 && !s1.info[h].resident {
        UnloadSticks(Discard(s1, h), s1.info[h].deplibs);
      }
    }
  }

  lemma {:induction false} UnloadSticks(s: State, deps: seq<HandleId>)
    requires s.corrupt
    ensures Unload(s, deps).s.corrupt
    decreases |s.handles|, 1, |deps|
  {
    if deps != [] && deps[0] in s.info {
      if s.info[deps[0]].resident {
        UnloadSticks(s, deps[1..]);
      } else {
        CloseSticks(s, deps[0]);
        UnloadSticks(Close(s, deps[0]).s, deps[1..]);
      }
    }
  }

  lemma {:induction false} CandidatesStick(s: State, candidates: seq<Attempt>)
    ensures var t := TryCandidates(s, candidates); !t.NotLoaded? ==> t.s.corrupt == s.corrupt
  {
    if candidates != [] {
      CandidatesStick(s, candidates[1..]);
    }
  }

  lemma FinishSticks(s: State, hs: seq<HandleId>, candidates: seq<Attempt>)
    requires s.corrupt
    ensures FinishArchive(s, hs, candidates).s.corrupt
  {
    CandidatesStick(s, candidates);
    match TryCandidates(s, candidates) {
      case Found(s1, h) => UnloadSticks(s1, hs);
      case Loaded(_, _, _) =>
      case NotLoaded => UnloadSticks(s, hs);
    }
  }

  lemma {:induction false} OpenSticks(s: State, r: Request)
    requires s.corrupt
    ensures Open(s, r).s.corrupt
    decreases r, 1
  {
    if r.Archive? {
      LoadDeplibsSticks(s, r.text, r.deps);
      var l := LoadDeplibs(s, r.text, r.deps);
      FinishSticks(l.s, l.hs, r.candidates);
    }
  }

  lemma {:induction false} OpenTriesSticks(s: State, tries: seq<Request>)
    requires s.corrupt
    ensures OpenTries(s, tries).s.corrupt
    decreases tries, 2
  {
    if tries != [] {
      OpenSticks(s, tries[0]);
      OpenTriesSticks(Open(s, tries[0]).s, tries[1..]);
    }
  }

  lemma {:induction false} LoadNamesSticks(s: State, deps: seq<Dep>)
    requires s.corrupt
    ensures LoadNames(s, deps).s.corrupt
    decreases deps, 0
  {
    if deps != [] {
      OpenTriesSticks(s, deps[|deps| - 1].tries);
      LoadNamesSticks(OpenTries(s, deps[|deps| - 1].tries).s, deps[..|deps| - 1]);
    }
  }

  lemma {:induction false} LoadDeplibsSticks(s: State, text: Option<string>, deps: seq<Dep>)
    requires s.corrupt
    ensures LoadDeplibs(s, text, deps).s.corrupt
    decreases deps, 1
  {
    if text.Some? {
      LoadNamesSticks(s.(searchPath := Deplibs.Extend(s.searchPath, text.value)), deps);
    }
  }

  // ---------------------------------------------------------------- opening

  lemma {:induction false} FindFileAlike(hs: seq<HandleId>, a: map<HandleId, Info>, b: map<HandleId, Info>, file: Option<string>)
    requires a.Keys == b.Keys && forall h :: h in a ==> a[h].filename == b[h].filename
    ensures FindFile(hs, a, file) == FindFile(hs, b, file)
  {
    if hs != [] {
      FindFileAlike(hs[1..], a, b, file);
    }
  }

  /** What became of an attempt is the same in both. */
  ghost predicate TriedAlike(t: Tried, u: Tried)
  {
    match t
    case Found(s1, h) => u.Found? && h == u.h && h in s1.info && Alike(s1, u.s)
    case Loaded(s1, file, loader) => u.Loaded? && file == u.file && loader == u.loader && Alike(s1, u.s)
    case NotLoaded => u.NotLoaded?
  }

  lemma TryAllAlike(s: State, t: State, a: Attempt)
    requires Alike(s, t)
    ensures TriedAlike(TryAll(s, a), TryAll(t, a))
    ensures TryAll(s, a).Found? ==>
      var h := TryAll(s, a).h; h in s.info && MetTry(s, a) == [s.info[h]] && TryAll(s, a).s == Bump(s, h, 1)
    ensures !TryAll(s, a).Found? ==> MetTry(s, a) == []
  {
    FindFileAlike(s.handles, s.info, t.info, a.file);
    var cur := FindFile(s.handles, s.info, a.file);
    if cur.Some? { BumpAlike(s, t, cur.value, 1); }
  }

  lemma {:induction false} CandidatesAlike(s: State, t: State, candidates: seq<Attempt>)
    requires Alike(s, t)
    ensures var u := TryCandidates(s, candidates);
      && TriedAlike(u, TryCandidates(t, candidates))
      && (u.Found? ==> u.h in s.info && MetCandidates(s, candidates) == [s.info[u.h]] && u.s == Bump(s, u.h, 1))
      && (!u.Found? ==> MetCandidates(s, candidates) == [])
  {
    if candidates != [] {
      TryAllAlike(s, t, candidates[0]);
      CandidatesAlike(s, t, candidates[1..]);
    }
  }

  /** The outcome of an open in the first state, against its outcome in the second, which is
      sound: corrupt exactly when what was met is ominous, and else alike. */
  ghost predicate OpenedAlike(met: seq<Info>, o: Opened, p: Opened)
  {
    && (o.s.corrupt <==> Ominous(met))
    && (!o.s.corrupt ==> Alike(o.s, p.s) && o.result == p.result)
  }

  /** The end of an open that found `h`, which had the record `i`. */
  lemma AdmitAlike(i: Info, s: State, t: State, h: HandleId)
    requires Alike(s, t) && h in s.info && !Admit(t, h).s.corrupt && !t.corrupt
    requires s.info[h].resident == i.resident
    requires i.resident ==> s.info[h].refCount == i.refCount + 1
    ensures OpenedAlike([i], Admit(s, h), Admit(t, h))
  {
    assert Ominous([i]) <==> i.resident && i.refCount == -1 by {
      assert [i][0] == i;
    }
  }

  /** Giving references back never touches a resident handle. */
  lemma {:induction false} CloseKeepsResidents(s: State, h: HandleId, g: HandleId)
    requires g in s.info && s.info[g].resident
    requires h in s.info ==> !s.info[h].resident
    ensures g in Close(s, h).s.info && Close(s, h).s.info[g] == s.info[g]
    decreases |s.handles|, 0, 0
  {
    if h in s.handles && h in s.info {
      var s1 := Bump(s, h, -1);
      if s1.info[h].refCount <= 0 {
        UnloadKeepsResidents(Discard(s1, h), s1.info[h].deplibs, g);
      }
    }
  }

  lemma {:induction false} UnloadKeepsResidents(s: State, deps: seq<HandleId>, g: HandleId)
    requires g in s.info && s.info[g].resident
    ensures g in Unload(s, deps).s.info && Unload(s, deps).s.info[g] == s.info[g]
    decreases |s.handles|, 1, |deps|
  {
    if deps != [] && deps[0] in s.info {
      if s.info[deps[0]].resident {
        UnloadKeepsResidents(s, deps[1..], g);
      } else {
        CloseKeepsResidents(s, deps[0], g);
        UnloadKeepsResidents(Close(s, deps[0]).s, deps[1..], g);
      }
    }
  }

  lemma FoundAlike(s: State, t: State, h: HandleId, hs: seq<HandleId>, ext: multiset<HandleId>)
    requires Alike(s, t) && h in s.info
    requires Inv(Bump(t, h, 1), ext + multiset(hs) + multiset{h})
    ensures OpenedAlike([s.info[h]], Admit(Unload(Bump(s, h, 1), hs).s, h), Admit(Unload(Bump(t, h, 1), hs).s, h))
  {
    hide LoaderLevel, Conserved, Ordered, Distinct, AllDeps;
    var (s1, t1) := (Bump(s, h, 1), Bump(t, h, 1));
    assert ext + multiset(hs) + multiset{h} == (ext + multiset{h}) + multiset(hs);
    BumpAlike(s, t, h, 1);
    UnloadAlike(s1, t1, hs);
    UnloadInv(t1, hs, ext + multiset{h});
    var (s2, t2) := (Unload(s1, hs).s, Unload(t1, hs).s);
    AdmitOk(t2, h, ext);
    assert h in ext + multiset{h};
    if s.info[h].resident {
      UnloadKeepsResidents(s1, hs, h);
    } else {
      StillNotResident(t1, t2, h);
    }
    AdmitAlike(s.info[h], s2, t2, h);
  }

  lemma StillNotResident(t1: State, t2: State, h: HandleId)
    requires WellFormed(t1) && Evolves(t1, t2) && h in t1.info && h in t2.info && !t1.info[h].resident
    ensures !t2.info[h].resident
  {
  }

  lemma NoneOminous()
    ensures !Ominous([])
  {
  }

  lemma RegisterAlike(s: State, t: State, file: Option<string>, loader: Loader, deps: seq<HandleId>, resident: bool)
    requires Alike(s, t) && !t.corrupt
    ensures OpenedAlike([], Register(s, file, loader, deps, resident), Register(t, file, loader, deps, resident))
  {
    NoneOminous();
  }

  lemma FailedAlike(s: State, t: State)
    requires Alike(s, t) && !t.corrupt
    ensures OpenedAlike([], Opened(s, None), Opened(t, None))
  {
    NoneOminous();
  }

  lemma NothingToUnload(s: State)
    ensures Unload(s, []).s == s
  {
  }

  lemma TriedSound(t: State, u: Tried, ext: multiset<HandleId>)
    requires TriedOk(t, u, ext) && Inv(t, ext)
    ensures !t.corrupt && (!u.NotLoaded? ==> !u.s.corrupt)
    ensures u.Found? ==> u.s == Bump(t, u.h, 1) && Inv(u.s, ext + multiset{u.h})
  {
  }

  lemma PlainAlike(s: State, t: State, a: Attempt, ext: multiset<HandleId>)
    requires Alike(s, t) && Inv(t, ext)
    ensures OpenedAlike(MetOpen(s, Plain(a)), Open(s, Plain(a)), Open(t, Plain(a)))
  {
    hide Inv, Alike, OpenedAlike, TryAll, Unload, Register, Admit, TriedOk, MetTry, Bump;
    TryAllAlike(s, t, a);
    TryAllInv(t, a, ext);
    TriedSound(t, TryAll(t, a), ext);
    assert ext + multiset([]) == ext;
    match TryAll(s, a) {
      case Found(s1, h) =>
        FoundAlike(s, t, h, [], ext);
        NothingToUnload(s1);
        NothingToUnload(TryAll(t, a).s);
      case Loaded(s1, file, loader) => RegisterAlike(s1, TryAll(t, a).s, file, loader, [], false);
      case NotLoaded => FailedAlike(s, t);
    }
  }

  lemma FinishAlike(s: State, t: State, hs: seq<HandleId>, candidates: seq<Attempt>, ext: multiset<HandleId>)
    requires Alike(s, t) && Inv(t, ext + multiset(hs))
    ensures OpenedAlike(MetCandidates(s, candidates), FinishArchive(s, hs, candidates), FinishArchive(t, hs, candidates))
  {
    hide Inv, Alike, OpenedAlike, TryCandidates, Unload, Register, Admit, TriedOk, MetCandidates, Bump;
    CandidatesAlike(s, t, candidates);
    TryCandidatesInv(t, candidates, ext + multiset(hs));
    TriedSound(t, TryCandidates(t, candidates), ext + multiset(hs));
    match TryCandidates(s, candidates) {
      case Found(s1, h) =>
        FoundAlike(s, t, h, hs, ext);
      case Loaded(s1, file, loader) =>
        RegisterAlike(s1, TryCandidates(t, candidates).s, file, loader, hs, false);
      case NotLoaded =>
        UnloadAlike(s, t, hs);
        UnloadInv(t, hs, ext);
        ReleasedSound(t, Unload(t, hs).s, ext);
        FailedAlike(Unload(s, hs).s, Unload(t, hs).s);
    }
  }

  lemma ReleasedSound(t: State, t': State, ext: multiset<HandleId>)
    requires Released(t, t', ext)
    ensures !t'.corrupt
  {
  }

  ghost predicate LoadedAlike(met: seq<Info>, l: Loads, m: Loads)
  {
    && (l.s.corrupt <==> Ominous(met))
    && (!l.s.corrupt ==> Alike(l.s, m.s) && l.hs == m.hs)
  }

  /** An open corrupts the registry exactly when it meets a resident handle with a count of minus
      one; otherwise the counts of resident handles make no difference. */
  lemma {:induction false} OpenAlike(s: State, t: State, r: Request, ext: multiset<HandleId>)
    requires Alike(s, t) && Inv(t, ext)
    ensures OpenedAlike(MetOpen(s, r), Open(s, r), Open(t, r))
    decreases r, 1
  {
    hide WellFormed, LoaderLevel, Conserved, Evolves;
    match r {
      case Unavailable => NoneOminous(); InvSound(t, ext);
      case Plain(a) => PlainAlike(s, t, a, ext);
      case Archive(text, deps, candidates) =>
        var (l, m) := (LoadDeplibs(s, text, deps), LoadDeplibs(t, text, deps));
        LoadDeplibsAlike(s, t, text, deps, ext);
        LoadDeplibsInv(t, text, deps, ext);
        OminousConcat(MetDeplibs(s, text, deps), MetCandidates(l.s, candidates));
        if l.s.corrupt {
          FinishSticks(l.s, l.hs, candidates);
        } else {
          FinishAlike(l.s, m.s, m.hs, candidates, ext);
        }
    }
  }

  lemma InvSound(t: State, ext: multiset<HandleId>)
    requires Inv(t, ext)
    ensures !t.corrupt
  {
  }

  lemma {:induction false} OpenTriesAlike(s: State, t: State, tries: seq<Request>, ext: multiset<HandleId>)
    requires Alike(s, t) && Inv(t, ext)
    ensures OpenedAlike(MetTries(s, tries), OpenTries(s, tries), OpenTries(t, tries))
    decreases tries, 2
  {
    hide WellFormed, LoaderLevel, Conserved, Evolves;
    if tries == [] {
      NoneOminous();
      InvSound(t, ext);
    } else {
      var (o, p) := (Open(s, tries[0]), Open(t, tries[0]));
      OpenAlike(s, t, tries[0], ext);
      OpenInv(t, tries[0], ext);
      if o.result.None? {
        OminousConcat(MetOpen(s, tries[0]), MetTries(o.s, tries[1..]));
        if o.s.corrupt {
          OpenTriesSticks(o.s, tries[1..]);
        } else {
          OpenTriesAlike(o.s, p.s, tries[1..], ext);
        }
      } else {
        assert MetTries(s, tries) == MetOpen(s, tries[0]);
      }
    }
  }

  lemma {:induction false} LoadNamesAlike(s: State, t: State, deps: seq<Dep>, ext: multiset<HandleId>)
    requires Alike(s, t) && Inv(t, ext)
    ensures LoadedAlike(MetNames(s, deps), LoadNames(s, deps), LoadNames(t, deps))
    decreases deps, 0
  {
    hide WellFormed, LoaderLevel, Conserved, Evolves;
    if deps == [] {
      NoneOminous();
      InvSound(t, ext);
    } else {
      var (last, init) := (deps[|deps| - 1].tries, deps[..|deps| - 1]);
      var (o, p) := (OpenTries(s, last), OpenTries(t, last));
      OpenTriesAlike(s, t, last, ext);
      OpenTriesInv(t, last, ext);
      OminousConcat(MetTries(s, last), MetNames(o.s, init));
      if o.s.corrupt {
        LoadNamesSticks(o.s, init);
      } else {
        LoadNamesAlike(o.s, p.s, init, Holding(ext, p.result));
      }
    }
  }

  lemma {:induction false} LoadDeplibsAlike(s: State, t: State, text: Option<string>, deps: seq<Dep>, ext: multiset<HandleId>)
    requires Alike(s, t) && Inv(t, ext)
    ensures LoadedAlike(MetDeplibs(s, text, deps), LoadDeplibs(s, text, deps), LoadDeplibs(t, text, deps))
    decreases deps, 1
  {
    hide LoadNames, MetNames, Inv, Alike;
    if text.None? {
      NoneOminous();
      InvSound(t, ext);
      assert [] == MetDeplibs(s, text, deps);
      SameFlag(s, t);
    } else {
      var path := Deplibs.Extend(s.searchPath, text.value);
      SameFlag(s, t);
      PathIrrelevant(t, path, ext);
      var (s1, t1) := (s.(searchPath := path), t.(searchPath := path));
      PathAlike(s, t, path);
      LoadNamesAlike(s1, t1, deps, ext);
      var (l, m) := (LoadNames(s1, deps), LoadNames(t1, deps));
      if !l.s.corrupt {
        SameFlag(l.s, m.s);
        PathAlike(l.s, m.s, if l.s.searchPath.Some? then s.searchPath else None);
      }
    }
  }

  lemma SameFlag(s: State, t: State)
    requires Alike(s, t)
    ensures s.corrupt == t.corrupt && s.searchPath == t.searchPath
  {
  }

  lemma PathAlike(s: State, t: State, path: Option<string>)
    requires Alike(s, t)
    ensures Alike(s.(searchPath := path), t.(searchPath := path))
  {
  }
}
