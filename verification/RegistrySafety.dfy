/** When opening is safe although resident handles may have been closed too often: for single opens,
    for sequences of opens, and over whole runs (dice/libltdl/ltdl.c). */
module RegistrySafety {
  import opened Wrappers
  import opened Registry
  import opened RegistryInvariant
  import opened RegistryEvolution
  import opened RegistryOpening
  import opened RegistryRuns
  import opened RegistryResidents
  import Deplibs
  import Text

  // ---------------------------------------------------------------- one open

  lemma OpenLoose(s: State, r: Request, ext: multiset<HandleId>)
    requires Loose(s, ext)
    ensures var o := Open(s, r);
      && (o.s.corrupt <==> Ominous(MetOpen(s, r)))
      && (!o.s.corrupt ==> Loose(o.s, Holding(ext, o.result)))
  {
    hide Loose, Cover, Inv, Alike, WellFormed, LoaderLevel, Conserved, Evolves;
    var t := Cover(s, ext);
    CoverInv(s, ext);
    OpenAlike(s, t, r, ext);
    OpenInv(t, r, ext);
    var o := Open(s, r);
    if !o.s.corrupt { AlikeLoose(o.s, Open(t, r).s, Holding(ext, o.result)); }
  }

  /** Exactly when an open links a listed handle again: when it meets a resident handle whose count
      is minus one at that moment. */
  lemma OpenCorruptsIff(s: State, tries: seq<Request>, ext: multiset<HandleId>)
    requires Loose(s, ext)
    ensures var o := OpenTries(s, tries);
      && (o.s.corrupt <==> Ominous(MetTries(s, tries)))
      && (!o.s.corrupt ==> Loose(o.s, Holding(ext, o.result)))
  {
    hide Loose, Cover, Inv, Alike, WellFormed, LoaderLevel, Conserved, Evolves;
    var t := Cover(s, ext);
    CoverInv(s, ext);
    OpenTriesAlike(s, t, tries, ext);
    OpenTriesInv(t, tries, ext);
    var o := OpenTries(s, tries);
    if !o.s.corrupt { AlikeLoose(o.s, OpenTries(t, tries).s, Holding(ext, o.result)); }
  }

  /** What opening the program meets. */
  function MetSelf(s: State, accepts: set<Loader>): seq<Info>
  {
    MetTry(s, Attempt(None, accepts))
  }

  lemma OpenSelfLoose(s: State, accepts: set<Loader>, ext: multiset<HandleId>)
    requires Loose(s, ext)
    ensures var o := OpenSelf(s, accepts);
      && (o.s.corrupt <==> Ominous(MetSelf(s, accepts)))
      && (!o.s.corrupt ==> Loose(o.s, Holding(ext, o.result)))
  {
    hide Loose, Cover, Inv, Alike, TryAll, Register, Unload, Admit, MetTry, TriedOk, OpenedAlike, Bump;
    var t, a := Cover(s, ext), Attempt(None, accepts);
    CoverInv(s, ext);
    TryAllAlike(s, t, a);
    TryAllInv(t, a, ext);
    TriedSound(t, TryAll(t, a), ext);
    assert ext + multiset([]) == ext;
    match TryAll(s, a) {
      case Found(s1, h) =>
        FoundAlike(s, t, h, [], ext);
        NothingToUnload(s1);
        NothingToUnload(TryAll(t, a).s);
      case Loaded(s1, file, loader) => RegisterAlike(s1, TryAll(t, a).s, file, loader, [], true);
      case NotLoaded => FailedAlike(s, t);
    }
    OpenSelfInv(t, accepts, ext);
    var (o, p) := (OpenSelf(s, accepts), OpenSelf(t, accepts));
    assert OpenedAlike(MetSelf(s, accepts), o, p);
    Told(MetSelf(s, accepts), o, p);
    if !o.s.corrupt { AlikeLoose(o.s, p.s, Holding(ext, o.result)); }
  }

  lemma Told(met: seq<Info>, o: Opened, p: Opened)
    requires OpenedAlike(met, o, p)
    ensures o.s.corrupt <==> Ominous(met)
    ensures !o.s.corrupt ==> Alike(o.s, p.s) && o.result == p.result
  {
  }

  // ---------------------------------------------------------------- resident handles over an open

  ghost predicate Fresh(s: State)
  {
    forall h :: h in s.info ==> h < s.nextId
  }

  /** Resident handles stay, their counts do not fall, and there are no new ones. */
  ghost predicate Settled(s: State, s': State)
  {
    && Fresh(s')
    && (forall h :: h in s.info && s.info[h].resident ==>
          h in s'.info && SameModule(s.info[h], s'.info[h]) && s.info[h].refCount <= s'.info[h].refCount)
    && (forall h :: h in s'.info && s'.info[h].resident ==> h in s.info && s.info[h].resident)
  }

  lemma SettledTrans(s0: State, s1: State, s2: State)
    requires Settled(s0, s1) && Settled(s1, s2)
    ensures Settled(s0, s2)
  {
    forall h | h in s0.info && s0.info[h].resident
      ensures h in s2.info && SameModule(s0.info[h], s2.info[h]) && s0.info[h].refCount <= s2.info[h].refCount
    {
      assert h in s1.info && SameModule(s0.info[h], s1.info[h]);
    }
  }

  lemma {:induction false} CloseSettled(s: State, h: HandleId)
    requires Fresh(s) && (h in s.info ==> !s.info[h].resident)
    ensures Settled(s, Close(s, h).s)
    decreases |s.handles|, 0, 0
  {
    if h in s.handles && h in s.info {
      var s1 := Bump(s, h, -1);
      if s1.info[h].refCount <= 0 {
        var s2 := Discard(s1, h);
        UnloadSettled(s2, s1.info[h].deplibs);
        SettledTrans(s, s2, Unload(s2, s1.info[h].deplibs).s);
      }
    }
  }

  lemma {:induction false} UnloadSettled(s: State, deps: seq<HandleId>)
    requires Fresh(s)
    ensures Settled(s, Unload(s, deps).s)
    decreases |s.handles|, 1, |deps|
  {
    if deps != [] && deps[0] in s.info {
      if s.info[deps[0]].resident {
        UnloadSettled(s, deps[1..]);
      } else {
        CloseSettled(s, deps[0]);
        var s1 := Close(s, deps[0]).s;
        UnloadSettled(s1, deps[1..]);
        SettledTrans(s, s1, Unload(s1, deps[1..]).s);
      }
    }
  }

  lemma TriedSettled(s: State, a: Attempt)
    requires Fresh(s)
    ensures var t := TryAll(s, a); !t.NotLoaded? ==> Settled(s, t.s)
  {
  }

  lemma {:induction false} CandidatesSettled(s: State, candidates: seq<Attempt>)
    requires Fresh(s)
    ensures var t := TryCandidates(s, candidates); !t.NotLoaded? ==> Settled(s, t.s)
  {
    if candidates != [] {
      TriedSettled(s, candidates[0]);
      CandidatesSettled(s, candidates[1..]);
    }
  }

  lemma RegisterSettled(s: State, file: Option<string>, loader: Loader, deps: seq<HandleId>)
    requires Fresh(s)
    ensures Settled(s, Register(s, file, loader, deps, false).s)
  {
  }

  lemma AdmitSettled(s: State, h: HandleId)
    requires Fresh(s)
    ensures Settled(s, Admit(s, h).s)
  {
  }

  lemma FinishSettled(s: State, hs: seq<HandleId>, candidates: seq<Attempt>)
    requires Fresh(s)
    ensures Settled(s, FinishArchive(s, hs, candidates).s)
  {
    hide Settled, Unload, TryCandidates, Admit, Register;
    CandidatesSettled(s, candidates);
    match TryCandidates(s, candidates) {
      case Found(s1, h) =>
        SettledFresh(s, s1);
        UnloadSettled(s1, hs);
        var s2 := Unload(s1, hs).s;
        SettledTrans(s, s1, s2);
        SettledFresh(s, s2);
        AdmitSettled(s2, h);
        SettledTrans(s, s2, Admit(s2, h).s);
      case Loaded(s1, file, loader) =>
        SettledFresh(s, s1);
        RegisterSettled(s1, file, loader, hs);
        SettledTrans(s, s1, Register(s1, file, loader, hs, false).s);
      case NotLoaded => UnloadSettled(s, hs);
    }
  }

  lemma SettledFresh(s: State, s': State)
    requires Settled(s, s')
    ensures Fresh(s')
  {
  }

  lemma SettledRefl(s: State, path: Option<string>)
    requires Fresh(s)
    ensures Settled(s, s) && Settled(s, s.(searchPath := path))
  {
  }

  lemma PlainSettled(s: State, a: Attempt)
    requires Fresh(s)
    ensures Settled(s, Open(s, Plain(a)).s)
  {
    hide Settled, TryAll, Admit, Register;
    TriedSettled(s, a);
    match TryAll(s, a) {
      case Found(s1, h) =>
        SettledFresh(s, s1);
        AdmitSettled(s1, h);
        SettledTrans(s, s1, Admit(s1, h).s);
      case Loaded(s1, file, loader) =>
        SettledFresh(s, s1);
        RegisterSettled(s1, file, loader, []);
        SettledTrans(s, s1, Register(s1, file, loader, [], false).s);
      case NotLoaded => SettledRefl(s, None);
    }
  }

  lemma {:induction false} OpenSettled(s: State, r: Request)
    requires Fresh(s)
    ensures Settled(s, Open(s, r).s)
    decreases r, 1
  {
    hide Settled;
    match r {
      case Unavailable => SettledRefl(s, None);
      case Plain(a) => PlainSettled(s, a);
      case Archive(text, deps, candidates) =>
        LoadDeplibsSettled(s, text, deps);
        var l := LoadDeplibs(s, text, deps);
        SettledFresh(s, l.s);
        FinishSettled(l.s, l.hs, candidates);
        SettledTrans(s, l.s, Open(s, r).s);
    }
  }

  lemma {:induction false} OpenTriesSettled(s: State, tries: seq<Request>)
    requires Fresh(s)
    ensures Settled(s, OpenTries(s, tries).s)
    decreases tries, 2
  {
    hide Settled;
    if tries == [] {
      SettledRefl(s, None);
    } else {
      OpenSettled(s, tries[0]);
      var s1 := Open(s, tries[0]).s;
      SettledFresh(s, s1);
      OpenTriesSettled(s1, tries[1..]);
      SettledTrans(s, s1, OpenTries(s1, tries[1..]).s);
    }
  }

  lemma {:induction false} LoadNamesSettled(s: State, deps: seq<Dep>)
    requires Fresh(s)
    ensures Settled(s, LoadNames(s, deps).s)
    decreases deps, 0
  {
    hide Settled;
    if deps == [] {
      SettledRefl(s, None);
    } else {
      var (last, init) := (deps[|deps| - 1].tries, deps[..|deps| - 1]);
      OpenTriesSettled(s, last);
      var s1 := OpenTries(s, last).s;
      SettledFresh(s, s1);
      LoadNamesSettled(s1, init);
      SettledTrans(s, s1, LoadNames(s1, init).s);
    }
  }

  lemma {:induction false} LoadDeplibsSettled(s: State, text: Option<string>, deps: seq<Dep>)
    requires Fresh(s)
    ensures Settled(s, LoadDeplibs(s, text, deps).s)
    decreases deps, 1
  {
    hide Settled;
    if text.None? {
      SettledRefl(s, None);
    } else {
      var s1 := s.(searchPath := Deplibs.Extend(s.searchPath, text.value));
      SettledRefl(s, s1.searchPath);
      LoadNamesSettled(s1, deps);
      var l := LoadNames(s1, deps);
      SettledTrans(s, s1, l.s);
      SettledFresh(s, l.s);
      var path := if l.s.searchPath.Some? then s.searchPath else None;
      SettledRefl(l.s, path);
      SettledTrans(s, l.s, l.s.(searchPath := path));
    }
  }

  // ---------------------------------------------------------------- counts that are not negative

  /** No resident handle has a negative count; the program's own handle, which has no file name, is
      looked at only if `self`. */
  ghost predicate NoNegative(s: State, self: bool)
  {
    forall h :: h in s.info && s.info[h].resident && (self || s.info[h].filename.Some?) ==> s.info[h].refCount >= 0
  }

  lemma NoNegativeSettled(s: State, s': State, self: bool)
    requires NoNegative(s, self) && Settled(s, s')
    ensures NoNegative(s', self)
  {
    forall h | h in s'.info && s'.info[h].resident && (self || s'.info[h].filename.Some?) ensures s'.info[h].refCount >= 0 {
      assert h in s.info && SameModule(s.info[h], s'.info[h]);
    }
  }

  /** Files are opened by name; only `lt_dlopen (NULL)` opens the program. */
  predicate OfFiles(r: Request)
    decreases r, 1
  {
    match r
    case Unavailable => true
    case Plain(a) => a.file.Some?
    case Archive(_, deps, candidates) =>
      DepsOfFiles(deps) && forall i :: 0 <= i < |candidates| ==> candidates[i].file.Some?
  }

  predicate DepsOfFiles(deps: seq<Dep>)
    decreases deps, 0
  {
    forall i, j :: 0 <= i < |deps| && 0 <= j < |deps[i].tries| ==> OfFiles(deps[i].tries[j])
  }

  predicate TriesOfFiles(tries: seq<Request>)
  {
    forall i :: 0 <= i < |tries| ==> OfFiles(tries[i])
  }

  lemma MetTryMild(s: State, a: Attempt)
    requires NoNegative(s, false) && a.file.Some?
    ensures !Ominous(MetTry(s, a))
  {
  }

  lemma {:induction false} MetCandidatesMild(s: State, candidates: seq<Attempt>)
    requires NoNegative(s, false) && forall i :: 0 <= i < |candidates| ==> candidates[i].file.Some?
    ensures !Ominous(MetCandidates(s, candidates))
  {
    if candidates != [] {
      MetTryMild(s, candidates[0]);
      MetCandidatesMild(s, candidates[1..]);
    }
  }

  /** Then no open of files meets a resident handle that is about to be linked again. */
  lemma {:induction false} MetOpenMild(s: State, r: Request)
    requires Fresh(s) && NoNegative(s, false) && OfFiles(r)
    ensures !Ominous(MetOpen(s, r))
    decreases r, 1
  {
    hide NoNegative, Settled, Ominous;
    match r {
      case Unavailable => NoneOminous();
      case Plain(a) => MetTryMild(s, a);
      case Archive(text, deps, candidates) =>
        MetDeplibsMild(s, text, deps);
        LoadDeplibsSettled(s, text, deps);
        var s1 := LoadDeplibs(s, text, deps).s;
        NoNegativeSettled(s, s1, false);
        MetCandidatesMild(s1, candidates);
        OminousConcat(MetDeplibs(s, text, deps), MetCandidates(s1, candidates));
    }
  }

  lemma {:induction false} MetTriesMild(s: State, tries: seq<Request>)
    requires Fresh(s) && NoNegative(s, false) && TriesOfFiles(tries)
    ensures !Ominous(MetTries(s, tries))
    decreases tries, 2
  {
    hide NoNegative, Settled, Ominous, OfFiles;
    if tries == [] {
      NoneOminous();
    } else {
      var o := Open(s, tries[0]);
      MetOpenMild(s, tries[0]);
      OpenSettled(s, tries[0]);
      SettledFresh(s, o.s);
      NoNegativeSettled(s, o.s, false);
      MetTriesMild(o.s, tries[1..]);
      NoneOminous();
      OminousConcat(MetOpen(s, tries[0]), if o.result.Some? then [] else MetTries(o.s, tries[1..]));
    }
  }

  lemma {:induction false} MetNamesMild(s: State, deps: seq<Dep>)
    requires Fresh(s) && NoNegative(s, false) && DepsOfFiles(deps)
    ensures !Ominous(MetNames(s, deps))
    decreases deps, 0
  {
    hide NoNegative, Settled, Ominous, OfFiles;
    if deps == [] {
      NoneOminous();
    } else {
      var (last, init) := (deps[|deps| - 1].tries, deps[..|deps| - 1]);
      MetTriesMild(s, last);
      var s1 := OpenTries(s, last).s;
      OpenTriesSettled(s, last);
      SettledFresh(s, s1);
      NoNegativeSettled(s, s1, false);
      MetNamesMild(s1, init);
      OminousConcat(MetTries(s, last), MetNames(s1, init));
    }
  }

  lemma {:induction false} MetDeplibsMild(s: State, text: Option<string>, deps: seq<Dep>)
    requires Fresh(s) && NoNegative(s, false) && DepsOfFiles(deps)
    ensures !Ominous(MetDeplibs(s, text, deps))
    decreases deps, 1
  {
    if text.None? {
      NoneOminous();
    } else {
      MetNamesMild(s.(searchPath := Deplibs.Extend(s.searchPath, text.value)), deps);
    }
  }

  // ---------------------------------------------------------------- and counts that are

  lemma {:induction false} FindsTheFile(hs: seq<HandleId>, info: map<HandleId, Info>, h: HandleId)
    requires h in hs && h in info
    requires forall g :: g in info && g != h ==> info[g].filename != info[h].filename
    ensures FindFile(hs, info, info[h].filename) == Some(h)
  {
    if hs[0] != h {
      FindsTheFile(hs[1..], info, h);
    }
  }

  /** A handle that is listed and found by its own file name. */
  ghost predicate Findable(s: State, h: HandleId)
  {
    && h in s.handles && h in s.info
    && forall g :: g in s.info && g != h ==> s.info[g].filename != s.info[h].filename
  }

  /** An open of nothing but the file of `h`, asked for by some name. */
  function OpenOf(s: State, h: HandleId): Dep
    requires h in s.info
  {
    Dep("x", [Plain(Attempt(s.info[h].filename, {}))])
  }

  lemma OpenOfRaises(s: State, h: HandleId)
    requires Findable(s, h)
    ensures var o := OpenTries(s, OpenOf(s, h).tries);
      o == Admit(Bump(s, h, 1), h) && o.result == Some(h)
  {
    FindsTheFile(s.handles, s.info, h);
    var r := Plain(Attempt(s.info[h].filename, {}));
    assert TryAll(s, r.attempt) == Found(Bump(s, h, 1), h);
    assert Open(s, r) == Admit(Bump(s, h, 1), h);
  }

  function Times(n: nat, d: Dep): seq<Dep>
  {
    if n == 0 then [] else Times(n - 1, d) + [d]
  }

  /** Opening it as often as its count is below zero links it again. */
  lemma {:induction false} RepeatedOpens(s: State, h: HandleId, n: nat)
    requires Findable(s, h) && s.info[h].refCount + n == 0 < n
    ensures LoadNames(s, Times(n, OpenOf(s, h))).s.corrupt
    decreases n
  {
    var d := OpenOf(s, h);
    var deps := Times(n, d);
    var s1 := Bump(s, h, 1);
    OpenOfRaises(s, h);
    assert deps[|deps| - 1] == d && deps[..|deps| - 1] == Times(n - 1, d);
    if n == 1 {
      LoadNamesSticks(OpenTries(s, d.tries).s, Times(0, d));
    } else {
      assert OpenTries(s, d.tries).s == s1;
      RepeatedOpens(s1, h, n - 1);
      assert OpenOf(s1, h) == d;
    }
  }

  lemma {:induction false} TimesOfFiles(n: nat, d: Dep)
    requires TriesOfFiles(d.tries)
    ensures DepsOfFiles(Times(n, d))
  {
    if n > 0 {
      TimesOfFiles(n - 1, d);
    }
  }

  /** A dependency text that names `x` so many times. */
  function Words(n: nat): seq<string>
  {
    if n == 0 then [] else ["x"] + Words(n - 1)
  }

  lemma {:induction false} WordsFacts(n: nat)
    ensures |Words(n)| == n && forall w :: w in Words(n) ==> w == "x"
    ensures Deplibs.NamesOf(Words(n)) == Words(n)
    ensures Text.EOS !in Text.Join(Words(n), ' ')
  {
    if n > 0 {
      WordsFacts(n - 1);
      assert Words(n)[1..] == Words(n - 1);
    }
  }

  lemma {:induction false} TimesFacts(n: nat, d: Dep)
    ensures |Times(n, d)| == n && forall i :: 0 <= i < n ==> Times(n, d)[i] == d
  {
    if n > 0 {
      TimesFacts(n - 1, d);
    }
  }

  /** The request is one that `load_deplibs` makes for that text. */
  lemma RepeatedMatches(n: nat, d: Dep)
    requires d.name == "x" && forall j :: 0 <= j < |d.tries| ==> Matches(d.tries[j])
    ensures MatchesText(Some(Text.Join(Words(n), ' ')), Times(n, d))
  {
    var text := Text.Join(Words(n), ' ');
    WordsFacts(n);
    TimesFacts(n, d);
    Deplibs.TokensOfJoin(Words(n));
    forall i | 0 <= i < n ensures Times(n, d)[i].name == Deplibs.Names(text)[i] { assert Words(n)[i] in Words(n); }
  }

  /** An archive whose dependencies all are that file. */
  lemma Trap(s: State, h: HandleId) returns (r: Request)
    requires Findable(s, h) && s.info[h].refCount < 0 && s.info[h].filename.Some?
    ensures OfFiles(r) && Matches(r) && Open(s, r).s.corrupt
  {
    hide LoadNames, FinishArchive, OpenTries, Deplibs.Extend;
    var n := -s.info[h].refCount;
    var d := OpenOf(s, h);
    var (deps, text) := (Times(n, d), Text.Join(Words(n), ' '));
    TimesOfFiles(n, d);
    RepeatedMatches(n, d);
    r := Archive(Some(text), deps, []);
    var s1 := s.(searchPath := Deplibs.Extend(s.searchPath, text));
    assert OpenOf(s1, h) == d;
    RepeatedOpens(s1, h, n);
    var l := LoadDeplibs(s, Some(text), deps);
    FinishSticks(l.s, l.hs, []);
  }

  lemma LooseFacts(s: State, ext: multiset<HandleId>)
    requires Loose(s, ext)
    ensures Fresh(s) && !s.corrupt
    ensures forall h :: h in s.info ==> Findable(s, h)
  {
  }

  /** Exactly when no open of files links a listed handle again, over all requests whose dependency
      opens are those that a dependency text asks for. */
  lemma EveryOpenSafeIff(s: State, ext: multiset<HandleId>)
    requires Loose(s, ext)
    ensures (forall r :: OfFiles(r) && Matches(r) ==> !Open(s, r).s.corrupt) <==> NoNegative(s, false)
  {
    hide Loose, Findable, Open, Ominous, MetOpen, OfFiles, Matches;
    LooseFacts(s, ext);
    if NoNegative(s, false) {
      forall r | OfFiles(r) && Matches(r) ensures !Open(s, r).s.corrupt {
        MetOpenMild(s, r);
        OpenLoose(s, r, ext);
      }
    } else {
      var h :| h in s.info && s.info[h].resident && s.info[h].filename.Some? && s.info[h].refCount < 0;
      var r := Trap(s, h);
    }
  }

  /** Exactly when opening the program links its handle again. */
  lemma OpenSelfCorruptsIff(s: State, accepts: set<Loader>, ext: multiset<HandleId>)
    requires Loose(s, ext)
    ensures OpenSelf(s, accepts).s.corrupt <==>
      exists h :: h in s.info && s.info[h].filename.None? && s.info[h].resident && s.info[h].refCount == -1
  {
    OpenSelfLoose(s, accepts, ext);
    LooseFacts(s, ext);
    if h :| h in s.info && s.info[h].filename.None? && s.info[h].resident && s.info[h].refCount == -1 {
      FindsTheFile(s.handles, s.info, h);
      assert MetSelf(s, accepts)[0] == s.info[h];
    }
    if Ominous(MetSelf(s, accepts)) {
      var h := FindFile(s.handles, s.info, None).value;
      assert MetSelf(s, accepts) == [s.info[h]];
    }
  }
}
