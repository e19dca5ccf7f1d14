/** Opening keeps the invariant: the new or found handle gains one outside reference, and the
    references taken while loading dependencies are handed to it or given back. */
module RegistryOpening {
  import opened Wrappers
  import opened Registry
  import opened RegistryInvariant
  import opened RegistryEvolution
  import Deplibs

  // ---------------------------------------------------------------- the search path is no part of the invariant

  lemma PathIrrelevant(s: State, path: Option<string>, ext: multiset<HandleId>)
    requires Inv(s, ext)
    ensures Inv(s.(searchPath := path), ext)
    ensures Evolves(s, s.(searchPath := path))
  {
    EvolvesRefl(s);
  }

  // ---------------------------------------------------------------- single steps

  /** The list part: a new head whose dependencies are in the list. */
  lemma RegisterList(hs: seq<HandleId>, info: map<HandleId, Info>, id: HandleId, i: Info)
    requires Distinct(hs) && Ordered(hs, info) && Allocated(hs, info) && id !in info
    requires forall d :: d in i.deplibs ==> d in hs
    ensures Distinct([id] + hs) && Ordered([id] + hs, info[id := i])
    ensures AllDeps([id] + hs, info[id := i]) == AllDeps(hs, info) + multiset(i.deplibs)
  {
    assert ([id] + hs)[1..] == hs;
    SameDepsSameShape(hs, info, info[id := i]);
  }

  lemma RegisterShape(s: State, log: seq<Event>, file: Option<string>, loader: Loader, deps: seq<HandleId>, resident: bool)
    requires WellFormed(s)
    requires !FileRegistered(s.info, file) && loader in s.loaders
    requires forall d :: d in deps ==> d in s.info
    ensures WellFormed(Register(s.(log := log), file, loader, deps, resident).s)
    ensures var s' := Register(s.(log := log), file, loader, deps, resident).s;
      AllDeps(s'.handles, s'.info) == AllDeps(s.handles, s.info) + multiset(deps)
  {
    hide Ordered, Distinct, AllDeps;
    RegisterList(s.handles, s.info, s.nextId, Info(file, loader, 1, deps, resident));
    assert forall h :: h in s.info ==> s.info[h].filename != file;
  }

  lemma RegisterLoaderLevel(s: State, file: Option<string>, loader: Loader, deps: seq<HandleId>, resident: bool)
    requires WellFormed(s) && LoaderLevel(s) && !FileRegistered(s.info, file)
    ensures LoaderLevel(Register(s.(log := s.log + [ModuleOpen(file, loader)]), file, loader, deps, resident).s)
  {
    var s1 := s.(log := s.log + [ModuleOpen(file, loader)]);
    var s' := Register(s1, file, loader, deps, resident).s;
    forall l ensures OpenCount(s.log, file, l) == 0 { assert !OpenBy(s.info, file, l); }
    LawfulAppend(s.log, ModuleOpen(file, loader));
    forall f, l ensures OpenCount(s'.log, f, l) == if OpenBy(s'.info, f, l) then 1 else 0 {
      OpenCountAppend(s.log, ModuleOpen(file, loader), f, l);
      if f == file && l == loader {
        assert s'.info[s.nextId].filename == f && s'.info[s.nextId].loader == l;
        assert !OpenBy(s.info, f, l);
      } else if OpenBy(s.info, f, l) {
        var g :| g in s.info && s.info[g].filename == f && s.info[g].loader == l;
        assert g in s'.info && s'.info[g].filename == f && s'.info[g].loader == l;
      }
    }
  }

  /** A loaded module enters the list with its dependencies' references. */
  lemma RegisterInv(s: State, file: Option<string>, loader: Loader, deps: seq<HandleId>, resident: bool, ext: multiset<HandleId>)
    requires Inv(s, ext + multiset(deps))
    requires !FileRegistered(s.info, file) && loader in s.loaders
    ensures var o := Register(s.(log := s.log + [ModuleOpen(file, loader)]), file, loader, deps, resident);
      Inv(o.s, ext + multiset{s.nextId})
  {
    hide WellFormed, LoaderLevel, Conserved, AllDeps;
    var s1 := s.(log := s.log + [ModuleOpen(file, loader)]);
    var s' := Register(s1, file, loader, deps, resident).s;
    forall d | d in deps ensures d in s.info { assert d in ext + multiset(deps); }
    RegisterShape(s, s1.log, file, loader, deps, resident);
    RegisterLoaderLevel(s, file, loader, deps, resident);
    forall h | h in ext + multiset{s.nextId} ensures h in s'.info {
      if h != s.nextId { assert h in ext + multiset(deps); }
    }
    NoReferenceToFresh(s, ext + multiset(deps));
    RegisterConserved(s, s1.log, file, loader, deps, resident, ext);
  }

  lemma RegisterConserved(s: State, log: seq<Event>, file: Option<string>, loader: Loader, deps: seq<HandleId>, resident: bool, ext: multiset<HandleId>)
    requires Conserved(s, ext + multiset(deps))
    requires var s' := Register(s.(log := log), file, loader, deps, resident).s;
      AllDeps(s'.handles, s'.info) == AllDeps(s.handles, s.info) + multiset(deps)
    requires s.nextId !in s.info && (ext + multiset(deps))[s.nextId] == 0 == AllDeps(s.handles, s.info)[s.nextId]
    ensures Conserved(Register(s.(log := log), file, loader, deps, resident).s, ext + multiset{s.nextId})
  {
    var s' := Register(s.(log := log), file, loader, deps, resident).s;
    var all, all', ext' := AllDeps(s.handles, s.info), AllDeps(s'.handles, s'.info), ext + multiset{s.nextId};
    forall x | x in s'.info ensures Balanced(s'.info[x], ext'[x] + all'[x]) {
      if x != s.nextId {
        assert Balanced(s.info[x], (ext + multiset(deps))[x] + all[x]);
      }
    }
  }

  lemma NoReferenceToFresh(s: State, ext: multiset<HandleId>)
    requires Inv(s, ext)
    ensures s.nextId !in s.info
    ensures ext[s.nextId] == 0 && AllDeps(s.handles, s.info)[s.nextId] == 0
  {
    DepsRegistered(s.handles, s.info);
    assert s.nextId !in s.info;
    assert s.nextId !in ext;
  }

  lemma {:induction false} DepsRegistered(hs: seq<HandleId>, info: map<HandleId, Info>)
    requires Allocated(hs, info) && Ordered(hs, info)
    ensures forall d :: d in AllDeps(hs, info) ==> d in hs
  {
    if hs != [] {
      DepsRegistered(hs[1..], info);
    }
  }

  ghost predicate TriedOk(s: State, t: Tried, ext: multiset<HandleId>)
  {
    match t
    case Found(s1, h) => h in s.info && s1 == Bump(s, h, 1) && Inv(s1, ext + multiset{h})
    case Loaded(s1, file, loader) =>
      && s1 == s.(log := s.log + [ModuleOpen(file, loader)])
      && !FileRegistered(s.info, file)
      && loader in s.loaders
    case NotLoaded => true
  }

  /** `tryall_dlopen` and `find_module`. */
  lemma TryAllInv(s: State, a: Attempt, ext: multiset<HandleId>)
    requires Inv(s, ext)
    ensures TriedOk(s, TryAll(s, a), ext)
  {
    var cur := FindFile(s.handles, s.info, a.file);
    if cur.Some? {
      TakeInv(s, cur.value, ext);
    }
  }

  lemma {:induction false} TryCandidatesInv(s: State, candidates: seq<Attempt>, ext: multiset<HandleId>)
    requires Inv(s, ext)
    ensures TriedOk(s, TryCandidates(s, candidates), ext)
  {
    if candidates != [] {
      TryAllInv(s, candidates[0], ext);
      TryCandidatesInv(s, candidates[1..], ext);
    }
  }

  // ---------------------------------------------------------------- whole opens

  ghost function Holding(ext: multiset<HandleId>, result: Option<HandleId>): multiset<HandleId>
  {
    if result.Some? then ext + multiset{result.value} else ext
  }

  ghost predicate OpenOk(s: State, o: Opened, ext: multiset<HandleId>)
  {
    && Inv(o.s, Holding(ext, o.result))
    && Evolves(s, o.s)
    && o.s.searchPath == s.searchPath
  }

  ghost predicate LoadsOk(s: State, l: Loads, ext: multiset<HandleId>)
  {
    && Inv(l.s, ext + multiset(l.hs))
    && Evolves(s, l.s)
    && l.s.searchPath == s.searchPath
  }

  /** A held handle has a positive count, so it is never linked a second time. */
  lemma AdmitOk(s: State, h: HandleId, ext: multiset<HandleId>)
    requires Inv(s, ext + multiset{h})
    ensures Admit(s, h) == Opened(s, Some(h))
  {
    assert h in ext + multiset{h};
  }

  lemma RegisterOk(s: State, file: Option<string>, loader: Loader, deps: seq<HandleId>, ext: multiset<HandleId>)
    requires Inv(s, ext + multiset(deps))
    requires !FileRegistered(s.info, file) && loader in s.loaders
    ensures OpenOk(s, Register(s.(log := s.log + [ModuleOpen(file, loader)]), file, loader, deps, false), ext)
  {
    RegisterInv(s, file, loader, deps, false, ext);
    RegisterEvolves(s, s.log + [ModuleOpen(file, loader)], file, loader, deps);
  }

  lemma FoundOk(s: State, h: HandleId, hs: seq<HandleId>, ext: multiset<HandleId>)
    requires Inv(s, ext + multiset(hs)) && h in s.info
    requires Inv(Bump(s, h, 1), ext + multiset(hs) + multiset{h})
    ensures OpenOk(s, Admit(Unload(Bump(s, h, 1), hs).s, h), ext)
  {
    var s1 := Bump(s, h, 1);
    assert ext + multiset(hs) + multiset{h} == (ext + multiset{h}) + multiset(hs);
    BumpEvolves(s, h, 1);
    UnloadInv(s1, hs, ext + multiset{h});
    var s2 := Unload(s1, hs).s;
    AdmitOk(s2, h, ext);
    EvolvesTrans(s, s1, s2);
  }

  lemma PlainOk(s: State, a: Attempt, ext: multiset<HandleId>)
    requires Inv(s, ext)
    ensures OpenOk(s, Open(s, Plain(a)), ext)
  {
    TryAllInv(s, a, ext);
    assert ext + multiset([]) == ext;
    match TryAll(s, a) {
      case Found(s1, h) => AdmitOk(s1, h, ext); BumpEvolves(s, h, 1);
      case Loaded(s1, file, loader) => RegisterOk(s, file, loader, [], ext);
      case NotLoaded => EvolvesRefl(s);
    }
  }

  lemma OpenOkTrans(s0: State, s1: State, o: Opened, ext1: multiset<HandleId>, ext: multiset<HandleId>)
    requires WellFormed(s0) && Inv(s1, ext1) && Evolves(s0, s1) && s1.searchPath == s0.searchPath
    requires OpenOk(s1, o, ext)
    ensures OpenOk(s0, o, ext)
  {
    hide WellFormed, LoaderLevel, Conserved, Evolves;
    EvolvesTrans(s0, s1, o.s);
  }

  /** The part of an archive open after its dependencies are loaded. */
  lemma FinishArchiveOk(s: State, hs: seq<HandleId>, candidates: seq<Attempt>, ext: multiset<HandleId>)
    requires Inv(s, ext + multiset(hs))
    ensures OpenOk(s, FinishArchive(s, hs, candidates), ext)
  {
    TryCandidatesInv(s, candidates, ext + multiset(hs));
    match TryCandidates(s, candidates) {
      case Found(s1, h) => FoundOk(s, h, hs, ext);
      case Loaded(s1, file, loader) => RegisterOk(s, file, loader, hs, ext);
      case NotLoaded => UnloadInv(s, hs, ext);
    }
  }

  /** `try_dlopen` keeps the invariant over every tree of nested opens. */
  lemma {:induction false} OpenInv(s: State, r: Request, ext: multiset<HandleId>)
    requires Inv(s, ext)
    ensures OpenOk(s, Open(s, r), ext)
    decreases r, 1
  {
    match r {
      case Unavailable => EvolvesRefl(s);
      case Plain(a) => PlainOk(s, a, ext);
      case Archive(text, deps, candidates) =>
        var l := LoadDeplibs(s, text, deps);
        LoadDeplibsInv(s, text, deps, ext);
        FinishArchiveOk(l.s, l.hs, candidates, ext);
        OpenOkTrans(s, l.s, Open(s, r), ext + multiset(l.hs), ext);
    }
  }

  lemma {:induction false} OpenTriesInv(s: State, tries: seq<Request>, ext: multiset<HandleId>)
    requires Inv(s, ext)
    ensures OpenOk(s, OpenTries(s, tries), ext)
    decreases tries, 2
  {
    if tries == [] {
      EvolvesRefl(s);
    } else {
      OpenInv(s, tries[0], ext);
      var o := Open(s, tries[0]);
      if o.result.None? {
        OpenTriesInv(o.s, tries[1..], ext);
        OpenOkTrans(s, o.s, OpenTries(o.s, tries[1..]), ext, ext);
      }
    }
  }

  lemma LoadsOkStep(s: State, o: Opened, rest: Loads, ext: multiset<HandleId>)
    requires WellFormed(s) && OpenOk(s, o, ext) && LoadsOk(o.s, rest, Holding(ext, o.result))
    ensures LoadsOk(s, Loads(rest.s, (if o.result.Some? then [o.result.value] else []) + rest.hs), ext)
  {
    hide WellFormed, LoaderLevel, Conserved, Evolves;
    EvolvesTrans(s, o.s, rest.s);
    var hs := (if o.result.Some? then [o.result.value] else []) + rest.hs;
    assert Holding(ext, o.result) + multiset(rest.hs) == ext + multiset(hs);
  }

  lemma {:induction false} LoadNamesInv(s: State, deps: seq<Dep>, ext: multiset<HandleId>)
    requires Inv(s, ext)
    ensures LoadsOk(s, LoadNames(s, deps), ext)
    decreases deps, 0
  {
    if deps == [] {
      assert ext + multiset([]) == ext;
      EvolvesRefl(s);
    } else {
      var last := |deps| - 1;
      OpenTriesInv(s, deps[last].tries, ext);
      var o := OpenTries(s, deps[last].tries);
      LoadNamesInv(o.s, deps[..last], Holding(ext, o.result));
      LoadsOkStep(s, o, LoadNames(o.s, deps[..last]), ext);
    }
  }

  lemma {:induction false} LoadDeplibsInv(s: State, text: Option<string>, deps: seq<Dep>, ext: multiset<HandleId>)
    requires Inv(s, ext)
    ensures LoadsOk(s, LoadDeplibs(s, text, deps), ext)
    decreases deps, 1
  {
    if text.None? {
      assert ext + multiset([]) == ext;
      EvolvesRefl(s);
    } else {
      var s1 := s.(searchPath := Deplibs.Extend(s.searchPath, text.value));
      PathIrrelevant(s, s1.searchPath, ext);
      LoadNamesInv(s1, deps, ext);
      var l := LoadNames(s1, deps);
      EvolvesTrans(s, s1, l.s);
      var l' := LoadDeplibs(s, text, deps);
      PathIrrelevant(l.s, l'.s.searchPath, ext + multiset(l.hs));
      EvolvesTrans(s, l.s, l'.s);
    }
  }
}
