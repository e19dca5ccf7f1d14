/** The invariant of the module registry and its preservation by closing and opening.

    `ext` is the multiset of references held outside the registry: one per client open not yet
    closed, plus those an unfinished `try_dlopen` or `unload_deplibs` still has in its hands. */
module RegistryInvariant {
  import opened Wrappers
  import opened Registry

  // ---------------------------------------------------------------- vocabulary

  ghost predicate Distinct(hs: seq<HandleId>)
  {
    hs != [] ==> hs[0] !in hs[1..] && Distinct(hs[1..])
  }

  ghost predicate Allocated(hs: seq<HandleId>, info: map<HandleId, Info>)
  {
    forall h :: h in hs ==> h in info
  }

  /** The deplibs array of `h`. */
  function DepsOf(info: map<HandleId, Info>, h: HandleId): seq<HandleId>
  {
    if h in info then info[h].deplibs else []
  }

  /** Every dependency lies strictly later in the list than its owner. */
  ghost predicate Ordered(hs: seq<HandleId>, info: map<HandleId, Info>)
  {
    hs != [] ==>
      && (forall d :: d in DepsOf(info, hs[0]) ==> d in hs[1..])
      && Ordered(hs[1..], info)
  }

  /** All entries of all deplibs arrays of the listed handles, with multiplicity. */
  ghost function AllDeps(hs: seq<HandleId>, info: map<HandleId, Info>): multiset<HandleId>
  {
    if hs == [] then multiset{} else multiset(DepsOf(info, hs[0])) + AllDeps(hs[1..], info)
  }

  ghost predicate FileRegistered(info: map<HandleId, Info>, file: Option<string>)
  {
    exists h :: h in info && info[h].filename == file
  }

  /** The handle of `file` belongs to `loader`. */
  ghost predicate OpenBy(info: map<HandleId, Info>, file: Option<string>, loader: Loader)
  {
    exists h :: h in info && info[h].filename == file && info[h].loader == loader
  }

  /** By how much an event changes the number of times that `loader` has `file` open. */
  function Balance(e: Event, file: Option<string>, loader: Loader): int
  {
    if e.file != file || e.loader != loader then 0 else if e.ModuleOpen? then 1 else -1
  }

  /** Opens minus closes of `file` that `loader` has seen. */
  ghost function OpenCount(log: seq<Event>, file: Option<string>, loader: Loader): int
  {
    if log == [] then 0
    else OpenCount(log[..|log| - 1], file, loader) + Balance(log[|log| - 1], file, loader)
  }

  ghost predicate WellFormed(s: State)
  {
    && !s.corrupt
    && Distinct(s.handles)
    && (forall h :: h in s.handles <==> h in s.info)
    && (forall h :: h in s.info ==> h < s.nextId)
    && (forall g, h :: g in s.info && h in s.info && g != h ==> s.info[g].filename != s.info[h].filename)
    && (forall h :: h in s.info ==> s.info[h].loader in s.loaders)
    && Ordered(s.handles, s.info)
  }

  /** The count of a handle against the references to it.  A resident handle is skipped by
      `unload_deplibs`, so its count may exceed them; any other is exact, and is gone at zero. */
  predicate Balanced(i: Info, refs: nat)
  {
    if i.resident then i.refCount >= refs else i.refCount == refs > 0
  }

  /** Reference conservation. */
  ghost predicate Conserved(s: State, ext: multiset<HandleId>)
  {
    var deps := AllDeps(s.handles, s.info);
    forall h :: h in s.info ==> Balanced(s.info[h], ext[h] + deps[h])
  }

  /** A file is opened when no loader has it open, and closed by the loader that has it open. */
  ghost predicate Follows(log: seq<Event>, e: Event)
  {
    match e
    case ModuleOpen(file, _) => forall loader :: OpenCount(log, file, loader) == 0
    case ModuleClose(file, loader) => OpenCount(log, file, loader) == 1
  }

  /** Every event did. */
  ghost predicate Lawful(log: seq<Event>)
  {
    log != [] ==> Lawful(log[..|log| - 1]) && Follows(log[..|log| - 1], log[|log| - 1])
  }

  lemma LawfulAppend(log: seq<Event>, e: Event)
    requires Lawful(log) && Follows(log, e)
    ensures Lawful(log + [e])
  {
    assert (log + [e])[..|log|] == log;
  }

  /** The loaders have exactly the files of the registered handles open, each the file of its own. */
  ghost predicate LoaderLevel(s: State)
  {
    && Lawful(s.log)
    && forall file, loader :: OpenCount(s.log, file, loader) == if OpenBy(s.info, file, loader) then 1 else 0
  }

  ghost predicate Inv(s: State, ext: multiset<HandleId>)
  {
    && WellFormed(s)
    && (forall h :: h in ext ==> h in s.info)
    && Conserved(s, ext)
    && LoaderLevel(s)
  }

  // ---------------------------------------------------------------- list lemmas

  ghost predicate SameDeps(hs: seq<HandleId>, a: map<HandleId, Info>, b: map<HandleId, Info>)
  {
    forall h :: h in hs ==> h in a && h in b && a[h].deplibs == b[h].deplibs
  }

  lemma {:induction false} SameDepsSameShape(hs: seq<HandleId>, a: map<HandleId, Info>, b: map<HandleId, Info>)
    requires SameDeps(hs, a, b)
    ensures AllDeps(hs, a) == AllDeps(hs, b)
    ensures Ordered(hs, a) <==> Ordered(hs, b)
  {
    if hs != [] {
      SameDepsSameShape(hs[1..], a, b);
    }
  }

  /** Unlinking a handle that nobody depends on. */
  lemma {:induction false} WithoutLemma(hs: seq<HandleId>, info: map<HandleId, Info>, h: HandleId)
    requires Allocated(hs, info) && Distinct(hs) && Ordered(hs, info) && h in hs
    requires AllDeps(hs, info)[h] == 0
    ensures Distinct(Without(hs, h)) && h !in Without(hs, h)
    ensures Ordered(Without(hs, h), info)
    ensures AllDeps(hs, info) == AllDeps(Without(hs, h), info) + multiset(info[h].deplibs)
    ensures forall d :: d in info[h].deplibs ==> d in hs && d != h
  {
    var r := Without(hs, h);
    if hs[0] != h {
      WithoutLemma(hs[1..], info, h);
      assert r[1..] == Without(hs[1..], h);
      assert hs[0] in multiset(hs);
      forall d | d in info[r[0]].deplibs ensures d in r[1..] {
        assert d in multiset(info[hs[0]].deplibs);
      }
    } else {
      forall d | d in info[h].deplibs ensures d in hs && d != h {
        assert d in hs[1..];
      }
    }
  }

  lemma OpenCountAppend(log: seq<Event>, e: Event, file: Option<string>, loader: Loader)
    ensures OpenCount(log + [e], file, loader) == OpenCount(log, file, loader) + Balance(e, file, loader)
  {
    assert (log + [e])[..|log|] == log;
  }

  // ---------------------------------------------------------------- single steps

  /** Records may change in their counts and flags without touching the shape of the registry. */
  lemma InfoShape(s: State, info: map<HandleId, Info>)
    requires WellFormed(s) && LoaderLevel(s) && info.Keys == s.info.Keys
    requires forall h :: h in info ==>
      info[h].filename == s.info[h].filename && info[h].loader == s.info[h].loader && info[h].deplibs == s.info[h].deplibs
    ensures WellFormed(s.(info := info)) && LoaderLevel(s.(info := info))
    ensures AllDeps(s.handles, info) == AllDeps(s.handles, s.info)
  {
    SameDepsSameShape(s.handles, s.info, info);
    forall file, loader ensures OpenBy(info, file, loader) == OpenBy(s.info, file, loader) {
      SameFiles(s.info, info, file, loader);
    }
  }

  /** Changing a count leaves everything but conservation alone. */
  lemma BumpShape(s: State, h: HandleId, delta: int)
    requires WellFormed(s) && LoaderLevel(s) && h in s.info
    ensures WellFormed(Bump(s, h, delta)) && LoaderLevel(Bump(s, h, delta))
    ensures AllDeps(s.handles, Bump(s, h, delta).info) == AllDeps(s.handles, s.info)
  {
    hide WellFormed, LoaderLevel, AllDeps;
    InfoShape(s, Bump(s, h, delta).info);
  }

  lemma SameFiles(a: map<HandleId, Info>, b: map<HandleId, Info>, file: Option<string>, loader: Loader)
    requires a.Keys == b.Keys
    requires forall h :: h in a ==> a[h].filename == b[h].filename && a[h].loader == b[h].loader
    ensures OpenBy(a, file, loader) == OpenBy(b, file, loader)
  {
    if OpenBy(a, file, loader) {
      var h :| h in a && a[h].filename == file && a[h].loader == loader;
      assert b[h].filename == file && b[h].loader == loader;
    }
  }

  /** Moving the count of `h` together with the outside references to it. */
  lemma BumpConserved(s: State, h: HandleId, delta: int, ext: multiset<HandleId>, ext': multiset<HandleId>)
    requires h in s.info && Conserved(s, ext)
    requires AllDeps(s.handles, Bump(s, h, delta).info) == AllDeps(s.handles, s.info)
    requires ext'[h] == ext[h] + delta && forall x :: x != h ==> ext'[x] == ext[x]
    requires s.info[h].resident || s.info[h].refCount + delta > 0
    ensures Conserved(Bump(s, h, delta), ext')
  {
    var deps := AllDeps(s.handles, s.info);
    forall x | x in s.info ensures Balanced(Bump(s, h, delta).info[x], ext'[x] + deps[x]) {
      assert Balanced(s.info[x], ext[x] + deps[x]);
    }
  }

  /** Taking one more reference to `h`. */
  lemma TakeInv(s: State, h: HandleId, ext: multiset<HandleId>)
    requires Inv(s, ext) && h in s.info
    ensures Inv(Bump(s, h, 1), ext + multiset{h})
  {
    hide WellFormed, LoaderLevel, AllDeps;
    BumpShape(s, h, 1);
    assert Balanced(s.info[h], ext[h] + AllDeps(s.handles, s.info)[h]);
    BumpConserved(s, h, 1, ext, ext + multiset{h});
  }

  /** Giving back a reference that is not the last one, or one to a resident handle. */
  lemma GiveInv(s: State, h: HandleId, ext: multiset<HandleId>)
    requires Inv(s, ext + multiset{h}) && h in s.info
    requires s.info[h].resident || s.info[h].refCount > 1
    ensures Inv(Bump(s, h, -1), ext)
  {
    hide WellFormed, LoaderLevel, AllDeps, Conserved;
    BumpShape(s, h, -1);
    forall x | x in ext ensures x in s.info { assert x in ext + multiset{h}; }
    BumpConserved(s, h, -1, ext + multiset{h}, ext);
  }

  /** Only the last reference to `h` was left. */
  lemma LastReference(s: State, h: HandleId, ext: multiset<HandleId>)
    requires Inv(s, ext + multiset{h}) && h in s.info
    requires !s.info[h].resident && s.info[h].refCount <= 1
    ensures ext[h] == 0 && AllDeps(s.handles, s.info)[h] == 0
    ensures s.info[h].refCount == 1
  {
  }

  lemma DiscardShape(s: State, h: HandleId)
    requires WellFormed(s) && h in s.info && AllDeps(s.handles, s.info)[h] == 0
    ensures WellFormed(Discard(s, h))
    ensures AllDeps(s.handles, s.info) == AllDeps(Discard(s, h).handles, Discard(s, h).info) + multiset(s.info[h].deplibs)
  {
    var s2 := Discard(s, h);
    WithoutLemma(s.handles, s.info, h);
    SameDepsSameShape(s2.handles, s.info, s2.info);
  }

  lemma DiscardLoaderLevel(s: State, h: HandleId)
    requires WellFormed(s) && LoaderLevel(s) && h in s.info
    ensures LoaderLevel(Discard(s, h))
  {
    var s2 := Discard(s, h);
    assert OpenBy(s.info, s.info[h].filename, s.info[h].loader);
    LawfulAppend(s.log, ModuleClose(s.info[h].filename, s.info[h].loader));
    forall file, loader ensures OpenCount(s2.log, file, loader) == if OpenBy(s2.info, file, loader) then 1 else 0 {
      OpenCountAppend(s.log, ModuleClose(s.info[h].filename, s.info[h].loader), file, loader);
      if file == s.info[h].filename && loader == s.info[h].loader {
        assert OpenBy(s.info, file, loader);
        assert !OpenBy(s2.info, file, loader);
      } else if OpenBy(s.info, file, loader) {
        var g :| g in s.info && s.info[g].filename == file && s.info[g].loader == loader;
        assert g in s2.info && s2.info[g].filename == file && s2.info[g].loader == loader;
      }
    }
  }

  lemma DiscardConserved(s: State, h: HandleId, ext: multiset<HandleId>)
    requires h in s.info && Conserved(s, ext + multiset{h})
    requires var s2 := Discard(Bump(s, h, -1), h);
      AllDeps(s.handles, s.info) == AllDeps(s2.handles, s2.info) + multiset(s.info[h].deplibs)
    ensures Conserved(Discard(Bump(s, h, -1), h), ext + multiset(s.info[h].deplibs))
  {
    var s2 := Discard(Bump(s, h, -1), h);
    var deps, deps2 := AllDeps(s.handles, s.info), AllDeps(s2.handles, s2.info);
    var ext2 := ext + multiset(s.info[h].deplibs);
    forall x | x in s2.info ensures Balanced(s2.info[x], ext2[x] + deps2[x]) {
      assert Balanced(s.info[x], (ext + multiset{h})[x] + deps[x]);
    }
  }

  /** The last reference to `h` goes away: its dependencies pass into the closer's hands. */
  lemma DiscardInv(s: State, h: HandleId, ext: multiset<HandleId>)
    requires Inv(s, ext + multiset{h}) && h in s.info
    requires !s.info[h].resident && s.info[h].refCount <= 1
    ensures Inv(Discard(Bump(s, h, -1), h), ext + multiset(s.info[h].deplibs))
  {
    hide LoaderLevel, Conserved, AllDeps;
    var deps := s.info[h].deplibs;
    var s1 := Bump(s, h, -1);
    LastReference(s, h, ext);
    BumpShape(s, h, -1);
    DiscardShape(s1, h);
    DiscardLoaderLevel(s1, h);
    DiscardConserved(s, h, ext);
    WithoutLemma(s.handles, s.info, h);
    forall x | x in ext + multiset(deps) ensures x in Discard(s1, h).info {
      if x in ext { assert x in ext + multiset{h}; } else { assert x in deps; }
    }
  }

  /** A reference to a resident handle may be dropped without touching the count. */
  lemma DropResident(s: State, h: HandleId, ext: multiset<HandleId>)
    requires Inv(s, ext + multiset{h}) && h in s.info && s.info[h].resident
    ensures Inv(s, ext)
  {
    forall x | x in ext ensures x in s.info { assert x in ext + multiset{h}; }
  }
}
