/** The libltdl calls as code that updates the library's globals (dice/libltdl/ltdl.c), each
    proved equal to its function in module Registry. */
module Libltdl {
  import opened Wrappers
  import Text
  import Deplibs
  import SearchPath
  import opened Registry
  import RegistryExit

  class Library {
    var handles: seq<HandleId>
    var info: map<HandleId, Info>
    var loaders: seq<Loader>
    var log: seq<Event>
    var nextId: HandleId
    var corrupt: bool
    const path: SearchPath.Variable

    ghost predicate Valid()
      reads this, path
    {
      path.Valid()
    }

    ghost function Model(): State
      reads this, path
    {
      State(handles, info, loaders, path.userSearchPath, log, nextId, corrupt)
    }

    /** `lt_dlinit`, with the loaders it adds. */
    constructor (initial: seq<Loader>)
      ensures Valid() && fresh(path)
      ensures Model() == State([], map[], initial, None, [], 0, false)
    {
      handles, info, loaders, log, nextId, corrupt := [], map[], initial, [], 0, false;
      path := new SearchPath.Variable();
    }

    // -------------------------------------------------------------- closing

    /** `lt_dlclose`. */
    method Close(h: HandleId) returns (errors: nat)
      requires Valid()
      modifies this
      ensures Valid() && Model() == Registry.Close(old(Model()), h).s
      ensures errors == Registry.Close(old(Model()), h).errors
      decreases |handles|, 0, 0
    {
      var cur := FindListed(h);
      if cur == |handles| {
        return 1;
      }
      if h !in info {
        corrupt := true;
        return 0;
      }
      info := info[h := info[h].(refCount := info[h].refCount - 1)];
      if info[h].refCount <= 0 && !info[h].resident {
        var record := info[h];
        WithoutIndex(handles, cur, h);
        handles := handles[..cur] + handles[cur + 1..];
        log := log + [ModuleClose(record.filename, record.loader)];
        info := info - {h};
        errors := UnloadDeplibs(record.deplibs);
        return;
      }
      errors := if info[h].resident then 1 else 0;
    }

    /** Its check whether the handle is valid. */
    method FindListed(h: HandleId) returns (cur: nat)
      ensures cur <= |handles| && h !in handles[..cur]
      ensures cur < |handles| ==> handles[cur] == h
    {
      cur := 0;
      while cur < |handles| && handles[cur] != h
        invariant cur <= |handles| && h !in handles[..cur]
      {
        cur := cur + 1;
      }
    }

    /** `unload_deplibs`. */
    method UnloadDeplibs(deplibs: seq<HandleId>) returns (errors: nat)
      requires Valid()
      modifies this
      ensures Valid() && Model() == Unload(old(Model()), deplibs).s
      ensures errors == Unload(old(Model()), deplibs).errors
      decreases |handles|, 1, |deplibs|
    {
      errors := 0;
      ghost var s0 := Model();
      assert deplibs[0..] == deplibs;
      for i := 0 to |deplibs|
        invariant Valid() && |handles| <= old(|handles|)
        invariant Unload(Model(), deplibs[i..]).s == Unload(s0, deplibs).s
        invariant errors + Unload(Model(), deplibs[i..]).errors == Unload(s0, deplibs).errors
      {
        assert deplibs[i..][1..] == deplibs[i + 1..];
        if deplibs[i] !in info {
          corrupt := true;
          return;
        }
        if !info[deplibs[i]].resident {
          var e := Close(deplibs[i]);
          errors := errors + e;
        }
      }
    }

    // -------------------------------------------------------------- opening

    /** `tryall_dlopen`: the handle found, or else the loader that opened the file. */
    method TryAllDlopen(a: Attempt) returns (found: Option<HandleId>, loader: Option<Loader>)
      requires Valid()
      modifies this
      ensures Valid() && Answers(old(Model()), Model(), TryAll(old(Model()), a), found, a.file, loader)
      ensures handles == old(handles) && loaders == old(loaders)
      ensures found.Some? ==>
        && loader.None? && found.value in handles && found.value in old(info) && log == old(log)
        && old(info)[found.value].filename == a.file
        && info == old(info)[found.value := old(info)[found.value].(refCount := old(info)[found.value].refCount + 1)]
      ensures found.None? ==> info == old(info) && forall h :: h in handles && h in info ==> info[h].filename != a.file
      ensures loader.Some? ==>
        exists i :: 0 <= i < |loaders| && loader == Some(loaders[i]) && loaders[i] in a.accepts
                 && (forall j :: 0 <= j < i ==> loaders[j] !in a.accepts)
                 && log == old(log) + [ModuleOpen(a.file, loaders[i])]
      ensures found.None? && loader.None? ==> log == old(log) && forall l :: l in loaders ==> l !in a.accepts
    {
      var cur := FindHandle(a.file);
      if cur < |handles| {
        var h := handles[cur];
        info := info[h := info[h].(refCount := info[h].refCount + 1)];
        return Some(h), None;
      }
      var l := FindAccepting(a.accepts);
      if l == |loaders| {
        return None, None;
      }
      log := log + [ModuleOpen(a.file, loaders[l])];
      return None, Some(loaders[l]);
    }

    /** Its first loop: the first handle of the file. */
    method FindHandle(file: Option<string>) returns (cur: nat)
      ensures cur <= |handles| && forall k :: 0 <= k < cur ==> !(handles[k] in info && info[handles[k]].filename == file)
      ensures cur < |handles| ==> handles[cur] in info && info[handles[cur]].filename == file
      ensures FindFile(handles, info, file) == if cur < |handles| then Some(handles[cur]) else None
    {
      cur := 0;
      assert handles[0..] == handles;
      while cur < |handles| && !(handles[cur] in info && info[handles[cur]].filename == file)
        invariant cur <= |handles|
        invariant forall k :: 0 <= k < cur ==> !(handles[k] in info && info[handles[k]].filename == file)
        invariant FindFile(handles[cur..], info, file) == FindFile(handles, info, file)
      {
        assert handles[cur..][1..] == handles[cur + 1..];
        cur := cur + 1;
      }
    }

    /** Its second loop: the first loader that accepts. */
    method FindAccepting(accepts: set<Loader>) returns (l: nat)
      ensures l <= |loaders| && forall k :: 0 <= k < l ==> loaders[k] !in accepts
      ensures l < |loaders| ==> loaders[l] in accepts
      ensures FirstAccepting(loaders, accepts) == if l < |loaders| then Some(loaders[l]) else None
    {
      l := 0;
      assert loaders[0..] == loaders;
      while l < |loaders| && loaders[l] !in accepts
        invariant l <= |loaders| && forall k :: 0 <= k < l ==> loaders[k] !in accepts
        invariant FirstAccepting(loaders[l..], accepts) == FirstAccepting(loaders, accepts)
      {
        assert loaders[l..][1..] == loaders[l + 1..];
        l := l + 1;
      }
    }

    /** `find_module` over the names it tries. */
    method FindModule(candidates: seq<Attempt>) returns (found: Option<HandleId>, file: Option<string>, loader: Option<Loader>)
      requires Valid()
      modifies this
      ensures Valid() && Answers(old(Model()), Model(), TryCandidates(old(Model()), candidates), found, file, loader)
    {
      assert candidates[0..] == candidates;
      for i := 0 to |candidates|
        invariant Valid() && Model() == old(Model())
        invariant TryCandidates(Model(), candidates[i..]) == TryCandidates(Model(), candidates)
      {
        assert candidates[i..][1..] == candidates[i + 1..];
        found, loader := TryAllDlopen(candidates[i]);
        if found.Some? || loader.Some? {
          file := candidates[i].file;
          return;
        }
      }
      found, file, loader := None, None, None;
    }

    /** `register_handle` for a new handle. */
    method Link(file: Option<string>, loader: Loader, deplibs: seq<HandleId>, resident: bool) returns (h: HandleId)
      requires Valid()
      modifies this
      ensures Valid() && Opened(Model(), Some(h)) == Register(old(Model()), file, loader, deplibs, resident)
    {
      h := nextId;
      nextId := nextId + 1;
      info := info[h := Info(file, loader, 1, deplibs, resident)];
      handles := [h] + handles;
    }

    /** `register_handle` for a handle that was found. */
    method Accept(h: HandleId)
      requires Valid()
      modifies this
      ensures Valid() && Opened(Model(), Some(h)) == Admit(old(Model()), h)
    {
      if h !in info || info[h].refCount == 0 {
        corrupt := true;
      }
    }

    /** `try_dlopen` of the program itself. */
    method TryDlopenSelf(accepts: set<Loader>) returns (handle: Option<HandleId>)
      requires Valid()
      modifies this
      ensures Valid() && Opened(Model(), handle) == OpenSelf(old(Model()), accepts)
    {
      var found, loader := TryAllDlopen(Attempt(None, accepts));
      if found.Some? {
        Accept(found.value);
        return found;
      }
      if loader.Some? {
        var h := Link(None, loader.value, [], true);
        return Some(h);
      }
      handle := None;
    }

    /** `try_dlopen` of a file name. */
    method TryDlopen(r: Request) returns (handle: Option<HandleId>)
      requires Valid() && Matches(r)
      modifies this, path
      ensures Valid() && Opened(Model(), handle) == Open(old(Model()), r)
      decreases r, 1
    {
      match r {
        case Unavailable =>
          handle := None;
        case Plain(a) =>
          var found, loader := TryAllDlopen(a);
          if found.Some? {
            Accept(found.value);
            return found;
          }
          if loader.None? {
            return None;
          }
          var h := Link(a.file, loader.value, [], false);
          handle := Some(h);
        case Archive(text, deps, candidates) =>
          var hs := LoadDeplibs(text, deps);
          handle := FinishArchive(hs, candidates);
      }
    }

    /** `try_dlopen` of an archive once its dependencies are loaded. */
    method FinishArchive(hs: seq<HandleId>, candidates: seq<Attempt>) returns (handle: Option<HandleId>)
      requires Valid()
      modifies this
      ensures Valid() && Opened(Model(), handle) == Registry.FinishArchive(old(Model()), hs, candidates)
    {
      var found, file, loader := FindModule(candidates);
      if found.None? && loader.None? {
        var _ := UnloadDeplibs(hs);
        return None;
      }
      if found.Some? {
        var _ := UnloadDeplibs(hs);
        Accept(found.value);
        return found;
      }
      var h := Link(file, loader.value, hs, false);
      handle := Some(h);
    }

    /** `lt_dlopenext`. */
    method OpenExt(tries: seq<Request>) returns (handle: Option<HandleId>)
      requires Valid() && forall i :: 0 <= i < |tries| ==> Matches(tries[i])
      modifies this, path
      ensures Valid() && Opened(Model(), handle) == OpenTries(old(Model()), tries)
      decreases tries, 2
    {
      if tries == [] {
        return None;
      }
      handle := TryDlopen(tries[0]);
      if handle.None? {
        handle := OpenExt(tries[1..]);
      }
    }

    /** `load_deplibs`. */
    method LoadDeplibs(text: Option<string>, deps: seq<Dep>) returns (hs: seq<HandleId>)
      requires Valid() && MatchesText(text, deps)
      modifies this, path
      ensures Valid() && Loads(Model(), hs) == Registry.LoadDeplibs(old(Model()), text, deps)
      decreases deps, 1
    {
      if text.None? {
        return [];
      }
      var savedPath := path.userSearchPath;
      var deplibs := new char[|text.value| + 1](i => if 0 <= i < |text.value| then text.value[i] else Text.EOS);
      assert deplibs[..|text.value|] == text.value;
      var depcount := Deplibs.CountPass(deplibs, path, text.value);
      var names := new string[depcount];
      Deplibs.ExtractPass(deplibs, names, text.value);
      hs := LoadNamesLoop(names, deps);
      if path.userSearchPath.Some? {
        path.userSearchPath := savedPath;
      }
    }

    /** The loading loop of `load_deplibs`. */
    method LoadNamesLoop(names: array<string>, deps: seq<Dep>) returns (hs: seq<HandleId>)
      requires Valid() && names.Length == |deps|
      requires forall i :: 0 <= i < |deps| ==> deps[i].name == names[i]
      requires forall i, j :: 0 <= i < |deps| && 0 <= j < |deps[i].tries| ==> Matches(deps[i].tries[j])
      modifies this, path
      ensures Valid() && Loads(Model(), hs) == LoadNames(old(Model()), deps)
      decreases deps, 0
    {
      hide LoadNames, OpenTries;
      var depcount := names.Length;
      var deplibs := new HandleId[depcount](_ => 0);
      var j := 0;
      assert deps[..depcount] == deps;
      ghost var goal := LoadNames(Model(), deps);
      for i := 0 to depcount
        invariant Valid() && j <= i
        invariant LoadNames(Model(), deps[..depcount - i]).s == goal.s
        invariant deplibs[..j] + LoadNames(Model(), deps[..depcount - i]).hs == goal.hs
      {
        ghost var packed := deplibs[..j];
        LoadNamesStep(Model(), deps, depcount - i);
        var h := OpenExt(deps[depcount - 1 - i].tries);
        if h.Some? {
          deplibs[j] := h.value;
          j := j + 1;
          assert deplibs[..j] == packed + [h.value];
        }
      }
      NoNames(Model(), deps);
      hs := deplibs[..j];
    }

    // -------------------------------------------------------------- the other calls

    /** `lt_dlmakeresident`. */
    method MakeResident(h: HandleId) returns (errors: nat)
      requires Valid()
      modifies this
      ensures Valid() && Outcome(Model(), errors) == Registry.MakeResident(old(Model()), h)
    {
      errors := 0;
      if h !in info {
        corrupt := true;
      } else {
        info := info[h := info[h].(resident := true)];
      }
    }

    /** `lt_dlloader_add`. */
    method LoaderAdd(place: Option<Loader>, node: Loader)
      requires Valid() && (place.Some? && loaders != [] ==> place.value in loaders)
      modifies this
      ensures Valid() && Model() == Registry.LoaderAdd(old(Model()), place, node)
    {
      if loaders == [] || place.None? {
        loaders := loaders + [node];
        return;
      }
      var ptr := 0;
      while loaders[ptr] != place.value
        invariant ptr < |loaders| && place.value in loaders[ptr..] && place.value !in loaders[..ptr]
        decreases |loaders| - ptr
      {
        ptr := ptr + 1;
      }
      InsertBeforeIndex(loaders, ptr, place.value, node);
      loaders := loaders[..ptr] + [node] + loaders[ptr..];
    }

    /** `lt_dlloader_find`, as a position. */
    method FindLoaderIndex(name: string) returns (place: nat)
      ensures place <= |loaders| && forall i :: 0 <= i < place ==> loaders[i].name != name
      ensures FindLoader(loaders, name) == if place < |loaders| then Some(loaders[place]) else None
    {
      hide FindLoader;
      place := 0;
      assert loaders[0..] == loaders;
      while place < |loaders| && loaders[place].name != name
        invariant place <= |loaders| && forall i :: 0 <= i < place ==> loaders[i].name != name
        invariant FindLoader(loaders[place..], name) == FindLoader(loaders, name)
      {
        FindLoaderStep(loaders, place, name);
        place := place + 1;
      }
      FindLoaderStep(loaders, place, name);
    }

    /** Whether an open module uses the loader. */
    method IsInUse(loader: Loader) returns (used: bool)
      ensures used == LoaderInUse(handles, info, loader)
    {
      for i := 0 to |handles|
        invariant forall k :: 0 <= k < i ==> !(handles[k] in info && info[handles[k]].loader == loader)
      {
        if handles[i] in info && info[handles[i]].loader == loader {
          return true;
        }
      }
      used := false;
    }

    /** `lt_dlloader_remove`. */
    method LoaderRemove(name: string) returns (errors: nat)
      requires Valid()
      modifies this
      ensures Valid() && Outcome(Model(), errors) == Registry.LoaderRemove(old(Model()), name)
    {
      var place := FindLoaderIndex(name);
      if place == |loaders| {
        return 1;
      }
      var used := IsInUse(loaders[place]);
      if used {
        return 1;
      }
      RemoveIndex(loaders, place);
      loaders := loaders[..place] + loaders[place + 1..];
      errors := 0;
    }

    // -------------------------------------------------------------- shutting down

    /** `h->next` of a linked handle. */
    method NextOf(h: HandleId) returns (next: Option<HandleId>)
      requires h in handles
      ensures next == RegistryExit.Next(handles, h)
    {
      var i := 0;
      assert handles[0..] == handles;
      while handles[i] != h
        invariant i < |handles| && h in handles[i..]
        invariant RegistryExit.From(handles[i..], h) == RegistryExit.From(handles, h)
        decreases |handles| - i
      {
        assert handles[i..][1..] == handles[i + 1..];
        i := i + 1;
      }
      next := if i + 1 < |handles| then Some(handles[i + 1]) else None;
    }

    /** One pass of `lt_dlexit`; false in `alive` when it ran onto a freed handle. */
    method ExitPass(level: int) returns (sawNonresident: bool, alive: bool)
      requires Valid() && RegistryExit.ListOk(Model()) && !corrupt
      modifies this
      ensures Valid()
      ensures var p := RegistryExit.PassFrom(old(Model()), level, RegistryExit.Head(old(handles)));
        Model() == p.s && (alive ==> sawNonresident == p.sawNonresident) && alive == !p.s.corrupt
    {
      sawNonresident := false;
      var cur := if |handles| == 0 then None else Some(handles[0]);
      ghost var goal := RegistryExit.PassFrom(Model(), level, cur);
      while cur.Some?
        invariant Valid() && RegistryExit.ListOk(Model())
        invariant RegistryExit.PassFrom(Model(), level, cur).s == goal.s
        invariant sawNonresident || RegistryExit.PassFrom(Model(), level, cur).sawNonresident <==> goal.sawNonresident
        decreases if cur.None? then 0 else |RegistryExit.From(handles, cur.value)|
      {
        var tmp := cur.value;
        if tmp !in handles {
          corrupt := true;
          return false, false;
        }
        RegistryExit.VisitShrinks(Model(), tmp, level);
        cur := NextOf(tmp);
        if !info[tmp].resident {
          sawNonresident := true;
        }
        if !info[tmp].resident && info[tmp].refCount <= level {
          var _ := Close(tmp);
        }
      }
      alive := !corrupt;
    }

    /** How many resident handles are at the front. */
    method CountResidents() returns (n: nat)
      requires forall h :: h in handles ==> h in info
      ensures n <= |handles| && RegistryExit.SkipResident(handles, info) == handles[n..]
    {
      hide RegistryExit.SkipResident;
      n := 0;
      assert handles[0..] == handles;
      while n < |handles| && info[handles[n]].resident
        invariant n <= |handles|
        invariant RegistryExit.SkipResident(handles[n..], info) == RegistryExit.SkipResident(handles, info)
      {
        SkipResidentStep(handles, info, n);
        n := n + 1;
      }
      SkipResidentStep(handles, info, n);
    }

    /** They are taken off the list. */
    method SkipResidents()
      requires Valid() && forall h :: h in handles ==> h in info
      modifies this`handles
      ensures Model() == old(Model()).(handles := RegistryExit.SkipResident(old(handles), info))
    {
      var n := CountResidents();
      handles := handles[n..];
    }

    /** The passes of `lt_dlexit`, from level one on. */
    method ExitLevels()
      requires Valid() && RegistryExit.ListOk(Model()) && !corrupt
      modifies this
      ensures Valid() && Model() == RegistryExit.LevelsFrom(old(Model()), 1)
    {
      var level := 1;
      ghost var goal := RegistryExit.LevelsFrom(Model(), 1);
      while handles != []
        invariant Valid() && RegistryExit.ListOk(Model()) && !corrupt
        invariant RegistryExit.LevelsFrom(Model(), level) == goal
        decreases RegistryExit.Weight(handles, info), RegistryExit.Distance(Model(), level)
      {
        RegistryExit.LevelProgress(Model(), level);
        var sawNonresident, alive := ExitPass(level);
        if !alive || !sawNonresident {
          break;
        }
        level := level + 1;
      }
    }

    /** `lt_dlexit` at the last call. */
    method Exit()
      requires Valid() && RegistryExit.ListOk(Model()) && !corrupt
      modifies this
      ensures Valid() && Model() == RegistryExit.Exit(old(Model()))
    {
      hide RegistryExit.LevelsFrom, RegistryExit.SkipResident, RegistryExit.ListOk;
      RegistryExit.SkipOk(Model());
      RegistryExit.ListedAllocated(Model());
      SkipResidents();
      ExitLevels();
      loaders := [];
    }
  }

  lemma {:induction false} InsertBeforeIndex(ls: seq<Loader>, i: nat, place: Loader, node: Loader)
    requires i < |ls| && ls[i] == place && place !in ls[..i]
    ensures InsertBefore(ls, place, node) == ls[..i] + [node] + ls[i..]
  {
    if i > 0 {
      assert ls[0] in ls[..i];
      assert ls[1..][..i - 1] == ls[..i][1..];
      InsertBeforeIndex(ls[1..], i - 1, place, node);
    }
  }

  lemma FindLoaderStep(ls: seq<Loader>, i: nat, name: string)
    requires i <= |ls|
    ensures FindLoader(ls[i..], name) ==
      if i == |ls| then None else if ls[i].name == name then Some(ls[i]) else FindLoader(ls[i + 1..], name)
  {
    assert i < |ls| ==> ls[i..][1..] == ls[i + 1..];
  }

  lemma SkipResidentStep(hs: seq<HandleId>, info: map<HandleId, Info>, i: nat)
    requires i <= |hs|
    ensures RegistryExit.SkipResident(hs[i..], info) ==
      if i < |hs| && hs[i] in info && info[hs[i]].resident then RegistryExit.SkipResident(hs[i + 1..], info) else hs[i..]
  {
    assert i < |hs| ==> hs[i..][1..] == hs[i + 1..];
  }

  lemma {:induction false} RemoveIndex(ls: seq<Loader>, i: nat)
    requires i < |ls| && forall k :: 0 <= k < i ==> ls[k].name != ls[i].name
    ensures RemoveLoader(ls, ls[i]) == ls[..i] + ls[i + 1..]
  {
    if i > 0 {
      RemoveIndex(ls[1..], i - 1);
    }
  }

  /** The loading loop, one name further. */
  lemma LoadNamesStep(s: State, deps: seq<Dep>, n: nat)
    requires 0 < n <= |deps|
    ensures var o := OpenTries(s, deps[n - 1].tries);
      var rest := LoadNames(o.s, deps[..n - 1]);
      LoadNames(s, deps[..n]) == Loads(rest.s, (if o.result.Some? then [o.result.value] else []) + rest.hs)
  {
    assert deps[..n][..n - 1] == deps[..n - 1];
  }

  lemma NoNames(s: State, deps: seq<Dep>)
    ensures LoadNames(s, deps[..0]) == Loads(s, [])
  {
  }

  /** The out-parameters of `tryall_dlopen` and the state it leaves, against its function. */
  ghost predicate Answers(s: State, s': State, t: Tried, found: Option<HandleId>, file: Option<string>, loader: Option<Loader>)
  {
    match t
    case Found(s1, h) => s' == s1 && found == Some(h)
    case Loaded(s1, f, l) => s' == s1 && found == None && file == f && loader == Some(l)
    case NotLoaded => s' == s && found == None && loader == None
  }

  lemma {:induction false} WithoutIndex(hs: seq<HandleId>, i: nat, h: HandleId)
    requires i < |hs| && hs[i] == h && h !in hs[..i]
    ensures Without(hs, h) == hs[..i] + hs[i + 1..]
  {
    if i > 0 {
      assert hs[0] in hs[..i];
      assert hs[1..][..i - 1] == hs[..i][1..];
      WithoutIndex(hs[1..], i - 1, h);
    }
  }
}
