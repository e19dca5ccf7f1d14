/** The libltdl module registry (dice/libltdl/ltdl.c) as a value and as functions on it.

    The global linked list `handles` is the sequence of handle addresses, head first; what a
    handle address points to is the map `info`.  Freeing a handle removes its map entry, so a
    read through a freed handle is a lookup outside the map: it raises `corrupt`, and so does
    linking a handle that is already in the list. */
module Registry {
  import opened Wrappers
  import Deplibs
  import Text

  type HandleId = nat

  datatype Loader = Loader(id: nat, name: string)

  datatype Info = Info(
    filename: Option<string>,
    loader: Loader,
    refCount: int,
    deplibs: seq<HandleId>,
    resident: bool)

  /** What the loaders' callbacks see. */
  datatype Event =
    | ModuleOpen(file: Option<string>, loader: Loader)
    | ModuleClose(file: Option<string>, loader: Loader)

  datatype State = State(
    handles: seq<HandleId>,
    info: map<HandleId, Info>,
    loaders: seq<Loader>,
    searchPath: Option<string>,
    log: seq<Event>,
    nextId: HandleId,
    corrupt: bool)

  // ---------------------------------------------------------------- closing

  /** `handles` without the first occurrence of `h`. */
  function Without(hs: seq<HandleId>, h: HandleId): (r: seq<HandleId>)
    ensures |r| == if h in hs then |hs| - 1 else |hs|
    ensures forall x :: x in r ==> x in hs
    ensures forall x :: x in hs && x != h ==> x in r
  {
    if hs == [] then []
    else if hs[0] == h then hs[1..]
    else [hs[0]] + Without(hs[1..], h)
  }

  /** A new state with the error count a call returns. */
  datatype Outcome = Outcome(s: State, errors: nat)

  /** The registry after `h` is unlinked, its module closed and its memory freed. */
  function Discard(s: State, h: HandleId): State
    requires h in s.info
  {
    s.(handles := Without(s.handles, h),
       info := s.info - {h},
       log := s.log + [ModuleClose(s.info[h].filename, s.info[h].loader)])
  }

  /** The registry with the count of `h` changed by `delta`. */
  function Bump(s: State, h: HandleId, delta: int): State
    requires h in s.info
  {
    s.(info := s.info[h := s.info[h].(refCount := s.info[h].refCount + delta)])
  }

  /** `lt_dlclose`. */
  function Close(s: State, h: HandleId): (r: Outcome)
    ensures |r.s.handles| <= |s.handles|
    decreases |s.handles|, 0, 0
  {
    if h !in s.handles then
      Outcome(s, 1)
    else if h !in s.info then
      Outcome(s.(corrupt := true), 0)
    else
      var s1 := Bump(s, h, -1);
      if s1.info[h].refCount <= 0 && !s1.info[h].resident then
        Unload(Discard(s1, h), s1.info[h].deplibs)
      else
        Outcome(s1, if s1.info[h].resident then 1 else 0)
  }

  /** `unload_deplibs` over the remaining dependencies `deps`. */
  function Unload(s: State, deps: seq<HandleId>): (r: Outcome)
    ensures |r.s.handles| <= |s.handles|
    decreases |s.handles|, 1, |deps|
  {
    if deps == [] then
      Outcome(s, 0)
    else if deps[0] !in s.info then
      Outcome(s.(corrupt := true), 0)
    else if s.info[deps[0]].resident then
      Unload(s, deps[1..])
    else
      var c := Close(s, deps[0]);
      var u := Unload(c.s, deps[1..]);
      Outcome(u.s, c.errors + u.errors)
  }

  // ---------------------------------------------------------------- opening

  /** One `tryall_dlopen`: the name tried and the loaders whose `module_open` would accept it. */
  datatype Attempt = Attempt(file: Option<string>, accepts: set<Loader>)

  /** What one `try_dlopen` of a file name meets in the file system: nothing readable, a plain
      module, or a libtool archive with its dependency text, the dependencies as
      `lt_dlopenext` finds them, and the names `find_module` tries in order. */
  datatype Request =
    | Unavailable
    | Plain(attempt: Attempt)
    | Archive(text: Option<string>, deps: seq<Dep>, candidates: seq<Attempt>)

  /** One `lt_dlopenext`: the `try_dlopen` calls it makes until one succeeds. */
  datatype Dep = Dep(name: string, tries: seq<Request>)

  datatype Tried =
    | Found(s: State, h: HandleId)
    | Loaded(s: State, file: Option<string>, loader: Loader)
    | NotLoaded

  datatype Opened = Opened(s: State, result: Option<HandleId>)

  datatype Loads = Loads(s: State, hs: seq<HandleId>)

  /** The first handle of the list that carries `file`. */
  function FindFile(hs: seq<HandleId>, info: map<HandleId, Info>, file: Option<string>): (r: Option<HandleId>)
    ensures r.Some? ==> r.value in hs && r.value in info && info[r.value].filename == file
    ensures r.None? ==> forall h :: h in hs && h in info ==> info[h].filename != file
  {
    if hs == [] then None
    else if hs[0] in info && info[hs[0]].filename == file then Some(hs[0])
    else FindFile(hs[1..], info, file)
  }

  /** The first loader that accepts. */
  function FirstAccepting(loaders: seq<Loader>, accepts: set<Loader>): (r: Option<Loader>)
    ensures r.Some? ==> r.value in loaders && r.value in accepts
    ensures r.None? ==> forall l :: l in loaders ==> l !in accepts
  {
    if loaders == [] then None
    else if loaders[0] in accepts then Some(loaders[0])
    else FirstAccepting(loaders[1..], accepts)
  }

  /** `tryall_dlopen`. */
  function TryAll(s: State, a: Attempt): Tried
  {
    var cur := FindFile(s.handles, s.info, a.file);
    if cur.Some? then
      Found(Bump(s, cur.value, 1), cur.value)
    else
      var loader := FirstAccepting(s.loaders, a.accepts);
      if loader.None? then NotLoaded
      else Loaded(s.(log := s.log + [ModuleOpen(a.file, loader.value)]), a.file, loader.value)
  }

  /** `find_module`: the first candidate that `tryall_dlopen` can open. */
  function TryCandidates(s: State, candidates: seq<Attempt>): Tried
  {
    if candidates == [] then NotLoaded
    else
      var t := TryAll(s, candidates[0]);
      if t.NotLoaded? then TryCandidates(s, candidates[1..]) else t
  }

  /** `register_handle` for a newly loaded module. */
  function Register(s: State, file: Option<string>, loader: Loader, deps: seq<HandleId>, resident: bool): Opened
  {
    Opened(
      s.(handles := [s.nextId] + s.handles,
         info := s.info[s.nextId := Info(file, loader, 1, deps, resident)],
         nextId := s.nextId + 1),
      Some(s.nextId))
  }

  /** `register_handle` for a module that was already in the list. */
  function Admit(s: State, h: HandleId): Opened
  {
    if h !in s.info || s.info[h].refCount == 0
    then Opened(s.(corrupt := true), Some(h))
    else Opened(s, Some(h))
  }

  /** `try_dlopen` of the program itself. */
  function OpenSelf(s: State, accepts: set<Loader>): Opened
  {
    match TryAll(s, Attempt(None, accepts))
    case Found(s1, h) => Admit(s1, h)
    case Loaded(s1, file, loader) => Register(s1, file, loader, [], true)
    case NotLoaded => Opened(s, None)
  }

  /** The rest of an archive's `try_dlopen` once its dependencies `hs` are open: they are given
      back when no candidate opens or when the module turns out to be loaded already. */
  function FinishArchive(s: State, hs: seq<HandleId>, candidates: seq<Attempt>): Opened
  {
    match TryCandidates(s, candidates)
    case Found(s1, h) => Admit(Unload(s1, hs).s, h)
    case Loaded(s1, file, loader) => Register(s1, file, loader, hs, false)
    case NotLoaded => Opened(Unload(s, hs).s, None)
  }

  /** `try_dlopen` of a file name. */
  function Open(s: State, r: Request): Opened
    decreases r, 1
  {
    match r
    case Unavailable => Opened(s, None)
    case Plain(a) =>
      (match TryAll(s, a)
       case Found(s1, h) => Admit(s1, h)
       case Loaded(s1, file, loader) => Register(s1, file, loader, [], false)
       case NotLoaded => Opened(s, None))
    case Archive(text, deps, candidates) =>
      var l := LoadDeplibs(s, text, deps);
      FinishArchive(l.s, l.hs, candidates)
  }

  /** `lt_dlopenext`, and with one element `lt_dlopen`. */
  function OpenTries(s: State, tries: seq<Request>): Opened
    decreases tries, 2
  {
    if tries == [] then Opened(s, None)
    else
      var o := Open(s, tries[0]);
      if o.result.Some? then o else OpenTries(o.s, tries[1..])
  }

  /** The loading loop of `load_deplibs`: last name first, successful handles packed. */
  function LoadNames(s: State, deps: seq<Dep>): Loads
    decreases deps, 0
  {
    if deps == [] then Loads(s, [])
    else
      var o := OpenTries(s, deps[|deps| - 1].tries);
      var rest := LoadNames(o.s, deps[..|deps| - 1]);
      Loads(rest.s, (if o.result.Some? then [o.result.value] else []) + rest.hs)
  }

  /** `load_deplibs`: the search path is extended for the nested opens and put back after. */
  function LoadDeplibs(s: State, text: Option<string>, deps: seq<Dep>): Loads
    decreases deps, 1
  {
    if text.None? then Loads(s, [])
    else
      var l := LoadNames(s.(searchPath := Deplibs.Extend(s.searchPath, text.value)), deps);
      Loads(l.s.(searchPath := if l.s.searchPath.Some? then s.searchPath else None), l.hs)
  }

  /** A request whose dependency opens are those its dependency text asks for. */
  predicate Matches(r: Request)
    decreases r, 1
  {
    r.Archive? ==> MatchesText(r.text, r.deps)
  }

  predicate MatchesText(text: Option<string>, deps: seq<Dep>)
    decreases deps, 0
  {
    && (text.Some? ==>
          && Text.EOS !in text.value
          && |deps| == |Deplibs.Names(text.value)|
          && forall i :: 0 <= i < |deps| ==> deps[i].name == Deplibs.Names(text.value)[i])
    && (forall i, j :: 0 <= i < |deps| && 0 <= j < |deps[i].tries| ==> Matches(deps[i].tries[j]))
  }

  // ---------------------------------------------------------------- the other calls

  /** `lt_dlmakeresident`. */
  function MakeResident(s: State, h: HandleId): Outcome
  {
    if h !in s.info then Outcome(s.(corrupt := true), 0)
    else Outcome(s.(info := s.info[h := s.info[h].(resident := true)]), 0)
  }

  /** `lt_dlloader_add`: before `place`, or at the end when there is none; with no loaders yet
      the place does not matter. */
  function LoaderAdd(s: State, place: Option<Loader>, loader: Loader): State
    requires place.Some? && s.loaders != [] ==> place.value in s.loaders
  {
    s.(loaders := if place.None? || s.loaders == [] then s.loaders + [loader] else InsertBefore(s.loaders, place.value, loader))
  }

  function InsertBefore(ls: seq<Loader>, place: Loader, loader: Loader): (r: seq<Loader>)
    requires place in ls
    ensures forall l :: l in r <==> l in ls || l == loader
  {
    if ls[0] == place then [loader] + ls else [ls[0]] + InsertBefore(ls[1..], place, loader)
  }

  function FindLoader(ls: seq<Loader>, name: string): (r: Option<Loader>)
    ensures r.Some? ==> r.value in ls && r.value.name == name
    ensures r.None? ==> forall l :: l in ls ==> l.name != name
  {
    if ls == [] then None else if ls[0].name == name then Some(ls[0]) else FindLoader(ls[1..], name)
  }

  function RemoveLoader(ls: seq<Loader>, loader: Loader): (r: seq<Loader>)
    ensures forall l :: l in ls && l != loader ==> l in r
    ensures forall l :: l in r ==> l in ls
  {
    if ls == [] then [] else if ls[0] == loader then ls[1..] else [ls[0]] + RemoveLoader(ls[1..], loader)
  }

  predicate LoaderInUse(hs: seq<HandleId>, info: map<HandleId, Info>, loader: Loader)
  {
    exists h :: h in hs && h in info && info[h].loader == loader
  }

  /** `lt_dlloader_remove`. */
  function LoaderRemove(s: State, name: string): Outcome
  {
    var place := FindLoader(s.loaders, name);
    if place.None? then Outcome(s, 1)
    else if LoaderInUse(s.handles, s.info, place.value) then Outcome(s, 1)
    else Outcome(s.(loaders := RemoveLoader(s.loaders, place.value)), 0)
  }
}
