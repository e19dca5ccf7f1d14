/** Whole runs of the libltdl API.  A configuration is the registry together with what the
    clients hold: one reference for every open not yet closed. */
module RegistryRuns {
  import opened Wrappers
  import opened Registry
  import opened RegistryInvariant
  import opened RegistryEvolution
  import opened RegistryOpening

  datatype Op =
    | OpenOp(tries: seq<Request>)
    | OpenSelfOp(accepts: set<Loader>)
    | CloseOp(h: HandleId)
    | ResidentOp(h: HandleId)
    | AddLoaderOp(place: Option<Loader>, loader: Loader)
    | RemoveLoaderOp(name: string)

  datatype Config = Config(s: State, held: multiset<HandleId>)

  function Init(loaders: seq<Loader>): Config
  {
    Config(State([], map[], loaders, None, [], 0, false), multiset{})
  }

  function Take(held: multiset<HandleId>, result: Option<HandleId>): multiset<HandleId>
  {
    if result.Some? then held + multiset{result.value} else held
  }

  /** What the API demands of its callers: a handle is closed no more often than it was opened
      (closing an address that is not registered is answered with an error), it is made resident
      only while registered, and a loader is placed before one that is in the list. */
  predicate Allowed(c: Config, op: Op)
  {
    match op
    case CloseOp(h) => h in c.held || h !in c.s.handles
    case ResidentOp(h) => h in c.s.info
    case AddLoaderOp(place, _) => place.Some? && c.s.loaders != [] ==> place.value in c.s.loaders
    case _ => true
  }

  /** What the calls put up with: a resident handle may be closed more often than it was opened. */
  predicate Tolerable(c: Config, op: Op)
  {
    Allowed(c, op) || (op.CloseOp? && op.h in c.s.info && c.s.info[op.h].resident)
  }

  function Step(c: Config, op: Op): Config
    requires Tolerable(c, op)
  {
    match op
    case OpenOp(tries) => var o := OpenTries(c.s, tries); Config(o.s, Take(c.held, o.result))
    case OpenSelfOp(accepts) => var o := OpenSelf(c.s, accepts); Config(o.s, Take(c.held, o.result))
    case CloseOp(h) => Config(Close(c.s, h).s, c.held - multiset{h})
    case ResidentOp(h) => Config(MakeResident(c.s, h).s, c.held)
    case AddLoaderOp(place, loader) => Config(LoaderAdd(c.s, place, loader), c.held)
    case RemoveLoaderOp(name) => Config(LoaderRemove(c.s, name).s, c.held)
  }

  predicate Tolerated(c: Config, ops: seq<Op>)
    decreases |ops|
  {
    ops != [] ==> Tolerable(c, ops[0]) && Tolerated(Step(c, ops[0]), ops[1..])
  }

  predicate Disciplined(c: Config, ops: seq<Op>): (ok: bool)
    ensures ok ==> Tolerated(c, ops)
    decreases |ops|
  {
    ops != [] ==> Allowed(c, ops[0]) && Disciplined(Step(c, ops[0]), ops[1..])
  }

  function Run(c: Config, ops: seq<Op>): Config
    requires Tolerated(c, ops)
    decreases |ops|
  {
    if ops == [] then c else Run(Step(c, ops[0]), ops[1..])
  }

  // ---------------------------------------------------------------- every step

  lemma OpenSelfInv(s: State, accepts: set<Loader>, ext: multiset<HandleId>)
    requires Inv(s, ext)
    ensures var o := OpenSelf(s, accepts); Inv(o.s, Holding(ext, o.result))
  {
    TryAllInv(s, Attempt(None, accepts), ext);
    assert ext + multiset([]) == ext;
    match TryAll(s, Attempt(None, accepts)) {
      case Found(s1, h) => AdmitOk(s1, h, ext);
      case Loaded(s1, file, loader) => RegisterInv(s, file, loader, [], true, ext);
      case NotLoaded =>
    }
  }

  /** Opening the program: there is one handle without a file name, linked resident the first time
      and found afterwards. */
  lemma OpenSelfIsProgram(s: State, accepts: set<Loader>, ext: multiset<HandleId>)
    requires Inv(s, ext)
    ensures var o := OpenSelf(s, accepts);
      && (o.result.None? ==> o.s == s && !FileRegistered(s.info, None) && forall l :: l in s.loaders ==> l !in accepts)
      && (o.result.Some? ==>
            && o.result.value in o.s.info
            && (forall h :: h in o.s.info ==> (h == o.result.value <==> o.s.info[h].filename.None?)))
      && (o.result.Some? && FileRegistered(s.info, None) ==>
            o.s == Bump(s, o.result.value, 1) && o.s.handles == s.handles)
      && (o.result.Some? && !FileRegistered(s.info, None) ==>
            && o.s.info[o.result.value].resident && o.s.info[o.result.value].refCount == 1
            && o.s.handles == [o.result.value] + s.handles)
  {
    hide LoaderLevel, Conserved, Ordered, Distinct, AllDeps;
    var a := Attempt(None, accepts);
    TryAllInv(s, a, ext);
    match TryAll(s, a) {
      case Found(s1, h) =>
        AdmitOk(s1, h, ext);
        assert FileRegistered(s.info, None);
      case Loaded(s1, file, loader) => assert !FileRegistered(s.info, None);
      case NotLoaded => assert forall h :: h in s.info ==> h in s.handles;
    }
  }

  lemma MakeResidentInv(s: State, h: HandleId, ext: multiset<HandleId>)
    requires Inv(s, ext) && h in s.info
    ensures Inv(MakeResident(s, h).s, ext)
  {
    hide WellFormed, LoaderLevel, AllDeps;
    var s1, deps := MakeResident(s, h).s, AllDeps(s.handles, s.info);
    InfoShape(s, s1.info);
    forall x | x in s.info ensures Balanced(s1.info[x], ext[x] + deps[x]) {
      assert Balanced(s.info[x], ext[x] + deps[x]);
    }
  }

  lemma LoadersInv(s: State, loaders: seq<Loader>, ext: multiset<HandleId>)
    requires Inv(s, ext)
    requires forall h :: h in s.info ==> s.info[h].loader in loaders
    ensures Inv(s.(loaders := loaders), ext)
  {
  }

  lemma CloseStepInv(s: State, h: HandleId, held: multiset<HandleId>)
    requires Inv(s, held) && (h in held || h !in s.handles)
    ensures Inv(Close(s, h).s, held - multiset{h})
  {
    hide WellFormed, LoaderLevel, Conserved, Evolves;
    if h in held {
      assert held == (held - multiset{h}) + multiset{h};
      CloseInv(s, h, held - multiset{h});
    } else {
      assert held - multiset{h} == held;
    }
  }

  lemma StepInv(c: Config, op: Op)
    requires Inv(c.s, c.held) && Allowed(c, op)
    ensures Inv(Step(c, op).s, Step(c, op).held)
  {
    hide LoaderLevel, Conserved, Distinct, Ordered, Evolves, Close, OpenTries, OpenSelf;
    match op {
      case OpenOp(tries) => OpenTriesInv(c.s, tries, c.held);
      case OpenSelfOp(accepts) => OpenSelfInv(c.s, accepts, c.held);
      case CloseOp(h) => CloseStepInv(c.s, h, c.held);
      case ResidentOp(h) => MakeResidentInv(c.s, h, c.held);
      case AddLoaderOp(place, loader) => LoadersInv(c.s, LoaderAdd(c.s, place, loader).loaders, c.held);
      case RemoveLoaderOp(name) => LoadersInv(c.s, LoaderRemove(c.s, name).s.loaders, c.held);
    }
  }

  lemma InitInv(loaders: seq<Loader>)
    ensures Inv(Init(loaders).s, Init(loaders).held)
  {
  }

  lemma {:induction false} RunFromInv(c: Config, ops: seq<Op>)
    requires Inv(c.s, c.held) && Disciplined(c, ops)
    ensures Inv(Run(c, ops).s, Run(c, ops).held)
    decreases |ops|
  {
    if ops != [] {
      StepInv(c, ops[0]);
      RunFromInv(Step(c, ops[0]), ops[1..]);
    }
  }

  /** Safety over every run: the registry is never corrupted and its invariant always holds. */
  lemma RunInv(loaders: seq<Loader>, ops: seq<Op>)
    requires Disciplined(Init(loaders), ops)
    ensures var c := Run(Init(loaders), ops); Inv(c.s, c.held)
  {
    InitInv(loaders);
    RunFromInv(Init(loaders), ops);
  }

  // ---------------------------------------------------------------- what the loaders see

  lemma {:induction false} LawfulAt(log: seq<Event>, n: nat)
    requires Lawful(log) && n < |log|
    ensures Follows(log[..n], log[n])
    decreases |log|
  {
    var init := log[..|log| - 1];
    if n < |log| - 1 {
      LawfulAt(init, n);
      assert init[..n] == log[..n];
    }
  }

  /** In every run a file is opened when no loader has it open and closed by the loader that opened
      it; what is open in the end are the files of the registered handles, each by the loader in the
      handle's record. */
  lemma OpenedAndClosedByOne(loaders: seq<Loader>, ops: seq<Op>)
    requires Disciplined(Init(loaders), ops)
    ensures var s := Run(Init(loaders), ops).s;
      && (forall n :: 0 <= n < |s.log| ==> Follows(s.log[..n], s.log[n]))
      && (forall file, loader :: OpenCount(s.log, file, loader) == if OpenBy(s.info, file, loader) then 1 else 0)
  {
    hide WellFormed, Conserved;
    RunInv(loaders, ops);
    var s := Run(Init(loaders), ops).s;
    forall n | 0 <= n < |s.log| ensures Follows(s.log[..n], s.log[n]) { LawfulAt(s.log, n); }
  }

  // ---------------------------------------------------------------- opens minus closes

  /** How often the run handed `h` to a client. */
  function Opens(c: Config, ops: seq<Op>, h: HandleId): nat
    requires Tolerated(c, ops)
    decreases |ops|
  {
    if ops == [] then 0
    else
      (if Result(c, ops[0]) == Some(h) then 1 else 0) + Opens(Step(c, ops[0]), ops[1..], h)
  }

  function Result(c: Config, op: Op): Option<HandleId>
  {
    match op
    case OpenOp(tries) => OpenTries(c.s, tries).result
    case OpenSelfOp(accepts) => OpenSelf(c.s, accepts).result
    case _ => None
  }

  /** How often the run closed `h` while it was registered. */
  function Closes(c: Config, ops: seq<Op>, h: HandleId): nat
    requires Tolerated(c, ops)
    decreases |ops|
  {
    if ops == [] then 0
    else
      (if ops[0] == CloseOp(h) && h in c.s.handles then 1 else 0) + Closes(Step(c, ops[0]), ops[1..], h)
  }

  lemma StepHeld(c: Config, op: Op, h: HandleId)
    requires Inv(c.s, c.held) && Allowed(c, op)
    ensures Step(c, op).held[h] == c.held[h] + (if Result(c, op) == Some(h) then 1 else 0)
                                 - (if op == CloseOp(h) && h in c.s.handles then 1 else 0)
  {
  }

  lemma {:induction false} HeldIsOpensMinusCloses(c: Config, ops: seq<Op>, h: HandleId)
    requires Inv(c.s, c.held) && Disciplined(c, ops)
    ensures Run(c, ops).held[h] == c.held[h] + Opens(c, ops, h) - Closes(c, ops, h)
    decreases |ops|
  {
    if ops != [] {
      StepInv(c, ops[0]);
      StepHeld(c, ops[0], h);
      HeldIsOpensMinusCloses(Step(c, ops[0]), ops[1..], h);
    }
  }

  /** Reference conservation over every run. */
  lemma Conservation(loaders: seq<Loader>, ops: seq<Op>, h: HandleId)
    requires Disciplined(Init(loaders), ops)
    requires h in Run(Init(loaders), ops).s.info
    ensures var s := Run(Init(loaders), ops).s;
      var refs := Opens(Init(loaders), ops, h) - Closes(Init(loaders), ops, h) + AllDeps(s.handles, s.info)[h];
      if s.info[h].resident then s.info[h].refCount >= refs else s.info[h].refCount == refs > 0
  {
    RunInv(loaders, ops);
    InitInv(loaders);
    HeldIsOpensMinusCloses(Init(loaders), ops, h);
  }
}
