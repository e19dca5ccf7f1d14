/** Whole runs in which resident handles may be closed more often than they were opened: exactly
    which of them corrupt the registry (dice/libltdl/ltdl.c). */
module RegistryTolerance {
  import opened Wrappers
  import opened Registry
  import opened RegistryInvariant
  import opened RegistryRuns
  import opened RegistryResidents
  import opened RegistrySafety

  // ---------------------------------------------------------------- which runs corrupt

  function MetStep(c: Config, op: Op): seq<Info>
  {
    match op
    case OpenOp(tries) => MetTries(c.s, tries)
    case OpenSelfOp(accepts) => MetSelf(c.s, accepts)
    case _ => []
  }

  /** Everything the opens of a run find already loaded. */
  function MetRun(c: Config, ops: seq<Op>): seq<Info>
    requires Tolerated(c, ops)
    decreases |ops|
  {
    if ops == [] then [] else MetStep(c, ops[0]) + MetRun(Step(c, ops[0]), ops[1..])
  }

  lemma OverClose(s: State, h: HandleId, ext: multiset<HandleId>)
    requires Loose(s, ext) && h in s.info && s.info[h].resident && h !in ext
    ensures Loose(Close(s, h).s, ext - multiset{h})
  {
    hide Loose, Cover, Inv, WellFormed, LoaderLevel, AllDeps;
    LooseFacts(s, ext);
    CoverInv(s, ext);
    assert ext - multiset{h} == ext;
    assert Close(s, h).s == Bump(s, h, -1);
    AlikeLoose(Bump(s, h, -1), Cover(s, ext), ext);
  }

  lemma CloseLoose(s: State, h: HandleId, ext: multiset<HandleId>)
    requires Loose(s, ext) && (h in ext || h !in s.handles)
    ensures Loose(Close(s, h).s, ext - multiset{h})
  {
    hide Loose, Cover, Inv, WellFormed, LoaderLevel, AllDeps;
    var t := Cover(s, ext);
    CoverInv(s, ext);
    CloseStepInv(t, h, ext);
    CloseAlike(s, t, h);
    AlikeLoose(Close(s, h).s, Close(t, h).s, ext - multiset{h});
  }

  lemma MakeResidentLoose(s: State, h: HandleId, ext: multiset<HandleId>)
    requires Loose(s, ext) && h in s.info
    ensures Loose(MakeResident(s, h).s, ext)
  {
    hide Loose, Cover, Inv, WellFormed, LoaderLevel, AllDeps;
    var t := Cover(s, ext);
    CoverInv(s, ext);
    MakeResidentInv(t, h, ext);
    AlikeLoose(MakeResident(s, h).s, MakeResident(t, h).s, ext);
  }

  lemma LoadersLoose(s: State, loaders: seq<Loader>, ext: multiset<HandleId>)
    requires Loose(s, ext) && forall h :: h in s.info ==> s.info[h].loader in loaders
    ensures Loose(s.(loaders := loaders), ext)
  {
    hide LoaderLevel, AllDeps, Ordered, Distinct;
    assert LoaderLevel(s.(loaders := loaders)) by { SameLevel(s, loaders); }
  }

  lemma SameLevel(s: State, loaders: seq<Loader>)
    requires LoaderLevel(s)
    ensures LoaderLevel(s.(loaders := loaders))
  {
  }

  lemma LooseLoaders(s: State, ext: multiset<HandleId>)
    requires Loose(s, ext)
    ensures !s.corrupt && (forall h :: h in s.info ==> s.info[h].loader in s.loaders)
    ensures forall h :: h in s.handles <==> h in s.info
  {
  }

  lemma StepLoose(c: Config, op: Op)
    requires Loose(c.s, c.held) && Tolerable(c, op)
    ensures Step(c, op).s.corrupt <==> Ominous(MetStep(c, op))
    ensures !Step(c, op).s.corrupt ==> Loose(Step(c, op).s, Step(c, op).held)
  {
    hide Loose, Close, OpenTries, OpenSelf, Ominous;
    LooseLoaders(c.s, c.held);
    NoneOminous();
    match op {
      case OpenOp(tries) => OpenCorruptsIff(c.s, tries, c.held);
      case OpenSelfOp(accepts) => OpenSelfLoose(c.s, accepts, c.held);
      case CloseOp(h) =>
        if h in c.held || h !in c.s.handles { CloseLoose(c.s, h, c.held); } else { OverClose(c.s, h, c.held); }
        LooseLoaders(Close(c.s, h).s, c.held - multiset{h});
      case ResidentOp(h) =>
        MakeResidentLoose(c.s, h, c.held);
        LooseLoaders(MakeResident(c.s, h).s, c.held);
      case AddLoaderOp(place, loader) => LoadersLoose(c.s, LoaderAdd(c.s, place, loader).loaders, c.held);
      case RemoveLoaderOp(name) => LoadersLoose(c.s, LoaderRemove(c.s, name).s.loaders, c.held);
    }
  }

  lemma StepSticks(c: Config, op: Op)
    requires c.s.corrupt && Tolerable(c, op)
    ensures Step(c, op).s.corrupt
  {
    match op {
      case OpenOp(tries) => OpenTriesSticks(c.s, tries);
      case CloseOp(h) => CloseSticks(c.s, h);
      case _ =>
    }
  }

  lemma {:induction false} RunSticks(c: Config, ops: seq<Op>)
    requires c.s.corrupt && Tolerated(c, ops)
    ensures Run(c, ops).s.corrupt
    decreases |ops|
  {
    if ops != [] {
      StepSticks(c, ops[0]);
      RunSticks(Step(c, ops[0]), ops[1..]);
    }
  }

  lemma {:induction false} RunFromCorruptsIff(c: Config, ops: seq<Op>)
    requires Loose(c.s, c.held) && Tolerated(c, ops)
    ensures Run(c, ops).s.corrupt <==> Ominous(MetRun(c, ops))
    ensures !Run(c, ops).s.corrupt ==> Loose(Run(c, ops).s, Run(c, ops).held)
    decreases |ops|
  {
    hide Loose, Ominous, Step, MetStep;
    if ops == [] {
      NoneOminous();
      LooseLoaders(c.s, c.held);
    } else {
      var c1 := Step(c, ops[0]);
      StepLoose(c, ops[0]);
      OminousConcat(MetStep(c, ops[0]), MetRun(c1, ops[1..]));
      if c1.s.corrupt {
        RunSticks(c1, ops[1..]);
      } else {
        RunFromCorruptsIff(c1, ops[1..]);
      }
    }
  }

  lemma InitLoose(loaders: seq<Loader>)
    ensures Loose(Init(loaders).s, Init(loaders).held)
  {
  }

  /** A run corrupts the registry exactly when one of its opens meets a resident handle with a count
      of minus one; otherwise all but the counts of resident handles is as it should be. */
  lemma RunCorruptsIff(loaders: seq<Loader>, ops: seq<Op>)
    requires Tolerated(Init(loaders), ops)
    ensures var c := Run(Init(loaders), ops);
      && (c.s.corrupt <==> Ominous(MetRun(Init(loaders), ops)))
      && (!c.s.corrupt ==> Loose(c.s, c.held))
  {
    InitLoose(loaders);
    RunFromCorruptsIff(Init(loaders), ops);
  }

  // ---------------------------------------------------------------- sequences of opens

  predicate AllOpens(ops: seq<Op>)
  {
    forall i :: 0 <= i < |ops| ==> IsOpen(ops[i])
  }

  predicate IsOpen(op: Op)
  {
    op.OpenSelfOp? || (op.OpenOp? && forall i :: 0 <= i < |op.tries| ==> OfFiles(op.tries[i]) && Matches(op.tries[i]))
  }

  lemma {:induction false} OpensTolerated(c: Config, ops: seq<Op>)
    requires AllOpens(ops)
    ensures Tolerated(c, ops)
    decreases |ops|
  {
    if ops != [] {
      assert IsOpen(ops[0]);
      OpensTolerated(Step(c, ops[0]), ops[1..]);
    }
  }

  lemma SelfNoNegative(s: State, accepts: set<Loader>)
    requires Fresh(s) && NoNegative(s, true)
    ensures Fresh(OpenSelf(s, accepts).s) && NoNegative(OpenSelf(s, accepts).s, true)
  {
  }

  lemma OpenStepSafe(c: Config, op: Op)
    requires Loose(c.s, c.held) && NoNegative(c.s, true) && IsOpen(op)
    ensures var c1 := Step(c, op); !c1.s.corrupt && Loose(c1.s, c1.held) && NoNegative(c1.s, true)
  {
    LooseFacts(c.s, c.held);
    StepLoose(c, op);
    if op.OpenOp? {
      MetTriesMild(c.s, op.tries);
      OpenTriesSettled(c.s, op.tries);
      NoNegativeSettled(c.s, OpenTries(c.s, op.tries).s, true);
    } else {
      SelfNoNegative(c.s, op.accepts);
      OpenSelfCorruptsIff(c.s, op.accepts, c.held);
    }
  }

  lemma {:induction false} OpensSafe(c: Config, ops: seq<Op>)
    requires Loose(c.s, c.held) && NoNegative(c.s, true) && AllOpens(ops) && Tolerated(c, ops)
    ensures !Run(c, ops).s.corrupt
    decreases |ops|
  {
    hide Loose, NoNegative;
    if ops == [] {
      LooseFacts(c.s, c.held);
    } else {
      assert IsOpen(ops[0]);
      OpenStepSafe(c, ops[0]);
      OpensSafe(Step(c, ops[0]), ops[1..]);
    }
  }

  function SelfOpens(n: nat): (ops: seq<Op>)
    ensures AllOpens(ops) && |ops| == n
  {
    if n == 0 then [] else [OpenSelfOp({})] + SelfOpens(n - 1)
  }

  lemma SelfOpenRaises(s: State, h: HandleId)
    requires Findable(s, h) && s.info[h].filename.None?
    ensures OpenSelf(s, {}) == Admit(Bump(s, h, 1), h)
  {
    FindsTheFile(s.handles, s.info, h);
    assert TryAll(s, Attempt(None, {})) == Found(Bump(s, h, 1), h);
  }

  lemma {:induction false} RepeatedSelfOpens(c: Config, h: HandleId, n: nat)
    requires Findable(c.s, h) && c.s.info[h].filename.None? && c.s.info[h].refCount + n == 0 < n
    ensures Tolerated(c, SelfOpens(n)) && Run(c, SelfOpens(n)).s.corrupt
    decreases n
  {
    var ops := SelfOpens(n);
    OpensTolerated(c, ops);
    SelfOpenRaises(c.s, h);
    var c1 := Step(c, ops[0]);
    assert ops[1..] == SelfOpens(n - 1);
    if n == 1 {
      RunSticks(c1, []);
    } else {
      assert c1.s == Bump(c.s, h, 1);
      RepeatedSelfOpens(c1, h, n - 1);
    }
  }

  /** The same for a handle with a file name: plain opens of the file. */
  function FileOpens(n: nat, file: string): (ops: seq<Op>)
    ensures AllOpens(ops) && |ops| == n
  {
    if n == 0 then [] else [OpenOp([Plain(Attempt(Some(file), {}))])] + FileOpens(n - 1, file)
  }

  lemma {:induction false} RepeatedFileOpens(c: Config, h: HandleId, file: string, n: nat)
    requires Findable(c.s, h) && c.s.info[h].filename == Some(file) && c.s.info[h].refCount + n == 0 < n
    ensures Tolerated(c, FileOpens(n, file)) && Run(c, FileOpens(n, file)).s.corrupt
    decreases n
  {
    var ops := FileOpens(n, file);
    OpensTolerated(c, ops);
    OpenOfRaises(c.s, h);
    var c1 := Step(c, ops[0]);
    assert ops[1..] == FileOpens(n - 1, file);
    if n == 1 {
      RunSticks(c1, []);
    } else {
      assert c1.s == Bump(c.s, h, 1);
      RepeatedFileOpens(c1, h, file, n - 1);
    }
  }

  /** Some opens that link a listed handle again. */
  lemma FatalOpens(c: Config, h: HandleId) returns (ops: seq<Op>)
    requires Loose(c.s, c.held) && h in c.s.info && c.s.info[h].resident && c.s.info[h].refCount < 0
    ensures AllOpens(ops) && Tolerated(c, ops) && Run(c, ops).s.corrupt
  {
    LooseFacts(c.s, c.held);
    var n := -c.s.info[h].refCount;
    if c.s.info[h].filename.Some? {
      var file := c.s.info[h].filename.value;
      ops := FileOpens(n, file);
      RepeatedFileOpens(c, h, file, n);
    } else {
      ops := SelfOpens(n);
      RepeatedSelfOpens(c, h, n);
    }
  }

  /** Exactly when any number of opens is safe: when no registered resident handle has a negative
      count. */
  lemma OpensSafeIff(c: Config)
    requires Loose(c.s, c.held)
    ensures (forall ops :: AllOpens(ops) && Tolerated(c, ops) ==> !Run(c, ops).s.corrupt) <==> NoNegative(c.s, true)
  {
    hide Loose, Tolerated, Run;
    if NoNegative(c.s, true) {
      forall ops | AllOpens(ops) && Tolerated(c, ops) ensures !Run(c, ops).s.corrupt { OpensSafe(c, ops); }
    } else {
      var h :| h in c.s.info && c.s.info[h].resident && c.s.info[h].refCount < 0;
      var ops := FatalOpens(c, h);
    }
  }

  // ---------------------------------------------------------------- resident for good

  ghost predicate ResidentIn(s: State, h: HandleId)
  {
    h in s.info && s.info[h].resident
  }

  lemma StepKeepsResident(c: Config, op: Op, h: HandleId)
    requires Fresh(c.s) && ResidentIn(c.s, h) && Tolerable(c, op)
    ensures Fresh(Step(c, op).s) && ResidentIn(Step(c, op).s, h)
  {
    hide Close, OpenTries;
    match op {
      case OpenOp(tries) => OpenTriesSettled(c.s, tries);
      case OpenSelfOp(accepts) => SelfKeepsResident(c.s, accepts, h);
      case CloseOp(g) => CloseKeepsResident(c.s, g, h);
      case _ =>
    }
  }

  lemma CloseKeepsResident(s: State, g: HandleId, h: HandleId)
    requires Fresh(s) && ResidentIn(s, h)
    ensures Fresh(Close(s, g).s) && ResidentIn(Close(s, g).s, h)
  {
    if !ResidentIn(s, g) { CloseSettled(s, g); }
  }

  lemma SelfKeepsResident(s: State, accepts: set<Loader>, h: HandleId)
    requires Fresh(s) && ResidentIn(s, h)
    ensures Fresh(OpenSelf(s, accepts).s) && ResidentIn(OpenSelf(s, accepts).s, h)
  {
  }

  lemma {:induction false} RunKeepsResident(c: Config, ops: seq<Op>, h: HandleId)
    requires Fresh(c.s) && ResidentIn(c.s, h) && Tolerated(c, ops)
    ensures ResidentIn(Run(c, ops).s, h)
    decreases |ops|
  {
    if ops != [] {
      StepKeepsResident(c, ops[0], h);
      RunKeepsResident(Step(c, ops[0]), ops[1..], h);
    }
  }

  /** A handle made resident is registered for good: no sequence of calls removes it. */
  lemma ResidentForGood(c: Config, h: HandleId, ops: seq<Op>)
    requires Fresh(c.s) && h in c.s.info && Tolerated(Step(c, ResidentOp(h)), ops)
    ensures ResidentIn(Run(Step(c, ResidentOp(h)), ops).s, h)
  {
    RunKeepsResident(Step(c, ResidentOp(h)), ops, h);
  }

  // ---------------------------------------------------------------- conservation all the same

  lemma StepHeldTolerated(c: Config, op: Op, h: HandleId)
    requires Loose(c.s, c.held) && Tolerable(c, op) && !ResidentIn(c.s, h)
    ensures Step(c, op).held[h] == c.held[h] + (if Result(c, op) == Some(h) then 1 else 0)
                                 - (if op == CloseOp(h) && h in c.s.handles then 1 else 0)
  {
    hide OpenTries, OpenSelf, Close, LoaderLevel, AllDeps, Ordered, Distinct;
  }

  lemma {:induction false} HeldWhenTolerated(c: Config, ops: seq<Op>, h: HandleId)
    requires Loose(c.s, c.held) && Tolerated(c, ops)
    requires !Run(c, ops).s.corrupt && !ResidentIn(Run(c, ops).s, h)
    ensures Run(c, ops).held[h] == c.held[h] + Opens(c, ops, h) - Closes(c, ops, h)
    decreases |ops|
  {
    hide Loose, Step, Result, ResidentIn;
    if ops != [] {
      var c1 := Step(c, ops[0]);
      LooseFacts(c.s, c.held);
      if ResidentIn(c.s, h) { RunKeepsResident(c, ops, h); }
      if c1.s.corrupt { RunSticks(c1, ops[1..]); }
      StepLoose(c, ops[0]);
      StepHeldTolerated(c, ops[0], h);
      HeldWhenTolerated(c1, ops[1..], h);
    }
  }

  /** Reference conservation holds over these runs too, unless they corrupt the registry: closing
      resident handles too often does not disturb the counts of the others. */
  lemma ConservationWhenTolerated(loaders: seq<Loader>, ops: seq<Op>, h: HandleId)
    requires Tolerated(Init(loaders), ops) && !Ominous(MetRun(Init(loaders), ops))
    requires h in Run(Init(loaders), ops).s.info && !Run(Init(loaders), ops).s.info[h].resident
    ensures var s := Run(Init(loaders), ops).s;
      s.info[h].refCount == Opens(Init(loaders), ops, h) - Closes(Init(loaders), ops, h) + AllDeps(s.handles, s.info)[h] > 0
  {
    hide Run, Opens, Closes, MetRun, Tolerated, Ominous, AllDeps, WellFormed, LoaderLevel;
    var c := Run(Init(loaders), ops);
    InitLoose(loaders);
    RunCorruptsIff(loaders, ops);
    HeldWhenTolerated(Init(loaders), ops, h);
    assert Balanced(c.s.info[h], c.held[h] + AllDeps(c.s.handles, c.s.info)[h]);
  }

  // ---------------------------------------------------------------- the program closed too often

  function OpenedTimes(s: State, n: nat, accepts: set<Loader>): State
  {
    if n == 0 then s else OpenSelf(OpenedTimes(s, n - 1, accepts), accepts).s
  }

  function ClosedTimes(s: State, n: nat, h: HandleId): State
  {
    if n == 0 then s else Close(ClosedTimes(s, n - 1, h), h).s
  }

  /** The registry with nothing but the program in it. */
  function Program(l: Loader, count: int): State
  {
    State([0], map[0 := Info(None, l, count, [], true)], [l], None, [ModuleOpen(None, l)], 1, false)
  }

  lemma ProgramSteps(l: Loader, count: int)
    ensures OpenSelf(Init([l]).s, {l}).s == Program(l, 1)
    ensures Close(Program(l, count), 0).s == Program(l, count - 1)
    ensures OpenSelf(Program(l, count), {l}).s == if count == -1 then Program(l, 0).(corrupt := true) else Program(l, count + 1)
  {
    var (s0, s) := (Init([l]).s, Program(l, count));
    assert FindFile(s0.handles, s0.info, None).None?;
    assert FirstAccepting([l], {l}) == Some(l);
    assert OpenSelf(s0, {l}).s.info == map[0 := Info(None, l, 1, [], true)];
    assert FindFile(s.handles, s.info, None) == Some(0);
    assert Bump(s, 0, -1).info == Program(l, count - 1).info;
    assert Bump(s, 0, 1).info == Program(l, count + 1).info;
  }

  lemma {:induction false} ProgramCounts(l: Loader, opens: nat, closes: nat)
    requires opens > 0
    ensures ClosedTimes(OpenedTimes(Init([l]).s, opens, {l}), closes, 0) == Program(l, opens - closes)
    decreases opens + closes
  {
    hide Close, OpenSelf, Init, Program;
    if closes > 0 {
      ProgramCounts(l, opens, closes - 1);
      ProgramSteps(l, opens - closes + 1);
    } else {
      ProgramSteps(l, opens - 1);
      if opens > 1 { ProgramCounts(l, opens - 1, 0); }
    }
  }

  /** The program opened and closed any number of times: opening it once more corrupts the registry
      exactly when it was closed once too often, neither more nor less. */
  lemma OverclosedIff(l: Loader, opens: nat, closes: nat)
    requires opens > 0
    ensures OpenSelf(ClosedTimes(OpenedTimes(Init([l]).s, opens, {l}), closes, 0), {l}).s.corrupt <==> closes == opens + 1
  {
    ProgramCounts(l, opens, closes);
    ProgramSteps(l, opens - closes);
  }
}
