/**
 The backend of src/relay/probe/probing_backend.cpp: a lazy probe whose answer
 does not depend on when it is asked, an audio channel that exists only for an
 engine that takes one, and the handle table.
 */
module ProbingBackend {
  import opened Text
  import opened JsonValue
  import opened Messages
  import opened Session
  import opened Profiles
  import opened Scanner
  import opened Prober
  import opened Handles
  import Channel = BulkChannel

  /** Everything the host decided, and what the platform has there. */
  datatype Setup =
    Setup(roots: seq<Root>, profiles: seq<Profile>, limits: Limits, load: Loader, endpointGiven: bool)

  function Examined(s: Setup): seq<Found> {
    Take(RootsListing(s.roots, s.limits.maxDepth), s.limits.maxFiles)
  }

  function Probe(s: Setup): Attempt { BindFirst(Candidates(Examined(s)), s.profiles, s.load) }

  /** An endpoint was given, and the engine bound takes a sink in the bulk role. */
  predicate CarriesAudio(s: Setup) {
    s.endpointGiven && Calls(Probe(s).engine, Bulk, Sink)
  }

  // ------------------------------------------------- what a session sees of it

  function LimitsValue(s: Setup): Value {
    JsonValue.Set(JsonValue.Set(Value.Object([]), Ascii("max_candidates"), Integer(s.limits.maxFiles)),
                  Ascii("max_scan_depth"), Integer(s.limits.maxDepth))
  }

  const BULK_CAPABILITY_CLASS: Bytes := Ascii("engine.bulk.pcm")

  function ClassNames(ps: seq<Profile>): (r: seq<Bytes>)
    ensures |r| == |ps| && forall i | 0 <= i < |ps| :: r[i] == ps[i].capabilityClass
  {
    seq(|ps|, i requires 0 <= i < |ps| => ps[i].capabilityClass)
  }

  function OfferedClasses(s: Setup): seq<Bytes> {
    ClassNames(Probe(s).engine.profiles) + if CarriesAudio(s) then [BULK_CAPABILITY_CLASS] else []
  }

  function OpenResult(s: Setup, t: Table): (Table, Handle, Reason) {
    if !IsBound(Probe(s).engine) then (t, 0, NoEngine)
    else (OpenHandle(t).0, OpenHandle(t).1, Ok)
  }

  function CallResult(s: Setup, t: Table, handle: Handle, role: Role, shape: SymbolShape): Reason {
    if !IsBound(Probe(s).engine) then NoEngine
    else if handle !in t.live then InvalidHandle
    else if !Calls(Probe(s).engine, role, shape) then UnsupportedOperation
    else Ok
  }

  /** The backend as the session's specification takes it; byte counts stay with the channel. */
  function Operations(s: Setup, forwarded: nat, dropped: nat): Backend<Table> {
    Backend(
      (t: Table) => OfferedClasses(s),
      (t: Table) => LimitsValue(s),
      (t: Table) => CarriesAudio(s),
      (t: Table) => if CarriesAudio(s) then forwarded else 0,
      (t: Table) => if CarriesAudio(s) then dropped else 0,
      (t: Table) => |Probe(s).engine.addresses| % U32,
      (t: Table) => |t.live| % U32,
      (t: Table) => |Examined(s)| % U32,
      (t: Table) => |Candidates(Examined(s))| % U32,
      (t: Table) => RootsCut(s.roots, s.limits.maxFiles, s.limits.maxDepth),
      (t: Table, kind: Bytes, name: Bytes) => OpenResult(s, t),
      (t: Table, h: Handle) => (CloseHandle(t, h), Ok),
      (t: Table, h: Handle, action: Bytes, args: Value) => (t, CallResult(s, t, h, Role.Post, Name)),
      (t: Table, h: Handle, param: Bytes, level: real) => (t, CallResult(s, t, h, Role.Set, Level)))
  }

  // ---------------------------------------------------------------- the class

  class ProbingBackend {
    const setup: Setup
    /** What the engine's and the worker's threads do while a stop waits, and after its wait has ended. */
    const meanwhile: seq<Channel.Step>
    const afterwards: seq<Channel.Step>
    var probed: bool
    var candidates: seq<Candidate>
    var filesExamined: nat
    var truncated: bool
    var attempt: Attempt
    var endpointHeld: bool
    /** The channel held, as it stands. */
    var bulk: Option<Channel.State>
    var nextHandle: Handle
    var liveHandles: seq<Handle>
    /** Every state of the one channel there ever was. */
    ghost var history: seq<Channel.State>
    /** Where in it the wait of the stop ended. */
    ghost var waitEnd: nat

    constructor (setup: Setup, meanwhile: seq<Channel.Step>, afterwards: seq<Channel.Step>)
      ensures Valid() && this.setup == setup && Handles() == EMPTY && !probed && bulk.None?
    {
      this.setup, this.meanwhile, this.afterwards := setup, meanwhile, afterwards;
      probed, candidates, filesExamined, truncated := false, [], 0, false;
      attempt := Attempt(NO_ENGINE, 0, 0);
      endpointHeld, bulk, history := setup.endpointGiven, None, [];
      nextHandle, liveHandles := 1, [];
    }

    function Handles(): Table
      reads this
    {
      Table(nextHandle, liveHandles)
    }

    /** A channel is held and its history is a run of it. */
    ghost predicate Going()
      reads this`bulk, this`history
    {
      bulk.Some? && Channel.IsRun(history) && history[|history| - 1] == bulk.value
    }

    /** A channel held is not being stopped; one no longer held was freed or released. */
    ghost predicate ChannelOk()
      reads this`bulk, this`history, this`waitEnd
    {
      if bulk.Some? then Going() && bulk.value.owner.Holding?
      else history != [] ==> Disposed()
    }

    /** The wait of a stop ended at `waitEnd`, with the worker finished or not. */
    ghost predicate Waited()
      reads this`history, this`waitEnd
    {
      && waitEnd < |history|
      && history[waitEnd].owner == if history[waitEnd].finished then Channel.Joining else Channel.Stopped(false)
    }

    /** Freed if and only if the worker had finished when the wait ended, released otherwise. */
    ghost predicate Disposed()
      reads this`bulk, this`history, this`waitEnd
    {
      && bulk.None? && Channel.IsRun(history) && Waited()
      && history[|history| - 1].owner == if history[waitEnd].finished then Channel.Freed else Channel.Released
    }

    /** Either nothing was looked at yet, or everything remembered is the one answer there is. */
    ghost predicate Valid()
      reads this
    {
      && ChannelOk()
      && if probed then
           && candidates == Candidates(Examined(setup)) && filesExamined == |Examined(setup)|
           && truncated == RootsCut(setup.roots, setup.limits.maxFiles, setup.limits.maxDepth)
           && attempt == Probe(setup)
           && (bulk.Some? <==> CarriesAudio(setup))
         else bulk.None? && history == [] && endpointHeld == setup.endpointGiven
    }

    /** One step of any of the channel's threads, if it can be taken now. */
    method Take(step: Channel.Step)
      requires Going()
      modifies this`bulk, this`history
      ensures Going() && old(history) <= history
      ensures Channel.Inv(old(bulk).value) && Channel.Shaped(old(bulk).value)
      ensures var next := Channel.Apply(old(bulk).value, step);
              bulk == if next.Some? then next else old(bulk)
    {
      hide Channel.Apply, Channel.Inv, Channel.Shaped, Channel.CanStep;
      LastSound(history);
      var next := Channel.Apply(bulk.value, step);
      if next.Some? {
        RunSnoc(history, step);
        history := history + [next.value];
        bulk := next;
      }
    }

    /** The engine's and the worker's threads go on: the steps of theirs that are possible happen. */
    method Elapse(steps: seq<Channel.Step>)
      requires Going()
      modifies this`bulk, this`history
      ensures Going() && old(history) <= history && bulk.value.owner == old(bulk).value.owner
      ensures old(Valid()) ==> Valid()
    {
      hide Channel.Apply, Channel.Inv, Channel.Shaped, Channel.IsRun;
      for i := 0 to |steps|
        invariant Going() && old(history) <= history && bulk.value.owner == old(bulk).value.owner
      {
        if OthersStep(steps[i]) {
          ghost var before := bulk.value;
          Take(steps[i]);
          OthersLeaveOwner(before, steps[i]);
        }
      }
    }

    /** The first part of `stop`: the flag, and the wait for the worker's. */
    method WaitForWorker()
      requires Going() && bulk.value.owner.Holding?
      modifies this`bulk, this`history, this`waitEnd
      ensures Going() && old(history) <= history && Waited()
      ensures bulk.value.owner == history[waitEnd].owner && (bulk.value.finished <==> history[waitEnd].finished)
    {
      hide Channel.IsRun, Channel.Apply, Channel.Inv, Channel.Shaped;
      BeginStopEffect(bulk.value);
      Take(Channel.BeginStop);
      Elapse(meanwhile);
      WaitEndsEffect(bulk.value);
      Take(Channel.WaitEnds);
      waitEnd := |history| - 1;
    }

    /** The join waits for what is left of the worker. */
    method JoinWorker()
      requires Going() && Waited() && bulk.value.owner.Joining?
      modifies this`bulk, this`history
      ensures Going() && old(history) <= history
      ensures bulk.value.owner == Channel.Stopped(true)
    {
      hide Channel.IsRun, Channel.Apply, Channel.Inv, Channel.Shaped;
      JoiningSound(history);
      NotifyAllEffect(bulk.value);
      Take(Channel.NotifyAll);
      JoinEffect(bulk.value);
      Take(Channel.Join);
    }

    /**
     `stop`.  The first tells whether the worker finished in time, whatever it does
     after that; a later one finds no thread to join and says yes without looking.
     */
    method Stop() returns (stopped: bool)
      requires Going() && (bulk.value.owner.Holding? || bulk.value.owner.Stopped?)
      modifies this`bulk, this`history, this`waitEnd
      ensures Going() && old(history) <= history
      ensures old(bulk).value.owner.Stopped? ==>
                stopped && bulk == old(bulk) && history == old(history) && waitEnd == old(waitEnd)
      ensures old(bulk).value.owner.Holding? ==>
                && Waited() && stopped == history[waitEnd].finished
                && bulk.value.owner == Channel.Stopped(stopped)
    {
      hide Channel.IsRun;
      // Not joinable: joined or detached before.
      if bulk.value.owner.Stopped? { return true; }
      WaitForWorker();
      stopped := bulk.value.finished;
      Elapse(afterwards);
      if stopped { JoinWorker(); }
    }

    /**
     Frees a channel held exactly when its worker had finished when the wait ended,
     and then it has left its loop and been joined; otherwise releases it, even if
     the worker finishes just afterwards.
     */
    method DisposeBulk()
      requires ChannelOk()
      modifies this`bulk, this`history, this`waitEnd
      ensures ChannelOk() && bulk.None? && old(history) <= history
      ensures old(bulk).None? ==> history == old(history)
      ensures old(bulk).Some? ==>
                && Disposed()
                && var last := history[|history| - 1];
                   last.owner.Freed? ==> Channel.Shaped(last) && forall step :: Channel.WorkerApply(last, step).None?
    {
      if bulk.None? { return; }
      hide Channel.IsRun, Channel.Apply, Channel.WorkerApply, Channel.Inv, Channel.Shaped;
      var stopped := Stop();
      Elapse(afterwards);
      DisposeEffect(bulk.value);
      Take(Channel.Dispose);
      bulk := None;
      Channel.FreedOnlyAfterExit(history, |history| - 1, |history| - 1);
    }

    /** The channel: started for an endpoint and a bulk binding, and disposed of if the engine takes no sink. */
    method StartBulk()
      requires bulk.None? && history == []
      modifies this`endpointHeld, this`bulk, this`history, this`waitEnd
      ensures ChannelOk()
      ensures bulk.Some? <==> old(endpointHeld) && Calls(attempt.engine, Bulk, Sink)
    {
      hide Channel.Initial, Calls, Channel.Inv;
      CallsBound(attempt.engine);
      if endpointHeld && HasBinding(attempt.engine, Bulk) {
        endpointHeld := false;
        bulk, history := Some(Channel.Initial()), [Channel.Initial()];
        InitialHolding();
        if !Calls(attempt.engine, Bulk, Sink) {
          DisposeBulk();
        }
      }
    }

    method EnsureProbed()
      requires Valid()
      modifies this`probed, this`candidates, this`filesExamined, this`truncated, this`attempt,
               this`endpointHeld, this`bulk, this`history, this`waitEnd
      ensures Valid() && probed && old(history) <= history
      ensures old(probed) ==> bulk == old(bulk) && history == old(history)
    {
      hide RootsCut, Candidates, ChannelOk, Calls, BindFirst, RootsListing;
      if !probed {
        var scan := ScanForCandidates(setup.roots, setup.limits);
        candidates, filesExamined, truncated := scan.candidates, scan.filesExamined, scan.truncated;
        attempt := BindFirstAvailable(candidates, setup.profiles, setup.load);
        StartBulk();
        probed := true;
      }
    }

    method CapabilityClasses() returns (classes: seq<Bytes>)
      requires Valid()
      modifies this
      ensures Valid() && Handles() == old(Handles())
      ensures classes == OfferedClasses(setup)
    {
      EnsureProbed();
      classes := ClassNames(attempt.engine.profiles);
      if bulk.Some? {
        classes := classes + [BULK_CAPABILITY_CLASS];
      }
    }

    /** True exactly while an endpoint was given and the engine bound takes a sink for bulk. */
    method BulkChannel() returns (running: bool)
      requires Valid()
      modifies this
      ensures Valid() && Handles() == old(Handles())
      ensures running == CarriesAudio(setup)
    {
      EnsureProbed();
      return bulk.Some?;
    }

    method OpenTarget() returns (handle: Handle, reason: Reason)
      requires Valid()
      modifies this
      ensures Valid()
      ensures (Handles(), handle, reason) == OpenResult(setup, old(Handles()))
    {
      hide Probe, Examined, CarriesAudio, RootsCut, Candidates;
      EnsureProbed();
      if !IsBound(attempt.engine) { return 0, NoEngine; }
      handle := nextHandle;
      nextHandle := (nextHandle + 1) % U32;
      liveHandles := liveHandles + [handle];
      reason := Ok;
    }

    method CloseTarget(handle: Handle) returns (reason: Reason)
      requires Valid()
      modifies this`liveHandles
      ensures Valid() && reason == Ok
      ensures Handles() == CloseHandle(old(Handles()), handle)
    {
      hide Probe, Examined, CarriesAudio, RootsCut, Candidates;
      var live := liveHandles;
      var i := 0;
      assert live[0..] == live;
      while i < |live| && live[i] != handle
        invariant 0 <= i <= |live|
        invariant liveHandles == live
        invariant RemoveFirst(live, handle) == live[..i] + RemoveFirst(live[i..], handle)
      {
        assert live[i..][0] == live[i] && live[i..][1..] == live[i + 1..];
        Regroup(live[..i], [live[i]], RemoveFirst(live[i + 1..], handle));
        assert live[..i + 1] == live[..i] + [live[i]];
        i := i + 1;
      }
      if i < |live| {
        assert live[i..][1..] == live[i + 1..];
        liveHandles := live[..i] + live[i + 1..];
      } else {
        assert live[i..] == [] && live[..i] + [] == live;
      }
      return Ok;
    }

    method Post(handle: Handle) returns (reason: Reason)
      requires Valid()
      modifies this
      ensures Valid() && Handles() == old(Handles())
      ensures reason == CallResult(setup, Handles(), handle, Role.Post, Name)
    {
      EnsureProbed();
      if !IsBound(attempt.engine) { return NoEngine; }
      if handle !in liveHandles { return InvalidHandle; }
      if !Calls(attempt.engine, Role.Post, Name) { return UnsupportedOperation; }
      return Ok;
    }

    method SetLevel(handle: Handle) returns (reason: Reason)
      requires Valid()
      modifies this
      ensures Valid() && Handles() == old(Handles())
      ensures reason == CallResult(setup, Handles(), handle, Role.Set, Level)
    {
      EnsureProbed();
      if !IsBound(attempt.engine) { return NoEngine; }
      if handle !in liveHandles { return InvalidHandle; }
      if !Calls(attempt.engine, Role.Set, Level) { return UnsupportedOperation; }
      return Ok;
    }

    method TargetCount() returns (n: nat)
      ensures n == |Handles().live| % U32
    {
      n := |liveHandles| % U32;
    }

    /** The destructor: no channel is left running, and one that was is freed or released as above. */
    method Destroy()
      requires Valid()
      modifies this`bulk, this`history, this`waitEnd
      ensures bulk.None? && old(history) <= history
      ensures old(bulk).Some? ==>
                && Disposed()
                && var last := history[|history| - 1];
                   last.owner.Freed? ==> Channel.Shaped(last) && forall step :: Channel.WorkerApply(last, step).None?
    {
      DisposeBulk();
    }
  }

  // ------------------------------------------------------ the channel's steps

  /** A step of the engine's or of the worker's thread. */
  predicate OthersStep(step: Channel.Step) {
    !step.BeginStop? && !step.WaitEnds? && !step.Join? && !step.Dispose?
  }

  lemma OthersLeaveOwner(s: Channel.State, step: Channel.Step)
    requires Channel.Shaped(s) && OthersStep(step)
    ensures Channel.Apply(s, step).Some? ==> Channel.Apply(s, step).value.owner == s.owner
  {
    hide Channel.EngineApply, Channel.WorkerApply;
    Channel.EngineLeavesOwner(s, step);
    Channel.WorkerLeavesOwner(s, step);
  }

  lemma LastSound(run: seq<Channel.State>)
    requires Channel.IsRun(run)
    ensures Channel.Inv(run[|run| - 1]) && Channel.Shaped(run[|run| - 1])
  {
    Channel.RunInvariant(run, |run| - 1);
  }

  lemma JoiningSound(run: seq<Channel.State>)
    requires Channel.IsRun(run) && run[|run| - 1].owner.Joining?
    ensures var last := run[|run| - 1]; last.finished && (last.worker.Notifying? || last.worker.Exited?)
  {
    LastSound(run);
  }

  // What each step of the owner's does, and the worker's last one.

  lemma BeginStopEffect(s: Channel.State)
    ensures Channel.Shaped(s) && s.owner.Holding? ==>
              Channel.Apply(s, Channel.BeginStop) == Some(s.(owner := Channel.Waiting, stopping := true))
  {
  }

  lemma WaitEndsEffect(s: Channel.State)
    ensures Channel.Shaped(s) && s.owner.Waiting? ==>
              Channel.Apply(s, Channel.WaitEnds)
              == Some(s.(owner := if s.finished then Channel.Joining else Channel.Stopped(false)))
  {
  }

  lemma NotifyAllEffect(s: Channel.State)
    ensures Channel.Shaped(s) ==>
              Channel.Apply(s, Channel.NotifyAll)
              == if s.worker.Notifying? then Some(s.(worker := Channel.Exited)) else None
  {
  }

  lemma JoinEffect(s: Channel.State)
    ensures Channel.Shaped(s) && s.owner.Joining? && s.worker.Exited? ==>
              Channel.Apply(s, Channel.Join) == Some(s.(owner := Channel.Stopped(true)))
  {
  }

  lemma DisposeEffect(s: Channel.State)
    ensures Channel.Shaped(s) && s.owner.Stopped? ==>
              Channel.Apply(s, Channel.Dispose)
              == Some(s.(owner := if s.owner.ok then Channel.Freed else Channel.Released))
  {
  }

  lemma InitialHolding()
    ensures Channel.IsRun([Channel.Initial()]) && Channel.Initial().owner.Holding?
  {
  }

  lemma CallsBound(e: Engine)
    ensures Calls(e, Bulk, Sink) ==> HasBinding(e, Bulk)
  {
  }

  lemma RunSnoc(run: seq<Channel.State>, step: Channel.Step)
    requires Channel.IsRun(run) && Channel.Shaped(run[|run| - 1])
    requires Channel.Apply(run[|run| - 1], step).Some?
    ensures Channel.IsRun(run + [Channel.Apply(run[|run| - 1], step).value])
  {
    hide Channel.Apply, Channel.Shaped;
    var n := |run|;
    var more := run + [Channel.Apply(run[n - 1], step).value];
    forall i | 0 <= i < |more| - 1 ensures Channel.CanStep(more[i], more[i + 1]) {
      if i < n - 1 { assert Channel.CanStep(run[i], run[i + 1]); }
    }
  }

  /**
   The engine behind the backend, its classes in the order of the profiles it
   keeps, and what it can be called for.
   */
  lemma ProbedEngine(s: Setup, role: Role, shape: SymbolShape)
    ensures var r, cs := Probe(s), Candidates(Examined(s));
            var e, classes := r.engine, OfferedClasses(s);
            && (IsBound(e) ==> SomeChosen(r, cs, s.profiles, s.load))
            && (!IsBound(e) ==> NothingChosen(r, cs, s.profiles, s.load))
            && |classes| == |e.profiles| + (if CarriesAudio(s) then 1 else 0)
            && (forall i | 0 <= i < |e.profiles| :: classes[i] == e.profiles[i].capabilityClass)
            && (CarriesAudio(s) ==> classes[|e.profiles|] == Ascii("engine.bulk.pcm"))
            && (Calls(e, role, shape) <==>
                  EngineBinding(e.profiles, role).Some? && EngineBinding(e.profiles, role).value.shape == shape)
  {
    hide BindFirst, SomeChosen, NothingChosen, EngineBinding, AddressFor;
    var cs := Candidates(Examined(s));
    BoundToFirstThatSuits(cs, s.profiles, s.load);
    BoundEngineCalls(cs, s.profiles, s.load, role, shape);
    UnboundCalls(cs, s.profiles, s.load, role, shape);
  }

  lemma UnboundCalls(cs: seq<Candidate>, ps: seq<Profile>, load: Loader, role: Role, shape: SymbolShape)
    ensures var e := BindFirst(cs, ps, load).engine;
            !IsBound(e) ==> e.profiles == [] && !Calls(e, role, shape) && EngineBinding(e.profiles, role).None?
  {
    BoundToFirstThatSuits(cs, ps, load);
  }

  /** Which refusal an operation on a handle meets: no engine, then an unknown handle, then no entry point. */
  lemma RefusalsInOrder(s: Setup, t: Table, h: Handle, role: Role, shape: SymbolShape)
    ensures var reason, e := CallResult(s, t, h, role, shape), Probe(s).engine;
            && (reason == NoEngine <==> !IsBound(e))
            && (reason == InvalidHandle <==> IsBound(e) && h !in t.live)
            && (reason == UnsupportedOperation <==> IsBound(e) && h in t.live && !Calls(e, role, shape))
            && (reason == Ok <==> IsBound(e) && h in t.live && Calls(e, role, shape))
  {
    hide Probe, IsBound, Calls;
  }

  /** The channel runs exactly when the first satisfied bulk binding, in file order, has shape sink. */
  lemma CarriesAudioExactly(s: Setup)
    ensures var e := Probe(s).engine;
            CarriesAudio(s) <==>
              s.endpointGiven && EngineBinding(e.profiles, Bulk).Some?
              && EngineBinding(e.profiles, Bulk).value.shape == Sink
  {
    hide RecordProfiles, AddressFor, EngineBinding;
    var cs := Candidates(Examined(s));
    var k := FirstFit(cs, s.profiles, s.load);
    if s.profiles != [] && k < |cs| {
      ChosenEngineAgrees(s.load(cs[k].path).value, s.profiles, Bulk, Sink);
    } else {
      NothingBound();
    }
  }

  lemma NothingBound()
    ensures EngineBinding([], Bulk).None? && AddressFor(NO_ENGINE, Bulk, Sink).None?
  {
  }
}
