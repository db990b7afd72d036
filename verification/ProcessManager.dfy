/**
  The manager of amneziawg-go processes: a table guarded by one mutex, a watchdog for each process, and
  concurrent starts and stops. Each critical section is one step, and so is each wait, signal or exit.
*/
module ProcessManager {
  import opened Wrappers

  /** What the watchdog of a process has done; `error` is the result of the wait. */
  datatype Watchdog = Waiting | WaitReturned(error: Option<int>) | Finished

  /** A managed process. `waitErr` is set once assigned; `closes` counts the closings of the done channel. */
  datatype Entry = Entry(
    name: string, alive: bool, watchdog: Watchdog, stopping: bool, waitErr: Option<Option<int>>, closes: nat)
  {
    predicate DoneOpen() {
      closes == 0
    }

    predicate Reaped() {
      watchdog.Finished?
    }
  }

  datatype Table = Table(procs: map<string, nat>, entries: seq<Entry>)

  /** What a start finds at the socket of the interface. */
  datatype Probe = NoSocket | LiveSocket | StaleSocket(removed: bool)

  // ---------------------------------------------------------------------- critical sections

  datatype StartCheck = StopPending(id: nat) | Managed(id: nat) | External | Stuck | NotSpawned | Spawned(id: nat)

  function StartSection(t: Table, name: string, probe: Probe, spawns: bool): (Table, StartCheck) {
    if name in t.procs && t.procs[name] < |t.entries| && t.entries[t.procs[name]].stopping
    then (t, StopPending(t.procs[name]))
    else if name in t.procs then (t, Managed(t.procs[name]))
    else if probe.LiveSocket? then (t, External)
    else if probe.StaleSocket? && !probe.removed then (t, Stuck)
    else if !spawns then (t, NotSpawned)
    else (Table(t.procs[name := |t.entries|], t.entries + [Entry(name, true, Waiting, false, None, 0)]),
          Spawned(|t.entries|))
  }

  function StopSection(t: Table, name: string): (Table, Option<nat>) {
    if name in t.procs && t.procs[name] < |t.entries| then
      var id := t.procs[name];
      (t.(entries := t.entries[id := t.entries[id].(stopping := true)]), Some(id))
    else (t, None)
  }

  /** The section of the watchdog, once its wait has returned. */
  function ReapSection(t: Table, id: nat): Table
    requires id < |t.entries| && t.entries[id].watchdog.WaitReturned?
  {
    var e := t.entries[id];
    Table(
      if e.name in t.procs && t.procs[e.name] == id then t.procs - {e.name} else t.procs,
      t.entries[id := e.(watchdog := Finished, waitErr := Some(e.watchdog.error), closes := e.closes + 1)])
  }

  /** The shared table as the program updates it. */
  class ProcessTable {
    var procs: map<string, nat>
    var entries: seq<Entry>

    constructor ()
      ensures Contents() == Table(map[], [])
    {
      procs, entries := map[], [];
    }

    function Contents(): Table
      reads this
    {
      Table(procs, entries)
    }

    method CheckAndSpawn(name: string, probe: Probe, spawns: bool) returns (r: StartCheck)
      requires TableInvariant(Contents())
      modifies this
      ensures (Contents(), r) == StartSection(old(Contents()), name, probe, spawns)
    {
      if name in procs {
        var id := procs[name];
        if entries[id].stopping {
          return StopPending(id);
        }
        return Managed(id);
      }
      if !probe.NoSocket? {
        if probe.LiveSocket? {
          return External;
        }
        if !probe.removed {
          return Stuck;
        }
      }
      if !spawns {
        return NotSpawned;
      }
      var entry := Entry(name, true, Waiting, false, None, 0);
      r := Spawned(|entries|);
      procs := procs[name := |entries|];
      entries := entries + [entry];
    }

    method MarkStopping(name: string) returns (id: Option<nat>)
      requires TableInvariant(Contents())
      modifies this`entries
      ensures (Contents(), id) == StopSection(old(Contents()), name)
    {
      if name !in procs {
        return None;
      }
      id := Some(procs[name]);
      entries := entries[id.value := entries[id.value].(stopping := true)];
    }

    method Reap(id: nat)
      requires id < |entries| && entries[id].watchdog.WaitReturned?
      modifies this
      ensures Contents() == ReapSection(old(Contents()), id)
    {
      var entry := entries[id];
      entries := entries[id := entries[id].(waitErr := Some(entry.watchdog.error))];
      if entry.name in procs && procs[entry.name] == id {
        procs := procs - {entry.name};
      }
      entries := entries[id := entries[id].(closes := entries[id].closes + 1, watchdog := Finished)];
    }

    /** A tracked process that is not being stopped; it has not been reaped. */
    method IsRunning(name: string) returns (r: bool)
      requires TableInvariant(Contents())
      ensures r <==> name in procs && !entries[procs[name]].stopping
      ensures r ==> !entries[procs[name]].Reaped() && entries[procs[name]].name == name
    {
      if name !in procs {
        return false;
      }
      assert EntryInvariant(Contents(), procs[name]);
      return !entries[procs[name]].stopping;
    }
  }

  // ---------------------------------------------------------------------- runs

  /** What follows a stop: nothing, the failure of a start that timed out, or the stops still to do. */
  datatype After = JustStop | AfterTimeout(spawned: nat) | StopRest(rest: seq<string>, listed: map<string, nat>)

  datatype Result =
    | AlreadyManaged(id: nat)
    | SocketAlive
    | SocketStuck
    | SpawnFailed
    | IsReady(id: nat)
    | ExitedDuringStartup(id: nat, error: Option<int>)
    | TimedOut(id: nat)
    | Stopped(name: string, stopped: Option<nat>)
    | AllStopped(listed: map<string, nat>)

  /** Where a call stands. */
  datatype Call =
    | StartCalled(name: string)
    | AwaitsStop(name: string, id: nat)
    | AwaitsReady(name: string, id: nat)
    | SawExit(name: string, id: nat)
    | StopCalled(name: string, after: After)
    | Pkills(name: string, after: After)
    | Signals(name: string, id: nat, after: After)
    | AwaitsReap(name: string, id: nat, killed: bool, after: After)
    | StopAllCalled
    | Returned(result: Result)

  datatype State = State(table: Table, calls: map<nat, Call>)

  const INITIAL := State(Table(map[], []), map[])

  datatype Label =
    | BeginStart(c: nat, name: string)
    | BeginStop(c: nat, name: string)
    | BeginStopAll(c: nat)
    | StartChecks(c: nat, probe: Probe, spawns: bool)
    | StartRetries(c: nat)
    | StartSeesExit(c: nat)
    | StartSeesReady(c: nat)
    | StartTimesOut(c: nat)
    | StartReadsError(c: nat)
    | StopMarks(c: nat)
    | StopPkills(c: nat)
    | StopSignals(c: nat)
    | StopEscalates(c: nat)
    | StopSeesReap(c: nat)
    | StopAllLists(c: nat, names: seq<string>)
    | Exits(id: nat)
    | WaitReturns(id: nat, error: Option<int>)
    | Reaps(id: nat)

  predicate Closed(t: Table, id: nat) {
    id < |t.entries| && !t.entries[id].DoneOpen()
  }

  /** Where a call goes when its stop of `name` has found `stopped`. */
  function AfterStop(after: After, name: string, stopped: Option<nat>): Call {
    match after
    case JustStop => Returned(Stopped(name, stopped))
    case AfterTimeout(id) => Returned(TimedOut(id))
    case StopRest(rest, listed) =>
      if rest == [] then Returned(AllStopped(listed)) else StopCalled(rest[0], StopRest(rest[1..], listed))
  }

  function AfterCheck(name: string, check: StartCheck): Call {
    match check
    case StopPending(id) => AwaitsStop(name, id)
    case Managed(id) => Returned(AlreadyManaged(id))
    case External => Returned(SocketAlive)
    case Stuck => Returned(SocketStuck)
    case NotSpawned => Returned(SpawnFailed)
    case Spawned(id) => AwaitsReady(name, id)
  }

  /** The names are those of the table, in any order. */
  predicate Lists(names: seq<string>, procs: map<string, nat>) {
    && (forall i :: 0 <= i < |names| ==> names[i] in procs)
    && (forall n :: n in procs ==> n in names)
    && (forall i, j :: 0 <= i < j < |names| ==> names[i] != names[j])
  }

  /** The next point of a call, or none when the step is not enabled. */
  function CallStep(t: Table, call: Call, l: Label): Option<(Table, Call)> {
    match (l, call)
    case (StartChecks(_, probe, spawns), StartCalled(name)) =>
      var (t', check) := StartSection(t, name, probe, spawns);
      Some((t', AfterCheck(name, check)))
    case (StartRetries(_), AwaitsStop(name, id)) =>
      if Closed(t, id) then Some((t, StartCalled(name))) else None
    case (StartSeesExit(_), AwaitsReady(name, id)) =>
      if Closed(t, id) then Some((t, SawExit(name, id))) else None
    case (StartSeesReady(_), AwaitsReady(name, id)) => Some((t, Returned(IsReady(id))))
    case (StartTimesOut(_), AwaitsReady(name, id)) => Some((t, StopCalled(name, AfterTimeout(id))))
    case (StartReadsError(_), SawExit(name, id)) =>
      var read := if id < |t.entries| && t.entries[id].waitErr.Some? then t.entries[id].waitErr.value else None;
      Some((t, Returned(ExitedDuringStartup(id, read))))
    case (StopMarks(_), StopCalled(name, after)) =>
      var (t', found) := StopSection(t, name);
      Some((t', if found.Some? then Signals(name, found.value, after) else Pkills(name, after)))
    case (StopPkills(_), Pkills(name, after)) => Some((t, AfterStop(after, name, None)))
    case (StopSignals(_), Signals(name, id, after)) => Some((t, AwaitsReap(name, id, false, after)))
    case (StopEscalates(_), AwaitsReap(name, id, false, after)) => Some((t, AwaitsReap(name, id, true, after)))
    case (StopSeesReap(_), AwaitsReap(name, id, _, after)) =>
      if Closed(t, id) then Some((t, AfterStop(after, name, Some(id)))) else None
    case (StopAllLists(_, names), StopAllCalled) =>
      if !Lists(names, t.procs) then None
      else if names == [] then Some((t, Returned(AllStopped(t.procs))))
      else Some((t, StopCalled(names[0], StopRest(names[1..], t.procs))))
    case _ => None
  }

  /** The next state, or none when the step is not enabled. */
  function Step(s: State, l: Label): Option<State> {
    match l
    case BeginStart(c, name) => if c in s.calls then None else Some(s.(calls := s.calls[c := StartCalled(name)]))
    case BeginStop(c, name) =>
      if c in s.calls then None else Some(s.(calls := s.calls[c := StopCalled(name, JustStop)]))
    case BeginStopAll(c) => if c in s.calls then None else Some(s.(calls := s.calls[c := StopAllCalled]))
    case Exits(id) =>
      if id < |s.table.entries| then
        Some(s.(table := s.table.(entries := s.table.entries[id := s.table.entries[id].(alive := false)])))
      else None
    case WaitReturns(id, error) =>
      if id < |s.table.entries| && !s.table.entries[id].alive && s.table.entries[id].watchdog.Waiting? then
        Some(s.(table := s.table.(entries := s.table.entries[id :=
            s.table.entries[id].(watchdog := WaitReturned(error))])))
      else None
    case Reaps(id) =>
      if id < |s.table.entries| && s.table.entries[id].watchdog.WaitReturned? then
        Some(s.(table := ReapSection(s.table, id)))
      else None
    case _ =>
      if l.c !in s.calls then None
      else
        match CallStep(s.table, s.calls[l.c], l)
        case None => None
        case Some((t, call)) => Some(State(t, s.calls[l.c := call]))
  }

  /** The state a run ends in, if all its steps are enabled. */
  function Exec(run: seq<Label>): Option<State> {
    if run == [] then Some(INITIAL)
    else
      match Exec(run[..|run| - 1])
      case None => None
      case Some(s) => Step(s, run[|run| - 1])
  }

  // ---------------------------------------------------------------------- what every run keeps

  predicate Tracked(t: Table, id: nat) {
    id < |t.entries| && t.entries[id].name in t.procs && t.procs[t.entries[id].name] == id
  }

  predicate EntryInvariant(t: Table, id: nat)
    requires id < |t.entries|
  {
    var e := t.entries[id];
    && (e.DoneOpen() <==> Tracked(t, id))
    && (e.Reaped() <==> e.closes == 1)
    && e.closes <= 1
    && (e.Reaped() <==> e.waitErr.Some?)
    && (!e.watchdog.Waiting? ==> !e.alive)
  }

  predicate TableInvariant(t: Table) {
    && (forall n :: n in t.procs ==> t.procs[n] < |t.entries| && t.entries[t.procs[n]].name == n)
    && (forall id :: 0 <= id < |t.entries| ==> EntryInvariant(t, id))
  }

  predicate Known(t: Table, name: string, id: nat) {
    id < |t.entries| && t.entries[id].name == name
  }

  predicate Gone(t: Table, id: nat) {
    id < |t.entries| && t.entries[id].Reaped()
  }

  /** Of the processes listed by a call that stops all, those not in `rest` nor named `name` are reaped. */
  predicate AfterInvariant(t: Table, after: After, name: string) {
    match after
    case JustStop => true
    case AfterTimeout(id) => Known(t, name, id)
    case StopRest(rest, listed) =>
      forall n :: n in listed ==> Known(t, n, listed[n]) && (n in rest || n == name || Gone(t, listed[n]))
  }

  /** A listed process of this name is the one being stopped, or reaped. */
  predicate Stops(t: Table, after: After, name: string, id: nat) {
    after.StopRest? && name in after.listed ==> after.listed[name] == id || Gone(t, after.listed[name])
  }

  predicate ResultInvariant(t: Table, result: Result) {
    match result
    case AlreadyManaged(id) => id < |t.entries|
    case IsReady(id) => id < |t.entries|
    case ExitedDuringStartup(id, error) => Gone(t, id) && t.entries[id].waitErr == Some(error)
    case TimedOut(id) => id < |t.entries|
    case Stopped(name, stopped) => stopped.Some? ==> Known(t, name, stopped.value) && Gone(t, stopped.value)
    case AllStopped(listed) => forall n :: n in listed ==> Known(t, n, listed[n]) && Gone(t, listed[n])
    case _ => true
  }

  predicate CallInvariant(t: Table, call: Call) {
    match call
    case StartCalled(_) => true
    case AwaitsStop(name, id) => Known(t, name, id) && t.entries[id].stopping
    case AwaitsReady(name, id) => Known(t, name, id)
    case SawExit(name, id) => Known(t, name, id) && Gone(t, id)
    case StopCalled(name, after) => AfterInvariant(t, after, name)
    case Pkills(name, after) =>
      AfterInvariant(t, after, name) &&
      (after.StopRest? && name in after.listed ==> Gone(t, after.listed[name]))
    case Signals(name, id, after) =>
      Known(t, name, id) && t.entries[id].stopping && AfterInvariant(t, after, name) && Stops(t, after, name, id)
    case AwaitsReap(name, id, _, after) =>
      Known(t, name, id) && t.entries[id].stopping && AfterInvariant(t, after, name) && Stops(t, after, name, id)
    case StopAllCalled => true
    case Returned(result) => ResultInvariant(t, result)
  }

  predicate Invariant(s: State) {
    && TableInvariant(s.table)
    && forall c :: c in s.calls ==> CallInvariant(s.table, s.calls[c])
  }

  /** How entries change: names stay, stopping and reaping are final, and so is what the wait returned. */
  predicate Grows(t: Table, t': Table) {
    && |t.entries| <= |t'.entries|
    && forall id :: 0 <= id < |t.entries| ==>
         var e, e' := t.entries[id], t'.entries[id];
         && e'.name == e.name
         && (e.stopping ==> e'.stopping)
         && (!e.alive ==> !e'.alive)
         && e.closes <= e'.closes
         && (e.Reaped() ==> e'.Reaped() && e'.waitErr == e.waitErr && e'.closes == e.closes)
  }

  lemma CallInvariantIsStable(t: Table, t': Table, call: Call)
    requires Grows(t, t') && CallInvariant(t, call)
    ensures CallInvariant(t', call)
  {
  }

  lemma StartSectionKeeps(t: Table, name: string, probe: Probe, spawns: bool)
    requires TableInvariant(t)
    ensures var (t', check) := StartSection(t, name, probe, spawns);
            Grows(t, t') && TableInvariant(t') && CallInvariant(t', AfterCheck(name, check))
  {
    var (t', check) := StartSection(t, name, probe, spawns);
    if check.Spawned? {
      forall id | 0 <= id < |t'.entries|
        ensures EntryInvariant(t', id)
      {
        if id < |t.entries| {
          assert EntryInvariant(t, id);
        }
      }
    }
  }

  lemma StopSectionKeeps(t: Table, name: string)
    requires TableInvariant(t)
    ensures var (t', found) := StopSection(t, name);
            Grows(t, t') && TableInvariant(t') &&
            (found.Some? ==> Known(t', name, found.value) && t'.entries[found.value].stopping)
  {
    var (t', found) := StopSection(t, name);
    forall id | 0 <= id < |t'.entries|
      ensures EntryInvariant(t', id)
    {
      assert EntryInvariant(t, id);
    }
  }

  lemma ReapSectionKeeps(t: Table, id: nat)
    requires TableInvariant(t) && id < |t.entries| && t.entries[id].watchdog.WaitReturned?
    ensures Grows(t, ReapSection(t, id)) && TableInvariant(ReapSection(t, id))
    ensures Tracked(t, id) && !Tracked(ReapSection(t, id), id)
  {
    var t' := ReapSection(t, id);
    assert EntryInvariant(t, id);
    forall j | 0 <= j < |t'.entries|
      ensures EntryInvariant(t', j)
    {
      assert EntryInvariant(t, j);
    }
  }

  lemma FoundDecides(t: Table, name: string, after: After)
    requires TableInvariant(t) && AfterInvariant(t, after, name)
    ensures after.StopRest? && name in after.listed ==>
              if name in t.procs then after.listed[name] == t.procs[name] || Gone(t, after.listed[name])
              else Gone(t, after.listed[name])
  {
    if after.StopRest? && name in after.listed {
      assert EntryInvariant(t, after.listed[name]);
    }
  }

  lemma AfterStopKeeps(t: Table, after: After, name: string, stopped: Option<nat>)
    requires AfterInvariant(t, after, name)
    requires stopped.Some? ==> Known(t, name, stopped.value) && Gone(t, stopped.value)
    requires after.StopRest? && name in after.listed ==> Gone(t, after.listed[name])
    ensures CallInvariant(t, AfterStop(after, name, stopped))
  {
  }

  lemma CallStepKeeps(t: Table, call: Call, l: Label)
    requires TableInvariant(t) && CallInvariant(t, call) && CallStep(t, call, l).Some?
    ensures var (t', call') := CallStep(t, call, l).value;
            Grows(t, t') && TableInvariant(t') && CallInvariant(t', call')
  {
    if call.StartCalled? || call.AwaitsStop? || call.AwaitsReady? || call.SawExit? {
      StartStepKeeps(t, call, l);
    } else if call.StopCalled? {
      MarkStepKeeps(t, call, l);
    } else {
      StopStepKeeps(t, call, l);
    }
  }

  lemma StartStepKeeps(t: Table, call: Call, l: Label)
    requires call.StartCalled? || call.AwaitsStop? || call.AwaitsReady? || call.SawExit?
    requires TableInvariant(t) && CallInvariant(t, call) && CallStep(t, call, l).Some?
    ensures var (t', call') := CallStep(t, call, l).value;
            Grows(t, t') && TableInvariant(t') && CallInvariant(t', call')
  {
    if call.StartCalled? {
      StartSectionKeeps(t, call.name, l.probe, l.spawns);
    } else {
      assert EntryInvariant(t, call.id);
    }
  }

  lemma MarkStepKeeps(t: Table, call: Call, l: Label)
    requires call.StopCalled?
    requires TableInvariant(t) && CallInvariant(t, call) && CallStep(t, call, l).Some?
    ensures var (t', call') := CallStep(t, call, l).value;
            Grows(t, t') && TableInvariant(t') && CallInvariant(t', call')
  {
    StopSectionKeeps(t, call.name);
    FoundDecides(t, call.name, call.after);
  }

  lemma StopStepKeeps(t: Table, call: Call, l: Label)
    requires call.Pkills? || call.Signals? || call.AwaitsReap? || call.StopAllCalled? || call.Returned?
    requires TableInvariant(t) && CallInvariant(t, call) && CallStep(t, call, l).Some?
    ensures var (t', call') := CallStep(t, call, l).value;
            Grows(t, t') && TableInvariant(t') && CallInvariant(t', call')
  {
    if call.Pkills? {
      AfterStopKeeps(t, call.after, call.name, None);
    } else if call.AwaitsReap? && l.StopSeesReap? {
      assert EntryInvariant(t, call.id);
      AfterStopKeeps(t, call.after, call.name, Some(call.id));
    }
  }

  lemma WatchdogStepKeeps(t: Table, id: nat, e: Entry)
    requires TableInvariant(t) && id < |t.entries|
    requires e == t.entries[id].(alive := false) ||
             exists error :: !t.entries[id].alive && t.entries[id].watchdog.Waiting? &&
                             e == t.entries[id].(watchdog := WaitReturned(error))
    ensures var t' := t.(entries := t.entries[id := e]);
            Grows(t, t') && TableInvariant(t')
  {
    var t' := t.(entries := t.entries[id := e]);
    forall j | 0 <= j < |t'.entries|
      ensures EntryInvariant(t', j)
    {
      assert EntryInvariant(t, j);
    }
  }

  lemma StepKeeps(s: State, l: Label)
    requires Invariant(s) && Step(s, l).Some?
    ensures Invariant(Step(s, l).value) && Grows(s.table, Step(s, l).value.table)
  {
    hide TableInvariant, CallInvariant, Grows, CallStep;
    var s' := Step(s, l).value;
    if l.Exits? {
      WatchdogStepKeeps(s.table, l.id, s.table.entries[l.id].(alive := false));
    } else if l.WaitReturns? {
      WatchdogStepKeeps(s.table, l.id, s.table.entries[l.id].(watchdog := WaitReturned(l.error)));
    } else if l.Reaps? {
      ReapSectionKeeps(s.table, l.id);
    } else if l.BeginStart? || l.BeginStop? || l.BeginStopAll? {
      BeginKeeps(s.table, s'.calls[l.c], l);
    } else {
      CallStepKeeps(s.table, s.calls[l.c], l);
    }
    forall c | c in s'.calls
      ensures CallInvariant(s'.table, s'.calls[c])
    {
      if c in s.calls && s'.calls[c] == s.calls[c] {
        CallInvariantIsStable(s.table, s'.table, s.calls[c]);
      }
    }
  }

  lemma BeginKeeps(t: Table, call: Call, l: Label)
    ensures Grows(t, t)
    ensures call.StartCalled? || call.StopAllCalled? || (call.StopCalled? && call.after.JustStop?) ==>
              CallInvariant(t, call)
  {
  }

  lemma {:induction false} RunKeeps(run: seq<Label>)
    requires Exec(run).Some?
    ensures Invariant(Exec(run).value)
  {
    hide Invariant, Step;
    if run == [] {
      InitialHolds();
    } else {
      RunKeeps(run[..|run| - 1]);
      StepKeeps(Exec(run[..|run| - 1]).value, run[|run| - 1]);
    }
  }

  lemma InitialHolds()
    ensures Invariant(INITIAL)
  {
  }

  // ---------------------------------------------------------------------- what a run guarantees

  /** In every reachable state the done channel of an entry is open iff the table tracks the entry. */
  lemma DoneOpenIffTracked(run: seq<Label>, id: nat)
    requires Exec(run).Some? && id < |Exec(run).value.table.entries|
    ensures var t := Exec(run).value.table;
            && (t.entries[id].DoneOpen() <==> Tracked(t, id))
            && (t.entries[id].DoneOpen() <==> !t.entries[id].Reaped())
            && (Tracked(t, id) <==> t.entries[id].waitErr.None?)
            && t.entries[id].closes <= 1
  {
    RunKeeps(run);
    assert EntryInvariant(Exec(run).value.table, id);
  }

  /** At most one managed process of an interface has not been reaped. */
  lemma AtMostOneProcess(run: seq<Label>, i: nat, j: nat)
    requires Exec(run).Some?
    requires var t := Exec(run).value.table;
             i < |t.entries| && j < |t.entries| && t.entries[i].name == t.entries[j].name
             && !t.entries[i].Reaped() && !t.entries[j].Reaped()
    ensures i == j
  {
    DoneOpenIffTracked(run, i);
    DoneOpenIffTracked(run, j);
  }

  /** The state before and after the last step of a run. */
  predicate LastStep(run: seq<Label>, before: State, after: State) {
    run != [] && Exec(run[..|run| - 1]) == Some(before) && Exec(run) == Some(after)
  }

  /**
    What a start does under the lock. If the tracked process is being stopped it waits for that very process;
    if it is not, the interface is managed already. Otherwise the socket decides: a live one is left alone, a
    stale one that stays is an error, and without one a new entry is tracked, alive and not being stopped.
  */
  lemma StartDecides(run: seq<Label>, before: State, after: State, c: nat, name: string, probe: Probe, spawns: bool)
    requires LastStep(run, before, after) && run[|run| - 1] == StartChecks(c, probe, spawns)
    requires c in before.calls && before.calls[c] == StartCalled(name)
    ensures c in after.calls && forall other :: other in before.calls && other != c ==>
              other in after.calls && after.calls[other] == before.calls[other]
    ensures var (procs, entries, call) := (before.table.procs, before.table.entries, after.calls[c]);
            if name in procs then
              && procs[name] < |entries| && after.table == before.table
              && call == (if entries[procs[name]].stopping then AwaitsStop(name, procs[name])
                          else Returned(AlreadyManaged(procs[name])))
            else if probe == LiveSocket then call == Returned(SocketAlive) && after.table == before.table
            else if probe == StaleSocket(false) then call == Returned(SocketStuck) && after.table == before.table
            else if !spawns then call == Returned(SpawnFailed) && after.table == before.table
            else
              && call == AwaitsReady(name, |entries|)
              && after.table.procs == procs[name := |entries|]
              && |after.table.entries| == |entries| + 1 && after.table.entries[..|entries|] == entries
              && var e := after.table.entries[|entries|];
                 && e.name == name && e.alive && e.watchdog.Waiting? && !e.stopping
                 && e.waitErr.None? && e.closes == 0
  {
    RunKeeps(run[..|run| - 1]);
    if name in before.table.procs {
      assert EntryInvariant(before.table, before.table.procs[name]);
    }
  }

  /** No start calls a process managed that is being stopped, or is gone. */
  lemma ManagedIsNotStopping(run: seq<Label>, before: State, after: State, c: nat, id: nat)
    requires LastStep(run, before, after) && run[|run| - 1].StartChecks? && run[|run| - 1].c == c
    requires c in after.calls && after.calls[c] == Returned(AlreadyManaged(id))
    ensures id < |before.table.entries|
    ensures !before.table.entries[id].stopping && !before.table.entries[id].Reaped()
  {
    RunKeeps(run[..|run| - 1]);
    var l := run[|run| - 1];
    assert c in before.calls && before.calls[c].StartCalled?;
    StartDecides(run, before, after, c, before.calls[c].name, l.probe, l.spawns);
    assert EntryInvariant(before.table, id);
  }

  /** A start that has found its process being stopped goes on only when that process has been reaped. */
  lemma {:induction false} StartWaitsForReaping(run: seq<Label>, k: nat, c: nat, name: string, id: nat)
    requires k < |run| && run[k].StartChecks? && run[k].c == c && Exec(run).Some? && Exec(run[..k]).Some?
    requires var s := Exec(run[..k]).value;
             && c in s.calls && s.calls[c] == StartCalled(name) && name in s.table.procs && s.table.procs[name] == id
             && id < |s.table.entries| && s.table.entries[id].stopping
    ensures c in Exec(run).value.calls
    ensures var t, call := Exec(run).value.table, Exec(run).value.calls[c];
            call == AwaitsStop(name, id) || (Gone(t, id) && !t.entries[id].alive)
  {
    hide Invariant, CallStep, Step, Grows;
    var n := |run| - 1;
    var s := Exec(run[..n]).value;
    RunKeeps(run[..n]);
    if k == n {
      StartDecides(run, s, Exec(run).value, c, name, run[k].probe, run[k].spawns);
    } else {
      assert run[..n][..k] == run[..k];
      StartWaitsForReaping(run[..n], k, c, name, id);
      OtherStep(s, run[n], c);
      StepKeeps(s, run[n]);
      WaitStays(s, run[n], c, name, id);
    }
  }

  lemma WaitStays(s: State, l: Label, c: nat, name: string, id: nat)
    requires Invariant(s) && Step(s, l).Some? && c in s.calls
    requires Invariant(Step(s, l).value) && Grows(s.table, Step(s, l).value.table)
    requires s.calls[c] == AwaitsStop(name, id) || Gone(s.table, id)
    requires var s' := Step(s, l).value;
             c in s'.calls &&
             (s'.calls[c] == s.calls[c]
              || (CallStep(s.table, s.calls[c], l).Some? && CallStep(s.table, s.calls[c], l).value.1 == s'.calls[c]))
    ensures var s' := Step(s, l).value;
            s'.calls[c] == AwaitsStop(name, id) || (Gone(s'.table, id) && !s'.table.entries[id].alive)
  {
    hide Step;
    if s.calls[c] == AwaitsStop(name, id) {
      assert CallInvariant(s.table, s.calls[c]);
    }
    assert EntryInvariant(s.table, id);
    assert EntryInvariant(Step(s, l).value.table, id);
  }

  /** A stop marks the tracked entry, and changes nothing else; without one it falls back to `pkill`. */
  lemma StopDecides(run: seq<Label>, before: State, after: State, c: nat, name: string, rest: After)
    requires LastStep(run, before, after) && run[|run| - 1] == StopMarks(c)
    requires c in before.calls && before.calls[c] == StopCalled(name, rest)
    ensures c in after.calls && after.table.procs == before.table.procs
    ensures |after.table.entries| == |before.table.entries|
    ensures if name in before.table.procs then
              var id := before.table.procs[name];
              && id < |before.table.entries| && after.calls[c] == Signals(name, id, rest)
              && after.table.entries[id] == before.table.entries[id].(stopping := true)
              && forall other :: 0 <= other < |before.table.entries| && other != id ==>
                   after.table.entries[other] == before.table.entries[other]
            else after.calls[c] == Pkills(name, rest) && after.table == before.table
  {
    RunKeeps(run[..|run| - 1]);
    if name in before.table.procs {
      assert EntryInvariant(before.table, before.table.procs[name]);
    }
  }

  /** What the wait for a process returned is what its entry records, from then on. */
  lemma {:induction false} WaitErrorIsRecorded(run: seq<Label>, k: nat, id: nat, error: Option<int>)
    requires k < |run| && run[k] == WaitReturns(id, error) && Exec(run).Some?
    ensures id < |Exec(run).value.table.entries|
    ensures var e := Exec(run).value.table.entries[id];
            !e.alive && if e.Reaped() then e.waitErr == Some(error) else e.watchdog == WaitReturned(error)
  {
    hide Invariant, CallStep;
    var n := |run| - 1;
    var s := Exec(run[..n]).value;
    RunKeeps(run[..n]);
    StepKeeps(s, run[n]);
    if k < n {
      WaitErrorIsRecorded(run[..n], k, id, error);
      RecordStays(s, run[n], id, error);
    } else {
      WaitingIsNotReaped(s, id);
    }
  }

  lemma WaitingIsNotReaped(s: State, id: nat)
    requires Invariant(s) && id < |s.table.entries| && s.table.entries[id].watchdog.Waiting?
    ensures !s.table.entries[id].Reaped()
  {
  }

  lemma RecordStays(s: State, l: Label, id: nat, error: Option<int>)
    requires Invariant(s) && Step(s, l).Some? && Grows(s.table, Step(s, l).value.table) && id < |s.table.entries|
    requires var e := s.table.entries[id];
             !e.alive && if e.Reaped() then e.waitErr == Some(error) else e.watchdog == WaitReturned(error)
    ensures id < |Step(s, l).value.table.entries|
    ensures var e := Step(s, l).value.table.entries[id];
            !e.alive && if e.Reaped() then e.waitErr == Some(error) else e.watchdog == WaitReturned(error)
  {
    hide Invariant;
  }

  /** A process is spawned only when all earlier ones of the interface have exited and been reaped. */
  lemma SpawnsWhenAllAreGone(run: seq<Label>, c: nat, probe: Probe, name: string)
    requires Exec(run).Some? && Exec(run + [StartChecks(c, probe, true)]).Some?
    requires c in Exec(run).value.calls && Exec(run).value.calls[c] == StartCalled(name)
    ensures var t, s' := Exec(run).value.table, Exec(run + [StartChecks(c, probe, true)]).value;
            s'.calls[c].AwaitsReady? <==>
              && (forall id :: 0 <= id < |t.entries| && t.entries[id].name == name ==>
                   t.entries[id].Reaped() && !t.entries[id].alive)
              && !probe.LiveSocket? && probe != StaleSocket(false)
  {
    hide CallStep;
    var s := Exec(run).value;
    var l := StartChecks(c, probe, true);
    Extend(run, l);
    RunKeeps(run);
    CheckStep(s.table, name, l);
    SpawnedIff(s.table, name, probe);
  }

  lemma SpawnedIff(t: Table, name: string, probe: Probe)
    requires TableInvariant(t)
    ensures StartSection(t, name, probe, true).1.Spawned? <==>
              && (forall id :: 0 <= id < |t.entries| && t.entries[id].name == name ==>
                   t.entries[id].Reaped() && !t.entries[id].alive)
              && !probe.LiveSocket? && probe != StaleSocket(false)
  {
    if name in t.procs {
      assert EntryInvariant(t, t.procs[name]);
    } else {
      forall id | 0 <= id < |t.entries| && t.entries[id].name == name
        ensures t.entries[id].Reaped() && !t.entries[id].alive
      {
        assert EntryInvariant(t, id);
      }
    }
  }

  lemma CheckStep(t: Table, name: string, l: Label)
    requires l.StartChecks?
    ensures CallStep(t, StartCalled(name), l) ==
              var (t', check) := StartSection(t, name, l.probe, l.spawns);
              Some((t', AfterCheck(name, check)))
  {
  }

  lemma Extend(run: seq<Label>, l: Label)
    ensures Exec(run + [l]) == match Exec(run) case None => None case Some(s) => Step(s, l)
  {
    assert (run + [l])[..|run|] == run;
  }

  /** Later states only add entries; what was closed, reaped or being stopped stays so. */
  lemma {:induction false} RunGrows(run: seq<Label>, k: nat)
    requires k <= |run| && Exec(run).Some?
    ensures Exec(run[..k]).Some? && Grows(Exec(run[..k]).value.table, Exec(run).value.table)
  {
    hide Step, Invariant;
    if k == |run| {
      assert run[..k] == run;
    } else {
      var n := |run| - 1;
      assert run[..n][..k] == run[..k];
      RunGrows(run[..n], k);
      RunKeeps(run[..n]);
      StepKeeps(Exec(run[..n]).value, run[n]);
    }
  }

  /** A stop that finds nothing to stop has no managed process left to wait for. */
  lemma UntrackedIsGone(run: seq<Label>, name: string, id: nat)
    requires Exec(run).Some?
    requires name !in Exec(run).value.table.procs && Known(Exec(run).value.table, name, id)
    ensures Gone(Exec(run).value.table, id) && !Exec(run).value.table.entries[id].alive
  {
    RunKeeps(run);
    assert EntryInvariant(Exec(run).value.table, id);
  }

  /** A stop that has marked the entry, and is not over. */
  predicate InStop(call: Call, name: string, id: nat, after: After) {
    || call == Signals(name, id, after)
    || call == AwaitsReap(name, id, false, after)
    || call == AwaitsReap(name, id, true, after)
  }

  /** Where a call stands that has marked the entry: still in the stop, or past it with the entry reaped. */
  predicate StopStands(t: Table, call: Call, name: string, id: nat, after: After) {
    || InStop(call, name, id, after)
    || (Gone(t, id) && (!after.StopRest? ==> call == AfterStop(after, name, Some(id))))
  }

  lemma OtherStep(s: State, l: Label, c: nat)
    requires Step(s, l).Some? && c in s.calls
    ensures var s' := Step(s, l).value;
            c in s'.calls &&
            (s'.calls[c] == s.calls[c]
             || (CallStep(s.table, s.calls[c], l).Some? && CallStep(s.table, s.calls[c], l).value.1 == s'.calls[c]))
  {
    hide CallStep;
  }

  /**
    Once a stop has marked the tracked entry, it goes on only when that entry has been reaped, whatever follows:
    its return, the failure of a start that timed out, or further stops.
  */
  lemma {:induction false} StopWaitsForReaping(run: seq<Label>, k: nat, c: nat, name: string, id: nat, after: After)
    requires k < |run| && run[k] == StopMarks(c) && Exec(run).Some? && Exec(run[..k]).Some?
    requires var s := Exec(run[..k]).value;
             c in s.calls && s.calls[c] == StopCalled(name, after) && name in s.table.procs
             && s.table.procs[name] == id
    ensures c in Exec(run).value.calls
    ensures var t, call := Exec(run).value.table, Exec(run).value.calls[c];
            && StopStands(t, call, name, id, after)
            && (call.Returned? ==>
                 && Gone(t, id) && !t.entries[id].alive
                 && (after.JustStop? ==> call.result == Stopped(name, Some(id)))
                 && (after.AfterTimeout? ==> call.result == TimedOut(after.spawned)))
  {
    hide Invariant, CallStep, Step, Grows;
    var n := |run| - 1;
    var s := Exec(run[..n]).value;
    RunKeeps(run[..n]);
    if k == n {
      MarkStep(s, c, name);
    } else {
      assert run[..n][..k] == run[..k];
      StopWaitsForReaping(run[..n], k, c, name, id, after);
      OtherStep(s, run[n], c);
      StepKeeps(s, run[n]);
      StopStays(s, run[n], c, name, id, after);
    }
    RunKeeps(run);
    if Exec(run).value.calls[c].Returned? {
      ResultHolds(Exec(run).value, c, id);
    }
  }

  lemma MarkStep(s: State, c: nat, name: string)
    requires Invariant(s) && c in s.calls && s.calls[c].StopCalled? && s.calls[c].name == name
    requires name in s.table.procs
    ensures Step(s, StopMarks(c)).Some? && c in Step(s, StopMarks(c)).value.calls
    ensures Step(s, StopMarks(c)).value.calls[c] == Signals(name, s.table.procs[name], s.calls[c].after)
  {
  }

  lemma StopStays(s: State, l: Label, c: nat, name: string, id: nat, after: After)
    requires Invariant(s) && Step(s, l).Some? && c in s.calls && StopStands(s.table, s.calls[c], name, id, after)
    requires Grows(s.table, Step(s, l).value.table)
    requires var s' := Step(s, l).value;
             c in s'.calls &&
             (s'.calls[c] == s.calls[c]
              || (CallStep(s.table, s.calls[c], l).Some? && CallStep(s.table, s.calls[c], l).value.1 == s'.calls[c]))
    ensures StopStands(Step(s, l).value.table, Step(s, l).value.calls[c], name, id, after)
  {
    hide Step;
    var t, call := s.table, s.calls[c];
    if InStop(call, name, id, after) {
      assert CallInvariant(t, call);
      assert EntryInvariant(t, id);
    }
  }

  lemma ResultHolds(s: State, c: nat, id: nat)
    requires Invariant(s) && c in s.calls && s.calls[c].Returned?
    ensures ResultInvariant(s.table, s.calls[c].result)
    ensures Gone(s.table, id) ==> !s.table.entries[id].alive
  {
    assert CallInvariant(s.table, s.calls[c]);
    if id < |s.table.entries| {
      assert EntryInvariant(s.table, id);
    }
  }

  /** The error of a start whose process exited is the one the watchdog recorded for that process. */
  lemma ExitIsReportedTruly(run: seq<Label>, c: nat, id: nat, error: Option<int>)
    requires Exec(run).Some? && c in Exec(run).value.calls
    requires Exec(run).value.calls[c] == Returned(ExitedDuringStartup(id, error))
    ensures Gone(Exec(run).value.table, id) && !Exec(run).value.table.entries[id].alive
    ensures Exec(run).value.table.entries[id].waitErr == Some(error)
  {
    RunKeeps(run);
    ResultHolds(Exec(run).value, c, id);
  }

  // ---------------------------------------------------------------------- stopping everything

  /** The processes a call that stops all has listed. */
  function ListedBy(call: Call): Option<map<string, nat>> {
    match call
    case StopCalled(_, StopRest(_, listed)) => Some(listed)
    case Pkills(_, StopRest(_, listed)) => Some(listed)
    case Signals(_, _, StopRest(_, listed)) => Some(listed)
    case AwaitsReap(_, _, _, StopRest(_, listed)) => Some(listed)
    case Returned(AllStopped(listed)) => Some(listed)
    case _ => None
  }

  lemma ListedStays(t: Table, call: Call, l: Label)
    requires ListedBy(call).Some?
    ensures CallStep(t, call, l).Some? ==> ListedBy(CallStep(t, call, l).value.1) == ListedBy(call)
  {
  }

  lemma ListStep(s: State, l: Label)
    requires l.StopAllLists? && Step(s, l).Some?
    ensures ListedBy(Step(s, l).value.calls[l.c]) == Some(s.table.procs)
  {
  }

  /** When the stop of all returns, every process tracked when it listed them has exited and been reaped. */
  lemma {:induction false} StopAllReapsWhatItListed(run: seq<Label>, k: nat)
    requires k < |run| && run[k].StopAllLists? && Exec(run).Some? && Exec(run[..k]).Some?
    ensures var (s, c) := (Exec(run).value, run[k].c);
            var procs := Exec(run[..k]).value.table.procs;
            && c in s.calls && ListedBy(s.calls[c]) == Some(procs)
            && (s.calls[c].Returned? ==>
                 forall n :: n in procs ==> Known(s.table, n, procs[n]) && Gone(s.table, procs[n]))
  {
    hide Invariant, CallStep;
    var n := |run| - 1;
    var c := run[k].c;
    var s := Exec(run[..n]).value;
    if k == n {
      ListStep(s, run[n]);
    } else {
      assert run[..n][..k] == run[..k];
      StopAllReapsWhatItListed(run[..n], k);
      OtherStep(s, run[n], c);
      ListedStays(s.table, s.calls[c], run[n]);
    }
    RunKeeps(run);
    if Exec(run).value.calls[c].Returned? {
      ResultHolds(Exec(run).value, c, 0);
    }
  }

  // ---------------------------------------------------------------------- no call is stuck

  predicate Continues(run: seq<Label>, next: seq<Label>) {
    run <= next && Exec(next).Some?
  }

  /** Whatever was done, a process may exit and be reaped, which stops tracking it and affects no call. */
  lemma CanReap(run: seq<Label>, id: nat) returns (next: seq<Label>)
    requires Exec(run).Some? && id < |Exec(run).value.table.entries|
    ensures Continues(run, next)
    ensures var (s, s') := (Exec(run).value, Exec(next).value);
            && s'.calls == s.calls && Gone(s'.table, id) && Closed(s'.table, id)
            && (forall n :: n in s'.table.procs ==>
                 n in s.table.procs && s'.table.procs[n] == s.table.procs[n] && s'.table.procs[n] != id)
  {
    hide Exec;
    next := run;
    if Exec(next).value.table.entries[id].watchdog.Waiting? {
      Extend(next, Exits(id));
      next := next + [Exits(id)];
      Extend(next, WaitReturns(id, None));
      next := next + [WaitReturns(id, None)];
    }
    if Exec(next).value.table.entries[id].watchdog.WaitReturned? {
      Extend(next, Reaps(id));
      next := next + [Reaps(id)];
    }
    assert Gone(Exec(next).value.table, id);
    GoneIsClosed(next, id);
  }

  lemma GoneIsClosed(run: seq<Label>, id: nat)
    requires Exec(run).Some? && Gone(Exec(run).value.table, id)
    ensures var t := Exec(run).value.table;
            Closed(t, id) && forall n :: n in t.procs ==> t.procs[n] != id
  {
    RunKeeps(run);
    assert EntryInvariant(Exec(run).value.table, id);
  }

  lemma CanStart(run: seq<Label>, c: nat) returns (next: seq<Label>)
    requires Exec(run).Some? && c in Exec(run).value.calls && Exec(run).value.calls[c].StartCalled?
    ensures Continues(run, next) && c in Exec(next).value.calls && Exec(next).value.calls[c].Returned?
  {
    hide Exec;
    RunKeeps(run);
    var check := StartChecks(c, LiveSocket, false);
    Extend(run, check);
    next := run + [check];
    if Exec(next).value.calls[c].AwaitsStop? {
      next := CanReap(next, Exec(next).value.calls[c].id);
      Extend(next, StartRetries(c));
      next := next + [StartRetries(c)];
      Extend(next, check);
      next := next + [check];
    }
  }

  /** How far a stop is from its return. */
  function Work(call: Call): nat {
    match call
    case StopCalled(_, after) => 4 * Rest(after) + 3
    case Signals(_, _, after) => 4 * Rest(after) + 2
    case Pkills(_, after) => 4 * Rest(after) + 1
    case AwaitsReap(_, _, _, after) => 4 * Rest(after) + 1
    case _ => 0
  }

  function Rest(after: After): nat {
    if after.StopRest? then |after.rest| else 0
  }

  predicate IsStop(call: Call) {
    call.StopCalled? || call.Signals? || call.Pkills? || call.AwaitsReap?
  }

  lemma StopStep(run: seq<Label>, c: nat) returns (next: seq<Label>)
    requires Exec(run).Some? && c in Exec(run).value.calls && IsStop(Exec(run).value.calls[c])
    ensures Continues(run, next) && c in Exec(next).value.calls
    ensures var (call, call') := (Exec(run).value.calls[c], Exec(next).value.calls[c]);
            call'.Returned? || (IsStop(call') && Work(call') < Work(call))
  {
    hide Exec;
    RunKeeps(run);
    var call := Exec(run).value.calls[c];
    assert CallInvariant(Exec(run).value.table, call);
    next := run;
    if call.AwaitsReap? {
      next := CanReap(next, call.id);
    }
    var l := match call
      case StopCalled(_, _) => StopMarks(c)
      case Signals(_, _, _) => StopSignals(c)
      case Pkills(_, _) => StopPkills(c)
      case _ => StopSeesReap(c);
    Extend(next, l);
    next := next + [l];
  }

  lemma {:induction false} CanStop(run: seq<Label>, c: nat) returns (next: seq<Label>)
    requires Exec(run).Some? && c in Exec(run).value.calls && IsStop(Exec(run).value.calls[c])
    ensures Continues(run, next) && c in Exec(next).value.calls && Exec(next).value.calls[c].Returned?
    decreases Work(Exec(run).value.calls[c])
  {
    hide Exec, Work, IsStop;
    next := StopStep(run, c);
    if !Exec(next).value.calls[c].Returned? {
      next := CanStop(next, c);
    }
  }

  lemma {:induction false} NamesOf(procs: map<string, nat>) returns (names: seq<string>)
    ensures Lists(names, procs)
  {
    if procs == map[] {
      names := [];
    } else {
      var n :| n in procs;
      names := NamesOf(procs - {n});
      assert n !in names;
      names := names + [n];
    }
  }

  /** In every reachable state every call can still return: no start and no stop is ever stuck for good. */
  lemma EveryCallCanReturn(run: seq<Label>, c: nat) returns (next: seq<Label>)
    requires Exec(run).Some? && c in Exec(run).value.calls
    ensures Continues(run, next) && c in Exec(next).value.calls && Exec(next).value.calls[c].Returned?
  {
    hide Exec, Invariant;
    RunKeeps(run);
    var call := Exec(run).value.calls[c];
    next := run;
    if call.StartCalled? {
      next := CanStart(next, c);
    } else if call.AwaitsStop? {
      WaitsForKnown(Exec(run).value, c);
      next := CanReap(next, call.id);
      Extend(next, StartRetries(c));
      next := next + [StartRetries(c)];
      next := CanStart(next, c);
    } else if call.AwaitsReady? {
      Extend(next, StartSeesReady(c));
      next := next + [StartSeesReady(c)];
    } else if call.SawExit? {
      Extend(next, StartReadsError(c));
      next := next + [StartReadsError(c)];
    } else if call.StopAllCalled? {
      var names := NamesOf(Exec(run).value.table.procs);
      Extend(next, StopAllLists(c, names));
      next := next + [StopAllLists(c, names)];
      if !Exec(next).value.calls[c].Returned? {
        next := CanStop(next, c);
      }
    } else if IsStop(call) {
      next := CanStop(next, c);
    }
  }

  lemma WaitsForKnown(s: State, c: nat)
    requires Invariant(s) && c in s.calls && s.calls[c].AwaitsStop?
    ensures s.calls[c].id < |s.table.entries|
  {
    assert CallInvariant(s.table, s.calls[c]);
  }

  /** A start whose process has been reaped while it was waited for can report the error of that process. */
  lemma ExitCanBeReported(run: seq<Label>, c: nat, name: string, id: nat)
    requires Exec(run).Some? && c in Exec(run).value.calls && Exec(run).value.calls[c] == AwaitsReady(name, id)
    requires Gone(Exec(run).value.table, id)
    ensures var next, e := run + [StartSeesExit(c)] + [StartReadsError(c)], Exec(run).value.table.entries[id];
            && Exec(next).Some? && c in Exec(next).value.calls && e.waitErr.Some?
            && Exec(next).value.calls[c] == Returned(ExitedDuringStartup(id, e.waitErr.value))
  {
    hide Exec;
    RunKeeps(run);
    GoneIsClosed(run, id);
    assert EntryInvariant(Exec(run).value.table, id);
    Extend(run, StartSeesExit(c));
    Extend(run + [StartSeesExit(c)], StartReadsError(c));
  }

  // ---------------------------------------------------------------------- a start that times out

  /** The stop after a timeout goes by name: it hits the process of this start iff that is not yet reaped. */
  lemma TimeoutStopsOwnIff(run: seq<Label>, c: nat, name: string, id: nat)
    requires Exec(run).Some? && c in Exec(run).value.calls
    requires Exec(run).value.calls[c] == StopCalled(name, AfterTimeout(id))
    ensures StopSection(Exec(run).value.table, name).1 == Some(id) <==> !Gone(Exec(run).value.table, id)
  {
    RunKeeps(run);
    var s := Exec(run).value;
    assert CallInvariant(s.table, s.calls[c]);
    assert EntryInvariant(s.table, id);
  }

  /** A run in which the timeout of one start stops the process that another start has spawned. */
  lemma TimeoutMayStopAnother() returns (run: seq<Label>, s: State)
    ensures Exec(run) == Some(s)
    ensures s.calls == map[0 := Signals("wg0", 1, AfterTimeout(0)), 1 := AwaitsReady("wg0", 1)]
    ensures s.table == Table(map["wg0" := 1], [REAPED_ENTRY, OTHER_ENTRY.(stopping := true)])
  {
    hide Exec;
    run := FirstIsReaped();
    Extend(run, BeginStart(1, "wg0"));
    run := run + [BeginStart(1, "wg0")];
    Extend(run, StartChecks(1, NoSocket, true));
    run := run + [StartChecks(1, NoSocket, true)];
    assert Exec(run).value.table.procs == map["wg0" := 1];
    assert Exec(run).value.calls == map[0 := AwaitsReady("wg0", 0), 1 := AwaitsReady("wg0", 1)];
    Extend(run, StartTimesOut(0));
    run := run + [StartTimesOut(0)];
    Extend(run, StopMarks(0));
    run := run + [StopMarks(0)];
    s := Exec(run).value;
  }

  const REAPED_ENTRY := Entry("wg0", false, Finished, false, Some(None), 1)
  const OTHER_ENTRY := Entry("wg0", true, Waiting, false, None, 0)

  lemma FirstIsReaped() returns (run: seq<Label>)
    ensures Exec(run) == Some(State(Table(map[], [REAPED_ENTRY]), map[0 := AwaitsReady("wg0", 0)]))
  {
    hide Exec;
    NothingDone();
    run := [];
    Extend(run, BeginStart(0, "wg0"));
    run := run + [BeginStart(0, "wg0")];
    Extend(run, StartChecks(0, NoSocket, true));
    run := run + [StartChecks(0, NoSocket, true)];
    assert Exec(run).value.table.procs == map["wg0" := 0];
    assert Exec(run).value.calls == map[0 := AwaitsReady("wg0", 0)];
    Extend(run, Exits(0));
    run := run + [Exits(0)];
    assert Exec(run).value.table.entries[0].alive == false;
    Extend(run, WaitReturns(0, None));
    run := run + [WaitReturns(0, None)];
    Extend(run, Reaps(0));
    run := run + [Reaps(0)];
    assert Exec(run).value.table.procs == map[];
    assert Exec(run).value.table.entries == [REAPED_ENTRY];
  }

  lemma NothingDone()
    ensures Exec([]) == Some(INITIAL)
  {
  }
}
