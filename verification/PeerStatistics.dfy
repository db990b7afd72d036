/**
  The connection state of a peer as two kinds of workers update it: the collector, from what the device
  reports, and the ping workers. Each update is one database transaction, so any interleaving is a sequence.
  Times are numbers.
*/
module PeerStatistics {
  import opened Wrappers

  datatype Status = Status(
    connected: bool, pingable: bool, lastPing: Option<int>, received: nat, transmitted: nat,
    lastHandshake: Option<int>, lastSessionStart: Option<int>, endpoint: string, updatedAt: int)

  const NEW_STATUS := Status(false, false, None, 0, 0, None, None, "", 0)

  /** What the device reports about a peer. */
  datatype Report = Report(received: nat, transmitted: nat, handshake: Option<int>, endpoint: string)

  /** `Dereferenced` is a missing handshake time that is compared, which panics. */
  datatype Start = Start(time: Option<int>) | Dereferenced

  predicate Before(a: Option<int>, t: int) {
    a.Some? && a.value < t
  }

  /** `getSessionStartTime`; `oldest` is the time a handshake must not be older than. */
  function SessionStartTime(s: Status, r: Report, oldest: int): Start {
    if r.handshake.None? then Start(None)
    else if s.received == 0 && s.transmitted == 0 && (r.received > 0 || r.transmitted > 0) then Start(r.handshake)
    else if s.received == 0 && r.received > 0 && (s.lastHandshake.None? || Before(s.lastHandshake, oldest))
      then Start(r.handshake)
    else if s.transmitted == 0 && r.transmitted > 0 && s.lastSessionStart.Some? && s.lastHandshake.None?
      then Dereferenced
    else if s.transmitted == 0 && r.transmitted > 0 && (s.lastSessionStart.None? || Before(s.lastHandshake, oldest))
      then Start(r.handshake)
    else if (r.received != 0 && r.received < s.received) || (r.transmitted != 0 && r.transmitted < s.transmitted)
      then Start(r.handshake)
    else if s.lastSessionStart.None? && (r.received > s.received || r.transmitted > s.transmitted)
      then Start(r.handshake)
    else Start(s.lastSessionStart)
  }

  function CalcConnected(s: Status, oldest: int): Status {
    s.(connected := s.pingable || (s.lastHandshake.Some? && s.lastHandshake.value >= oldest))
  }

  /** The clock readings of one update: its start, and the limits computed from two later readings. */
  datatype Clock = Clock(now: int, oldestForSession: int, oldestForState: int)

  function Collected(s: Status, r: Report, start: Option<int>, clock: Clock): Status {
    CalcConnected(
      s.(updatedAt := clock.now, lastSessionStart := start, received := r.received, transmitted := r.transmitted,
         endpoint := r.endpoint, lastHandshake := r.handshake),
      clock.oldestForState)
  }

  function Pinged(s: Status, pingable: bool, clock: Clock): Status {
    CalcConnected(
      s.(pingable := pingable, lastPing := if pingable then Some(clock.now) else None, updatedAt := clock.now),
      clock.oldestForState)
  }

  /** A session has not started without a handshake. */
  predicate Sound(s: Status) {
    s.lastSessionStart.Some? ==> s.lastHandshake.Some?
  }

  /** The record that an update writes to. */
  class PeerStatus {
    var connected: bool
    var pingable: bool
    var lastPing: Option<int>
    var received: nat
    var transmitted: nat
    var lastHandshake: Option<int>
    var lastSessionStart: Option<int>
    var endpoint: string
    var updatedAt: int

    function Value(): Status
      reads this
    {
      Status(connected, pingable, lastPing, received, transmitted, lastHandshake, lastSessionStart, endpoint, updatedAt)
    }

    constructor (s: Status)
      ensures Value() == s
    {
      connected, pingable, lastPing := s.connected, s.pingable, s.lastPing;
      received, transmitted, lastHandshake := s.received, s.transmitted, s.lastHandshake;
      lastSessionStart, endpoint, updatedAt := s.lastSessionStart, s.endpoint, s.updatedAt;
    }

    method UpdateConnected(oldest: int)
      modifies this`connected
      ensures Value() == CalcConnected(old(Value()), oldest)
    {
      var handshakeValid := false;
      if lastHandshake.Some? {
        handshakeValid := lastHandshake.value >= oldest;
      }
      connected := pingable || handshakeValid;
    }

    /** The collector's update; the result is the event, if the state has changed. */
    method Collect(r: Report, clock: Clock) returns (event: Option<bool>)
      requires Sound(Value())
      modifies this
      ensures SessionStartTime(old(Value()), r, clock.oldestForSession).Start?
      ensures Value() ==
                Collected(old(Value()), r, SessionStartTime(old(Value()), r, clock.oldestForSession).time, clock)
      ensures Sound(Value())
      ensures event == if connected != old(connected) then Some(connected) else None
    {
      var wasConnected := connected;
      NeverDereferenced(Value(), r, clock.oldestForSession);
      lastSessionStart := SessionStartTime(Value(), r, clock.oldestForSession).time;
      updatedAt := clock.now;
      received := r.received;
      transmitted := r.transmitted;
      endpoint := r.endpoint;
      lastHandshake := r.handshake;
      UpdateConnected(clock.oldestForState);
      event := if wasConnected != connected then Some(connected) else None;
    }

    method Ping(peerPingable: bool, clock: Clock) returns (event: Option<bool>)
      modifies this
      ensures Value() == Pinged(old(Value()), peerPingable, clock)
      ensures old(Sound(Value())) ==> Sound(Value())
      ensures event == if connected != old(connected) then Some(connected) else None
    {
      var wasConnected := connected;
      if peerPingable {
        pingable := true;
        lastPing := Some(clock.now);
      } else {
        pingable := false;
        lastPing := None;
      }
      updatedAt := clock.now;
      UpdateConnected(clock.oldestForState);
      event := if wasConnected != connected then Some(connected) else None;
    }
  }

  /** Some report makes the comparison panic exactly for an unsound record that has received but not sent. */
  lemma PanicsIff(s: Status)
    ensures (exists r, oldest :: SessionStartTime(s, r, oldest).Dereferenced?) <==>
              !Sound(s) && s.transmitted == 0 && s.received > 0
  {
    if !Sound(s) && s.transmitted == 0 && s.received > 0 {
      assert SessionStartTime(s, Report(0, 1, Some(0), ""), 0).Dereferenced?;
    }
  }

  lemma NeverDereferenced(s: Status, r: Report, oldest: int)
    requires Sound(s)
    ensures SessionStartTime(s, r, oldest).Start?
    ensures SessionStartTime(s, r, oldest).time.Some? ==> r.handshake.Some?
  {
  }

  // ---------------------------------------------------------------------- runs

  /** An update, and whether its transaction was committed; the event goes out in any case. */
  datatype Update =
    | Collection(report: Report, clock: Clock, saved: bool)
    | PingCheck(answered: bool, clock: Clock, saved: bool)

  /** What the update computes, whether or not it is saved; `None` is the panic. */
  function Computed(s: Status, u: Update): Option<Status> {
    match u
    case Collection(r, clock, _) =>
      var start := SessionStartTime(s, r, clock.oldestForSession);
      if start.Dereferenced? then None else Some(Collected(s, r, start.time, clock))
    case PingCheck(answered, clock, _) => Some(Pinged(s, answered, clock))
  }

  /** The stored record and the computed events, in order. */
  datatype History = History(status: Status, events: seq<bool>)

  function Extended(h: History, u: Update): Option<History> {
    match Computed(h.status, u)
    case None => None
    case Some(next) =>
      Some(History(
        if u.saved then next else h.status,
        if next.connected != h.status.connected then h.events + [next.connected] else h.events))
  }

  function Exec(run: seq<Update>): Option<History> {
    if run == [] then Some(History(NEW_STATUS, []))
    else
      match Exec(run[..|run| - 1])
      case None => None
      case Some(h) => Extended(h, run[|run| - 1])
  }

  /** No run panics, since a session start always comes with a handshake. */
  lemma {:induction false} RunsAreSound(run: seq<Update>)
    ensures Exec(run).Some? && Sound(Exec(run).value.status)
  {
    hide SessionStartTime;
    if run != [] {
      RunsAreSound(run[..|run| - 1]);
      ComputedIsSound(Exec(run[..|run| - 1]).value.status, run[|run| - 1]);
    }
  }

  lemma ComputedIsSound(s: Status, u: Update)
    requires Sound(s)
    ensures Computed(s, u).Some? && Sound(Computed(s, u).value)
  {
    if u.Collection? {
      NeverDereferenced(s, u.report, u.clock.oldestForSession);
    }
  }

  // ---------------------------------------------------------------------- what the stored record says

  /** The last update of a run that was committed; any, a collection, or a ping. */
  datatype Which = Any | Collections | Pings

  function LastSaved(run: seq<Update>, which: Which): Option<Update> {
    if run == [] then None
    else
      var u := run[|run| - 1];
      if u.saved && (which.Any? || (which.Collections? <==> u.Collection?)) then Some(u)
      else LastSaved(run[..|run| - 1], which)
  }

  lemma {:induction false} LastSavedIs(run: seq<Update>, which: Which)
    ensures LastSaved(run, which).Some? ==>
              && LastSaved(run, which).value.saved
              && (which.Collections? ==> LastSaved(run, which).value.Collection?)
              && (which.Pings? ==> LastSaved(run, which).value.PingCheck?)
  {
    if run != [] {
      LastSavedIs(run[..|run| - 1], which);
    }
  }

  /**
    After any run the record has the counters, endpoint and handshake of the last collection that was saved and
    the answer of the last ping that was saved, and the peer counts as connected if and only if it answered that
    ping or the handshake is not older than the limit of the last saved update.
  */
  lemma {:induction false} RecordIsCurrent(run: seq<Update>)
    ensures Exec(run).Some?
    ensures var s := Exec(run).value.status;
            var collection, ping, last := LastSaved(run, Collections), LastSaved(run, Pings), LastSaved(run, Any);
            && (match collection
                case None => s.received == 0 && s.transmitted == 0 && s.endpoint == "" && s.lastHandshake.None?
                case Some(PingCheck(_, _, _)) => false
                case Some(Collection(r, _, _)) =>
                  s.received == r.received && s.transmitted == r.transmitted && s.endpoint == r.endpoint &&
                  s.lastHandshake == r.handshake)
            && (match ping
                case None => !s.pingable && s.lastPing.None?
                case Some(Collection(_, _, _)) => false
                case Some(PingCheck(answered, clock, _)) =>
                  s.pingable == answered && s.lastPing == if answered then Some(clock.now) else None)
            && (match last
                case None => !s.connected
                case Some(u) =>
                  && s.updatedAt == u.clock.now
                  && (s.connected <==>
                       s.pingable || (s.lastHandshake.Some? && s.lastHandshake.value >= u.clock.oldestForState)))
  {
    hide SessionStartTime;
    RunsAreSound(run);
    if run != [] {
      RecordIsCurrent(run[..|run| - 1]);
    }
  }

  /** The traffic of a report tells that a new session has begun. */
  predicate BeginsSession(s: Status, r: Report, oldest: int) {
    || 0 < r.received < s.received
    || 0 < r.transmitted < s.transmitted
    || (s.lastSessionStart.None? && (r.received > s.received || r.transmitted > s.transmitted))
    || ((s.received == 0 < r.received || s.transmitted == 0 < r.transmitted) &&
        ((s.received == 0 && s.transmitted == 0) || s.lastHandshake.None? || s.lastHandshake.value < oldest))
  }

  /**
    The session starts with the reported handshake if a counter went back without being zero, or grew with no
    session recorded, or left zero while the other was zero too or the handshake was too old; otherwise the
    recorded start is kept, unless there is no handshake any more.
  */
  lemma SessionStartIs(s: Status, r: Report, oldest: int)
    requires Sound(s)
    ensures SessionStartTime(s, r, oldest) ==
              Start(if r.handshake.None? then None
                    else if BeginsSession(s, r, oldest) then r.handshake else s.lastSessionStart)
  {
  }

  // ---------------------------------------------------------------------- session start and handshake

  /** The reported handshakes never go back in time. */
  predicate NonDecreasing(run: seq<Update>) {
    forall i, j :: 0 <= i < j < |run| && run[i].Collection? && run[j].Collection?
                   && run[i].report.handshake.Some? && run[j].report.handshake.Some? ==>
      run[i].report.handshake.value <= run[j].report.handshake.value
  }

  predicate SessionFirst(s: Status) {
    s.lastSessionStart.Some? && s.lastHandshake.Some? ==> s.lastSessionStart.value <= s.lastHandshake.value
  }

  predicate WasReported(run: seq<Update>, h: Option<int>) {
    h.None? || exists i :: 0 <= i < |run| && run[i].Collection? && run[i].report.handshake == h
  }

  /** The session start never exceeds the handshake, as long as reported handshakes do not go back. */
  lemma {:induction false} SessionStartsBeforeHandshake(run: seq<Update>)
    requires NonDecreasing(run)
    ensures Exec(run).Some? && SessionFirst(Exec(run).value.status)
    ensures WasReported(run, Exec(run).value.status.lastHandshake)
  {
    hide SessionStartTime;
    RunsAreSound(run);
    if run != [] {
      var n := |run| - 1;
      assert forall i :: 0 <= i < n ==> run[..n][i] == run[i];
      SessionStartsBeforeHandshake(run[..n]);
      RunsAreSound(run[..n]);
      var s, u := Exec(run[..n]).value.status, run[n];
      if u.Collection? {
        OneCollection(s, u.report, u.clock);
        if s.lastHandshake.Some? && u.report.handshake.Some? {
          var i :| 0 <= i < n && run[..n][i].Collection? && run[..n][i].report.handshake == s.lastHandshake;
          assert run[i].report.handshake.value <= run[n].report.handshake.value;
        }
      }
      if s.lastHandshake.Some? {
        var i :| 0 <= i < n && run[..n][i].Collection? && run[..n][i].report.handshake == s.lastHandshake;
        assert run[i].Collection? && run[i].report.handshake == s.lastHandshake;
      }
    }
  }

  /** A collection that keeps the session start puts it behind the handshake iff the handshake went back too far. */
  lemma OneCollection(s: Status, r: Report, clock: Clock)
    requires Sound(s)
    ensures var start := SessionStartTime(s, r, clock.oldestForSession);
            && start.Start?
            && (start.time == r.handshake || (r.handshake.Some? && start.time == s.lastSessionStart))
            && (SessionFirst(Collected(s, r, start.time, clock)) <==>
                 r.handshake.None? || start.time.None? || start.time == r.handshake ||
                 s.lastSessionStart.value <= r.handshake.value)
  {
    NeverDereferenced(s, r, clock.oldestForSession);
  }

  // ---------------------------------------------------------------------- events

  function LastState(events: seq<bool>): bool {
    if events == [] then false else events[|events| - 1]
  }

  /** The events are connect, disconnect, connect and so on. */
  predicate Alternate(events: seq<bool>) {
    forall i :: 0 <= i < |events| ==> events[i] == (i % 2 == 0)
  }

  predicate ChangesState(s: Status, u: Update) {
    Computed(s, u).Some? && Computed(s, u).value.connected != s.connected
  }

  /** Every update that changed the state was committed. */
  predicate ChangesAreSaved(run: seq<Update>) {
    run == [] ||
    var init, u := run[..|run| - 1], run[|run| - 1];
    ChangesAreSaved(init) && (Exec(init).Some? && ChangesState(Exec(init).value.status, u) ==> u.saved)
  }

  /**
    The events of a run alternate and end in the stored state if and only if every update that changed the
    state was committed: the event of an update whose transaction fails goes out all the same.
  */
  lemma {:induction false} EventsAgreeIff(run: seq<Update>)
    ensures Exec(run).Some?
    ensures var h := Exec(run).value;
            Alternate(h.events) && LastState(h.events) == h.status.connected <==> ChangesAreSaved(run)
  {
    hide Computed;
    RunsAreSound(run);
    if run != [] {
      var init, u := run[..|run| - 1], run[|run| - 1];
      EventsAgreeIff(init);
      var h := Exec(init).value;
      var next := Computed(h.status, u).value;
      if next.connected != h.status.connected {
        AlternateSnoc(h.events, next.connected);
      }
    }
  }

  lemma AlternateSnoc(events: seq<bool>, e: bool)
    ensures Alternate(events + [e]) <==> Alternate(events) && e != LastState(events)
  {
    var more := events + [e];
    assert more[|events|] == e;
    if Alternate(more) {
      assert forall i :: 0 <= i < |events| ==> events[i] == more[i];
    }
  }

  /** A run in which two connects are announced in a row, since the first was not saved. */
  lemma UnsavedConnectIsRepeated() returns (run: seq<Update>)
    ensures Exec(run).Some? && Exec(run).value.events == [true, true]
  {
    var clock := Clock(0, 0, 0);
    var first, second := PingCheck(true, clock, false), PingCheck(true, clock, true);
    assert Exec([]) == Some(History(NEW_STATUS, []));
    assert [first][..0] == [] && [first, second][..1] == [first];
    assert Exec([first]) == Extended(History(NEW_STATUS, []), first);
    assert Exec([first]).value.events == [true];
    run := [first, second];
  }
}
