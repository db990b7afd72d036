/**
  TOTP as a second factor: enrollment, validation with replay protection (section 5.2 of RFC 6238), single-use
  recovery codes, and switching it off. Codes, hashes and text normalisation are functions of their inputs.
*/
module Totp {
  import opened Wrappers

  const PERIOD := 30
  const RECOVERY_CODE_COUNT := 8

  /** `code` is the code of a secret at a time step, or an error; `matches` says whether a hash is that of a code. */
  datatype Crypto = Crypto(
    code: (string, int) -> Option<string>, matches: (string, string) -> bool, trim: string -> string,
    normalize: string -> string)

  /** What is stored for a user; `hashes` is missing if the stored text is not a list. */
  datatype User = User(
    canUseTotp: bool, enabled: bool, secret: string, hashes: Option<seq<string>>, lastUsedStep: int)

  predicate IsRecoveryCodeFormat(code: string) {
    |code| == 9 && code[4] == '-'
  }

  /** Division of a time since the epoch rounds down. */
  function CounterAt(clock: nat): nat {
    clock / PERIOD
  }

  function Candidates(counter: int): seq<int> {
    [counter, counter + 1, counter - 1]
  }

  datatype StepResult = NoSuchStep | StepError | Step(step: int)

  /** The first of the steps whose code is the passcode. */
  function FirstMatch(c: Crypto, secret: string, passcode: string, steps: seq<int>): StepResult {
    if steps == [] then NoSuchStep
    else
      match c.code(secret, steps[0])
      case None => StepError
      case Some(generated) =>
        if generated == passcode then Step(steps[0]) else FirstMatch(c, secret, passcode, steps[1..])
  }

  /** The position of the first hash that matches, or the number of hashes. */
  function MatchAt(c: Crypto, hashes: seq<string>, code: string): (i: nat)
    ensures i <= |hashes|
    ensures forall k :: 0 <= k < i ==> !c.matches(hashes[k], code)
    ensures i < |hashes| ==> c.matches(hashes[i], code)
  {
    if hashes == [] || c.matches(hashes[0], code) then 0 else 1 + MatchAt(c, hashes[1..], code)
  }

  datatype Verdict = Refused | ByCode(step: int) | ByRecoveryCode(index: nat)

  /** The verdict on a submitted code, before the record is saved. */
  function Judge(c: Crypto, u: User, code: string, clock: nat): Verdict {
    var trimmed := c.trim(code);
    if !u.enabled || u.secret == "" || trimmed == "" then Refused
    else if IsRecoveryCodeFormat(trimmed) then
      if u.hashes.None? then Refused
      else
        var i := MatchAt(c, u.hashes.value, c.normalize(trimmed));
        if i < |u.hashes.value| then ByRecoveryCode(i) else Refused
    else
      match FirstMatch(c, u.secret, trimmed, Candidates(CounterAt(clock)))
      case Step(step) => if step <= u.lastUsedStep && u.lastUsedStep != 0 then Refused else ByCode(step)
      case _ => Refused
  }

  /** The record to be saved. */
  function Used(u: User, v: Verdict): User
    requires v.ByRecoveryCode? ==> u.hashes.Some? && v.index < |u.hashes.value|
  {
    match v
    case Refused => u
    case ByCode(step) => u.(lastUsedStep := step)
    case ByRecoveryCode(i) => u.(hashes := Some(u.hashes.value[..i] + u.hashes.value[i + 1..]))
  }

  lemma JudgedIndex(c: Crypto, u: User, code: string, clock: nat)
    ensures var v := Judge(c, u, code, clock);
            v.ByRecoveryCode? ==>
              u.hashes.Some? && v.index < |u.hashes.value| &&
              c.matches(u.hashes.value[v.index], c.normalize(c.trim(code)))
  {
  }

  // ---------------------------------------------------------------------- the operations

  /** The authenticator for one user: the stored record, and the loaded one that an operation works on. */
  class Authenticator {
    const c: Crypto
    /** Saving a record never fails. */
    const reliable: bool
    var stored: User
    var user: User

    constructor (c: Crypto, reliable: bool, stored: User)
      ensures this.c == c && this.reliable == reliable && this.stored == stored && user == stored
    {
      this.c, this.reliable, this.stored, this.user := c, reliable, stored, stored;
    }

    method Load()
      modifies this`user
      ensures user == stored
    {
      user := stored;
    }

    method UpdateUser() returns (ok: bool)
      modifies this`stored
      ensures stored == if ok then user else old(stored)
      ensures reliable ==> ok
    {
      ok := *;
      ok := ok || reliable;
      if ok {
        stored := user;
      }
    }

    method ValidateTotpWithStep(passcode: string, secret: string, clock: nat) returns (r: StepResult)
      ensures r == FirstMatch(c, secret, passcode, Candidates(CounterAt(clock)))
    {
      var counter := clock / PERIOD;
      var candidates := [counter, counter + 1, counter - 1];
      for i := 0 to |candidates|
        invariant FirstMatch(c, secret, passcode, candidates) == FirstMatch(c, secret, passcode, candidates[i..])
      {
        var generated := c.code(secret, candidates[i]);
        if generated.None? {
          return StepError;
        }
        if generated.value == passcode {
          return Step(candidates[i]);
        }
      }
      return NoSuchStep;
    }

    /** Completing a login: the user is loaded, and the code validated. */
    method LoginWithCode(code: string, clock: nat) returns (ok: bool)
      modifies this
      ensures ok ==> !Judge(c, old(stored), code, clock).Refused?
      ensures ok ==> (JudgedIndex(c, old(stored), code, clock);
                      stored == Used(old(stored), Judge(c, old(stored), code, clock)))
      ensures !ok ==> stored == old(stored)
      ensures reliable && !Judge(c, old(stored), code, clock).Refused? ==> ok
    {
      Load();
      ok := ValidateCode(code, clock);
    }

    /** Success means that the code was accepted for the loaded user, and saved; on an error nothing was saved. */
    method ValidateCode(code: string, clock: nat) returns (ok: bool)
      modifies this
      ensures ok ==> !Judge(c, old(user), code, clock).Refused?
      ensures ok ==> (JudgedIndex(c, old(user), code, clock);
                      stored == Used(old(user), Judge(c, old(user), code, clock)))
      ensures !ok ==> stored == old(stored)
      ensures reliable && !Judge(c, old(user), code, clock).Refused? ==> ok
    {
      JudgedIndex(c, user, code, clock);
      if !user.enabled {
        return false;
      }
      if user.secret == "" {
        return false;
      }
      var trimmed := c.trim(code);
      if trimmed == "" {
        return false;
      }
      if IsRecoveryCodeFormat(trimmed) {
        ok := ConsumeRecoveryCode(trimmed);
        return;
      }
      var r := ValidateTotpWithStep(trimmed, user.secret, clock);
      if !r.Step? {
        return false;
      }
      if r.step <= user.lastUsedStep && user.lastUsedStep != 0 {
        return false;
      }
      user := user.(lastUsedStep := r.step);
      ok := UpdateUser();
    }

    method ConsumeRecoveryCode(code: string) returns (ok: bool)
      modifies this
      ensures !ok ==> stored == old(stored)
      ensures ok ==> old(user).hashes.Some?
      ensures ok ==>
                var hashes := old(user).hashes.value;
                var i := MatchAt(c, hashes, c.normalize(code));
                i < |hashes| && stored == Used(old(user), ByRecoveryCode(i))
      ensures reliable && old(user).hashes.Some? ==>
                (ok <==> MatchAt(c, old(user).hashes.value, c.normalize(code)) < |old(user).hashes.value|)
    {
      hide MatchAt;
      if user.hashes.None? {
        return false;
      }
      var hashes := user.hashes.value;
      var normalized := c.normalize(code);
      ghost var at := MatchAt(c, hashes, normalized);
      var remaining: seq<string> := [];
      var matched := false;
      for i := 0 to |hashes|
        invariant matched <==> at < i
        invariant remaining == if matched then hashes[..at] + hashes[at + 1..i] else hashes[..i]
      {
        if !matched && c.matches(hashes[i], normalized) {
          matched := true;
          continue;
        }
        remaining := remaining + [hashes[i]];
      }
      if !matched {
        return false;
      }
      assert hashes[at + 1..|hashes|] == hashes[at + 1..];
      user := user.(hashes := Some(remaining));
      ok := UpdateUser();
    }

    /** The first code is checked, but its step is not recorded. */
    method ConfirmEnrollment(pendingSecret: string, code: string, clock: nat, hashes: seq<string>) returns (ok: bool)
      requires |hashes| == RECOVERY_CODE_COUNT
      modifies this
      ensures ok ==>
                && old(user).canUseTotp && pendingSecret != ""
                && FirstMatch(c, pendingSecret, c.trim(code), Candidates(CounterAt(clock))).Step?
                && stored == User(true, true, pendingSecret, Some(hashes), 0)
      ensures !ok ==> stored == old(stored)
      ensures reliable && old(user).canUseTotp && pendingSecret != "" ==>
                (ok <==> FirstMatch(c, pendingSecret, c.trim(code), Candidates(CounterAt(clock))).Step?)
    {
      if !user.canUseTotp {
        return false;
      }
      if pendingSecret == "" {
        return false;
      }
      var r := ValidateTotpWithStep(c.trim(code), pendingSecret, clock);
      if !r.Step? {
        return false;
      }
      user := user.(secret := pendingSecret, hashes := Some(hashes), lastUsedStep := 0, enabled := true);
      ok := UpdateUser();
    }

    method Disable() returns (ok: bool)
      modifies this
      ensures stored == if ok then User(old(user).canUseTotp, false, "", None, 0) else old(stored)
      ensures reliable ==> ok
    {
      user := user.(enabled := false, secret := "", hashes := None, lastUsedStep := 0);
      ok := UpdateUser();
    }
  }

  // ---------------------------------------------------------------------- runs within one enrollment

  /** A call of `ValidateCode` for the user as stored; a failing save makes it an error. */
  datatype Call = Call(code: string, clock: nat, saves: bool)

  /** The stored record, and what was accepted so far: the steps, and the hashes of recovery codes. */
  datatype History = History(user: User, steps: seq<int>, clocks: seq<nat>, consumed: seq<string>)

  function Extended(c: Crypto, h: History, call: Call): History {
    var v := Judge(c, h.user, call.code, call.clock);
    JudgedIndex(c, h.user, call.code, call.clock);
    if v.Refused? || !call.saves then h
    else
      var user := Used(h.user, v);
      match v
      case ByCode(step) => h.(user := user, steps := h.steps + [step], clocks := h.clocks + [call.clock])
      case ByRecoveryCode(i) => h.(user := user, consumed := h.consumed + [h.user.hashes.value[i]])
  }

  function Exec(c: Crypto, start: User, run: seq<Call>): History {
    if run == [] then History(start, [], [], [])
    else Extended(c, Exec(c, start, run[..|run| - 1]), run[|run| - 1])
  }

  lemma {:induction false} MatchIsCandidate(c: Crypto, secret: string, passcode: string, steps: seq<int>)
    requires FirstMatch(c, secret, passcode, steps).Step?
    ensures var step := FirstMatch(c, secret, passcode, steps).step;
            step in steps && c.code(secret, step) == Some(passcode)
  {
    if c.code(secret, steps[0]) != Some(passcode) {
      MatchIsCandidate(c, secret, passcode, steps[1..]);
    }
  }

  lemma AcceptedIsNear(c: Crypto, u: User, code: string, clock: nat)
    requires Judge(c, u, code, clock).ByCode?
    ensures var step := Judge(c, u, code, clock).step;
            && CounterAt(clock) - 1 <= step <= CounterAt(clock) + 1
            && c.code(u.secret, step) == Some(c.trim(code))
            && (u.lastUsedStep == 0 || step > u.lastUsedStep)
  {
    hide FirstMatch;
    MatchIsCandidate(c, u.secret, c.trim(code), Candidates(CounterAt(clock)));
  }

  /** Steps are within one of their clocks, and strictly increase up to the recorded one. */
  predicate StepsIncrease(h: History) {
    && |h.steps| == |h.clocks|
    && (forall i :: 0 <= i < |h.steps| ==> CounterAt(h.clocks[i]) - 1 <= h.steps[i] <= CounterAt(h.clocks[i]) + 1)
    && (forall i, j :: 0 <= i < j < |h.steps| ==> h.steps[i] < h.steps[j])
    && h.user.lastUsedStep == if h.steps == [] then 0 else h.steps[|h.steps| - 1]
  }

  /**
    With a clock past the first minute of the epoch, the accepted steps of an enrollment strictly increase
    and each lies within one step of the clock: no code is accepted for the same step twice.
  */
  lemma {:induction false} AcceptedStepsIncrease(c: Crypto, start: User, run: seq<Call>)
    requires start.lastUsedStep == 0 && forall k :: 0 <= k < |run| ==> run[k].clock >= 60
    ensures StepsIncrease(Exec(c, start, run))
    ensures forall i :: 0 <= i < |Exec(c, start, run).steps| ==> Exec(c, start, run).steps[i] > 0
  {
    hide Extended, StepsIncrease;
    if run == [] {
      NothingAccepted(start);
    } else {
      var n := |run| - 1;
      assert forall k :: 0 <= k < n ==> run[..n][k] == run[k];
      AcceptedStepsIncrease(c, start, run[..n]);
      CallKeepsIncrease(c, Exec(c, start, run[..n]), run[n]);
    }
  }

  lemma NothingAccepted(start: User)
    requires start.lastUsedStep == 0
    ensures StepsIncrease(History(start, [], [], []))
  {
  }

  lemma CallKeepsIncrease(c: Crypto, h: History, call: Call)
    requires StepsIncrease(h) && call.clock >= 60 && forall i :: 0 <= i < |h.steps| ==> h.steps[i] > 0
    ensures StepsIncrease(Extended(c, h, call))
    ensures forall i :: 0 <= i < |Extended(c, h, call).steps| ==> Extended(c, h, call).steps[i] > 0
  {
    hide Judge;
    var v := Judge(c, h.user, call.code, call.clock);
    JudgedIndex(c, h.user, call.code, call.clock);
    if v.ByCode? {
      AcceptedIsNear(c, h.user, call.code, call.clock);
      assert v.step > 0 && forall i :: 0 <= i < |h.steps| ==> h.steps[i] < v.step;
    }
  }

  /** Each accepted recovery code removes exactly one hash: the stored and the consumed ones are those issued. */
  lemma {:induction false} RecoveryCodesAreConserved(c: Crypto, start: User, run: seq<Call>)
    requires start.hashes.Some?
    ensures var h := Exec(c, start, run);
            && h.user.hashes.Some?
            && multiset(h.user.hashes.value) + multiset(h.consumed) == multiset(start.hashes.value)
            && |h.user.hashes.value| + |h.consumed| == |start.hashes.value|
  {
    hide Judge;
    if run != [] {
      var n := |run| - 1;
      RecoveryCodesAreConserved(c, start, run[..n]);
      var h := Exec(c, start, run[..n]);
      JudgedIndex(c, h.user, run[n].code, run[n].clock);
      var v := Judge(c, h.user, run[n].code, run[n].clock);
      if v.ByRecoveryCode? {
        RemovedHash(h.user.hashes.value, v.index);
      }
    }
  }

  lemma RemovedHash(hashes: seq<string>, i: nat)
    requires i < |hashes|
    ensures multiset(hashes[..i] + hashes[i + 1..]) + multiset([hashes[i]]) == multiset(hashes)
  {
    assert hashes == hashes[..i] + [hashes[i]] + hashes[i + 1..];
  }

  /** At most eight recovery codes are ever accepted within an enrollment. */
  lemma AtMostEightRecoveryCodes(c: Crypto, start: User, run: seq<Call>)
    requires start.hashes.Some? && |start.hashes.value| == RECOVERY_CODE_COUNT
    ensures |Exec(c, start, run).consumed| <= 8
  {
    RecoveryCodesAreConserved(c, start, run);
  }

  // ---------------------------------------------------------------------- single calls

  /** Whether a step is newer than the recorded one, where zero records none. */
  predicate IsFresh(u: User, step: int) {
    u.lastUsedStep == 0 || step > u.lastUsedStep
  }

  /**
    What happens to a code that is not a recovery code: the current half minute is tried first, then the next
    and the previous one, and the first whose code it is decides. It is accepted if and only if that is fresh.
  */
  lemma CodeAcceptedIff(c: Crypto, u: User, code: string, clock: nat)
    requires var t := c.trim(code); t != "" && !(|t| == 9 && t[4] == '-')
    ensures var n, t, v := clock / 30, Some(c.trim(code)), Judge(c, u, code, clock);
            var now, next, last := c.code(u.secret, n), c.code(u.secret, n + 1), c.code(u.secret, n - 1);
            if !u.enabled || u.secret == "" || now.None? then v == Refused
            else if now == t then v == if IsFresh(u, n) then ByCode(n) else Refused
            else if next.None? then v == Refused
            else if next == t then v == if IsFresh(u, n + 1) then ByCode(n + 1) else Refused
            else if last == t then v == if IsFresh(u, n - 1) then ByCode(n - 1) else Refused
            else v == Refused
  {
    hide FirstMatch;
    var n, t := clock / 30, c.trim(code);
    assert Candidates(n)[1..] == [n + 1, n - 1] && [n + 1, n - 1][1..] == [n - 1] && [n - 1][1..] == [];
    FirstMatchStep(c, u.secret, t, Candidates(n));
    FirstMatchStep(c, u.secret, t, [n + 1, n - 1]);
    FirstMatchStep(c, u.secret, t, [n - 1]);
    FirstMatchStep(c, u.secret, t, []);
  }

  lemma FirstMatchStep(c: Crypto, secret: string, passcode: string, steps: seq<int>)
    ensures FirstMatch(c, secret, passcode, steps) ==
              if steps == [] then NoSuchStep
              else if c.code(secret, steps[0]).None? then StepError
              else if c.code(secret, steps[0]).value == passcode then Step(steps[0])
              else FirstMatch(c, secret, passcode, steps[1..])
  {
  }

  /** A recovery code, of eight characters around a dash, is accepted iff a stored hash is its own; that one goes. */
  lemma RecoveryCodeAcceptedIff(c: Crypto, u: User, code: string, clock: nat)
    requires var t := c.trim(code); |t| == 9 && t[4] == '-'
    requires u.enabled && u.secret != "" && u.hashes.Some?
    ensures var v, own := Judge(c, u, code, clock), c.normalize(c.trim(code));
            && !v.ByCode?
            && (v.ByRecoveryCode? <==> exists h :: h in u.hashes.value && c.matches(h, own))
  {
    var own := c.normalize(c.trim(code));
    var i := MatchAt(c, u.hashes.value, own);
    if h :| h in u.hashes.value && c.matches(h, own) {
      var k :| 0 <= k < |u.hashes.value| && u.hashes.value[k] == h;
      assert i <= k;
    }
  }

  /** Acceptance changes the recorded step, or takes the hash, and nothing else. */
  lemma AcceptanceRecords(c: Crypto, u: User, code: string, clock: nat)
    requires !Judge(c, u, code, clock).Refused?
    ensures var v := Judge(c, u, code, clock);
            var w := (JudgedIndex(c, u, code, clock); Used(u, v));
            && w.canUseTotp == u.canUseTotp && w.enabled && w.secret == u.secret
            && (v.ByCode? ==> w.lastUsedStep == v.step && w.hashes == u.hashes)
            && (v.ByRecoveryCode? ==>
                 && w.lastUsedStep == u.lastUsedStep && w.hashes.Some?
                 && multiset(w.hashes.value) + multiset{u.hashes.value[v.index]} == multiset(u.hashes.value))
  {
    JudgedIndex(c, u, code, clock);
    var v := Judge(c, u, code, clock);
    if v.ByRecoveryCode? {
      RemovedHash(u.hashes.value, v.index);
    }
  }

  /** A code that was just accepted is refused at the same time iff its step is not the step zero. */
  lemma ReplayIsRefusedIff(c: Crypto, u: User, code: string, clock: nat)
    requires Judge(c, u, code, clock).ByCode?
    ensures var v := Judge(c, u, code, clock);
            Judge(c, Used(u, v), code, clock).Refused? <==> v.step != 0
  {
    hide FirstMatch;
  }

  /** A recovery code is refused after use iff no other stored hash matches it. */
  lemma RecoveryReplayIff(c: Crypto, u: User, code: string, clock: nat)
    requires Judge(c, u, code, clock).ByRecoveryCode?
    ensures u.hashes.Some?
    ensures var i, hashes := Judge(c, u, code, clock).index, u.hashes.value;
            i < |hashes| &&
            (Judge(c, Used(u, ByRecoveryCode(i)), code, clock).Refused? <==>
              forall k :: 0 <= k < |hashes| && k != i ==> !c.matches(hashes[k], c.normalize(c.trim(code))))
  {
    JudgedIndex(c, u, code, clock);
    var i, hashes := Judge(c, u, code, clock).index, u.hashes.value;
    var normalized, rest := c.normalize(c.trim(code)), hashes[..i] + hashes[i + 1..];
    assert forall k :: 0 <= k < |rest| ==> rest[k] == hashes[if k < i then k else k + 1];
    if k :| 0 <= k < |hashes| && k != i && c.matches(hashes[k], normalized) {
      assert rest[if k < i then k else k - 1] == hashes[k];
    }
  }

  /** The code that confirmed an enrollment is accepted once more, since enrolling records no step. */
  lemma EnrollmentCodeIsAcceptedAgain(c: Crypto, secret: string, hashes: seq<string>, code: string, clock: nat)
    requires secret != "" && c.trim(code) != "" && !IsRecoveryCodeFormat(c.trim(code))
    requires FirstMatch(c, secret, c.trim(code), Candidates(CounterAt(clock))).Step?
    ensures Judge(c, User(true, true, secret, Some(hashes), 0), code, clock).ByCode?
  {
  }

  /** Nothing is accepted once the second factor is switched off. */
  lemma {:induction false} DisabledAcceptsNothing(c: Crypto, start: User, run: seq<Call>)
    requires !start.enabled
    ensures Exec(c, start, run) == History(start, [], [], [])
  {
    hide FirstMatch;
    if run != [] {
      DisabledAcceptsNothing(c, start, run[..|run| - 1]);
    }
  }
}
