/** What a watchdog run does to the outside world, and the remediation ladder
    both watchdogs share: kill the bot's screen session, run the cancel-all
    command only when the kill succeeded, and report 0 only when both did. */
module Remediation {
  import opened Commands
  import opened StateStore
  import opened Wrappers

  /** An outward action of a run, with how it went. */
  datatype Effect =
    | WriteState(record: StateRecord, written: bool)
    | KillSession(rc: int)
    | CancelOrders(rc: int)

  /** The structured events a run logs, by name. */
  datatype Event =
    | RunStart
    | ReadFailed
    | ListOrdersFailed
    | StateWriteFailed
    | NoAlertsInNewLines
    | AlertsDetected
    | SpreadOk
    | SpreadThresholdBreached
    | ScreenKilled
    | ScreenKillFailed
    | CancelCommandOk
    | CancelCommandFailed
    | RunEnd(status: int)

  predicate IsRemediation(e: Effect) {
    e.KillSession? || e.CancelOrders?
  }

  /** The cancel command only ever runs right after a kill that returned 0. */
  predicate CancelOnlyAfterKill(effects: seq<Effect>) {
    forall j :: 0 <= j < |effects| && effects[j].CancelOrders? ==> 0 < j && effects[j - 1] == KillSession(0)
  }

  /** Every remediation step comes after the state write. */
  predicate PersistBeforeRemediation(effects: seq<Effect>) {
    forall j :: 0 <= j < |effects| && IsRemediation(effects[j]) ==>
      exists i :: 0 <= i < j && effects[i].WriteState?
  }

  /** The outward steps of the ladder: the kill, then the cancel only when
      the kill returned 0. */
  function LadderEffects(kill: Outcome, cancel: Outcome): (effects: seq<Effect>)
    ensures CancelOnlyAfterKill(effects)
    ensures effects != [] && effects[0].KillSession?
    ensures forall j :: 0 <= j < |effects| ==> IsRemediation(effects[j])
  {
    if Succeeded(kill) then [KillSession(0), CancelOrders(ReturnCode(cancel))]
    else [KillSession(ReturnCode(kill))]
  }

  /** The events the ladder logs, ending with the run's end and its status. */
  function LadderEvents(kill: Outcome, cancel: Outcome): seq<Event> {
    if !Succeeded(kill) then [ScreenKillFailed, RunEnd(2)]
    else if Succeeded(cancel) then [ScreenKilled, CancelCommandOk, RunEnd(0)]
    else [ScreenKilled, CancelCommandFailed, RunEnd(2)]
  }

  /** A state write followed by the ladder keeps both ordering rules. */
  lemma WriteThenLadder(write: Effect, kill: Outcome, cancel: Outcome)
    requires write.WriteState?
    ensures CancelOnlyAfterKill([write] + LadderEffects(kill, cancel))
    ensures PersistBeforeRemediation([write] + LadderEffects(kill, cancel))
  {
    var effects := [write] + LadderEffects(kill, cancel);
    forall j | 0 <= j < |effects| && IsRemediation(effects[j])
      ensures exists i :: 0 <= i < j && effects[i].WriteState?
    {
      assert effects[0].WriteState?;
    }
  }

  /** The ladder: kill, then cancel only when the kill returned 0; status 0 when
      both returned 0 and 2 otherwise, a skipped cancel included. */
  method Remediate(kill: Outcome, cancel: Outcome) returns (status: int, effects: seq<Effect>, events: seq<Event>)
    ensures status == 0 <==> Succeeded(kill) && Succeeded(cancel)
    ensures status == 0 || status == 2
    ensures effects == LadderEffects(kill, cancel)
    ensures events == LadderEvents(kill, cancel)
    ensures events[|events| - 1] == RunEnd(status)
  {
    var rc1 := ReturnCode(kill);
    effects := [KillSession(rc1)];
    if rc1 == 0 {
      events := [ScreenKilled];
    } else {
      events := [ScreenKillFailed];
    }
    var rc2: Option<int>;
    if rc1 == 0 {
      var cancelRc := ReturnCode(cancel);
      effects := effects + [CancelOrders(cancelRc)];
      rc2 := Some(cancelRc);
      if cancelRc == 0 {
        events := events + [CancelCommandOk];
      } else {
        events := events + [CancelCommandFailed];
      }
    } else {
      rc2 := None;
    }
    status := if rc1 == 0 && rc2 == Some(0) then 0 else 2;
    events := events + [RunEnd(status)];
  }

  /** The end both watchdogs share: persist the record (a failed write is
      logged and the run goes on), then either log the quiet outcome and
      return 0, or log the alert and run the ladder. The events are those
      after `run_start`. */
  method PersistAndRespond(record: StateRecord, writeOk: bool, matched: bool, quiet: Event, alert: Event,
                           kill: Outcome, cancel: Outcome)
    returns (status: int, effects: seq<Effect>, events: seq<Event>)
    ensures status == 0 <==> !matched || (Succeeded(kill) && Succeeded(cancel))
    ensures status == 0 || status == 2
    ensures effects == [WriteState(record, writeOk)] + (if matched then LadderEffects(kill, cancel) else [])
    ensures CancelOnlyAfterKill(effects)
    ensures PersistBeforeRemediation(effects)
    ensures events == (if writeOk then [] else [StateWriteFailed])
                      + (if matched then [alert] + LadderEvents(kill, cancel) else [quiet])
  {
    var write := WriteState(record, writeOk);
    effects := [write];
    events := [];
    if !writeOk {
      events := events + [StateWriteFailed];
    }
    WriteThenLadder(write, kill, cancel);
    if !matched {
      return 0, effects, events + [quiet];
    }
    events := events + [alert];
    var remediationStatus, remediationEffects, remediationEvents := Remediate(kill, cancel);
    status := remediationStatus;
    effects := effects + remediationEffects;
    events := events + remediationEvents;
  }
}
