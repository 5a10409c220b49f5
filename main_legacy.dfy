// The earlier service (main.go): parse the notification, then one merged loop
// that waits while the instance is STOPPING and starts it when it is
// TERMINATED; the receive callback acknowledges the message afterwards.
//
// As in NightKing, the status queries are a finite script of answers; the Go
// loop keeps polling for as long as the instance stays STOPPING, and the model
// stops with ScriptExhausted when the script runs out first.

module MainLegacy {
  import opened Payload
  import opened Compute

  /** Seconds slept after a STOPPING answer. */
  const StoppingSleepSeconds: nat := 30

  // ---------------------------------------------------------------------------
  // parseNightKingMessage

  /**
   * parseNightKingMessage: the decode error is overwritten by the name check,
   * which is overwritten by the zone check.
   */
  function ParseNightKingMessage(message: JsonDecode): (r: Parsed)
    ensures r.err == None <==> WellFormed(message)
    ensures r.err == None ==> r.parsed == GceInstanceInfo(message.name.value, message.zone.value)
    ensures r.parsed == DecodedInfo(message)
    ensures r.parsed.zone == "" ==> r.err == Some(MissingZone)
    ensures r.parsed.zone != "" && r.parsed.name == "" ==> r.err == Some(MissingName)
    ensures message.Malformed? ==> r.err == Some(MissingZone)
  {
    var parsed := DecodedInfo(message);
    var err := DecodeError(message);
    var err := if parsed.name == "" then Some(MissingName) else err;
    var err := if parsed.zone == "" then Some(MissingZone) else err;
    Parsed(parsed, err)
  }

  // ---------------------------------------------------------------------------
  // resurrectInstance: the keepTrying loop

  datatype ResurrectOutcome =
    | Started           // saw TERMINATED and called startInstance
    | NotTerminated     // saw RUNNING or an unknown status and left the instance alone
    | QueryFailed       // the status query failed
    | ScriptExhausted   // still waiting on STOPPING when the scripted answers ran out

  /** How a call ended, how many status queries it made, and what it did. */
  datatype ResurrectRun = ResurrectRun(outcome: ResurrectOutcome, polls: nat, trace: seq<Action>)

  /** A run that first made `polls` queries doing `trace`, then went on as `rest`. */
  function Resume(polls: nat, trace: seq<Action>, rest: ResurrectRun): ResurrectRun {
    ResurrectRun(rest.outcome, polls + rest.polls, trace + rest.trace)
  }

  /** The reference semantics of resurrectInstance for `info`, the status queries answering `script`. */
  function Resurrect(info: GceInstanceInfo, script: seq<PollResult>): ResurrectRun
    decreases |script|
  {
    if script == [] then ResurrectRun(ScriptExhausted, 0, [])
    else
      match script[0]
      case QueryErr => ResurrectRun(QueryFailed, 1, [Poll])
      case Ok(status) =>
        match status
        case Stopping => Resume(1, [Poll, Sleep(StoppingSleepSeconds)], Resurrect(info, script[1..]))
        case Terminated => ResurrectRun(Started, 1, [Poll, Start(info)])
        case _ => ResurrectRun(NotTerminated, 1, [Poll])
  }

  /** resurrectInstance, with its keepTrying flag. */
  method ResurrectInstance(info: GceInstanceInfo, script: seq<PollResult>) returns (run: ResurrectRun)
    ensures run == Resurrect(info, script)
  {
    var i := 0;
    var trace: seq<Action> := [];
    var outcome := ScriptExhausted;
    var keepTrying := true;
    assert script[i..] == script;
    while keepTrying
      invariant i <= |script|
      invariant keepTrying ==> Resurrect(info, script) == Resume(i, trace, Resurrect(info, script[i..]))
      invariant !keepTrying ==> Resurrect(info, script) == ResurrectRun(outcome, i, trace)
      decreases |script| - i
    {
      if i == |script| {
        return ResurrectRun(ScriptExhausted, i, trace);
      }
      assert script[i..][0] == script[i];
      ghost var before := trace;
      var answer := script[i];
      i, trace := i + 1, trace + [Poll];
      if answer.QueryErr? {
        ResurrectLoopEnd(info, script, i - 1, before);
        return ResurrectRun(QueryFailed, i, trace);
      }
      keepTrying := false;
      match answer.status
      case Stopping =>
        keepTrying := true;
        trace := trace + [Sleep(StoppingSleepSeconds)];
        ResurrectLoopStep(info, script, i - 1, before);
      case Terminated =>
        trace := trace + [Start(info)];
        outcome := Started;
        ResurrectLoopEnd(info, script, i - 1, before);
      case _ =>
        outcome := NotTerminated;
        ResurrectLoopEnd(info, script, i - 1, before);
    }
    run := ResurrectRun(outcome, i, trace);
  }

  /** The loop invariant of ResurrectInstance survives a STOPPING answer. */
  lemma ResurrectLoopStep(info: GceInstanceInfo, script: seq<PollResult>, k: nat, before: seq<Action>)
    requires k < |script| && script[k] == Ok(Stopping)
    requires Resurrect(info, script) == Resume(k, before, Resurrect(info, script[k..]))
    ensures Resurrect(info, script) == Resume(k + 1, before + [Poll] + [Sleep(StoppingSleepSeconds)], Resurrect(info, script[k + 1..]))
  {
    assert script[k..][0] == script[k] && script[k..][1..] == script[k + 1..];
    var rest := Resurrect(info, script[k + 1..]);
    assert before + ([Poll, Sleep(StoppingSleepSeconds)] + rest.trace) == before + [Poll] + [Sleep(StoppingSleepSeconds)] + rest.trace;
  }

  /** The answer after which ResurrectInstance leaves its loop decides the run. */
  lemma ResurrectLoopEnd(info: GceInstanceInfo, script: seq<PollResult>, k: nat, before: seq<Action>)
    requires k < |script| && script[k] != Ok(Stopping)
    requires Resurrect(info, script) == Resume(k, before, Resurrect(info, script[k..]))
    ensures Resurrect(info, script) == ResurrectRun(
      if script[k] == QueryErr then QueryFailed else if script[k] == Ok(Terminated) then Started else NotTerminated,
      k + 1,
      before + [Poll] + (if script[k] == Ok(Terminated) then [Start(info)] else []))
  {
    assert script[k..][0] == script[k];
    assert [Poll, Start(info)] == [Poll] + [Start(info)];
    assert [Poll] + [] == [Poll];
  }

  /**
   * STOPPING is the only answer that keeps the loop going: every answer
   * before the last was STOPPING; the call starts the instance exactly when
   * the last answer was TERMINATED, fails exactly on a query error, and
   * leaves the instance alone on anything else, RUNNING included.
   */
  lemma {:induction false} ResurrectEndsAtFirstNonStopping(info: GceInstanceInfo, script: seq<PollResult>)
    ensures var r := Resurrect(info, script);
      && r.polls <= |script|
      && (forall j :: 0 <= j < r.polls - 1 ==> script[j] == Ok(Stopping))
      && (r.outcome == ScriptExhausted <==> r.polls == |script| && forall j :: 0 <= j < |script| ==> script[j] == Ok(Stopping))
      && (r.outcome == Started <==> r.polls >= 1 && script[r.polls - 1] == Ok(Terminated))
      && (r.outcome == QueryFailed <==> r.polls >= 1 && script[r.polls - 1] == QueryErr)
      && (r.outcome == NotTerminated <==>
            r.polls >= 1 && script[r.polls - 1].Ok?
            && script[r.polls - 1].status != Stopping && script[r.polls - 1].status != Terminated)
  {
    if script != [] && script[0] == Ok(Stopping) {
      ResurrectEndsAtFirstNonStopping(info, script[1..]);
      forall j | 1 <= j < |script| ensures script[j] == script[1..][j - 1] { }
    }
  }

  /**
   * startInstance is called at most once, for the instance in hand, exactly
   * when the call ends Started, and as the very last thing, right after the
   * poll that saw TERMINATED.
   */
  lemma {:induction false} ResurrectStartsAtMostOnce(info: GceInstanceInfo, script: seq<PollResult>)
    ensures var r := Resurrect(info, script);
      && StartsIn(r.trace) == (if r.outcome == Started then [info] else [])
      && (r.outcome == Started ==> |r.trace| >= 2 && r.trace[|r.trace| - 2..] == [Poll, Start(info)])
  {
    var r := Resurrect(info, script);
    if script != [] && script[0] == Ok(Stopping) {
      ResurrectStartsAtMostOnce(info, script[1..]);
      var rest := Resurrect(info, script[1..]);
      var steps := [Poll, Sleep(StoppingSleepSeconds)];
      assert r.trace == steps + rest.trace;
      StartsInAppend(steps, rest.trace);
      if rest.outcome == Started {
        assert r.trace[|r.trace| - 2..] == rest.trace[|rest.trace| - 2..];
      }
    } else if script != [] {
      if r.outcome == Started {
        assert r.trace == [Poll] + [Start(info)];
        StartsInAppend([Poll], [Start(info)]);
        assert StartsIn([Start(info)]) == [info] + StartsIn([]);
      }
    }
  }

  /** The trace of `n` STOPPING answers: a poll and a 30 s sleep for each. */
  function StoppingWaits(n: nat): (trace: seq<Action>)
    ensures |trace| == 2 * n
  {
    if n == 0 then [] else [Poll, Sleep(StoppingSleepSeconds)] + StoppingWaits(n - 1)
  }

  /**
   * The whole trace of a call: a poll and a 30 s sleep for every query but
   * the last, then the last poll, and the start right after it when that
   * poll saw TERMINATED; a poll and a sleep for every query when the answers
   * ran out still STOPPING.
   */
  lemma {:induction false} ResurrectTraceShape(info: GceInstanceInfo, script: seq<PollResult>)
    ensures Resurrect(info, script).outcome == ScriptExhausted ==>
      Resurrect(info, script).trace == StoppingWaits(Resurrect(info, script).polls)
    ensures Resurrect(info, script).outcome != ScriptExhausted ==>
      Resurrect(info, script).polls >= 1
      && Resurrect(info, script).trace == StoppingWaits(Resurrect(info, script).polls - 1) + [Poll]
           + (if Resurrect(info, script).outcome == Started then [Start(info)] else [])
  {
    if script != [] && script[0] == Ok(Stopping) {
      var rest := Resurrect(info, script[1..]);
      ResurrectTraceShape(info, script[1..]);
      var step := [Poll, Sleep(StoppingSleepSeconds)];
      if rest.outcome != ScriptExhausted {
        var last := [Poll] + (if rest.outcome == Started then [Start(info)] else []);
        assert step + (StoppingWaits(rest.polls - 1) + last) == (step + StoppingWaits(rest.polls - 1)) + last;
      }
    } else if script != [] {
      assert [Poll] + [] == [Poll] && [Poll] + [Start(info)] == [Poll, Start(info)];
    }
  }

  /**
   * Counted: one Poll per status query, one 30 s sleep fewer than queries
   * (as many when the script ran out still STOPPING), and no ack.
   */
  lemma {:induction false} ResurrectPollsAndSleeps(info: GceInstanceInfo, script: seq<PollResult>)
    ensures var r := Resurrect(info, script);
      && Occurrences(r.trace, Poll) == r.polls
      && Occurrences(r.trace, Sleep(StoppingSleepSeconds)) == (if r.outcome == ScriptExhausted then r.polls else r.polls - 1)
      && Ack !in r.trace
  {
    if script != [] && script[0] == Ok(Stopping) {
      ResurrectPollsAndSleeps(info, script[1..]);
      StoppingStepCounts(Resurrect(info, script[1..]).trace);
    } else if script != [] {
      LastStepCounts(info);
    }
  }

  /** The poll and the sleep of one STOPPING answer, in front of what follows. */
  lemma StoppingStepCounts(rest: seq<Action>)
    ensures Occurrences([Poll, Sleep(StoppingSleepSeconds)] + rest, Poll) == 1 + Occurrences(rest, Poll)
    ensures Occurrences([Poll, Sleep(StoppingSleepSeconds)] + rest, Sleep(StoppingSleepSeconds))
         == 1 + Occurrences(rest, Sleep(StoppingSleepSeconds))
  {
    var sleep := Sleep(StoppingSleepSeconds);
    assert [Poll, sleep] + rest == [Poll] + ([sleep] + rest);
    OccurrencesCons(Poll, [sleep] + rest, Poll);
    OccurrencesCons(sleep, rest, Poll);
    OccurrencesCons(Poll, [sleep] + rest, sleep);
    OccurrencesCons(sleep, rest, sleep);
  }

  /** The traces of a last answer: one poll, then possibly the start, and no sleep. */
  lemma LastStepCounts(info: GceInstanceInfo)
    ensures Occurrences([Poll], Poll) == 1 && Occurrences([Poll], Sleep(StoppingSleepSeconds)) == 0
    ensures Occurrences([Poll, Start(info)], Poll) == 1
    ensures Occurrences([Poll, Start(info)], Sleep(StoppingSleepSeconds)) == 0
  {
    OccurrencesCons(Poll, [], Poll);
    OccurrencesCons(Poll, [], Sleep(StoppingSleepSeconds));
    OccurrencesCons(Poll, [Start(info)], Poll);
    OccurrencesCons(Poll, [Start(info)], Sleep(StoppingSleepSeconds));
    OccurrencesOne(Start(info), Poll);
    OccurrencesOne(Start(info), Sleep(StoppingSleepSeconds));
    assert [Poll] + [] == [Poll] && [Poll] + [Start(info)] == [Poll, Start(info)];
  }

  /**
   * There is no bound on the STOPPING retries: any number of STOPPING answers
   * in front of `rest` leave the outcome as `rest` alone decides it.
   */
  lemma {:induction false} StoppingRetriedWithoutBound(info: GceInstanceInfo, pre: seq<PollResult>, rest: seq<PollResult>)
    requires forall j :: 0 <= j < |pre| ==> pre[j] == Ok(Stopping)
    ensures Resurrect(info, pre + rest).outcome == Resurrect(info, rest).outcome
    ensures Resurrect(info, pre + rest).polls == |pre| + Resurrect(info, rest).polls
  {
    if pre == [] {
      assert pre + rest == rest;
    } else {
      assert (pre + rest)[0] == Ok(Stopping);
      assert (pre + rest)[1..] == pre[1..] + rest;
      StoppingRetriedWithoutBound(info, pre[1..], rest);
    }
  }

  /** Scenarios: wait through STOPPING, then start; RUNNING is left alone; a failed query ends the call. */
  lemma ResurrectScenarios(info: GceInstanceInfo)
    ensures Resurrect(info, [Ok(Stopping), Ok(Stopping), Ok(Terminated)])
         == ResurrectRun(Started, 3, [Poll, Sleep(30), Poll, Sleep(30), Poll, Start(info)])
    ensures Resurrect(info, [Ok(Running), Ok(Terminated)]) == ResurrectRun(NotTerminated, 1, [Poll])
    ensures Resurrect(info, [QueryErr, Ok(Terminated)]) == ResurrectRun(QueryFailed, 1, [Poll])
  {
    assert [Ok(Stopping), Ok(Stopping), Ok(Terminated)][1..] == [Ok(Stopping), Ok(Terminated)];
    assert [Ok(Stopping), Ok(Terminated)][1..] == [Ok(Terminated)];
    assert Resurrect(info, [Ok(Terminated)]) == ResurrectRun(Started, 1, [Poll, Start(info)]);
    assert Resurrect(info, [Ok(Stopping), Ok(Terminated)]) == ResurrectRun(Started, 2, [Poll, Sleep(30), Poll, Start(info)]);
  }

  // ---------------------------------------------------------------------------
  // handleNightKingMessage and the receive callback

  /**
   * handleNightKingMessage: a message that fails to parse never reaches
   * resurrectInstance; a valid one runs it for the named instance.
   * `stillWaiting` reports that the answers ran out while the loop was still
   * waiting on STOPPING, so the Go handler has not returned yet.
   */
  method HandleNightKingMessage(message: JsonDecode, script: seq<PollResult>) returns (trace: seq<Action>, stillWaiting: bool)
    ensures stillWaiting <==>
      WellFormed(message) && Resurrect(GceInstanceInfo(message.name.value, message.zone.value), script).outcome == ScriptExhausted
    ensures !WellFormed(message) ==> trace == []
    ensures WellFormed(message) ==>
      trace == Resurrect(GceInstanceInfo(message.name.value, message.zone.value), script).trace
    ensures |StartsIn(trace)| <= 1
    ensures Ack !in trace
  {
    var instanceInfo := ParseNightKingMessage(message);
    if instanceInfo.err.Some? {
      return [], false;
    }
    var run := ResurrectInstance(instanceInfo.parsed, script);
    ResurrectStartsAtMostOnce(instanceInfo.parsed, script);
    ResurrectPollsAndSleeps(instanceInfo.parsed, script);
    trace, stillWaiting := run.trace, run.outcome == ScriptExhausted;
  }

  /**
   * The receive callback in handleNightKingMessages: handle the message, then
   * ack it, once. A handler still waiting when the answers run out has not
   * returned, so the message is not acknowledged yet.
   */
  method ReceiveCallback(message: JsonDecode, script: seq<PollResult>) returns (trace: seq<Action>)
    ensures Occurrences(trace, Ack) ==
      if WellFormed(message) && Resurrect(GceInstanceInfo(message.name.value, message.zone.value), script).outcome == ScriptExhausted
      then 0 else 1
    ensures Ack in trace ==> trace[|trace| - 1] == Ack && Ack !in trace[..|trace| - 1]
    ensures !WellFormed(message) ==> trace == [Ack]
    ensures WellFormed(message) ==>
      trace == Resurrect(GceInstanceInfo(message.name.value, message.zone.value), script).trace
        + (if Resurrect(GceInstanceInfo(message.name.value, message.zone.value), script).outcome == ScriptExhausted
           then [] else [Ack])
    ensures |StartsIn(trace)| <= 1
  {
    var handled, stillWaiting := HandleNightKingMessage(message, script);
    OccurrencesAbsent(handled, Ack);
    if stillWaiting {
      trace := handled;
      assert trace == handled + [];
    } else {
      StartsInAppend(handled, [Ack]);
      OccurrencesAppend(handled, [Ack], Ack);
      OccurrencesOne(Ack, Ack);
      trace := handled + [Ack];
      assert trace[..|trace| - 1] == handled;
    }
  }
}
