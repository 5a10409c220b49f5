// The current service (nightking.go): parse the notification, wait for the
// instance to terminate, then issue one start request; the receive callback
// acknowledges the message afterwards.
//
// The status queries are a finite script of answers. The Go loop polls for as
// long as the instance keeps STOPPING or reports an unknown status; when the
// script runs out first the model stops with ScriptExhausted.

module NightKing {
  import opened Payload
  import opened Compute

  /** The wait gives up once stillRunningCount exceeds this. */
  const MaxStillRunning: nat := 6
  /** Seconds slept after a STOPPING answer. */
  const StoppingSleepSeconds: nat := 10
  /** Seconds slept after a RUNNING answer that does not end the wait. */
  const RunningSleepSeconds: nat := 30

  // ---------------------------------------------------------------------------
  // parseMessage

  /**
   * parseMessage: the decode error is overwritten by the name check, which is
   * overwritten by the zone check.
   */
  function ParseMessage(message: JsonDecode): (r: Parsed)
    ensures r.err == None <==> WellFormed(message)
    ensures r.err == None ==> r.parsed == GceInstanceInfo(message.name.value, message.zone.value)
    ensures r.parsed == DecodedInfo(message)
    ensures r.parsed.zone == "" ==> r.err == Some(MissingZone)
    ensures r.parsed.zone != "" && r.parsed.name == "" ==> r.err == Some(MissingName)
    ensures message.Malformed? ==> r.err == Some(MissingZone)
  {
    var parsed := DecodedInfo(message);
    var err := DecodeError(message);
    var err := if parsed.name == "" then Some(MissingName) else err;
    var err := if parsed.zone == "" then Some(MissingZone) else err;
    Parsed(parsed, err)
  }

  /** The three parse tests of main_test.go. */
  lemma ParseMessageTests()
    // {"name": "foo", "zone": "bar"}
    ensures ParseMessage(Decoded(Some("foo"), Some("bar"), false)) == Parsed(GceInstanceInfo("foo", "bar"), None)
    // {"foo": "bar"}
    ensures ParseMessage(Decoded(None, None, false)).err.Some?
    // foo
    ensures ParseMessage(Malformed).err.Some?
  {
  }

  // ---------------------------------------------------------------------------
  // waitForInstanceTermination

  datatype WaitOutcome =
    | SawTerminated     // returned true
    | GaveUp            // returned false: RUNNING seen more than MaxStillRunning times
    | QueryFailed       // returned false: the status query failed
    | ScriptExhausted   // still polling when the scripted answers ran out

  /** How a wait ended, how many status queries it made, and what it did. */
  datatype WaitRun = WaitRun(outcome: WaitOutcome, polls: nat, trace: seq<Action>)

  /** A run that first made `polls` queries doing `trace`, then went on as `rest`. */
  function Resume(polls: nat, trace: seq<Action>, rest: WaitRun): WaitRun {
    WaitRun(rest.outcome, polls + rest.polls, trace + rest.trace)
  }

  /** What one status answer does: end the wait, or sleep and poll again with the counter at `next`. */
  datatype Step = Return(outcome: WaitOutcome) | PollAgain(pause: seq<Action>, next: nat)

  /** The transition table of the wait, given the answer and the current stillRunningCount. */
  function StepOf(answer: PollResult, stillRunning: nat): Step {
    match answer
    case QueryErr => Return(QueryFailed)
    case Ok(Terminated) => Return(SawTerminated)
    case Ok(Stopping) => PollAgain([Sleep(StoppingSleepSeconds)], stillRunning)
    case Ok(Running) =>
      if stillRunning + 1 > MaxStillRunning then Return(GaveUp)
      else PollAgain([Sleep(RunningSleepSeconds)], stillRunning + 1)
    case Ok(Unknown(_)) => PollAgain([], stillRunning)
  }

  /**
   * The reference semantics of the wait: answers `script` to the status
   * queries, starting with `stillRunning` RUNNING answers already counted.
   */
  function Wait(script: seq<PollResult>, stillRunning: nat): WaitRun
    decreases |script|
  {
    if script == [] then WaitRun(ScriptExhausted, 0, [])
    else
      match StepOf(script[0], stillRunning)
      case Return(outcome) => WaitRun(outcome, 1, [Poll])
      case PollAgain(pause, next) => Resume(1, [Poll] + pause, Wait(script[1..], next))
  }

  /** waitForInstanceTermination; the Go result is `run.outcome == SawTerminated`. */
  method WaitForInstanceTermination(script: seq<PollResult>) returns (run: WaitRun)
    ensures run == Wait(script, 0)
  {
    var stillRunningCount: nat := 0;
    var i := 0;
    var trace: seq<Action> := [];
    assert script[i..] == script;
    while true
      invariant i <= |script|
      invariant stillRunningCount <= MaxStillRunning
      invariant Wait(script, 0) == Resume(i, trace, Wait(script[i..], stillRunningCount))
      decreases |script| - i
    {
      if i == |script| {
        run := WaitRun(ScriptExhausted, i, trace);
        break;
      }
      ghost var before, counted := trace, stillRunningCount;
      var answer := script[i];
      i, trace := i + 1, trace + [Poll];
      match answer
      case QueryErr =>
        run := WaitRun(QueryFailed, i, trace);
        break;
      case Ok(status) =>
        match status
        case Terminated =>
          run := WaitRun(SawTerminated, i, trace);
          break;
        case Stopping =>
          trace := trace + [Sleep(StoppingSleepSeconds)];
          WaitLoopStep(script, i - 1, counted, before, [Sleep(StoppingSleepSeconds)], stillRunningCount);
        case Running =>
          stillRunningCount := stillRunningCount + 1;
          if stillRunningCount > MaxStillRunning {
            run := WaitRun(GaveUp, i, trace);
            break;
          }
          trace := trace + [Sleep(RunningSleepSeconds)];
          WaitLoopStep(script, i - 1, counted, before, [Sleep(RunningSleepSeconds)], stillRunningCount);
        case Unknown(_) =>
          WaitLoopStep(script, i - 1, counted, before, [], stillRunningCount);
          assert before + [Poll] + [] == trace;
    }
  }

  /** The loop invariant of WaitForInstanceTermination survives an answer after which the wait goes on. */
  lemma WaitLoopStep(script: seq<PollResult>, k: nat, counted: nat, before: seq<Action>, pause: seq<Action>, next: nat)
    requires k < |script|
    requires StepOf(script[k], counted) == PollAgain(pause, next)
    requires Wait(script, 0) == Resume(k, before, Wait(script[k..], counted))
    ensures Wait(script, 0) == Resume(k + 1, before + [Poll] + pause, Wait(script[k + 1..], next))
  {
    assert script[k..][0] == script[k] && script[k..][1..] == script[k + 1..];
    var rest := Wait(script[k + 1..], next);
    assert before + ([Poll] + pause + rest.trace) == before + [Poll] + pause + rest.trace;
  }

  /** A status answer after which the wait goes on polling, as long as the counter allows. */
  predicate KeepsWaiting(p: PollResult) {
    p.Ok? && p.status != Terminated
  }

  /**
   * The wait ends at the first decisive answer: everything before it kept
   * waiting, TERMINATED is the only way to return true, and a failed query
   * ends it at once.
   */
  lemma {:induction false} WaitEndsAtFirstDecision(script: seq<PollResult>, stillRunning: nat)
    ensures var r := Wait(script, stillRunning);
      && r.polls <= |script|
      && (r.outcome == ScriptExhausted ==> r.polls == |script| && forall j :: 0 <= j < |script| ==> KeepsWaiting(script[j]))
      && (forall j :: 0 <= j < r.polls - 1 ==> KeepsWaiting(script[j]))
      && (r.outcome == SawTerminated <==> r.polls >= 1 && script[r.polls - 1] == Ok(Terminated))
      && (r.outcome == QueryFailed <==> r.polls >= 1 && script[r.polls - 1] == QueryErr)
      && (r.outcome == GaveUp ==> r.polls >= 1 && script[r.polls - 1] == Ok(Running))
  {
    if script != [] {
      if StepOf(script[0], stillRunning).PollAgain? {
        WaitEndsAtFirstDecision(script[1..], StepOf(script[0], stillRunning).next);
        forall j | 1 <= j < |script| ensures script[j] == script[1..][j - 1] { }
      }
    }
  }

  /**
   * Conversely, the first decisive answer ends the wait: if the answers before
   * index k all kept waiting without exhausting the counter, and the answer
   * at k is an error, TERMINATED, or the RUNNING that exhausts the counter,
   * the wait stops right there with the matching outcome.
   */
  lemma {:induction false} WaitDecidesAt(script: seq<PollResult>, k: nat, stillRunning: nat)
    requires k < |script|
    requires forall j :: 0 <= j < k ==> KeepsWaiting(script[j])
    requires stillRunning + Occurrences(script[..k], Ok(Running)) <= MaxStillRunning
    requires !KeepsWaiting(script[k]) || (stillRunning + Occurrences(script[..k], Ok(Running)) == MaxStillRunning && script[k] == Ok(Running))
    ensures Wait(script, stillRunning).polls == k + 1
    ensures Wait(script, stillRunning).outcome ==
      if script[k] == QueryErr then QueryFailed
      else if script[k] == Ok(Terminated) then SawTerminated
      else GaveUp
  {
    if k > 0 {
      assert script[..k] == [script[0]] + script[1..][..k - 1];
      assert StepOf(script[0], stillRunning).PollAgain?;
      forall j | 0 <= j < k - 1 ensures KeepsWaiting(script[1..][j]) {
        assert script[1..][j] == script[j + 1];
      }
      WaitDecidesAt(script[1..], k - 1, StepOf(script[0], stillRunning).next);
    }
  }

  /**
   * stillRunningCount is never reset: the wait gives up exactly when the
   * RUNNING answers it consumed, STOPPING or unknown answers in between or
   * not, bring the counter to MaxStillRunning + 1, and it never consumes more.
   */
  lemma {:induction false} WaitRunningBound(script: seq<PollResult>, stillRunning: nat)
    requires stillRunning <= MaxStillRunning
    ensures var r := Wait(script, stillRunning);
      && r.polls <= |script|
      && (r.outcome == GaveUp ==> stillRunning + Occurrences(script[..r.polls], Ok(Running)) == MaxStillRunning + 1)
      && (r.outcome != GaveUp ==> stillRunning + Occurrences(script[..r.polls], Ok(Running)) <= MaxStillRunning)
  {
    if script != [] {
      var r := Wait(script, stillRunning);
      if StepOf(script[0], stillRunning).PollAgain? {
        WaitRunningBound(script[1..], StepOf(script[0], stillRunning).next);
        var rest := Wait(script[1..], StepOf(script[0], stillRunning).next);
        assert script[..r.polls] == [script[0]] + script[1..][..rest.polls];
      } else {
        assert script[..r.polls] == [script[0]];
      }
    }
  }

  /** How often `x` occurs among the actions of one step that goes on waiting. */
  lemma StepOccurrences(pause: seq<Action>, x: Action)
    requires |pause| <= 1
    ensures Occurrences([Poll] + pause, x) == (if x == Poll then 1 else 0) + (if |pause| == 1 && pause[0] == x then 1 else 0)
  {
    OccurrencesAppend([Poll], pause, x);
    OccurrencesOne(Poll, x);
    if pause != [] {
      assert pause == [pause[0]];
      OccurrencesOne(pause[0], x);
    }
  }

  /** The actions a wait may take: a status query or one of its two sleeps. */
  predicate IsWaitAction(a: Action) {
    a == Poll || a == Sleep(StoppingSleepSeconds) || a == Sleep(RunningSleepSeconds)
  }

  /** A wait makes one Poll per status query it consumes. */
  lemma {:induction false} WaitPollsCounted(script: seq<PollResult>, stillRunning: nat)
    ensures var r := Wait(script, stillRunning); Occurrences(r.trace, Poll) == r.polls
  {
    if script != [] {
      if StepOf(script[0], stillRunning).PollAgain? {
        var rest := Wait(script[1..], StepOf(script[0], stillRunning).next);
        WaitPollsCounted(script[1..], StepOf(script[0], stillRunning).next);
        var steps := [Poll] + StepOf(script[0], stillRunning).pause;
        StepOccurrences(StepOf(script[0], stillRunning).pause, Poll);
        OccurrencesAppend(steps, rest.trace, Poll);
      } else {
        OccurrencesOne(Poll, Poll);
      }
    }
  }

  /** A wait only queries and sleeps: it never issues a start request and never acknowledges anything. */
  lemma {:induction false} WaitOnlyPollsAndSleeps(script: seq<PollResult>, stillRunning: nat)
    ensures forall k :: 0 <= k < |Wait(script, stillRunning).trace| ==> IsWaitAction(Wait(script, stillRunning).trace[k])
  {
    var r := Wait(script, stillRunning);
    if script != [] && StepOf(script[0], stillRunning).PollAgain? {
      var rest := Wait(script[1..], StepOf(script[0], stillRunning).next);
      WaitOnlyPollsAndSleeps(script[1..], StepOf(script[0], stillRunning).next);
      var steps := [Poll] + StepOf(script[0], stillRunning).pause;
      assert r.trace == steps + rest.trace;
      forall k | 0 <= k < |r.trace|
        ensures IsWaitAction(r.trace[k])
      {
        if k >= |steps| {
          assert r.trace[k] == rest.trace[k - |steps|];
        } else if k > 0 {
          assert r.trace[k] == StepOf(script[0], stillRunning).pause[0];
        }
      }
    }
  }

  /** Which sleep a step takes, and when a step that ends the wait gives up. */
  lemma StepSleeps(answer: PollResult, stillRunning: nat)
    ensures var step := StepOf(answer, stillRunning);
      && (step.PollAgain? ==> |step.pause| <= 1)
      && (step.PollAgain? ==> (|step.pause| == 1 <==> answer == Ok(Stopping) || answer == Ok(Running)))
      && (step.PollAgain? ==> ((|step.pause| == 1 && step.pause[0] == Sleep(StoppingSleepSeconds)) <==> answer == Ok(Stopping)))
      && (step.PollAgain? ==> ((|step.pause| == 1 && step.pause[0] == Sleep(RunningSleepSeconds)) <==> answer == Ok(Running)))
      && (step.Return? ==> (step.outcome == GaveUp <==> answer == Ok(Running)))
  {
  }

  /**
   * One step that goes on waiting keeps a sleep count in step with an answer
   * count: `x` is slept exactly when the answer is `a`.
   */
  lemma CountStep(script: seq<PollResult>, n: nat, pause: seq<Action>, restTrace: seq<Action>, x: Action, a: PollResult, extra: nat)
    requires 1 <= n <= |script|
    requires |pause| <= 1 && x != Poll
    requires (|pause| == 1 && pause[0] == x) <==> script[0] == a
    requires Occurrences(restTrace, x) + extra == Occurrences(script[1..][..n - 1], a)
    ensures Occurrences([Poll] + pause + restTrace, x) + extra == Occurrences(script[..n], a)
  {
    OccurrencesAppend([Poll] + pause, restTrace, x);
    StepOccurrences(pause, x);
    assert script[..n] == [script[0]] + script[1..][..n - 1];
    OccurrencesCons(script[0], script[1..][..n - 1], a);
  }

  /** A step that ends the wait sleeps no more and consumes exactly its one answer. */
  lemma CountStop(script: seq<PollResult>, x: Action, a: PollResult)
    requires 1 <= |script| && x != Poll
    ensures Occurrences([Poll], x) == 0
    ensures Occurrences(script[..1], a) == if script[0] == a then 1 else 0
  {
    assert script[..1] == [script[0]];
    OccurrencesOne(script[0], a);
    OccurrencesOne(Poll, x);
  }

  /** A wait sleeps 10 s after every STOPPING answer it consumes, and only then. */
  lemma {:induction false} WaitStoppingSleeps(script: seq<PollResult>, stillRunning: nat)
    ensures Wait(script, stillRunning).polls <= |script|
    ensures Occurrences(Wait(script, stillRunning).trace, Sleep(StoppingSleepSeconds))
         == Occurrences(script[..Wait(script, stillRunning).polls], Ok(Stopping))
  {
    var r := Wait(script, stillRunning);
    if script != [] {
      var step := StepOf(script[0], stillRunning);
      if step.PollAgain? {
        var rest := Wait(script[1..], step.next);
        WaitStoppingSleeps(script[1..], step.next);
        StepSleeps(script[0], stillRunning);
        CountStep(script, r.polls, step.pause, rest.trace, Sleep(StoppingSleepSeconds), Ok(Stopping), 0);
      } else {
        CountStop(script, Sleep(StoppingSleepSeconds), Ok(Stopping));
      }
    }
  }

  /**
   * A wait sleeps 30 s after every RUNNING answer it consumes, except the one
   * it gives up on.
   */
  lemma {:induction false} WaitRunningSleeps(script: seq<PollResult>, stillRunning: nat)
    ensures Wait(script, stillRunning).polls <= |script|
    ensures Occurrences(Wait(script, stillRunning).trace, Sleep(RunningSleepSeconds))
            + (if Wait(script, stillRunning).outcome == GaveUp then 1 else 0)
         == Occurrences(script[..Wait(script, stillRunning).polls], Ok(Running))
  {
    var r := Wait(script, stillRunning);
    if script != [] {
      var step := StepOf(script[0], stillRunning);
      if step.PollAgain? {
        var rest := Wait(script[1..], step.next);
        WaitRunningSleeps(script[1..], step.next);
        StepSleeps(script[0], stillRunning);
        CountStep(script, r.polls, step.pause, rest.trace, Sleep(RunningSleepSeconds), Ok(Running),
          if rest.outcome == GaveUp then 1 else 0);
      } else {
        StepSleeps(script[0], stillRunning);
        CountStop(script, Sleep(RunningSleepSeconds), Ok(Running));
      }
    }
  }

  /**
   * Every sleep of `trace` comes straight after a poll, and it is the sleep of
   * the answer that poll got: if it is the m-th poll of the trace (m at most
   * `polls`), then answer m - 1 of `script` was STOPPING for a 10 s sleep and
   * RUNNING for a 30 s one.
   */
  ghost predicate SleepsFollowPolls(script: seq<PollResult>, trace: seq<Action>, polls: nat) {
    forall j :: 0 <= j < |trace| && trace[j].Sleep? ==>
      && 1 <= j && trace[j - 1] == Poll
      && 1 <= Occurrences(trace[..j], Poll) <= polls
      && Occurrences(trace[..j], Poll) <= |script|
      && script[Occurrences(trace[..j], Poll) - 1]
         == (if trace[j] == Sleep(StoppingSleepSeconds) then Ok(Stopping) else Ok(Running))
  }

  /**
   * Where the sleeps of a wait are: each one follows the poll of its own
   * STOPPING or RUNNING answer. With WaitEndsWithPoll and the counts of
   * WaitStoppingSleeps and WaitRunningSleeps, each STOPPING answer and each
   * RUNNING answer the wait does not give up on is followed by its own sleep.
   */
  lemma {:induction false} WaitSleepsFollowPolls(script: seq<PollResult>, stillRunning: nat)
    ensures Wait(script, stillRunning).polls <= |script|
    ensures SleepsFollowPolls(script, Wait(script, stillRunning).trace, Wait(script, stillRunning).polls)
  {
    if script != [] {
      var step := StepOf(script[0], stillRunning);
      if step.PollAgain? {
        var rest := Wait(script[1..], step.next);
        WaitSleepsFollowPolls(script[1..], step.next);
        StepSleeps(script[0], stillRunning);
        SleepsStep(script, step.pause, rest.trace, rest.polls);
        assert Wait(script, stillRunning) == WaitRun(rest.outcome, 1 + rest.polls, [Poll] + step.pause + rest.trace);
      } else {
        assert Wait(script, stillRunning).trace == [Poll];
      }
    }
  }

  /** One step that goes on waiting, in front of a run whose sleeps follow their polls. */
  lemma SleepsStep(script: seq<PollResult>, pause: seq<Action>, restTrace: seq<Action>, restPolls: nat)
    requires 1 <= |script| && restPolls <= |script| - 1
    requires |pause| <= 1 && (|pause| == 1 <==> script[0] == Ok(Stopping) || script[0] == Ok(Running))
    requires (|pause| == 1 && pause[0] == Sleep(StoppingSleepSeconds)) <==> script[0] == Ok(Stopping)
    requires (|pause| == 1 && pause[0] == Sleep(RunningSleepSeconds)) <==> script[0] == Ok(Running)
    requires SleepsFollowPolls(script[1..], restTrace, restPolls)
    ensures SleepsFollowPolls(script, [Poll] + pause + restTrace, 1 + restPolls)
  {
    var head := [Poll] + pause;
    var trace := head + restTrace;
    StepOccurrences(pause, Poll);
    forall j | 0 <= j < |trace| && trace[j].Sleep?
      ensures 1 <= j && trace[j - 1] == Poll
      ensures 1 <= Occurrences(trace[..j], Poll) <= 1 + restPolls
      ensures Occurrences(trace[..j], Poll) <= |script|
      ensures script[Occurrences(trace[..j], Poll) - 1]
           == (if trace[j] == Sleep(StoppingSleepSeconds) then Ok(Stopping) else Ok(Running))
    {
      if j < |head| {
        assert j == 1 && trace[j] == pause[0];
        FirstPollCounted(trace);
      } else {
        ShiftedSleep(script, head, restTrace, j, restPolls);
      }
    }
  }

  /**
   * A wait that returns does so right after its last poll: it never sleeps
   * after the answer that ends it, the RUNNING it gives up on included.
   */
  lemma {:induction false} WaitEndsWithPoll(script: seq<PollResult>, stillRunning: nat)
    ensures Wait(script, stillRunning).outcome != ScriptExhausted ==>
      |Wait(script, stillRunning).trace| >= 1 && Wait(script, stillRunning).trace[|Wait(script, stillRunning).trace| - 1] == Poll
  {
    if script != [] {
      var step := StepOf(script[0], stillRunning);
      if step.PollAgain? {
        WaitEndsWithPoll(script[1..], step.next);
        LastOfAppend([Poll] + step.pause, Wait(script[1..], step.next).trace);
      }
    }
  }

  /** Appending a non-empty trace keeps its last action last. */
  lemma LastOfAppend(head: seq<Action>, rest: seq<Action>)
    ensures |rest| >= 1 ==> (head + rest)[|head + rest| - 1] == rest[|rest| - 1]
  {
  }

  /** The first action of a trace that starts with a poll holds one poll. */
  lemma FirstPollCounted(trace: seq<Action>)
    requires |trace| >= 1 && trace[0] == Poll
    ensures Occurrences(trace[..1], Poll) == 1
  {
    assert trace[..1] == [Poll];
    OccurrencesOne(Poll, Poll);
  }

  /**
   * A sleep of the rest of a run, seen from the whole run: one poll more
   * lies before it, and the answer it belongs to is one further on.
   */
  lemma ShiftedSleep(script: seq<PollResult>, head: seq<Action>, restTrace: seq<Action>, j: nat, restPolls: nat)
    requires 1 <= |script| && Occurrences(head, Poll) == 1
    requires |head| <= j < |head| + |restTrace|
    requires restTrace[j - |head|].Sleep?
    requires var k := j - |head|;
      && 1 <= k && restTrace[k - 1] == Poll
      && 1 <= Occurrences(restTrace[..k], Poll) <= restPolls <= |script| - 1
      && script[1..][Occurrences(restTrace[..k], Poll) - 1]
         == (if restTrace[k] == Sleep(StoppingSleepSeconds) then Ok(Stopping) else Ok(Running))
    ensures var trace := head + restTrace;
      && 1 <= j && trace[j - 1] == Poll
      && 1 <= Occurrences(trace[..j], Poll) <= 1 + restPolls
      && script[Occurrences(trace[..j], Poll) - 1]
         == (if trace[j] == Sleep(StoppingSleepSeconds) then Ok(Stopping) else Ok(Running))
  {
    var trace := head + restTrace;
    var k := j - |head|;
    assert trace[j] == restTrace[k] && trace[j - 1] == restTrace[k - 1];
    assert trace[..j] == head + restTrace[..k];
    OccurrencesAppend(head, restTrace[..k], Poll);
    var m := Occurrences(restTrace[..k], Poll);
    assert script[m] == script[1..][m - 1];
  }

  /** Having returned, the wait polls no further: later answers cannot change its run. */
  lemma {:induction false} WaitIgnoresLaterAnswers(script: seq<PollResult>, later: seq<PollResult>, stillRunning: nat)
    requires Wait(script, stillRunning).outcome != ScriptExhausted
    ensures var r := Wait(script, stillRunning);
      r.polls <= |script| && Wait(script[..r.polls] + later, stillRunning) == r
  {
    var r := Wait(script, stillRunning);
    WaitEndsAtFirstDecision(script, stillRunning);
    assert (script[..r.polls] + later)[0] == script[0];
    if StepOf(script[0], stillRunning).PollAgain? {
      WaitIgnoresLaterAnswers(script[1..], later, StepOf(script[0], stillRunning).next);
      var rest := Wait(script[1..], StepOf(script[0], stillRunning).next);
      assert (script[..r.polls] + later)[1..] == script[1..][..rest.polls] + later;
    }
  }

  /**
   * STOPPING and unknown answers never end the wait and leave the counter
   * alone: any number of them in front of `rest` changes neither the outcome
   * nor what the counter sees, only the number of queries.
   */
  lemma {:induction false} StoppingAndUnknownKeepWaiting(pre: seq<PollResult>, rest: seq<PollResult>, stillRunning: nat)
    requires forall j :: 0 <= j < |pre| ==> pre[j].Ok? && pre[j].status != Running && pre[j].status != Terminated
    ensures Wait(pre + rest, stillRunning).outcome == Wait(rest, stillRunning).outcome
    ensures Wait(pre + rest, stillRunning).polls == |pre| + Wait(rest, stillRunning).polls
  {
    if pre == [] {
      assert pre + rest == rest;
    } else {
      assert (pre + rest)[0] == pre[0];
      assert (pre + rest)[1..] == pre[1..] + rest;
      StoppingAndUnknownKeepWaiting(pre[1..], rest, stillRunning);
    }
  }

  /** Example runs of the wait. */
  lemma WaitScenarios()
    ensures Wait([Ok(Stopping), Ok(Stopping), Ok(Terminated)], 0)
         == WaitRun(SawTerminated, 3, [Poll, Sleep(10), Poll, Sleep(10), Poll])
    ensures Wait([QueryErr, Ok(Terminated)], 0) == WaitRun(QueryFailed, 1, [Poll])
    ensures Wait([Ok(Unknown("PROVISIONING")), Ok(Terminated)], 0) == WaitRun(SawTerminated, 2, [Poll, Poll])
  {
    assert [Ok(Stopping), Ok(Stopping), Ok(Terminated)][1..] == [Ok(Stopping), Ok(Terminated)];
    assert [Ok(Stopping), Ok(Terminated)][1..] == [Ok(Terminated)];
    assert Wait([Ok(Terminated)], 0) == WaitRun(SawTerminated, 1, [Poll]);
    assert Wait([Ok(Stopping), Ok(Terminated)], 0) == WaitRun(SawTerminated, 2, [Poll, Sleep(10), Poll]);
    assert [Ok(Unknown("PROVISIONING")), Ok(Terminated)][1..] == [Ok(Terminated)];
  }

  // ---------------------------------------------------------------------------
  // resurrectInstance, handleMessage and the receive callback

  /** resurrectInstance: one start request; its error is only logged, never retried. */
  function ResurrectInstance(info: GceInstanceInfo): (trace: seq<Action>)
    ensures |trace| == 1
    ensures StartsIn(trace) == [info]
    ensures Poll !in trace && Ack !in trace
  {
    [Start(info)]
  }

  /**
   * handleMessage: nothing at all for a message that fails to parse; otherwise
   * the wait, and one start request for the named instance exactly when the
   * wait saw TERMINATED. `stillWaiting` reports that the answers ran out while
   * the wait was still polling, so the Go handler has not returned yet.
   */
  method HandleMessage(message: JsonDecode, script: seq<PollResult>) returns (trace: seq<Action>, stillWaiting: bool)
    ensures stillWaiting <==> WellFormed(message) && Wait(script, 0).outcome == ScriptExhausted
    ensures !WellFormed(message) ==> trace == []
    ensures StartsIn(trace) ==
      if WellFormed(message) && Wait(script, 0).outcome == SawTerminated
      then [GceInstanceInfo(message.name.value, message.zone.value)]
      else []
    ensures WellFormed(message) ==> Occurrences(trace, Poll) == Wait(script, 0).polls
    ensures WellFormed(message) ==>
      trace == Wait(script, 0).trace
        + (if Wait(script, 0).outcome == SawTerminated then [Start(GceInstanceInfo(message.name.value, message.zone.value))] else [])
    ensures Ack !in trace
  {
    var instanceInfo := ParseMessage(message);
    if instanceInfo.err.Some? {
      return [], false;
    }
    var run := WaitForInstanceTermination(script);
    WaitPollsCounted(script, 0);
    WaitOnlyPollsAndSleeps(script, 0);
    assert Ack !in run.trace && forall k :: 0 <= k < |run.trace| ==> !run.trace[k].Start?;
    StartsNone(run.trace);
    trace, stillWaiting := run.trace, run.outcome == ScriptExhausted;
    if run.outcome == SawTerminated {
      var started := ResurrectInstance(instanceInfo.parsed);
      StartsInAppend(trace, started);
      OccurrencesAppend(trace, started, Poll);
      OccurrencesOne(Start(instanceInfo.parsed), Poll);
      trace := trace + started;
    } else {
      assert trace == run.trace + [];
    }
  }

  /**
   * The receive callback in HandleMessages: handle the message, then ack it,
   * once. A handler still waiting when the answers run out has not returned,
   * so the message is not acknowledged yet.
   */
  method ReceiveCallback(message: JsonDecode, script: seq<PollResult>) returns (trace: seq<Action>)
    ensures Occurrences(trace, Ack) ==
      if WellFormed(message) && Wait(script, 0).outcome == ScriptExhausted then 0 else 1
    ensures Ack in trace ==> trace[|trace| - 1] == Ack && Ack !in trace[..|trace| - 1]
    ensures StartsIn(trace) ==
      if WellFormed(message) && Wait(script, 0).outcome == SawTerminated
      then [GceInstanceInfo(message.name.value, message.zone.value)]
      else []
    ensures !WellFormed(message) ==> trace == [Ack]
    ensures WellFormed(message) ==>
      trace == Wait(script, 0).trace
        + (if Wait(script, 0).outcome == SawTerminated then [Start(GceInstanceInfo(message.name.value, message.zone.value))] else [])
        + (if Wait(script, 0).outcome == ScriptExhausted then [] else [Ack])
  {
    var handled, stillWaiting := HandleMessage(message, script);
    OccurrencesAbsent(handled, Ack);
    if stillWaiting {
      trace := handled;
      assert trace == handled + [];
    } else {
      StartsInAppend(handled, [Ack]);
      OccurrencesAppend(handled, [Ack], Ack);
      OccurrencesOne(Ack, Ack);
      trace := handled + [Ack];
      assert trace[..|trace| - 1] == handled;
    }
  }
}
