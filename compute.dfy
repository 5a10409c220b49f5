// The Compute Engine collaborator as the resurrection loops see it: the answer
// to one getInstanceStatus call, the status switch, and the trace of effects
// (polls, sleeps, start requests, acknowledgements) a run leaves behind.

module Compute {
  import opened Payload

  /** The status literals the loops switch on, matched case-sensitively. */
  const RUNNING: string := "RUNNING"
  const STOPPING: string := "STOPPING"
  const TERMINATED: string := "TERMINATED"

  /** The arms of the switch on the status string. */
  datatype Status = Running | Stopping | Terminated | Unknown(raw: string)

  /**
   * One answer of getInstanceStatus: an error, or the instance's status
   * string, as StatusOf sorts it into an arm of the switch. A script of
   * answers stands for the StatusOf images of the strings the service
   * returned, so an Unknown answer carries a string other than the three
   * literals (an Ok(Unknown("RUNNING")) stands for no real answer).
   */
  datatype PollResult = QueryErr | Ok(status: Status)

  /** Which arm of the switch a raw status string selects. */
  function StatusOf(raw: string): (s: Status)
    ensures s == Running <==> raw == RUNNING
    ensures s == Stopping <==> raw == STOPPING
    ensures s == Terminated <==> raw == TERMINATED
    ensures s.Unknown? ==> s.raw == raw
  {
    if raw == TERMINATED then Terminated
    else if raw == STOPPING then Stopping
    else if raw == RUNNING then Running
    else Unknown(raw)
  }

  /** An observable effect: a status query, a time.Sleep of so many seconds, a start request, an ack. */
  datatype Action = Poll | Sleep(seconds: nat) | Start(target: GceInstanceInfo) | Ack

  /** The instances a trace issues start requests for, in order. */
  function StartsIn(trace: seq<Action>): seq<GceInstanceInfo> {
    if trace == [] then []
    else (if trace[0].Start? then [trace[0].target] else []) + StartsIn(trace[1..])
  }

  lemma {:induction false} StartsInAppend(a: seq<Action>, b: seq<Action>)
    ensures StartsIn(a + b) == StartsIn(a) + StartsIn(b)
  {
    if a == [] {
      assert a + b == b;
    } else {
      assert (a + b)[0] == a[0] && (a + b)[1..] == a[1..] + b;
      StartsInAppend(a[1..], b);
    }
  }

  /** A trace without start requests starts nothing. */
  lemma {:induction false} StartsNone(trace: seq<Action>)
    requires forall k :: 0 <= k < |trace| ==> !trace[k].Start?
    ensures StartsIn(trace) == []
  {
    if trace != [] {
      StartsNone(trace[1..]);
    }
  }

  /** How many times `x` occurs in `s`. */
  function Occurrences<T(==)>(s: seq<T>, x: T): nat {
    if s == [] then 0 else (if s[0] == x then 1 else 0) + Occurrences(s[1..], x)
  }

  lemma {:induction false} OccurrencesAppend<T>(a: seq<T>, b: seq<T>, x: T)
    ensures Occurrences(a + b, x) == Occurrences(a, x) + Occurrences(b, x)
  {
    if a == [] {
      assert a + b == b;
    } else {
      assert (a + b)[0] == a[0] && (a + b)[1..] == a[1..] + b;
      OccurrencesAppend(a[1..], b, x);
    }
  }

  lemma OccurrencesOne<T>(x: T, y: T)
    ensures Occurrences([x], y) == if x == y then 1 else 0
  {
    assert [x][1..] == [];
  }

  lemma OccurrencesCons<T>(x: T, s: seq<T>, y: T)
    ensures Occurrences([x] + s, y) == (if x == y then 1 else 0) + Occurrences(s, y)
  {
    assert ([x] + s)[0] == x && ([x] + s)[1..] == s;
  }

  lemma {:induction false} OccurrencesAbsent<T>(s: seq<T>, x: T)
    requires x !in s
    ensures Occurrences(s, x) == 0
  {
    if s != [] {
      assert s[0] != x && x !in s[1..];
      OccurrencesAbsent(s[1..], x);
    }
  }
}
