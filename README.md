# Night King: the resurrection decision logic, in Dafny

The Night King service listens for preemption notifications about Compute
Engine instances. For each notification it works out whether the instance has
really shut down. If it has, it starts the instance again. The repository
holds two versions of this logic, and this project models each one as it is
written:

- `nightking.go`, the current version. `parseMessage` validates the payload.
  `waitForInstanceTermination` polls the instance status until it sees
  `TERMINATED` or gives up. `resurrectInstance` then issues one start request.
  The receive callback acknowledges the message after `handleMessage` returns.
- `main.go`, the earlier version. `parseNightKingMessage` is the same
  validator. `resurrectInstance` is a single `keepTrying` loop that waits only
  while the instance is `STOPPING` and starts it on `TERMINATED`.

Files:

- `payload.dfy` (module `Payload`): the `gceInstanceInfo` struct, and an
  abstract picture of what `json.Unmarshal` leaves behind (`JsonDecode`).
  `Malformed` stands for bytes that are not JSON. `Decoded` holds the string
  fields that were stored, plus whether a type error was reported.
- `compute.dfy` (module `Compute`): a poll answer is either `QueryErr` or
  `Ok(status)`. `StatusOf` picks the arm of the status switch. A trace records
  the effects of a run as `Poll`, `Sleep(seconds)`, `Start(instance)` and `Ack`.
- `nightking.dfy` (module `NightKing`): the current version.
- `main_legacy.dfy` (module `MainLegacy`): the earlier version.

Each loop is a `method` whose loop mirrors the Go loop. Each method is proved
equal to a recursive reference function (`NightKing.Wait`,
`MainLegacy.Resurrect`). The lemmas then state what the source promises about
those functions. The remote status queries are replaced by a finite script of
answers, and a run reports how many answers it consumed.

Points of the code's behaviour that are easy to misread:

- An unrecognised status never ends the wait. The `default` arm
  (nightking.go:115-117) only logs, so the loop polls again at once, with no
  sleep. `StoppingAndUnknownKeepWaiting` proves that such answers never end
  the wait.
- `stillRunningCount` is never reset (nightking.go:92,107). `STOPPING` or
  unknown answers between `RUNNING` answers do not clear it
  (`WaitRunningBound`).
- Input that is not JSON yields the zone error. `json.Unmarshal` leaves the
  struct empty, and both field checks then overwrite its error.
  `ParseMessage` and `ParseNightKingMessage` state this.
- `nightking.go` sleeps 10 s on `STOPPING`; `main.go` sleeps 30 s.

## Model

| member | source | states |
|---|---|---|
| `Compute.StatusOf` | nightking.go:99-118 | The status switch matches the literals `TERMINATED`, `STOPPING` and `RUNNING` exactly, case-sensitively. Any other string goes to the default arm and keeps its raw text. |
| `NightKing.ParseMessage` | nightking.go:80-89 | The error is nil exactly when decoding succeeded and both name and zone are non-empty. In that case the result holds exactly the decoded name and zone. An empty or absent zone always gives the zone error, even when the name is empty too, because the later assignment overwrites. A non-empty zone with an empty name gives the name error. Input that is not JSON gives the zone error. The struct is returned as decoded, even when there is an error. |
| `NightKing.ParseMessageTests` | main_test.go:8-45 | The three parse tests. `{"name":"foo","zone":"bar"}` parses to foo/bar with no error. `{"foo":"bar"}` fails. `foo` fails. |
| `NightKing.WaitForInstanceTermination` | nightking.go:91-120 | The polling loop, with `stillRunningCount` starting at 0, gives exactly the run of the reference semantics `Wait(script, 0)`: the same outcome, the same number of queries and the same trace. |
| `NightKing.WaitEndsAtFirstDecision` | nightking.go:93-102 | Every answer before the last one consumed was a status other than TERMINATED. The wait returns true exactly when the last answer consumed was TERMINATED, so it returns on the first one. A query error is the last answer consumed exactly when the wait ends with QueryFailed, so it is never retried. Giving up happens only on a RUNNING answer. |
| `NightKing.WaitDecidesAt` | nightking.go:94-112 | The converse. Suppose the answers before index k all kept waiting and left the counter at 6 or below. Suppose the answer at k is an error, TERMINATED, or the RUNNING that takes the counter past 6. Then the wait stops after exactly k+1 queries, with the matching outcome. |
| `NightKing.WaitRunningBound` | nightking.go:92-112 | The counter starts from any value up to 6 and is never reset. The wait gives up exactly when the start value plus the RUNNING answers consumed reach 7. Otherwise that sum stays at 6 or below. From 0, this means at most 7 RUNNING polls per attempt. |
| `NightKing.WaitPollsCounted` | nightking.go:93-98 | The trace has exactly one Poll per status query consumed, whatever the outcome. |
| `NightKing.WaitOnlyPollsAndSleeps` | nightking.go:93-118 | Every entry of the trace is a Poll, a 10 s sleep or a 30 s sleep, so the wait never starts or acknowledges anything. |
| `NightKing.WaitStoppingSleeps` | nightking.go:103-105 | The number of 10 s sleeps equals the number of STOPPING answers consumed. |
| `NightKing.WaitRunningSleeps` | nightking.go:106-114 | The number of 30 s sleeps equals the number of RUNNING answers consumed, minus one when the wait gave up. |
| `NightKing.WaitSleepsFollowPolls` | nightking.go:93-114 | Where the sleeps are. Every sleep comes directly after a poll. If that is the m-th poll, answer m-1 was STOPPING for a 10 s sleep and RUNNING for a 30 s one. Together with `WaitEndsWithPoll` and the two counting lemmas, each STOPPING answer, and each RUNNING answer the wait does not give up on, is followed by its own sleep. |
| `NightKing.WaitEndsWithPoll` | nightking.go:94-112 | A wait that returns, with any outcome, has a Poll as the last entry of its trace. There is no sleep after the answer that ends it, including the RUNNING answer it gives up on. |
| `NightKing.WaitIgnoresLaterAnswers` | nightking.go:95-111 | Once the wait has returned, it polls no further. Replacing every answer after the ones it consumed leaves its run unchanged. |
| `NightKing.StoppingAndUnknownKeepWaiting` | nightking.go:103-118 | STOPPING and unrecognised statuses, in any number, never end the wait and leave the counter unchanged. The outcome is the one the remaining answers decide, after that many extra queries. |
| `NightKing.WaitScenarios` | nightking.go:91-120 | STOPPING, STOPPING, TERMINATED: two 10 s sleeps, then true after 3 polls. An error on the first query: false after 1 poll. An unknown status followed by TERMINATED: true after 2 polls, with no sleep. |
| `NightKing.ResurrectInstance` | nightking.go:122-128 | The trace is one start request, for the given instance, and nothing else. Its error is only logged, so there is no second attempt. |
| `NightKing.HandleMessage` | nightking.go:66-76 | A message that fails to parse does nothing at all. Otherwise the handler runs the wait. Its trace is exactly the wait's trace, followed by one start for the decoded name and zone when the wait returned true. There is nothing after the start, and no start in every other case. It polls as often as the wait does and never acknowledges. The second result says whether the handler is still waiting: the message was valid and the answers ran out before the wait returned. |
| `NightKing.ReceiveCallback` | nightking.go:55-60 | The acknowledgement comes only after the handler returns. An invalid message gets the acknowledgement alone. A valid one gets the wait's trace, then the start when the wait returned true, then exactly one acknowledgement as the last action. When the answers run out while the wait is still polling, the trace is the wait's trace with no acknowledgement, because the Go handler has not returned. Starts are as in `HandleMessage`. |
| `MainLegacy.ParseNightKingMessage` | main.go:78-87 | The same contract as `parseMessage`. The error is nil exactly when decoding succeeded and name and zone are non-empty, and then the fields are exactly the decoded ones. The zone error takes precedence over the name error. Input that is not JSON gives the zone error. |
| `MainLegacy.ResurrectInstance` | main.go:89-112 | The `keepTrying` loop gives exactly the run of the reference semantics `Resurrect(info, script)`: the same outcome, the same number of queries and the same trace. |
| `MainLegacy.ResurrectEndsAtFirstNonStopping` | main.go:93-110 | Every answer before the last one consumed was STOPPING, so STOPPING is the only status that continues the loop. The call ends Started exactly when the last answer was TERMINATED. It ends QueryFailed exactly on a query error. It ends NotTerminated exactly on any other status, RUNNING included. |
| `MainLegacy.ResurrectStartsAtMostOnce` | main.go:92-111 | `startInstance` is called at most once, for the instance in hand, and exactly when the call ends Started. The trace then ends with the poll that saw TERMINATED followed directly by the start. |
| `MainLegacy.ResurrectTraceShape` | main.go:93-110 | The whole trace of a call. A call that ends has a poll and a 30 s sleep for every query but the last, then the last poll, then the start exactly when the call ended Started. A call whose answers ran out while still STOPPING has a poll and a sleep for every query. |
| `MainLegacy.ResurrectPollsAndSleeps` | main.go:93-104 | Counted: the trace has one Poll per query, and one 30 s sleep fewer than queries, or as many when the answers ran out while still STOPPING. There is never an acknowledgement. |
| `MainLegacy.StoppingRetriedWithoutBound` | main.go:99-104 | Any number of STOPPING answers in front of the rest leave the outcome to the rest. There is no bound on the retries. |
| `MainLegacy.ResurrectScenarios` | main.go:89-112 | STOPPING, STOPPING, TERMINATED: two 30 s sleeps, then one start. RUNNING: one poll and no start, even when TERMINATED would come next. An error on the first query: one poll and no start. |
| `MainLegacy.HandleNightKingMessage` | main.go:65-74 | A message that fails to parse never reaches `resurrectInstance`, so nothing happens. A valid one runs it for exactly the decoded name and zone. There is at most one start and no acknowledgement. The second result says whether the handler is still waiting: the message was valid and the answers ran out while the instance was still STOPPING. |
| `MainLegacy.ReceiveCallback` | main.go:55-59 | The acknowledgement comes only after the handler returns. An invalid message gets the acknowledgement alone. A valid one gets the trace of `resurrectInstance` for the decoded name and zone, then exactly one acknowledgement as the last action. When the answers run out while the instance is still STOPPING, the trace has no acknowledgement, because the Go handler has not returned. There is at most one start. |

## Left out

- Bootstrap is not modelled. This covers `nightKing.Init` (nightking.go:32-49) and `main` (main.go:24-50): client construction, credentials, flag parsing and `log.Fatalf`.
- The Pub/Sub `Receive` machinery is not modelled. It delivers callbacks concurrently, possibly for the same instance at once. Only the per-message callback is modelled, with its handle-then-ack order.
- The JSON grammar and the internals of `encoding/json` are not modelled. This includes case-insensitive key matching, ignored unknown keys and duplicate keys. A payload arrives as the abstract `JsonDecode`. A field holding null or a value of the wrong type counts as absent.
- `getInstanceStatus` and `startInstance` (nightking.go:130-141, main.go:114-127) are remote calls. They are replaced by the scripted answers and by `Start` entries in the trace. The project id and the zone and name passed to a status query are not recorded.
- The error returned by the start call is not modelled. Both versions only log it (nightking.go) or discard it (main.go), and neither retries.
- `time.Sleep` is recorded only as a `Sleep(seconds)` trace entry. No clock is modelled.
- Log messages are not modelled.
- NightKing.WaitForInstanceTermination: the Go loop never returns while the answers keep it waiting (STOPPING, unknown statuses, RUNNING below the limit). The model stops with `ScriptExhausted` when the finite script of answers ends.
- MainLegacy.ResurrectInstance: the Go loop never returns while the instance stays STOPPING. The model stops with `ScriptExhausted` when the script ends.
- NightKing.HandleMessage, MainLegacy.HandleNightKingMessage: the Go handlers return nothing. The extra `stillWaiting` result only reports that the finite script ended while the loop was still polling.
- NightKing.ReceiveCallback, MainLegacy.ReceiveCallback: a message whose instance keeps the loop polling is never acknowledged in Go. The model shows this only up to the end of the script: its trace then stops without an acknowledgement, and it cannot show that none ever follows.
- The two versions are not reconciled. They cannot be built together, because both declare `gceInstanceInfo`. No lemma relates one to the other.
