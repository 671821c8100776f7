# Fire-station call centre, modelled in Dafny

This project models the dispatch core of a small fire-station call centre.

The centre holds a registry of staff in four seniority tiers: Junior, Senior, Manager and Director. Every employee is free or busy.

**Calls.** A call has a priority, Low or High, and a duration.
- `assign` searches the tiers of the call's priority in a fixed order and takes the first free employee:
  - Low searches Junior, Senior, Manager;
  - High searches Manager, Director.
- When nobody is free, the call goes to the tail of the FIFO backlog.
- `end` frees the call's employee. It may also escalate a low-priority call to high priority and assign it again.

**The centre's operations.**
- `dispatch_call` registers a call and assigns it.
- `review_active_calls` ends every expired active call and removes those calls from the active list, keeping the order of the calls that remain.
- `review_backlog` retries each call that is in the backlog when it is called, once.
- `free_staff` and `free_staff_detailed` count the free staff.

**Modules.** The model has two layers.

*Value layer.*
- `Employees`: the tiers and the employee record.
- `Calls`:
  - the priorities and the assignment order;
  - the call record;
  - expiry;
  - the escalation decision;
  - the first-free search.
- `Registries`: the tier-to-employees map, with handles into it and the free counts.
- `Configs`: the configuration and its validation.
- `Engine`:
  - the centre's state as a value, with its invariant `Valid`;
  - `assign`, `end`, `_register_call` and `dispatch_call` as functions on that state.
- `Reviews`: the two review passes as functions.

*Imperative layer.*
- `CallCentres.CallCentre` is a class with the centre's fields.
- The class has one method for each source method that changes state. Each method is built from the source's loops.
- Each method is proved to leave exactly the state that the value layer computes from the old state.

`Scenarios` restates the repository's tests over the model.

**Proved properties.**
- **Invariant.** The constructor establishes it, and `dispatch_call`, `review_active_calls` and `review_backlog` preserve it. (`assign` and `end` on their own need only well-formedness, and `end` leaves the ended call on the active list for its caller to remove.) The invariant says:
  - a call is active exactly when it is assigned;
  - no call is both active and in the backlog, and neither list repeats a call;
  - each assigned call's employee is busy, and no two calls share an employee;
  - free staff plus active calls equals the whole staff.
- **Tier eligibility.** A Low call never reaches a Director, and a High call never reaches a Junior or Senior.
- **First-free choice.** The chosen employee comes first in tier order, then in registry order.
- **Uids.** Employee uids run 0, 1, 2, … in tier order.
- **Active review.** Exactly the calls that have not expired stay active, in their order. With no escalation:
  - the backlog is unchanged;
  - the free staff is the whole staff less the calls still active.
- **Backlog review.**
  - It never raises on a valid state.
  - It puts the retried calls that found an employee on the active list, in backlog order.
  - The backlog afterwards holds the retried calls that failed, in their original order.
  - Calls of one priority are served strictly first-in first-out.

Inputs the model takes as parameters:
- **The clock** is a parameter `now`, in whole seconds.
- **The random call duration** is a parameter `duration` with `1 <= duration <= max_call_duration_sec`.
- **The random escalation draw** is a parameter `draw`. In the review pass it is a sequence `draws`, one entry per active position. The draw is used only when no explicit `escalate` is passed.

## Model

| member | source | states |
|---|---|---|
| Employees.AllTiersComplete | employee.py:5-9 | the four seniority tiers are listed once each, in registry order |
| Calls.AssignmentOrder | call.py:16-26 | a Low call is searched for in every tier but Director, a High call in Manager and Director, and in each case from the least senior tier up |
| Calls.AssignmentOrderEligibility | call.py:16-26 | a tier searched for a Low call is never Director; one searched for a High call is never Junior or Senior |
| Calls.Expired | call.py:101-110 | only an assigned call can be expired, and an assigned call is expired exactly when the clock has reached its assignment time plus its duration |
| Calls.ExpiredMeaning | call.py:101-110 | an unassigned call never expires; an expired call stays expired as time goes on; a call just assigned with a positive duration is not expired |
| Calls.ShouldEscalate | call.py:91-99 | an explicit escalate decision wins; otherwise the random draw decides |
| Engine.EndIgnoresDraw | call.py:79-99 | when a decision is passed to `end`, the random draw has no effect on the outcome |
| Calls.FirstFreeIn | call.py:68-74 | the index found holds a free employee and every earlier one is busy; none is found only when the whole tier is busy |
| Calls.FirstFree | call.py:64-77 | the handle found is a free employee in one of the searched tiers, at or before every other free one in search order; none is found exactly when all searched tiers are busy |
| Calls.FirstFreeNoneStays | call.py:64-77 | when nobody in the searched tiers is free and a change frees nobody, the search still finds nobody |
| Registries.SetFree | call.py:73 | flipping one employee's flag sets that flag, keeps the same people and changes no other employee |
| Registries.CountFreeIsCardinality | src/call_centre.py:153-156 | the free count of a tier is the number of its positions holding a free employee |
| Registries.FreeInAllTiers | src/call_centre.py:164-171 | the free count summed over all four tiers is the total number of free staff |
| Registries.FreeInBusy | call.py:73 | making a free employee busy lowers the free count of a set of tiers by one when the set contains that tier, and leaves it alone otherwise |
| Registries.CountFreeZero | call.py:68-69 | a tier's free count is zero exactly when every employee in it is busy |
| Registries.FreeInZero | call.py:64-74 | the free count of a set of tiers is zero exactly when the search of those tiers finds nobody free |
| Registries.Batch | src/call_centre.py:120-135 | a batch holds exactly `count` employees of one tier with consecutive uids from `start` and the given flag |
| Registries.RosterUids | src/call_centre.py:36-53 | in a registry laid out batch after batch, the employee uids are 0, 1, 2, … in tier order and pairwise distinct |
| Configs.NewConfig | src/call_centre.py:19-30 | a configuration is accepted exactly when the probability lies in [0, 1] and no staff count is negative; a bad probability is reported first, then a negative count |
| Configs.InitialRegistryShape | src/call_centre.py:40-53 | the new registry has the configured number of employees in each tier, all free, with uids 0, 1, 2, … in tier order |
| Engine.ValidMeaning | call.py:69-77 | under the invariant, free staff plus active calls is the whole staff, active calls are assigned, backlogged calls are not, and no call is on both lists |
| Engine.Place | call.py:64-77 | placing a call keeps the same people, only appends to the two lists, and changes no other call |
| Engine.Assign | call.py:61-62 | assign fails, with AlreadyAssigned, exactly when the call is already assigned |
| Engine.AssignOutcome | call.py:64-77 | a call that finds an employee gets the first free one in search order, with the assignment time `now`, and every other field of the call is kept; only that employee becomes busy and the call is appended to the active calls. Otherwise everybody searched was busy, the call is appended to the backlog, and no call and no employee changes |
| Engine.PlaceValid | call.py:64-77 | assigning an unassigned call that is not in the backlog keeps the invariant |
| Engine.Release | call.py:84-89 | ending a call keeps the same people, only appends to the lists and changes no other call |
| Engine.Unassign | call.py:84-85 | the call's `assigned_to` becomes unset, and nothing else about it changes; its employee becomes free, and no other employee, no other call, and neither list changes |
| Engine.Raise | call.py:87-88 | the call's priority becomes High, and nothing else about it changes; no other call, no employee and neither list changes |
| Engine.End | call.py:80-82 | end fails, with NotAssigned, exactly when the call is unassigned; on success it only appends to the lists |
| Engine.EndOutcome | call.py:84-89 | end frees the call's employee, changing no other; a low call whose decision is to escalate becomes high and is assigned afresh; any other call becomes unassigned, with its priority and `assigned_at` kept, and neither list changes |
| Engine.EscalationKeepsManager | call.py:87-89 | escalating a low call held by a Manager, when no earlier Manager is free, gives it back to the same Manager as a high call |
| Engine.RetireValid | src/call_centre.py:77-79 | taking an active call off the active list and ending it keeps the invariant, whatever the escalation decision |
| Engine.Dispatch | src/call_centre.py:59-63 | dispatching adds one call with the next uid and the given name, priority and duration, and leaves the earlier calls as they were. The new call is either assigned and appended to the active calls, or unassigned and appended to the backlog |
| Engine.Register | src/call_centre.py:137-148 | the new call has the next caller uid and the given name and priority. It has the drawn duration, which lies in [1, max], the centre's escalation probability, and the registration time as timestamp. It is unassigned and has no assignment time. Existing calls, staff and both lists are unchanged |
| Engine.RegisterValid | src/call_centre.py:137-148 | registering a call keeps the invariant |
| Engine.DispatchValid | src/call_centre.py:59-63 | dispatching a call keeps the invariant |
| Engine.DispatchCounts | src/call_centre.py:59-63 | a dispatch adds one call. When the priority's tiers have someone free, the call becomes active and those tiers have one free employee fewer; otherwise the call joins the backlog and no flag changes. Other tiers are never touched |
| Engine.Initial | src/call_centre.py:34-57 | a new centre has no calls, an empty active list and an empty backlog; each tier holds the configured number of employees, all free |
| Engine.InitialValid | src/call_centre.py:33-57 | a new centre satisfies the invariant, with every employee free |
| Engine.InitialFromBatches | src/call_centre.py:40-53 | the four batches `__init__` builds, with empty queues, are the initial state, which is valid |
| Reviews.ReviewActive | src/call_centre.py:68-84 | the review ends the expired calls among those active at entry and then pops their positions back to front. It keeps the same people and the same calls, and only appends to the backlog |
| Reviews.Sweep | src/call_centre.py:74-79 | the first loop of the review keeps the same people, only appends to the lists, and records ascending positions below the bound |
| Reviews.ExpiredPositions | src/call_centre.py:74-78 | the positions listed are ascending and are exactly the positions whose call is expired |
| Reviews.Survivors | src/call_centre.py:74-79 | every call listed was active at that position range and has not expired |
| Reviews.SurvivorsComplete | src/call_centre.py:74-79 | every active call that has not expired is among the survivors |
| Reviews.PopAll | src/call_centre.py:81-84 | popping the recorded positions removes one entry per position and adds none |
| Reviews.PopAllKeeps | src/call_centre.py:81-84 | popping the recorded positions back to front leaves the other entries in their order, followed by what was appended |
| Reviews.ReviewActiveOutcome | src/call_centre.py:68-84 | after the review the invariant holds; the unexpired calls stay active, untouched, in their order, at the front; everything appended to either list is an expired low call that was escalated |
| Reviews.ReviewActiveEscalations | src/call_centre.py:68-84 | for every call that had expired: afterwards it is High exactly when it was Low and its decision was to escalate, and otherwise keeps its priority; it is among the calls appended to either list exactly when it escalated |
| Reviews.ReviewActiveNoEscalation | src/call_centre.py:68-84 | with escalation off, the active calls afterwards are exactly the unexpired ones, in order; the backlog is unchanged; and the free staff equals the whole staff less the active calls |
| Reviews.SweepKeepsPriorities | src/call_centre.py:74-79 | a sweep with escalation off changes no call's priority |
| Reviews.SweepIgnoresDraws | src/call_centre.py:74-79 | a sweep given an escalation decision gives the same result whatever the random draws |
| Reviews.ReviewActiveIgnoresDraws | src/call_centre.py:68-84 | `review_active_calls` with an escalation decision passed ignores the random draws, so its result is determined |
| Reviews.RetryHead | src/call_centre.py:88-90 | one round keeps the references valid and leaves the rest of the backlog in front |
| Reviews.RetryLists | src/call_centre.py:88-90 | one round either appends the head to the active calls or moves it to the backlog's tail with the registry unchanged, the latter exactly when nobody in its tiers is free |
| Reviews.Drain | src/call_centre.py:87-90 | the retry loop keeps every reference valid and adds no call |
| Reviews.DrainValid | src/call_centre.py:87-90 | on a valid state the retry loop never raises and keeps the invariant |
| Reviews.DrainLists | src/call_centre.py:87-90 | after `k` rounds the retried calls that found an employee follow the old active calls in backlog order; the backlog is the rounds not yet reviewed followed by the retried calls that failed, in order |
| Reviews.ReviewBacklog | src/call_centre.py:86-90 | the backlog review keeps every reference valid and adds no call |
| Reviews.ReviewBacklogValid | src/call_centre.py:86-90 | on a valid state the backlog review does not raise and keeps the invariant |
| Reviews.ReviewBacklogOutcome | src/call_centre.py:86-90 | after the backlog review the backlog is exactly the retried calls that failed, in order, and the rest were appended to the active calls in order |
| Reviews.DrainNoCapacity | src/call_centre.py:88-90 | once nobody in a priority's tiers is free, every call of that priority still to be retried stays unassigned |
| Reviews.DrainFifo | src/call_centre.py:86-90 | if a retried call fails, every later retried call of the same priority fails too |
| CallCentres.CallCentre.constructor | src/call_centre.py:34-57 | the new centre is the initial state for the configuration, satisfies the invariant, and has counted one uid per employee and no callers |
| CallCentres.CallCentre.CreateEmployeesBatch | src/call_centre.py:120-135 | the batch returned has consecutive uids from the employee counter, which advances by the batch size; a negative size gives an empty batch |
| CallCentres.CallCentre.RegisterCall | src/call_centre.py:137-148 | the centre becomes the registered state, the caller counter advances by one, and the invariant holds |
| CallCentres.CallCentre.AssignCall | call.py:56-77 | the centre becomes the state `assign` computes, or the call fails with its error and nothing changes |
| CallCentres.CallCentre.AssignInTier | call.py:68-74 | the inner scan reports a find exactly when the tier has a free employee; then that first free employee is taken, otherwise nothing changes |
| CallCentres.CallCentre.EndCall | call.py:79-89 | the centre becomes the state `end` computes, or the call fails with its error and nothing changes |
| CallCentres.CallCentre.DispatchCall | src/call_centre.py:59-63 | the centre becomes the dispatched state and keeps the invariant |
| CallCentres.CallCentre.ReviewActiveCalls | src/call_centre.py:68-84 | the centre becomes the reviewed state and keeps the invariant |
| CallCentres.CallCentre.EndExpired | src/call_centre.py:74-79 | the first loop ends the expired calls and returns their positions, as the sweep does |
| CallCentres.CallCentre.PopPositions | src/call_centre.py:81-84 | the second loop pops the recorded positions back to front and changes nothing else |
| CallCentres.CallCentre.ReviewBacklog | src/call_centre.py:86-90 | the backlog review does not raise, and the centre becomes its result and keeps the invariant |
| CallCentres.CallCentre.RetryRounds | src/call_centre.py:87-90 | the loop runs exactly the rounds counted at entry |
| CallCentres.CallCentre.RetryBacklogHead | src/call_centre.py:88-90 | one round pops the head and assigns it, as RetryHead does |
| CallCentres.CallCentre.FreeStaff | src/call_centre.py:150-158 | the count is the number of free employees; under the invariant it is the whole staff less the active calls |
| CallCentres.CallCentre.FreeStaffDetailed | src/call_centre.py:160-174 | each tier's entry is that tier's free count and the total is the number of free employees |
| CallCentres.ZeroCounters | src/call_centre.py:164-165 | every tier starts with a counter of zero |
| CallCentres.TallyTier | src/call_centre.py:167-171 | counting one more tier adds that tier's free count to the total and to its counter |
| Scenarios.ConfigErrors | tests/test_call_centre_setup.py:8-30 | a probability of 2.0 and a negative staff count are refused; a sound configuration is accepted |
| Scenarios.TierSetups | tests/test_call_centre_setup.py:32-86 | each one-tier test centre has five employees in the tier its test looks at |
| Scenarios.UidTestRoster | tests/test_call_centre_setup.py:88-115 | the 2/3/4/5 centre, read tier by tier, has fourteen employees with uids 0 to 13 in order |
| Scenarios.EmployeeUids | tests/test_call_centre_setup.py:88-115 | the uid set of the 2/3/4/5 centre is exactly 0..13, as the test expects |
| Scenarios.OneEachRegistry | tests/test_call_functionality.py:56-65 | the one-per-tier centre of the assignment tests has the uids 0 to 3 in tier order, with everybody free |
| Scenarios.LowStep | tests/test_call_functionality.py:55-80 | a low dispatch takes the Junior, else the Senior, else the Manager, else joins the backlog |
| Scenarios.HighStep | tests/test_call_functionality.py:82-134 | a high dispatch takes the Manager, else the Director, else joins the backlog |
| Scenarios.LowPriorityMany | tests/test_call_functionality.py:136-167 | five low calls go to Junior, Senior and Manager and then twice to the backlog; the Director stays free |
| Scenarios.HighPriorityMany | tests/test_call_functionality.py:169-199 | four high calls go to Manager and Director and then twice to the backlog |
| Scenarios.NoEscalationSetup | tests/test_call_functionality.py:201-223 | ending the unassigned new call is refused; assigning it makes the only Junior busy |
| Scenarios.NoEscalationEnd | tests/test_call_functionality.py:221-232 | ending it without escalation leaves it unassigned and low, frees the Junior, and leaves both lists empty |
| Scenarios.EscalateSetup | tests/test_call_functionality.py:234-256 | ending the unassigned new call is refused; assigning it gives it the Junior |
| Scenarios.EscalateEnd | tests/test_call_functionality.py:254-268 | ending it with escalation frees the Junior, raises the call to high and gives it the Manager, whose uid differs from the Junior's |
| Scenarios.FiveHighDispatches | src/tests/test_call_centre_functionality.py:84-105 | with two Managers and no Director, five high calls leave two active and three in the backlog, and the Juniors and Seniors stay free |

## Left out

- Object references: a Call is an id into the centre's call table (its caller uid), and `assigned_to` is a handle (tier, position) into the registry. Aliasing between Python objects is therefore not modelled. Ended calls stay in the table; the source just drops them.
- Clock: `datetime.datetime.now()` is the parameter `now`, in whole seconds. The source reads the clock anew in every `expired` test (call.py:106) and again whenever an escalated call is re-assigned (call.py:71). The model uses one `now` for the whole `review_active_calls` pass, so every expired test of the pass sees the same time, and every call re-assigned in the pass gets that `now` as its `assignedAt`.
- `timestamp`: the call's creation wall-clock time becomes the `now` of registration, and is only recorded.
- Randomness:
  - the `random.randint` duration is a parameter with `1 <= duration <= max_call_duration_sec`, which is a precondition of registration;
  - the weighted `random.choices` escalation draw is the parameter `draw` (`draws` in a review), with no probability distribution attached.
- Calls.ShouldEscalate: does not state that the draw escalates with probability `call_escalation_prob`, because the draw is an input.
- The statistical test `test_random_escalation` (tests/test_call_functionality.py:270-291) is left out, because it checks a frequency over random draws.
- Output: `display_status`, printing in `dispatch_call` (the `verbose` flag), the `__str__` methods and run_simulation.py are not modelled, because they are output and the console driver.
- CallCentres.CallCentre.FreeStaffDetailed: the source stores the total under the key `"total"` in the same dictionary. The model returns it as a second result, because a tier map cannot hold a string key.
- Loop structure: the loops of `review_active_calls`, `review_backlog` and `Call.assign` are split into helper methods. The helpers are `EndExpired`, `PopPositions`, `RetryRounds`, `RetryBacklogHead` and `AssignInTier`, and each carries one loop.
- `review_backlog` raising: the `ValueError` that `assign` would raise on an assigned call in the backlog becomes a `Failure`. ReviewBacklogValid proves that under the invariant this never happens.
- Concrete test data without its own lemma:
  - `test_review_active_calls` (src/tests/test_call_centre_functionality.py:8-37) is covered by the general ReviewActiveNoEscalation. The test also sets durations of 99999, above its configured maximum, which the model's duration precondition does not allow.
  - `test_review_backlog` (src/tests/test_call_centre_functionality.py:39-82) is covered by ReviewBacklogOutcome, DrainFifo and DrainNoCapacity.
  - The registration tests (tests/test_call_functionality.py:8-53) are covered by Engine.Register.
- Behaviour of the source that the model keeps as written:
  - `end` does not clear `assigned_at` (call.py:84-85), so `assigned_to` and `assigned_at` are not always set or unset together.
  - Configuration errors are a `ValueError` (src/call_centre.py:21, 30), modelled as the `ConfigError` kinds ProbabilityOutOfRange and NegativeStaffCount.
  - `max_call_duration_sec` is not validated in `__post_init__`. Its positivity appears only through the duration precondition of registration.
