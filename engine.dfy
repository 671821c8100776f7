/**
 * The centre's state and the two call operations that change it:
 * `Call.assign` and `Call.end` (call.py:56-89), and the centre's
 * `_register_call` and `dispatch_call` (call_centre.py:59-63, 137-148).
 *
 * A Python Call object is an id into the table `calls`; the id is the
 * caller uid, which `_register_call` hands out in registration order.
 */
module Engine {
  import opened Wrappers
  import opened Employees
  import opened Registries
  import opened Calls
  import opened Configs

  type CallId = nat

  /** The errors `assign` (ValueError, call.py:61-62) and `end` (RuntimeError, call.py:80-82) raise. */
  datatype CallError = AlreadyAssigned | NotAssigned

  /** The registry, the call objects, `active_calls` and `call_backlog` (a FIFO queue). */
  datatype State = State(
    employees: Registry,
    calls: seq<CallInfo>,
    active: seq<CallId>,
    backlog: seq<CallId>)

  /** A call whose reference into the registry, if any, is valid and timed. */
  predicate CallOk(reg: Registry, c: CallInfo)
  {
    AssignmentTimed(c) && (c.assignedTo.Some? ==> ValidHandle(reg, c.assignedTo.value))
  }

  /** Every reference in the state points at something that exists. */
  predicate WellFormed(s: State)
  {
    && TiersPresent(s.employees)
    && (forall k :: 0 <= k < |s.calls| ==> CallOk(s.employees, s.calls[k]))
    && (forall x :: x in s.active ==> x < |s.calls|)
    && (forall x :: x in s.backlog ==> x < |s.calls|)
  }

  predicate Distinct(xs: seq<CallId>)
  {
    forall i, j :: 0 <= i < j < |xs| ==> xs[i] != xs[j]
  }

  /** No call is twice in a list, nor in both lists. */
  predicate QueuesDisjoint(s: State)
  {
    Distinct(s.active) && Distinct(s.backlog) && forall x :: x in s.active ==> x !in s.backlog
  }

  /** A call is assigned exactly when it is in `active_calls`. */
  predicate AssignedIffActive(s: State)
  {
    forall k :: 0 <= k < |s.calls| ==> (s.calls[k].assignedTo.Some? <==> k in s.active)
  }

  /** Every assignee is busy, and no employee has two calls. */
  predicate AssigneesBusy(s: State)
    requires WellFormed(s)
  {
    && (forall k :: 0 <= k < |s.calls| && s.calls[k].assignedTo.Some? ==>
          !At(s.employees, s.calls[k].assignedTo.value).isFree)
    && (forall k, l ::
          (0 <= k < |s.calls| && 0 <= l < |s.calls| && k != l
           && s.calls[k].assignedTo.Some? && s.calls[l].assignedTo.Some?) ==>
          s.calls[k].assignedTo != s.calls[l].assignedTo)
  }

  /**
   * The centre's invariant after every public operation: `free_staff` plus
   * the number of active calls is the whole staff, active calls are assigned,
   * backlogged calls are not, and no call is in both lists.
   */
  predicate Valid(s: State)
  {
    && WellFormed(s)
    && QueuesDisjoint(s)
    && AssignedIffActive(s)
    && AssigneesBusy(s)
    && NumFree(s.employees) + |s.active| == TotalStaff(s.employees)
  }

  /** The facts the source's tests check after each operation. */
  lemma ValidMeaning(s: State)
    requires Valid(s)
    ensures NumFree(s.employees) + |s.active| == TotalStaff(s.employees)
    ensures forall x :: x in s.active ==> s.calls[x].assignedTo.Some?
    ensures forall x :: x in s.backlog ==> s.calls[x].assignedTo.None?
    ensures forall x :: x in s.active ==> x !in s.backlog
  {
  }

  // ---- Call.assign ----

  /**
   * `Call.assign` past its guard (call.py:64-77): the first free employee
   * in the call's tier order takes the call, which joins `active_calls`;
   * with nobody free the call joins the tail of the backlog.
   */
  function Place(s: State, id: CallId, now: int): (r: State)
    requires WellFormed(s) && id < |s.calls|
    ensures WellFormed(r) && SameStaff(s.employees, r.employees) && |r.calls| == |s.calls|
    ensures s.active <= r.active && s.backlog <= r.backlog
    ensures forall k :: 0 <= k < |s.calls| && k != id ==> r.calls[k] == s.calls[k]
    ensures r.calls[id].priority == s.calls[id].priority
  {
    match FirstFree(s.employees, AssignmentOrder(s.calls[id].priority))
    case Some(h) =>
      var c := s.calls[id].(assignedTo := Some(h), assignedAt := Some(now));
      var reg := SetFree(s.employees, h, false);
      assert forall k :: 0 <= k < |s.calls| ==> CallOk(reg, s.calls[k]) by {
        forall k | 0 <= k < |s.calls| ensures CallOk(reg, s.calls[k]) {
          assert CallOk(s.employees, s.calls[k]);
          if s.calls[k].assignedTo.Some? { SameStaffHandles(s.employees, reg, s.calls[k].assignedTo.value); }
        }
      }
      s.(employees := reg, calls := s.calls[id := c], active := s.active + [id])
    case None =>
      s.(backlog := s.backlog + [id])
  }

  /** Place when the search finds employee `h`. */
  lemma PlaceFound(s: State, id: CallId, now: int, h: Handle)
    requires WellFormed(s) && id < |s.calls|
    requires FirstFree(s.employees, AssignmentOrder(s.calls[id].priority)) == Some(h)
    ensures Place(s, id, now)
            == s.(employees := SetFree(s.employees, h, false),
                  calls := s.calls[id := s.calls[id].(assignedTo := Some(h), assignedAt := Some(now))],
                  active := s.active + [id])
  {
  }

  /** Place when the search finds nobody. */
  lemma PlaceNone(s: State, id: CallId, now: int)
    requires WellFormed(s) && id < |s.calls|
    requires FirstFree(s.employees, AssignmentOrder(s.calls[id].priority)).None?
    ensures Place(s, id, now) == s.(backlog := s.backlog + [id])
  {
  }

  /**
   * The search reaches tier `ti` of the call's order and finds somebody
   * free there: Place takes that employee.
   */
  lemma PlaceAtTier(s: State, id: CallId, now: int, ti: nat)
    requires WellFormed(s) && id < |s.calls|
    requires var order := AssignmentOrder(s.calls[id].priority);
      && ti < |order| && FirstFree(s.employees, order) == FirstFree(s.employees, order[ti..])
      && FirstFreeIn(s.employees[order[ti]], 0).Some?
    ensures var order := AssignmentOrder(s.calls[id].priority);
            var h := Handle(order[ti], FirstFreeIn(s.employees[order[ti]], 0).value);
      Place(s, id, now)
      == s.(employees := SetFree(s.employees, h, false),
            calls := s.calls[id := s.calls[id].(assignedTo := Some(h), assignedAt := Some(now))],
            active := s.active + [id])
  {
    var order := AssignmentOrder(s.calls[id].priority);
    FirstFreeFound(s.employees, order[ti..], FirstFreeIn(s.employees[order[ti]], 0).value);
    PlaceFound(s, id, now, Handle(order[ti], FirstFreeIn(s.employees[order[ti]], 0).value));
  }

  /** A tier of the order with nobody free passes the search on to the next one. */
  lemma SkipTier(reg: Registry, order: seq<Seniority>, ti: nat)
    requires TiersPresent(reg) && ti < |order| && FirstFreeIn(reg[order[ti]], 0).None?
    ensures FirstFree(reg, order[ti..]) == FirstFree(reg, order[ti + 1..])
  {
    FirstFreeSkip(reg, order[ti..]);
    assert order[ti..][1..] == order[ti + 1..];
  }

  /** `Call.assign` (call.py:56-77): refuses an assigned call, changing nothing. */
  function Assign(s: State, id: CallId, now: int): (r: Result<State, CallError>)
    requires WellFormed(s) && id < |s.calls|
    ensures r.Failure? <==> s.calls[id].assignedTo.Some?
    ensures r.Failure? ==> r.error == AlreadyAssigned
  {
    if s.calls[id].assignedTo.Some? then Failure(AlreadyAssigned)
    else Success(Place(s, id, now))
  }

  /**
   * What a successful assignment does: the chosen employee is of a tier in
   * the call's order, was free and precedes every other free eligible
   * employee; only that employee's flag changes, the call records the
   * employee and the time and is appended once to the active calls, and the
   * backlog is unchanged. With nobody eligible free, the call is appended to
   * the backlog, stays unassigned, and the active calls and flags are unchanged.
   */
  lemma AssignOutcome(s: State, id: CallId, now: int)
    requires WellFormed(s) && id < |s.calls| && s.calls[id].assignedTo.None?
    ensures var r := Assign(s, id, now).value; var order := AssignmentOrder(s.calls[id].priority);
      && |r.calls| == |s.calls|
      && (forall k :: 0 <= k < |s.calls| && k != id ==> r.calls[k] == s.calls[k])
      && r.calls[id].priority == s.calls[id].priority
      && (match r.calls[id].assignedTo
          case Some(h) =>
            && ValidHandle(s.employees, h) && h.tier in order
            && At(s.employees, h).isFree && !At(r.employees, h).isFree
            && (forall g :: ValidHandle(s.employees, g) && g.tier in order && At(s.employees, g).isFree ==>
                  g == h || Precedes(order, h, g))
            && (forall g :: ValidHandle(s.employees, g) && g != h ==> At(r.employees, g) == At(s.employees, g))
            && r.calls[id] == s.calls[id].(assignedTo := Some(h), assignedAt := Some(now))
            && r.active == s.active + [id] && r.backlog == s.backlog
          case None =>
            && (forall g :: ValidHandle(s.employees, g) && g.tier in order ==> !At(s.employees, g).isFree)
            && r.calls == s.calls
            && r.employees == s.employees && r.active == s.active && r.backlog == s.backlog + [id])
  {
  }

  /** A successful assignment of a call outside the backlog keeps the invariant. */
  lemma PlaceValid(s: State, id: CallId, now: int)
    requires Valid(s) && id < |s.calls| && s.calls[id].assignedTo.None? && id !in s.backlog
    ensures Valid(Place(s, id, now))
  {
    hide FirstFree, AssignmentOrder;
    var r := Place(s, id, now);
    assert id !in s.active;
    match FirstFree(s.employees, AssignmentOrder(s.calls[id].priority))
    case Some(h) =>
      NumFreeUpdate(s.employees, h, false);
      forall k | 0 <= k < |s.calls| && s.calls[k].assignedTo.Some?
        ensures s.calls[k].assignedTo.value != h
      {
        assert !At(s.employees, s.calls[k].assignedTo.value).isFree;
      }
      assert AssigneesBusy(r);
      assert QueuesDisjoint(r);
    case None =>
      assert QueuesDisjoint(r);
  }

  // ---- Call.end ----

  /**
   * `Call.end` past its guard (call.py:84-89): the employee is freed and the
   * call unassigned (its `assigned_at` is left as it was); a low-priority call
   * whose escalation decision is true becomes high priority and is assigned
   * again. The lists are only appended to.
   */
  function Release(s: State, id: CallId, escalate: bool, now: int): (r: State)
    requires WellFormed(s) && id < |s.calls| && s.calls[id].assignedTo.Some?
    ensures WellFormed(r) && SameStaff(s.employees, r.employees) && |r.calls| == |s.calls|
    ensures s.active <= r.active && s.backlog <= r.backlog
    ensures forall k :: 0 <= k < |s.calls| && k != id ==> r.calls[k] == s.calls[k]
  {
    var freed := Unassign(s, id);
    if s.calls[id].priority == Low && escalate then Place(Raise(freed, id), id, now) else freed
  }

  /**
   * The state half-way through `Call.end` (call.py:84-85): the call's
   * employee is free and the call unassigned; the state stays well formed.
   */
  function Unassign(s: State, id: CallId): (r: State)
    requires WellFormed(s) && id < |s.calls| && s.calls[id].assignedTo.Some?
    ensures WellFormed(r) && SameStaff(s.employees, r.employees) && |r.calls| == |s.calls|
    ensures r.calls[id] == s.calls[id].(assignedTo := None) && r.calls[id].assignedTo.None?
    ensures forall k :: 0 <= k < |s.calls| && k != id ==> r.calls[k] == s.calls[k]
    ensures var h := s.calls[id].assignedTo.value;
      && ValidHandle(r.employees, h) && At(r.employees, h).isFree
      && forall g :: ValidHandle(s.employees, g) && g != h ==> At(r.employees, g) == At(s.employees, g)
    ensures r.active == s.active && r.backlog == s.backlog
  {
    var c := s.calls[id];
    var reg := SetFree(s.employees, c.assignedTo.value, true);
    assert forall k :: 0 <= k < |s.calls| ==> CallOk(reg, s.calls[k]) by {
      forall k | 0 <= k < |s.calls| ensures CallOk(reg, s.calls[k]) {
        assert CallOk(s.employees, s.calls[k]);
        if s.calls[k].assignedTo.Some? { SameStaffHandles(s.employees, reg, s.calls[k].assignedTo.value); }
      }
    }
    s.(employees := reg, calls := s.calls[id := c.(assignedTo := None)])
  }

  /** Escalation (call.py:87-88): the call becomes high priority; the state stays well formed. */
  function Raise(s: State, id: CallId): (r: State)
    requires WellFormed(s) && id < |s.calls|
    ensures WellFormed(r) && |r.calls| == |s.calls|
    ensures r.calls[id] == s.calls[id].(priority := High) && r.calls[id].priority == High
    ensures forall k :: 0 <= k < |s.calls| && k != id ==> r.calls[k] == s.calls[k]
    ensures r.employees == s.employees && r.active == s.active && r.backlog == s.backlog
  {
    var up := s.(calls := s.calls[id := s.calls[id].(priority := High)]);
    assert forall k :: 0 <= k < |up.calls| ==> CallOk(up.employees, up.calls[k]) by {
      forall k | 0 <= k < |up.calls| ensures CallOk(up.employees, up.calls[k]) {
        assert CallOk(s.employees, s.calls[k]);
      }
    }
    up
  }

  /** `Call.end` (call.py:79-89): refuses an unassigned call, changing nothing. */
  function End(s: State, id: CallId, escalate: Option<bool>, draw: bool, now: int): (r: Result<State, CallError>)
    requires WellFormed(s) && id < |s.calls|
    ensures r.Failure? <==> s.calls[id].assignedTo.None?
    ensures r.Failure? ==> r.error == NotAssigned
    ensures r.Success? ==> WellFormed(r.value) && |r.value.calls| == |s.calls|
    ensures r.Success? ==> s.active <= r.value.active && s.backlog <= r.value.backlog
  {
    if s.calls[id].assignedTo.None? then Failure(NotAssigned)
    else Success(Release(s, id, ShouldEscalate(escalate, draw), now))
  }

  /**
   * What ending an assigned call does: its employee is free again; without
   * escalation (or for a high-priority call) the call is simply unassigned,
   * keeps its priority and `assigned_at`, and neither list changes; with
   * escalation of a low-priority call it becomes high priority and is
   * assigned as a fresh high-priority call would be.
   */
  lemma EndOutcome(s: State, id: CallId, escalate: Option<bool>, draw: bool, now: int)
    requires WellFormed(s) && id < |s.calls| && s.calls[id].assignedTo.Some?
    ensures var h := s.calls[id].assignedTo.value;
            var freed := Unassign(s, id);
            var r := End(s, id, escalate, draw, now).value;
      && At(freed.employees, h).isFree
      && (forall g :: ValidHandle(s.employees, g) && g != h ==> At(freed.employees, g) == At(s.employees, g))
      && if s.calls[id].priority == Low && ShouldEscalate(escalate, draw) then
           && r.calls[id].priority == High
           && r == Assign(Raise(freed, id), id, now).value
         else
           && r == freed
           && r.calls[id].assignedTo.None?
           && r.calls[id].priority == s.calls[id].priority
           && r.calls[id].assignedAt == s.calls[id].assignedAt
           && r.active == s.active && r.backlog == s.backlog
  {
  }

  /**
   * A decision passed to `end` (call.py:79, 91-95) overrides the random
   * draw: whatever the draw, the outcome is the same.
   */
  lemma EndIgnoresDraw(s: State, id: CallId, escalate: bool, d1: bool, d2: bool, now: int)
    requires WellFormed(s) && id < |s.calls|
    ensures End(s, id, Some(escalate), d1, now) == End(s, id, Some(escalate), d2, now)
  {
  }

  /**
   * Escalating a low-priority call that a Manager was handling can give it
   * back to that same Manager: the search of [Manager, Director] finds the
   * just-freed Manager first when no Manager before it in the registry is free.
   */
  lemma EscalationKeepsManager(s: State, id: CallId, j: nat, draw: bool, now: int)
    requires WellFormed(s) && id < |s.calls| && s.calls[id].priority == Low
    requires s.calls[id].assignedTo == Some(Handle(Manager, j))
    requires forall k :: 0 <= k < j ==> !s.employees[Manager][k].isFree
    ensures End(s, id, Some(true), draw, now).Success?
    ensures End(s, id, Some(true), draw, now).value.calls[id].assignedTo == Some(Handle(Manager, j))
    ensures End(s, id, Some(true), draw, now).value.calls[id].priority == High
  {
    hide Place;
    var up := Raise(Unassign(s, id), id);
    assert up.employees == SetFree(s.employees, Handle(Manager, j), true);
    assert up.employees[Manager][j].isFree;
    assert forall k :: 0 <= k < j ==> up.employees[Manager][k] == s.employees[Manager][k];
    FirstFreeFound(up.employees, AssignmentOrder(High), j);
    PlaceFound(up, id, now, Handle(Manager, j));
  }

  function RemoveAt(xs: seq<CallId>, i: nat): (r: seq<CallId>)
    requires i < |xs|
    ensures |r| == |xs| - 1
  {
    xs[..i] + xs[i + 1..]
  }

  /** Removing one entry of a duplicate-free list removes exactly that call. */
  lemma RemoveAtMembers(xs: seq<CallId>, i: nat)
    requires i < |xs| && Distinct(xs)
    ensures Distinct(RemoveAt(xs, i))
    ensures forall x :: x in RemoveAt(xs, i) <==> x in xs && x != xs[i]
  {
    var r := RemoveAt(xs, i);
    forall x | x in xs && x != xs[i] ensures x in r {
      var k :| 0 <= k < |xs| && xs[k] == x;
      if k < i { assert r[k] == x; } else { assert r[k - 1] == x; }
    }
  }

  /**
   * Taking an active call out of `active_calls` and ending it keeps the
   * invariant: this is one step of `review_active_calls`.
   */
  lemma RetireValid(s: State, pos: nat, escalate: bool, now: int)
    requires Valid(s) && pos < |s.active|
    ensures var m := s.(active := RemoveAt(s.active, pos));
      && WellFormed(m) && s.active[pos] < |m.calls| && m.calls[s.active[pos]].assignedTo.Some?
      && Valid(Release(m, s.active[pos], escalate, now))
  {
    hide FirstFree, AssignmentOrder, Place;
    var id := s.active[pos];
    assert id in s.active;
    FreedValid(s, pos);
    var m := s.(active := RemoveAt(s.active, pos));
    var freed := Unassign(m, id);
    if s.calls[id].priority == Low && escalate {
      RaisedValid(freed, id);
      PlaceValid(Raise(freed, id), id, now);
    }
  }

  /** Taking an active call out of `active_calls` and freeing its employee keeps the invariant. */
  lemma FreedValid(s: State, pos: nat)
    requires Valid(s) && pos < |s.active|
    ensures s.active[pos] < |s.calls| && s.calls[s.active[pos]].assignedTo.Some?
    ensures var id := s.active[pos];
      var m := s.(active := RemoveAt(s.active, pos));
      && WellFormed(m) && Valid(Unassign(m, id)) && id !in m.active && id !in m.backlog
  {
    hide FirstFree, AssignmentOrder, Place;
    var id := s.active[pos];
    assert id in s.active;
    var m := s.(active := RemoveAt(s.active, pos));
    RemoveAtMembers(s.active, pos);
    var c := s.calls[id];
    var h := c.assignedTo.value;
    var reg := SetFree(s.employees, h, true);
    NumFreeUpdate(s.employees, h, true);
    var freed := Unassign(m, id);
    forall k | 0 <= k < |s.calls| && k != id && s.calls[k].assignedTo.Some?
      ensures s.calls[k].assignedTo.value != h
    {
    }
    assert AssigneesBusy(freed);
  }

  /** Raising the priority of an unassigned call outside both lists keeps the invariant. */
  lemma RaisedValid(s: State, id: CallId)
    requires Valid(s) && id < |s.calls| && s.calls[id].assignedTo.None? && id !in s.active && id !in s.backlog
    ensures Valid(Raise(s, id))
  {
    hide FirstFree, AssignmentOrder, Place;
    var up := Raise(s, id);
    assert AssigneesBusy(up);
  }

  // ---- registration and dispatch ----

  /** The call `_register_call` creates (call_centre.py:137-148), with a drawn duration. */
  function NewCall(cfg: Config, uid: nat, name: string, priority: Priority, duration: int, now: int): CallInfo
  {
    CallInfo(now, Caller(uid, name), priority, duration, cfg.callEscalationProb, None, None)
  }

  /**
   * `_register_call`: a new unassigned call whose caller uid is the number
   * of earlier registrations; employees and both lists are untouched. The
   * source draws the duration with `random.randint(1, max_call_duration_sec)`,
   * which needs a maximum of at least 1.
   */
  function Register(s: State, cfg: Config, name: string, priority: Priority, duration: int, now: int): (r: (State, CallId))
    requires WellFormed(s) && 1 <= duration <= cfg.maxCallDurationSec
    ensures WellFormed(r.0) && r.1 == |s.calls| && r.1 < |r.0.calls|
    ensures r.0.calls[..|s.calls|] == s.calls
    ensures r.0.calls[r.1].caller == Caller(|s.calls|, name) && r.0.calls[r.1].priority == priority
    ensures r.0.calls[r.1].durationSec == duration && 1 <= r.0.calls[r.1].durationSec <= cfg.maxCallDurationSec
    ensures r.0.calls[r.1].escalationProb == cfg.callEscalationProb && r.0.calls[r.1].timestamp == now
    ensures r.0.calls[r.1].assignedTo.None? && r.0.calls[r.1].assignedAt.None?
    ensures r.0.employees == s.employees && r.0.active == s.active && r.0.backlog == s.backlog
  {
    (s.(calls := s.calls + [NewCall(cfg, |s.calls|, name, priority, duration, now)]), |s.calls|)
  }

  /** `dispatch_call` (call_centre.py:59-63): register, then assign. */
  function Dispatch(s: State, cfg: Config, name: string, priority: Priority, duration: int, now: int): (r: State)
    requires WellFormed(s) && 1 <= duration <= cfg.maxCallDurationSec
    ensures WellFormed(r) && |r.calls| == |s.calls| + 1
    ensures forall k :: 0 <= k < |s.calls| ==> r.calls[k] == s.calls[k]
    ensures var c := r.calls[|s.calls|];
      && c.caller == Caller(|s.calls|, name) && c.priority == priority && c.durationSec == duration
      && ((c.assignedTo.Some? && r.active == s.active + [|s.calls|] && r.backlog == s.backlog)
          || (c.assignedTo.None? && r.active == s.active && r.backlog == s.backlog + [|s.calls|]))
  {
    var (t, id) := Register(s, cfg, name, priority, duration, now);
    AssignOutcome(t, id, now);
    Assign(t, id, now).value
  }

  /** Registering and dispatching keep the invariant. */
  lemma DispatchValid(s: State, cfg: Config, name: string, priority: Priority, duration: int, now: int)
    requires Valid(s) && 1 <= duration <= cfg.maxCallDurationSec
    ensures Valid(Register(s, cfg, name, priority, duration, now).0)
    ensures Valid(Dispatch(s, cfg, name, priority, duration, now))
  {
    var (t, id) := Register(s, cfg, name, priority, duration, now);
    RegisterValid(s, cfg, name, priority, duration, now);
    PlaceValid(t, id, now);
  }

  /**
   * Dispatching by the numbers: with somebody free in the call's tiers the
   * call becomes active and those tiers have one free employee fewer;
   * otherwise it joins the backlog and no flag changes. Tiers outside the
   * call's order are never touched.
   */
  lemma DispatchCounts(s: State, cfg: Config, name: string, priority: Priority, duration: int, now: int)
    requires WellFormed(s) && 1 <= duration <= cfg.maxCallDurationSec
    ensures var r := Dispatch(s, cfg, name, priority, duration, now);
            var order := AssignmentOrder(priority);
      && |r.calls| == |s.calls| + 1
      && (forall t :: t !in order ==> r.employees[t] == s.employees[t])
      && (FreeIn(s.employees, order) > 0 ==>
            && |r.active| == |s.active| + 1 && r.backlog == s.backlog
            && FreeIn(r.employees, order) == FreeIn(s.employees, order) - 1)
      && (FreeIn(s.employees, order) == 0 ==>
            r.active == s.active && |r.backlog| == |s.backlog| + 1 && r.employees == s.employees)
  {
    hide Place;
    var (t, id) := Register(s, cfg, name, priority, duration, now);
    var order := AssignmentOrder(priority);
    FreeInZero(s.employees, order);
    match FirstFree(t.employees, order)
    case Some(h) =>
      PlaceFound(t, id, now, h);
      FreeInBusy(t.employees, order, h);
    case None =>
      PlaceNone(t, id, now);
  }

  /** Registering a call keeps the invariant: the new call is unassigned and in neither list. */
  lemma RegisterValid(s: State, cfg: Config, name: string, priority: Priority, duration: int, now: int)
    requires Valid(s) && 1 <= duration <= cfg.maxCallDurationSec
    ensures Valid(Register(s, cfg, name, priority, duration, now).0)
  {
    hide Place, FirstFree, AssignmentOrder;
    var (t, id) := Register(s, cfg, name, priority, duration, now);
    assert id !in t.active && id !in t.backlog;
    assert AssigneesBusy(t);
  }

  /** The state right after `CallCentre.__init__`. */
  function Initial(cfg: Config): (s: State)
    requires ConfigOk(cfg)
    ensures WellFormed(s) && s.calls == [] && s.active == [] && s.backlog == []
    ensures forall t :: |s.employees[t]| == TierSize(cfg, t)
    ensures forall t, i :: 0 <= i < |s.employees[t]| ==> s.employees[t][i].isFree
  {
    InitialRegistryShape(cfg);
    State(InitialRegistry(cfg), [], [], [])
  }

  /** A new centre has no calls, everyone free, and satisfies the invariant. */
  lemma InitialValid(cfg: Config)
    requires ConfigOk(cfg)
    ensures Valid(Initial(cfg))
    ensures NumFree(Initial(cfg).employees) == TotalStaff(Initial(cfg).employees)
  {
    InitialRegistryShape(cfg);
  }

  /** The centre `__init__` builds from its four batches is the initial state. */
  lemma InitialFromBatches(cfg: Config, j: seq<Employee>, s: seq<Employee>, m: seq<Employee>, d: seq<Employee>)
    requires ConfigOk(cfg)
    requires j == Batch(Junior, 0, cfg.juniors, true)
    requires s == Batch(Senior, cfg.juniors, cfg.seniors, true)
    requires m == Batch(Manager, cfg.juniors + cfg.seniors, cfg.managers, true)
    requires d == Batch(Director, cfg.juniors + cfg.seniors + cfg.managers, cfg.directors, true)
    ensures var init := State(map[Junior := j, Senior := s, Manager := m, Director := d], [], [], []);
      init == Initial(cfg) && Valid(init)
  {
    hide Batch;
    InitialRegistryDisplay(cfg);
    InitialValid(cfg);
  }
}
