/**
 * The call entity of call.py: priorities, the tier search order, the call
 * record, the expiry test, the escalation decision and the choice of
 * employee that `Call.assign` makes.
 */
module Calls {
  import opened Wrappers
  import opened Employees
  import opened Registries

  datatype Priority = High | Low

  /**
   * The tiers searched for a call of priority `p`: every tier but Director
   * for a Low call, Manager and Director for a High one, and in each case
   * from the least senior tier up.
   */
  ghost predicate SearchesFor(p: Priority, order: seq<Seniority>)
  {
    && (forall t :: t in order <==> (if p == Low then t != Director else TierRank(t) >= TierRank(Manager)))
    && forall i, j :: 0 <= i < j < |order| ==> TierRank(order[i]) < TierRank(order[j])
  }

  /** EMPLOYEE_ASSIGNMENT_ORDER (call.py:16-26): the tiers searched for each priority. */
  function AssignmentOrder(p: Priority): (order: seq<Seniority>)
    ensures SearchesFor(p, order)
  {
    match p
    case Low => [Junior, Senior, Manager]
    case High => [Manager, Director]
  }

  /** A low-priority call never goes to a Director; a high one never to a Junior or Senior. */
  lemma AssignmentOrderEligibility(p: Priority, t: Seniority)
    requires t in AssignmentOrder(p)
    ensures p == Low ==> t != Director
    ensures p == High ==> t != Junior && t != Senior
  {
  }

  datatype Caller = Caller(uid: nat, name: string)

  /**
   * CallInfo (call.py:35-43). `timestamp`, `assignedAt` and the clock are
   * whole seconds; `assignedTo` refers into the centre's registry.
   */
  datatype CallInfo = CallInfo(
    timestamp: int,
    caller: Caller,
    priority: Priority,
    durationSec: int,
    escalationProb: real,
    assignedTo: Option<Handle>,
    assignedAt: Option<int>)

  /** An assigned call always has its assignment time (`assign` sets both). */
  predicate AssignmentTimed(c: CallInfo)
  {
    c.assignedTo.Some? ==> c.assignedAt.Some?
  }

  /** `Call.expired` (call.py:101-110) with the clock reading `now`. */
  function Expired(c: CallInfo, now: int): (r: bool)
    requires AssignmentTimed(c)
    ensures r ==> c.assignedTo.Some?
    ensures c.assignedTo.Some? ==> (r <==> now >= c.assignedAt.value + c.durationSec)
  {
    if c.assignedTo.None? then false
    else now - c.assignedAt.value >= c.durationSec
  }

  /** An unassigned call is never expired; an assigned one expires once its duration has elapsed and stays expired. */
  lemma ExpiredMeaning(c: CallInfo, now: int, later: int)
    requires AssignmentTimed(c) && now <= later
    ensures c.assignedTo.None? ==> !Expired(c, later)
    ensures Expired(c, now) ==> Expired(c, later)
    ensures c.assignedTo.Some? && c.assignedAt == Some(now) && c.durationSec >= 1 ==> !Expired(c, now)
  {
  }

  /**
   * `_should_escalate` (call.py:91-99): an explicit decision wins; otherwise
   * the outcome of the weighted random draw, passed in as `draw`.
   */
  function ShouldEscalate(escalate: Option<bool>, draw: bool): (r: bool)
    ensures escalate.Some? ==> r == escalate.value
    ensures escalate.None? ==> r == draw
  {
    match escalate
    case Some(b) => b
    case None => draw
  }

  /** The first free employee of one tier at or after position `from`, in registry order. */
  function FirstFreeIn(staff: seq<Employee>, from: nat): (r: Option<nat>)
    requires from <= |staff|
    ensures r.Some? ==> from <= r.value < |staff| && staff[r.value].isFree
    ensures r.Some? ==> forall j :: from <= j < r.value ==> !staff[j].isFree
    ensures r.None? ==> forall j :: from <= j < |staff| ==> !staff[j].isFree
    decreases |staff| - from
  {
    if from == |staff| then None
    else if staff[from].isFree then Some(from)
    else FirstFreeIn(staff, from + 1)
  }

  /** The position of the first occurrence of `t` in `order`. */
  function IndexOf(order: seq<Seniority>, t: Seniority): (k: nat)
    requires t in order
    ensures k < |order| && order[k] == t
    ensures forall j :: 0 <= j < k ==> order[j] != t
  {
    if order[0] == t then 0 else 1 + IndexOf(order[1..], t)
  }

  /** `a` comes before `b` in the search: an earlier tier, or earlier in the same tier. */
  predicate Precedes(order: seq<Seniority>, a: Handle, b: Handle)
    requires a.tier in order && b.tier in order
  {
    IndexOf(order, a.tier) < IndexOf(order, b.tier)
    || (a.tier == b.tier && a.index < b.index)
  }

  /**
   * The employee `Call.assign` picks (call.py:64-74): scanning the tiers of
   * `order` in turn and each tier in registry order, the first free one.
   * The result is free, eligible, and precedes every other free eligible
   * employee; there is none exactly when every eligible employee is busy.
   */
  function FirstFree(reg: Registry, order: seq<Seniority>): (r: Option<Handle>)
    requires TiersPresent(reg)
    ensures r.Some? ==> ValidHandle(reg, r.value) && r.value.tier in order && At(reg, r.value).isFree
    ensures r.Some? ==> forall g :: ValidHandle(reg, g) && g.tier in order && At(reg, g).isFree ==>
                          g == r.value || Precedes(order, r.value, g)
    ensures r.None? <==> forall g :: ValidHandle(reg, g) && g.tier in order ==> !At(reg, g).isFree
  {
    if order == [] then None
    else
      match FirstFreeIn(reg[order[0]], 0)
      case Some(j) => Some(Handle(order[0], j))
      case None =>
        var r := FirstFree(reg, order[1..]);
        FirstFreeTail(reg, order, r);
        r
  }

  /** The search stops in the first tier that has somebody free. */
  lemma FirstFreeFound(reg: Registry, order: seq<Seniority>, j: nat)
    requires TiersPresent(reg) && order != [] && FirstFreeIn(reg[order[0]], 0) == Some(j)
    ensures FirstFree(reg, order) == Some(Handle(order[0], j))
  {
  }

  /** A tier with nobody free passes the search on to the next tier. */
  lemma FirstFreeSkip(reg: Registry, order: seq<Seniority>)
    requires TiersPresent(reg) && order != [] && FirstFreeIn(reg[order[0]], 0).None?
    ensures FirstFree(reg, order) == FirstFree(reg, order[1..])
  {
  }

  /** The step of FirstFree's proof where the first tier has nobody free. */
  lemma FirstFreeTail(reg: Registry, order: seq<Seniority>, r: Option<Handle>)
    requires TiersPresent(reg) && order != []
    requires forall j :: 0 <= j < |reg[order[0]]| ==> !reg[order[0]][j].isFree
    requires r.Some? ==> ValidHandle(reg, r.value) && r.value.tier in order[1..] && At(reg, r.value).isFree
    requires r.Some? ==> forall g :: ValidHandle(reg, g) && g.tier in order[1..] && At(reg, g).isFree ==>
                           g == r.value || Precedes(order[1..], r.value, g)
    requires r.None? <==> forall g :: ValidHandle(reg, g) && g.tier in order[1..] ==> !At(reg, g).isFree
    ensures r.Some? ==> ValidHandle(reg, r.value) && r.value.tier in order && At(reg, r.value).isFree
    ensures r.Some? ==> forall g :: ValidHandle(reg, g) && g.tier in order && At(reg, g).isFree ==>
                          g == r.value || Precedes(order, r.value, g)
    ensures r.None? <==> forall g :: ValidHandle(reg, g) && g.tier in order ==> !At(reg, g).isFree
  {
    forall g | ValidHandle(reg, g) && g.tier in order && At(reg, g).isFree
      ensures g.tier in order[1..] && IndexOf(order, g.tier) == 1 + IndexOf(order[1..], g.tier)
    {
      assert g.tier != order[0];
    }
    if r.Some? {
      assert r.value.tier != order[0];
      assert IndexOf(order, r.value.tier) == 1 + IndexOf(order[1..], r.value.tier);
    }
  }

  /** With fewer free employees, a search that found nobody still finds nobody. */
  lemma FirstFreeNoneStays(a: Registry, b: Registry, order: seq<Seniority>)
    requires TiersPresent(a) && SameStaff(a, b)
    requires forall g :: ValidHandle(b, g) && At(b, g).isFree ==> ValidHandle(a, g) && At(a, g).isFree
    requires FirstFree(a, order).None?
    ensures TiersPresent(b) && FirstFree(b, order).None?
  {
    assert forall t: Seniority :: t in b;
    forall g | ValidHandle(b, g) && g.tier in order ensures !At(b, g).isFree {
      SameStaffHandles(a, b, g);
    }
  }
}
