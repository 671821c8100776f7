/**
 * The scenarios of the repository's tests (tests/test_call_centre_setup.py,
 * tests/test_call_functionality.py and src/tests/test_call_centre_functionality.py)
 * stated over the model: each lemma
 * follows one test's sequence of operations and states what the test
 * checks afterwards.
 */
module Scenarios {
  import opened Wrappers
  import opened Employees
  import opened Registries
  import opened Calls
  import opened Configs
  import opened Engine
  import opened Reviews

  /** One employee per tier, the configuration of most call tests. */
  const OneEach: Config := Config(1, 1, 1, 1, 10, 0.1)

  /** The escalation tests' configuration: no Director. */
  const NoDirector: Config := Config(1, 1, 1, 0, 10, 0.1)

  /** The centre of `test_dispatch_call`: two of each tier but Director. */
  const TwoManagers: Config := Config(2, 2, 2, 0, 10, 0.1)

  /** The centre of `test_end_call_do_not_escalate`: a single Junior. */
  const JuniorOnly: Config := Config(1, 0, 0, 0, 10, 0.1)

  /** An escalation probability above one is refused, as is a negative staff count. */
  lemma ConfigErrors()
    ensures NewConfig(5, 0, 0, 0, 10, 2.0) == Failure(ProbabilityOutOfRange)
    ensures NewConfig(0, 0, -1, 0, 10, 0.2) == Failure(NegativeStaffCount)
    ensures NewConfig(1, 1, 1, 1, 10, 0.1) == Success(OneEach)
  {
  }

  /** The registry of a centre with one free employee per tier, uids 0 to 3 in tier order. */
  lemma OneEachRegistry()
    ensures ConfigOk(OneEach)
    ensures Initial(OneEach).employees
            == map[Junior := [Employee(Junior, 0, true)], Senior := [Employee(Senior, 1, true)],
                   Manager := [Employee(Manager, 2, true)], Director := [Employee(Director, 3, true)]]
  {
    InitialRegistryDisplay(OneEach);
    assert Batch(Junior, 0, 1, true) == [Employee(Junior, 0, true)];
    assert Batch(Senior, 1, 1, true) == [Employee(Senior, 1, true)];
    assert Batch(Manager, 2, 1, true) == [Employee(Manager, 2, true)];
    assert Batch(Director, 3, 1, true) == [Employee(Director, 3, true)];
  }

  /** The centre of `test_employee_uid`: 2, 3, 4 and 5 employees in the four tiers. */
  const UidTest: Config := Config(2, 3, 4, 5, 10, 0.1)

  /** The uids that test expects, `range(0, 14)`. */
  const ExpectedUids: seq<nat> := seq(14, i => i)

  /** The staff of that centre read tier by tier: fourteen employees with uids 0 to 13 in order. */
  lemma UidTestRoster() returns (roster: seq<Employee>)
    ensures ConfigOk(UidTest) && roster == Roster(Initial(UidTest).employees)
    ensures |roster| == 14 && forall k :: 0 <= k < |roster| ==> roster[k].uid == k
  {
    hide InitialRegistry, Batch, TierSize;
    InitialRegistryShape(UidTest);
    roster := Roster(Initial(UidTest).employees);
  }

  /**
   * `test_employee_uid`: read tier by tier, the fourteen employees of that
   * centre carry the uids 0 to 13 in order, so their uid set is the
   * expected one.
   */
  lemma EmployeeUids()
    ensures ConfigOk(UidTest)
    ensures var roster := Roster(Initial(UidTest).employees);
      && |roster| == 14
      && (forall k :: 0 <= k < 14 ==> roster[k].uid == ExpectedUids[k])
      && (set e | e in roster :: e.uid) == (set u | u in ExpectedUids)
  {
    hide Initial, Roster;
    var roster := UidTestRoster();
    forall e | e in roster ensures e.uid in ExpectedUids {
      var k :| 0 <= k < |roster| && roster[k] == e;
      assert ExpectedUids[k] == k;
    }
    forall u | u in ExpectedUids ensures u in (set e | e in roster :: e.uid) {
      var k :| 0 <= k < 14 && ExpectedUids[k] == u;
      assert roster[k] in roster && roster[k].uid == u;
    }
  }

  /** The one-tier centres of `test_juniors_setup` to `test_directors_setup`. */
  const FiveJuniors: Config := Config(5, 0, 0, 0, 10, 0.1)
  const FiveSeniors: Config := Config(0, 5, 0, 0, 10, 0.1)
  const FiveManagers: Config := Config(5, 0, 5, 0, 10, 0.1)
  const FiveDirectors: Config := Config(0, 0, 0, 5, 10, 0.1)

  /** Each of those centres has five employees in the tier its test looks at. */
  lemma TierSetups()
    ensures ConfigOk(FiveJuniors) && |Initial(FiveJuniors).employees[Junior]| == 5
    ensures ConfigOk(FiveSeniors) && |Initial(FiveSeniors).employees[Senior]| == 5
    ensures ConfigOk(FiveManagers) && |Initial(FiveManagers).employees[Manager]| == 5
    ensures ConfigOk(FiveDirectors) && |Initial(FiveDirectors).employees[Director]| == 5
  {
    InitialRegistryShape(FiveJuniors);
    InitialRegistryShape(FiveSeniors);
    InitialRegistryShape(FiveManagers);
    InitialRegistryShape(FiveDirectors);
  }

  /** A new centre with one employee per tier: everybody free, no calls. */
  lemma OneEachStart()
    ensures ConfigOk(OneEach) && WellFormed(Initial(OneEach)) && Flags(Initial(OneEach), true, true, true, true)
    ensures Initial(OneEach).calls == [] && Initial(OneEach).active == [] && Initial(OneEach).backlog == []
  {
    OneEachRegistry();
  }

  /** A tier of one employee has its first free employee at 0 when free and none when busy. */
  lemma SingleSlot(e: Employee)
    ensures FirstFreeIn([e], 0) == if e.isFree then Some(0) else None
  {
    if !e.isFree {
      assert FirstFreeIn([e], 0) == FirstFreeIn([e], 1);
    }
  }

  /**
   * The search of a priority's tiers in a registry with one employee per tier
   * stops at the first tier of the order whose employee is free.
   */
  lemma SearchOnePerTier(reg: Registry, order: seq<Seniority>)
    requires TiersPresent(reg) && forall t :: |reg[t]| == 1
    ensures FirstFree(reg, order)
            == if order == [] then None
               else if reg[order[0]][0].isFree then Some(Handle(order[0], 0))
               else FirstFree(reg, order[1..])
  {
    if order != [] {
      SingleSlot(reg[order[0]][0]);
      assert reg[order[0]] == [reg[order[0]][0]];
    }
  }

  const Name: string := "John Cena"

  /** One dispatch of `test_call_assignment_*_many`: a call registered at time 0 and assigned. */
  function Next(s: State, p: Priority): (r: State)
    requires WellFormed(s)
    ensures WellFormed(r)
  {
    Dispatch(s, OneEach, Name, p, 5, 0)
  }

  /** A registry with exactly one employee in every tier. */
  predicate OnePerTier(reg: Registry)
  {
    TiersPresent(reg) && forall t :: |reg[t]| == 1
  }

  /**
   * A dispatch in a centre with one employee per tier: the new call goes to
   * the employee the search finds, who alone becomes busy, and joins the
   * active calls; with nobody found it joins the backlog.
   */
  lemma DispatchOnePerTier(s: State, p: Priority) returns (r: State)
    requires WellFormed(s) && OnePerTier(s.employees)
    ensures r == Next(s, p) && OnePerTier(r.employees)
    ensures |r.calls| == |s.calls| + 1 && r.calls[..|s.calls|] == s.calls
    ensures var found := FirstFree(s.employees, AssignmentOrder(p));
      && r.calls[|s.calls|].assignedTo == found
      && (forall t :: r.employees[t][0].isFree == (s.employees[t][0].isFree && found != Some(Handle(t, 0))))
      && (found.Some? ==> r.active == s.active + [|s.calls|] && r.backlog == s.backlog)
      && (found.None? ==> r.active == s.active && r.backlog == s.backlog + [|s.calls|])
  {
    var (t, id) := Register(s, OneEach, Name, p, 5, 0);
    var order := AssignmentOrder(p);
    match FirstFree(t.employees, order)
    case Some(h) =>
      PlaceFound(t, id, 0, h);
      r := Place(t, id, 0);
      assert r.calls[..|s.calls|] == t.calls[..|s.calls|];
    case None =>
      PlaceNone(t, id, 0);
      r := Place(t, id, 0);
      assert r.calls[..|s.calls|] == t.calls[..|s.calls|];
  }

  /** The free flags of a centre with one employee per tier. */
  predicate Flags(s: State, j: bool, sn: bool, m: bool, d: bool)
  {
    && OnePerTier(s.employees)
    && s.employees[Junior][0].isFree == j && s.employees[Senior][0].isFree == sn
    && s.employees[Manager][0].isFree == m && s.employees[Director][0].isFree == d
  }

  /** A high-priority dispatch takes the Manager if free, else the Director, else waits. */
  lemma HighStep(s: State, j: bool, sn: bool, m: bool, d: bool) returns (r: State)
    requires WellFormed(s) && Flags(s, j, sn, m, d)
    ensures r == Next(s, High)
    ensures |r.calls| == |s.calls| + 1 && r.calls[..|s.calls|] == s.calls
    ensures r.calls[|s.calls|].assignedTo
            == if m then Some(Handle(Manager, 0)) else if d then Some(Handle(Director, 0)) else None
    ensures Flags(r, j, sn, false, d && m)
    ensures |r.active| == |s.active| + (if m || d then 1 else 0)
    ensures |r.backlog| == |s.backlog| + (if m || d then 0 else 1)
  {
    var order := AssignmentOrder(High);
    assert order == [Manager, Director] && order[1..] == [Director] && [Director][1..] == [];
    SearchOnePerTier(s.employees, order);
    SearchOnePerTier(s.employees, [Director]);
    SearchOnePerTier(s.employees, []);
    r := DispatchOnePerTier(s, High);
  }

  /** A low-priority dispatch takes the Junior, Senior or Manager, the first free, else waits. */
  lemma LowStep(s: State, j: bool, sn: bool, m: bool, d: bool) returns (r: State)
    requires WellFormed(s) && Flags(s, j, sn, m, d)
    ensures r == Next(s, Low)
    ensures |r.calls| == |s.calls| + 1 && r.calls[..|s.calls|] == s.calls
    ensures r.calls[|s.calls|].assignedTo
            == if j then Some(Handle(Junior, 0)) else if sn then Some(Handle(Senior, 0))
               else if m then Some(Handle(Manager, 0)) else None
    ensures Flags(r, false, sn && j, m && (j || sn), d)
    ensures |r.active| == |s.active| + (if j || sn || m then 1 else 0)
    ensures |r.backlog| == |s.backlog| + (if j || sn || m then 0 else 1)
  {
    var order := AssignmentOrder(Low);
    assert order == [Junior, Senior, Manager] && order[1..] == [Senior, Manager];
    assert [Senior, Manager][1..] == [Manager] && [Manager][1..] == [];
    SearchOnePerTier(s.employees, order);
    SearchOnePerTier(s.employees, [Senior, Manager]);
    SearchOnePerTier(s.employees, [Manager]);
    SearchOnePerTier(s.employees, []);
    r := DispatchOnePerTier(s, Low);
  }

  /**
   * `test_call_assignment_high_priority_many`: with one employee per tier,
   * four high-priority calls go to the Manager, then the Director, then
   * twice to the backlog.
   */
  lemma HighPriorityMany() returns (s1: State, s2: State, s3: State, s4: State)
    ensures ConfigOk(OneEach)
    ensures s1 == Next(Initial(OneEach), High) && s2 == Next(s1, High)
    ensures s3 == Next(s2, High) && s4 == Next(s3, High)
    ensures |s4.calls| == 4
    ensures s4.calls[0].assignedTo == Some(Handle(Manager, 0))
    ensures s4.calls[1].assignedTo == Some(Handle(Director, 0))
    ensures s4.calls[2].assignedTo.None? && s4.calls[3].assignedTo.None?
    ensures [|s1.active|, |s2.active|, |s3.active|, |s4.active|] == [1, 2, 2, 2]
    ensures [|s1.backlog|, |s2.backlog|, |s3.backlog|, |s4.backlog|] == [0, 0, 1, 2]
  {
    OneEachStart();
    hide Next, Initial, WellFormed, Flags;
    var s0 := Initial(OneEach);
    s1 := HighStep(s0, true, true, true, true);
    s2 := HighStep(s1, true, true, false, true);
    s3 := HighStep(s2, true, true, false, false);
    s4 := HighStep(s3, true, true, false, false);
    assert s4.calls[0] == s3.calls[0] == s2.calls[0] == s1.calls[0];
    assert s4.calls[1] == s3.calls[1] == s2.calls[1];
    assert s4.calls[2] == s3.calls[2];
  }

  /**
   * `test_call_assignment_low_priority_many`: five low-priority calls go to
   * the Junior, the Senior and the Manager, then twice to the backlog; the
   * Director is never used.
   */
  lemma LowPriorityMany() returns (s1: State, s2: State, s3: State, s4: State, s5: State)
    ensures ConfigOk(OneEach)
    ensures s1 == Next(Initial(OneEach), Low) && s2 == Next(s1, Low) && s3 == Next(s2, Low)
    ensures s4 == Next(s3, Low) && s5 == Next(s4, Low)
    ensures |s5.calls| == 5
    ensures s5.calls[0].assignedTo == Some(Handle(Junior, 0))
    ensures s5.calls[1].assignedTo == Some(Handle(Senior, 0))
    ensures s5.calls[2].assignedTo == Some(Handle(Manager, 0))
    ensures s5.calls[3].assignedTo.None? && s5.calls[4].assignedTo.None?
    ensures s5.employees[Director][0].isFree
    ensures [|s1.active|, |s2.active|, |s3.active|, |s4.active|, |s5.active|] == [1, 2, 3, 3, 3]
    ensures [|s1.backlog|, |s2.backlog|, |s3.backlog|, |s4.backlog|, |s5.backlog|] == [0, 0, 0, 1, 2]
  {
    OneEachStart();
    hide Next, Initial, WellFormed, Flags;
    var s0 := Initial(OneEach);
    s1 := LowStep(s0, true, true, true, true);
    s2 := LowStep(s1, false, true, true, true);
    s3 := LowStep(s2, false, false, true, true);
    s4 := LowStep(s3, false, false, false, true);
    s5 := LowStep(s4, false, false, false, true);
    assert s5.calls[0] == s4.calls[0] == s3.calls[0] == s2.calls[0] == s1.calls[0];
    assert s5.calls[1] == s4.calls[1] == s3.calls[1] == s2.calls[1];
    assert s5.calls[2] == s4.calls[2] == s3.calls[2];
    assert s5.calls[3] == s4.calls[3];
  }

  /** The registry of the escalation tests: one free Junior, Senior and Manager, no Director. */
  lemma NoDirectorRegistry()
    ensures ConfigOk(NoDirector)
    ensures Initial(NoDirector).employees
            == map[Junior := [Employee(Junior, 0, true)], Senior := [Employee(Senior, 1, true)],
                   Manager := [Employee(Manager, 2, true)], Director := []]
  {
    InitialRegistryDisplay(NoDirector);
    assert Batch(Junior, 0, 1, true) == [Employee(Junior, 0, true)];
    assert Batch(Senior, 1, 1, true) == [Employee(Senior, 1, true)];
    assert Batch(Manager, 2, 1, true) == [Employee(Manager, 2, true)];
  }

  /**
   * `test_end_call_do_escalate`, first half: ending the freshly registered
   * low-priority call is refused, and assigning it gives it the Junior.
   */
  lemma EscalateSetup() returns (t: State, a: State)
    ensures ConfigOk(NoDirector)
    ensures (t, 0) == Register(Initial(NoDirector), NoDirector, Name, Low, 5, 0)
    ensures forall draw :: End(t, 0, None, draw, 1) == Failure(NotAssigned)
    ensures Assign(t, 0, 0) == Success(a)
    ensures a.calls[0].assignedTo == Some(Handle(Junior, 0)) && a.active == [0] && a.backlog == []
    ensures a.employees
            == map[Junior := [Employee(Junior, 0, false)], Senior := [Employee(Senior, 1, true)],
                   Manager := [Employee(Manager, 2, true)], Director := []]
    ensures |a.calls| == 1 && a.calls[0].priority == Low
  {
    NoDirectorRegistry();
    var s0 := Initial(NoDirector);
    t := Register(s0, NoDirector, Name, Low, 5, 0).0;
    SingleSlot(Employee(Junior, 0, true));
    FirstFreeFound(t.employees, AssignmentOrder(Low), 0);
    PlaceFound(t, 0, 0, Handle(Junior, 0));
    a := Place(t, 0, 0);
    assert a.employees == SetFree(t.employees, Handle(Junior, 0), false);
    assert [Employee(Junior, 0, true)][0 := Employee(Junior, 0, false)] == [Employee(Junior, 0, false)];
    assert a.employees == t.employees[Junior := [Employee(Junior, 0, false)]];
    assert a.calls[0].assignedTo == Some(Handle(Junior, 0));
  }

  /**
   * `test_end_call_do_escalate`, second half: once the test has taken the
   * call out of `active_calls`, ending it with escalation frees the Junior,
   * raises the call to high priority and gives it the Manager, and the
   * call is active again.
   */
  lemma EscalateEnd(a: State, draw: bool) returns (e: State)
    requires WellFormed(a) && |a.calls| == 1 && a.calls[0].priority == Low
    requires a.calls[0].assignedTo == Some(Handle(Junior, 0)) && a.active == [0] && a.backlog == []
    requires a.employees
             == map[Junior := [Employee(Junior, 0, false)], Senior := [Employee(Senior, 1, true)],
                    Manager := [Employee(Manager, 2, true)], Director := []]
    ensures var popped := a.(active := []);
      WellFormed(popped) && End(popped, 0, Some(true), draw, 1) == Success(e)
    ensures e.employees[Junior][0].isFree && !e.employees[Manager][0].isFree
    ensures e.calls[0].priority == High && e.calls[0].assignedTo == Some(Handle(Manager, 0))
    ensures e.employees[Manager][0].uid != a.employees[Junior][0].uid
    ensures e.active == [0] && e.backlog == []
  {
    var popped := a.(active := []);
    var up := Raise(Unassign(popped, 0), 0);
    SingleSlot(Employee(Manager, 2, true));
    assert up.employees[Manager] == [Employee(Manager, 2, true)];
    FirstFreeFound(up.employees, AssignmentOrder(High), 0);
    PlaceFound(up, 0, 1, Handle(Manager, 0));
    e := Place(up, 0, 1);
  }

  /**
   * `test_end_call_do_not_escalate`, first half: with a single Junior,
   * ending the unassigned call is refused, and assigning it makes the
   * Junior busy.
   */
  lemma NoEscalationSetup() returns (t: State, a: State)
    ensures ConfigOk(JuniorOnly)
    ensures (t, 0) == Register(Initial(JuniorOnly), JuniorOnly, Name, Low, 5, 0)
    ensures forall draw :: End(t, 0, None, draw, 1) == Failure(NotAssigned)
    ensures Assign(t, 0, 0) == Success(a)
    ensures |a.calls| == 1 && a.calls[0].priority == Low
    ensures a.calls[0].assignedTo == Some(Handle(Junior, 0)) && a.active == [0] && a.backlog == []
    ensures a.employees[Junior] == [Employee(Junior, 0, false)]
  {
    InitialRegistryDisplay(JuniorOnly);
    assert Batch(Junior, 0, 1, true) == [Employee(Junior, 0, true)];
    var s0 := Initial(JuniorOnly);
    assert s0.employees[Junior] == [Employee(Junior, 0, true)];
    t := Register(s0, JuniorOnly, Name, Low, 5, 0).0;
    SingleSlot(Employee(Junior, 0, true));
    FirstFreeFound(t.employees, AssignmentOrder(Low), 0);
    PlaceFound(t, 0, 0, Handle(Junior, 0));
    a := Place(t, 0, 0);
    assert a.employees == SetFree(t.employees, Handle(Junior, 0), false);
    assert [Employee(Junior, 0, true)][0 := Employee(Junior, 0, false)] == [Employee(Junior, 0, false)];
  }

  /**
   * `test_end_call_do_not_escalate`, second half: after the test takes the
   * call out of `active_calls`, ending it without escalation leaves it
   * unassigned and low priority, frees the Junior and puts the call on
   * neither list.
   */
  lemma NoEscalationEnd(a: State, draw: bool) returns (e: State)
    requires WellFormed(a) && |a.calls| == 1 && a.calls[0].priority == Low
    requires a.calls[0].assignedTo == Some(Handle(Junior, 0)) && a.active == [0] && a.backlog == []
    requires a.employees[Junior] == [Employee(Junior, 0, false)]
    ensures var popped := a.(active := []);
      WellFormed(popped) && End(popped, 0, Some(false), draw, 1) == Success(e)
    ensures e.calls[0].assignedTo.None? && e.calls[0].priority == Low
    ensures e.employees[Junior] == [Employee(Junior, 0, true)]
    ensures e.active == [] && e.backlog == []
  {
    var popped := a.(active := []);
    EndOutcome(popped, 0, Some(false), draw, 1);
    e := Unassign(popped, 0);
    assert e.employees == SetFree(popped.employees, Handle(Junior, 0), true);
    assert [Employee(Junior, 0, false)][0 := Employee(Junior, 0, true)] == [Employee(Junior, 0, true)];
  }

  /** One high-priority `dispatch_call` in the centre of `test_dispatch_call`. */
  function DispatchHigh(s: State): (r: State)
    requires WellFormed(s)
    ensures WellFormed(r)
  {
    Dispatch(s, TwoManagers, Name, High, 5, 0)
  }

  /** The new centre of `test_dispatch_call`: two free in each of the tiers the test looks at, none in Director. */
  lemma TwoManagersStart()
    ensures ConfigOk(TwoManagers) && WellFormed(Initial(TwoManagers))
    ensures Initial(TwoManagers).active == [] && Initial(TwoManagers).backlog == []
    ensures FreeIn(Initial(TwoManagers).employees, AssignmentOrder(High)) == 2
    ensures CountFree(Initial(TwoManagers).employees[Junior]) == 2
    ensures CountFree(Initial(TwoManagers).employees[Senior]) == 2
    ensures Counts(Initial(TwoManagers), 2, 0, 0)
  {
    hide InitialRegistry, Batch;
    var reg := Initial(TwoManagers).employees;
    InitialRegistryShape(TwoManagers);
    AllFreeCount(reg[Junior]);
    AllFreeCount(reg[Senior]);
    AllFreeCount(reg[Manager]);
    AllFreeCount(reg[Director]);
    var order := AssignmentOrder(High);
    assert order[..1] == [Manager] && [Manager][..0] == [];
    assert FreeIn(reg, order) == FreeIn(reg, [Manager]) + CountFree(reg[Director]);
  }

  /** The numbers `test_dispatch_call` watches: free high-priority staff, queue lengths, free Juniors and Seniors. */
  predicate Counts(s: State, free: nat, active: nat, backlog: nat)
    requires WellFormed(s)
  {
    && FreeIn(s.employees, AssignmentOrder(High)) == free
    && |s.active| == active && |s.backlog| == backlog
    && CountFree(s.employees[Junior]) == 2 && CountFree(s.employees[Senior]) == 2
  }

  lemma CountsMeaning(s: State, free: nat, active: nat, backlog: nat)
    requires WellFormed(s) && Counts(s, free, active, backlog)
    ensures |s.active| == active && |s.backlog| == backlog
    ensures CountFree(s.employees[Junior]) == 2 && CountFree(s.employees[Senior]) == 2
  {
  }

  /** One high-priority dispatch in those numbers. */
  lemma HighCount(s: State, free: nat, active: nat, backlog: nat) returns (r: State)
    requires WellFormed(s) && Counts(s, free, active, backlog)
    ensures r == DispatchHigh(s) && WellFormed(r)
    ensures free > 0 ==> Counts(r, free - 1, active + 1, backlog)
    ensures free == 0 ==> Counts(r, 0, active, backlog + 1)
  {
    DispatchCounts(s, TwoManagers, Name, High, 5, 0);
    assert Junior !in AssignmentOrder(High) && Senior !in AssignmentOrder(High);
    r := DispatchHigh(s);
  }

  /**
   * `test_dispatch_call`: with two Managers and no Director, five
   * high-priority calls leave two active and three in the backlog, and
   * the two Juniors and two Seniors are all still free.
   */
  lemma FiveHighDispatches() returns (r: State)
    ensures ConfigOk(TwoManagers) && WellFormed(Initial(TwoManagers))
    ensures r == DispatchHigh(DispatchHigh(DispatchHigh(DispatchHigh(DispatchHigh(Initial(TwoManagers))))))
    ensures |r.active| == 2 && |r.backlog| == 3
    ensures CountFree(r.employees[Junior]) == 2 && CountFree(r.employees[Senior]) == 2
  {
    hide Initial, InitialRegistry, Batch, FreeIn, CountFree, AssignmentOrder, Dispatch, DispatchHigh, Counts, WellFormed;
    TwoManagersStart();
    var s0 := Initial(TwoManagers);
    var s1 := HighCount(s0, 2, 0, 0);
    var s2 := HighCount(s1, 1, 1, 0);
    var s3 := HighCount(s2, 0, 2, 0);
    var s4 := HighCount(s3, 0, 2, 1);
    r := HighCount(s4, 0, 2, 2);
    CountsMeaning(r, 0, 2, 3);
  }
}
