/** CallCentreConfig and the registry the centre builds from it (call_centre.py:10-53, 120-135). */
module Configs {
  import opened Wrappers
  import opened Employees
  import opened Registries

  datatype Config = Config(
    juniors: int,
    seniors: int,
    managers: int,
    directors: int,
    maxCallDurationSec: int,
    callEscalationProb: real)

  /** Both checks of `__post_init__` raise ValueError; the two kinds keep its two messages apart. */
  datatype ConfigError = ProbabilityOutOfRange | NegativeStaffCount

  /** What `__post_init__` accepts. `max_call_duration_sec` is not checked there. */
  predicate ConfigOk(c: Config)
  {
    && 0.0 <= c.callEscalationProb <= 1.0
    && c.juniors >= 0 && c.seniors >= 0 && c.managers >= 0 && c.directors >= 0
  }

  /**
   * Building a CallCentreConfig (call_centre.py:19-30). The probability is
   * checked first, then the staff counts (the source tests `juniors` twice);
   * on either failure no configuration, and so no centre, exists.
   */
  function NewConfig(juniors: int, seniors: int, managers: int, directors: int,
                     maxCallDurationSec: int, callEscalationProb: real): (r: Result<Config, ConfigError>)
    ensures r.Success? <==>
              0.0 <= callEscalationProb <= 1.0 && juniors >= 0 && seniors >= 0 && managers >= 0 && directors >= 0
    ensures r.Success? ==>
              r.value == Config(juniors, seniors, managers, directors, maxCallDurationSec, callEscalationProb)
              && ConfigOk(r.value)
    ensures !(0.0 <= callEscalationProb <= 1.0) ==> r == Failure(ProbabilityOutOfRange)
    ensures 0.0 <= callEscalationProb <= 1.0 && r.Failure? ==> r.error == NegativeStaffCount
  {
    if !(0.0 <= callEscalationProb <= 1.0) then Failure(ProbabilityOutOfRange)
    else if juniors < 0 || juniors < 0 || seniors < 0 || managers < 0 || directors < 0 then
      Failure(NegativeStaffCount)
    else Success(Config(juniors, seniors, managers, directors, maxCallDurationSec, callEscalationProb))
  }

  function TierSize(c: Config, t: Seniority): int
  {
    match t
    case Junior => c.juniors
    case Senior => c.seniors
    case Manager => c.managers
    case Director => c.directors
  }

  /**
   * The registry `CallCentre.__init__` builds: one `_create_employees_batch`
   * per tier, in tier order, every employee free, uids counted on across tiers.
   */
  function InitialRegistry(c: Config): (reg: Registry)
    requires ConfigOk(c)
    ensures TiersPresent(reg)
  {
    var j, s, m := c.juniors, c.seniors, c.managers;
    var reg := map[Junior := Batch(Junior, 0, j, true),
        Senior := Batch(Senior, j, s, true),
        Manager := Batch(Manager, j + s, m, true),
        Director := Batch(Director, j + s + m, c.directors, true)];
    TiersPresentIntro(reg);
    reg
  }

  /** The initial registry as the dictionary display `__init__` writes. */
  lemma InitialRegistryDisplay(c: Config)
    requires ConfigOk(c)
    ensures InitialRegistry(c)
            == map[Junior := Batch(Junior, 0, c.juniors, true),
                   Senior := Batch(Senior, c.juniors, c.seniors, true),
                   Manager := Batch(Manager, c.juniors + c.seniors, c.managers, true),
                   Director := Batch(Director, c.juniors + c.seniors + c.managers, c.directors, true)]
  {
  }

  /**
   * After construction each tier holds the configured number of employees,
   * all free, and uids are 0 .. total-1, consecutive in tier order.
   */
  lemma InitialRegistryShape(c: Config)
    requires ConfigOk(c)
    ensures Layout(InitialRegistry(c))
    ensures forall t :: |InitialRegistry(c)[t]| == TierSize(c, t)
    ensures forall t, i :: 0 <= i < |InitialRegistry(c)[t]| ==> InitialRegistry(c)[t][i].isFree
    ensures TotalStaff(InitialRegistry(c)) == c.juniors + c.seniors + c.managers + c.directors
    ensures NumFree(InitialRegistry(c)) == TotalStaff(InitialRegistry(c))
    ensures forall k :: 0 <= k < |Roster(InitialRegistry(c))| ==> Roster(InitialRegistry(c))[k].uid == k
  {
    var reg := InitialRegistry(c);
    InitialTiers(c);
    forall t ensures CountFree(reg[t]) == |reg[t]| {
      AllFreeCount(reg[t]);
    }
    assert Layout(reg) by {
      forall t, i | 0 <= i < |reg[t]|
        ensures reg[t][i].seniority == t && reg[t][i].uid == Offset(reg, t) + i
      {
        InitialSlot(c, t, i);
      }
    }
    RosterUids(reg);
  }

  /** Each tier of the initial registry is the batch built for it. */
  lemma InitialTiers(c: Config)
    requires ConfigOk(c)
    ensures forall t :: InitialRegistry(c)[t] == Batch(t, Offset(InitialRegistry(c), t), TierSize(c, t), true)
  {
    hide Batch;
    var reg := InitialRegistry(c);
    forall t ensures reg[t] == Batch(t, Offset(reg, t), TierSize(c, t), true) {
      match t
      case Junior =>
      case Senior =>
      case Manager =>
      case Director =>
    }
  }

  /** One slot of the initial registry: its tier and its uid. */
  lemma InitialSlot(c: Config, t: Seniority, i: nat)
    requires ConfigOk(c) && i < |InitialRegistry(c)[t]|
    ensures InitialRegistry(c)[t][i].seniority == t
    ensures InitialRegistry(c)[t][i].uid == Offset(InitialRegistry(c), t) + i
  {
    InitialTiers(c);
  }

  /** A tier whose employees are all free counts all of them. */
  lemma {:induction false} AllFreeCount(staff: seq<Employee>)
    requires forall i :: 0 <= i < |staff| ==> staff[i].isFree
    ensures CountFree(staff) == |staff|
  {
    if staff != [] {
      AllFreeCount(staff[..|staff| - 1]);
    }
  }
}
