/** The staff member record of employee.py. */
module Employees {

  /** The four seniority tiers (employee.py:5-9), in the order the registry holds them. */
  datatype Seniority = Junior | Senior | Manager | Director

  /** The registry's tier order: the key order of the centre's `employees` dictionary. */
  const AllTiers: seq<Seniority> := [Junior, Senior, Manager, Director]

  /**
   * A staff member (employee.py:12-16). `seniority` and `uid` are fixed at
   * creation; `isFree` is the only field any operation rewrites.
   */
  datatype Employee = Employee(seniority: Seniority, uid: nat, isFree: bool)

  /** The position of a tier in AllTiers. */
  function TierRank(t: Seniority): (k: nat)
    ensures k < |AllTiers| && AllTiers[k] == t
  {
    match t
    case Junior => 0
    case Senior => 1
    case Manager => 2
    case Director => 3
  }

  /** TierRank inverts indexing into AllTiers. */
  lemma TierRankIndex(i: nat)
    requires i < |AllTiers|
    ensures TierRank(AllTiers[i]) == i
  {
  }

  /** Every tier appears in AllTiers exactly once. */
  lemma AllTiersComplete(t: Seniority)
    ensures t in AllTiers
    ensures |AllTiers| == 4
    ensures forall i, j :: 0 <= i < j < |AllTiers| ==> AllTiers[i] != AllTiers[j]
  {
  }
}
