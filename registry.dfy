/**
 * The employee registry of call_centre.py: a dictionary from seniority tier to
 * the tier's employees in creation order. A call refers to its employee by a
 * Handle (tier and position), the model's form of Python's shared reference.
 */
module Registries {
  import opened Employees

  type Registry = map<Seniority, seq<Employee>>

  /** A non-owning reference to one registry slot. */
  datatype Handle = Handle(tier: Seniority, index: nat)

  /** The registry has an entry for every tier (call_centre.py:40-53). */
  predicate TiersPresent(reg: Registry)
  {
    forall t: Seniority :: t in reg
  }

  /** A registry with the four tier entries has an entry for every tier. */
  lemma TiersPresentIntro(reg: Registry)
    requires Junior in reg && Senior in reg && Manager in reg && Director in reg
    ensures TiersPresent(reg)
  {
    forall t: Seniority ensures t in reg {
      match t
      case Junior =>
      case Senior =>
      case Manager =>
      case Director =>
    }
  }

  predicate ValidHandle(reg: Registry, h: Handle)
  {
    h.tier in reg && h.index < |reg[h.tier]|
  }

  function At(reg: Registry, h: Handle): Employee
    requires ValidHandle(reg, h)
  {
    reg[h.tier][h.index]
  }

  /** Two registries hold the same people: same tiers, sizes, seniorities and uids. */
  predicate SameStaff(a: Registry, b: Registry)
  {
    && a.Keys == b.Keys
    && forall t :: t in a ==>
         && |a[t]| == |b[t]|
         && forall i :: 0 <= i < |a[t]| ==>
              a[t][i].seniority == b[t][i].seniority && a[t][i].uid == b[t][i].uid
  }

  lemma SameStaffHandles(a: Registry, b: Registry, h: Handle)
    requires SameStaff(a, b)
    ensures ValidHandle(a, h) <==> ValidHandle(b, h)
  {
  }

  /**
   * Writes one employee's `is_free` flag (call.py:73 and call.py:85): the
   * staff stay the same people and no other flag changes.
   */
  function SetFree(reg: Registry, h: Handle, free: bool): (r: Registry)
    requires ValidHandle(reg, h)
    ensures SameStaff(reg, r)
    ensures TiersPresent(reg) ==> TiersPresent(r)
    ensures ValidHandle(r, h) && At(r, h).isFree == free
    ensures forall g :: ValidHandle(reg, g) && g != h ==> ValidHandle(r, g) && At(r, g) == At(reg, g)
  {
    reg[h.tier := reg[h.tier][h.index := reg[h.tier][h.index].(isFree := free)]]
  }

  function Indicator(b: bool): nat
  {
    if b then 1 else 0
  }

  /** The number of free employees in one tier, counted front to back. */
  function CountFree(staff: seq<Employee>): (n: nat)
    ensures n <= |staff|
  {
    if staff == [] then 0
    else CountFree(staff[..|staff| - 1]) + Indicator(staff[|staff| - 1].isFree)
  }

  /** The positions of the free employees of one tier. */
  ghost function FreePositions(staff: seq<Employee>): set<nat>
  {
    set i | 0 <= i < |staff| && staff[i].isFree
  }

  /** CountFree counts exactly the employees whose flag is set. */
  lemma {:induction false} CountFreeIsCardinality(staff: seq<Employee>)
    ensures CountFree(staff) == |FreePositions(staff)|
  {
    if staff != [] {
      var n := |staff| - 1;
      var front := staff[..n];
      CountFreeIsCardinality(front);
      assert FreePositions(front) == set i | 0 <= i < n && staff[i].isFree;
      if staff[n].isFree {
        assert FreePositions(staff) == FreePositions(front) + {n};
      } else {
        assert FreePositions(staff) == FreePositions(front);
      }
    }
  }

  /** Flipping one flag changes the count by exactly that flag's change. */
  lemma {:induction false} CountFreeUpdate(staff: seq<Employee>, i: nat, e: Employee)
    requires i < |staff|
    ensures CountFree(staff[i := e])
            == CountFree(staff) - Indicator(staff[i].isFree) + Indicator(e.isFree)
  {
    var n := |staff| - 1;
    if i == n {
      assert staff[i := e][..n] == staff[..n];
    } else {
      assert staff[i := e][..n] == staff[..n][i := e];
      CountFreeUpdate(staff[..n], i, e);
    }
  }

  /** `free_staff`: the free employees of all tiers (call_centre.py:150-157). */
  function NumFree(reg: Registry): nat
    requires TiersPresent(reg)
  {
    CountFree(reg[Junior]) + CountFree(reg[Senior]) + CountFree(reg[Manager]) + CountFree(reg[Director])
  }

  /** The whole staff of the centre. */
  function TotalStaff(reg: Registry): nat
    requires TiersPresent(reg)
  {
    |reg[Junior]| + |reg[Senior]| + |reg[Manager]| + |reg[Director]|
  }

  /** The free employees of the tiers in `tiers`, as an accumulator over them sees them. */
  function FreeIn(reg: Registry, tiers: seq<Seniority>): nat
    requires TiersPresent(reg)
  {
    if tiers == [] then 0
    else FreeIn(reg, tiers[..|tiers| - 1]) + CountFree(reg[tiers[|tiers| - 1]])
  }

  lemma FreeInAllTiers(reg: Registry)
    requires TiersPresent(reg)
    ensures FreeIn(reg, AllTiers) == NumFree(reg)
  {
    var t1, t2, t3 := [Junior], [Junior, Senior], [Junior, Senior, Manager];
    assert t1[..0] == [] && t2[..1] == t1 && t3[..2] == t2 && AllTiers[..3] == t3;
    assert FreeIn(reg, t1) == CountFree(reg[Junior]);
    assert FreeIn(reg, t2) == FreeIn(reg, t1) + CountFree(reg[Senior]);
    assert FreeIn(reg, t3) == FreeIn(reg, t2) + CountFree(reg[Manager]);
  }

  /** A tier counts no free employee exactly when all of its employees are busy. */
  lemma {:induction false} CountFreeZero(staff: seq<Employee>)
    ensures CountFree(staff) == 0 <==> forall i :: 0 <= i < |staff| ==> !staff[i].isFree
  {
    if staff != [] {
      var n := |staff| - 1;
      CountFreeZero(staff[..n]);
      assert forall i :: 0 <= i < n ==> staff[..n][i] == staff[i];
    }
  }

  /** The tiers of `tiers` count no free employee exactly when all of their employees are busy. */
  lemma {:induction false} FreeInZero(reg: Registry, tiers: seq<Seniority>)
    requires TiersPresent(reg)
    ensures FreeIn(reg, tiers) == 0 <==> forall g :: ValidHandle(reg, g) && g.tier in tiers ==> !At(reg, g).isFree
  {
    if tiers != [] {
      var n := |tiers| - 1;
      var last := tiers[n];
      FreeInZero(reg, tiers[..n]);
      CountFreeZero(reg[last]);
      assert forall t :: t in tiers <==> t in tiers[..n] || t == last;
      if FreeIn(reg, tiers) != 0 {
        if CountFree(reg[last]) != 0 {
          var i :| 0 <= i < |reg[last]| && reg[last][i].isFree;
          assert ValidHandle(reg, Handle(last, i)) && At(reg, Handle(last, i)).isFree;
        }
      } else {
        forall g | ValidHandle(reg, g) && g.tier in tiers ensures !At(reg, g).isFree {
          if g.tier == last {
            assert !reg[last][g.index].isFree;
          }
        }
      }
    }
  }

  /**
   * Making one free employee busy takes one from the free count of a list
   * of distinct tiers holding its tier, and nothing from one that does not.
   */
  lemma {:induction false} FreeInBusy(reg: Registry, tiers: seq<Seniority>, h: Handle)
    requires TiersPresent(reg) && ValidHandle(reg, h) && At(reg, h).isFree
    requires forall i, j :: 0 <= i < j < |tiers| ==> tiers[i] != tiers[j]
    ensures TiersPresent(SetFree(reg, h, false))
    ensures FreeIn(SetFree(reg, h, false), tiers) == FreeIn(reg, tiers) - Indicator(h.tier in tiers)
  {
    var r := SetFree(reg, h, false);
    if tiers != [] {
      var n := |tiers| - 1;
      var last := tiers[n];
      FreeInBusy(reg, tiers[..n], h);
      assert forall t :: t in tiers <==> t in tiers[..n] || t == last;
      if last == h.tier {
        assert h.tier !in tiers[..n];
        CountFreeUpdate(reg[last], h.index, reg[last][h.index].(isFree := false));
      } else {
        assert r[last] == reg[last];
      }
    }
  }

  /** Setting one flag moves the free count by that flag's change; the staff size stays. */
  lemma NumFreeUpdate(reg: Registry, h: Handle, free: bool)
    requires TiersPresent(reg) && ValidHandle(reg, h)
    ensures TiersPresent(SetFree(reg, h, free))
    ensures NumFree(SetFree(reg, h, free))
            == NumFree(reg) - Indicator(At(reg, h).isFree) + Indicator(free)
    ensures TotalStaff(SetFree(reg, h, free)) == TotalStaff(reg)
  {
    hide CountFree;
    var r := SetFree(reg, h, free);
    CountFreeUpdate(reg[h.tier], h.index, reg[h.tier][h.index].(isFree := free));
    assert r[h.tier] == reg[h.tier][h.index := reg[h.tier][h.index].(isFree := free)];
    assert forall t :: t != h.tier ==> r[t] == reg[t];
    match h.tier
    case Junior =>
      assert r[Senior] == reg[Senior] && r[Manager] == reg[Manager] && r[Director] == reg[Director];
    case Senior =>
      assert r[Junior] == reg[Junior] && r[Manager] == reg[Manager] && r[Director] == reg[Director];
    case Manager =>
      assert r[Junior] == reg[Junior] && r[Senior] == reg[Senior] && r[Director] == reg[Director];
    case Director =>
      assert r[Junior] == reg[Junior] && r[Senior] == reg[Senior] && r[Manager] == reg[Manager];
  }

  // ---- construction layout (call_centre.py:36-53, 120-135) ----

  /**
   * The employees `_create_employees_batch` makes: `count` employees of one
   * tier, all with the same flag, uids consecutive from `start`.
   */
  function Batch(seniority: Seniority, start: nat, count: nat, isFree: bool): (r: seq<Employee>)
    ensures |r| == count
    ensures forall i :: 0 <= i < count ==> r[i] == Employee(seniority, start + i, isFree)
  {
    if count == 0 then []
    else Batch(seniority, start, count - 1, isFree) + [Employee(seniority, start + count - 1, isFree)]
  }

  /** The first uid of each tier when uids are handed out in tier order. */
  function Offset(reg: Registry, t: Seniority): nat
    requires TiersPresent(reg)
  {
    match t
    case Junior => 0
    case Senior => |reg[Junior]|
    case Manager => |reg[Junior]| + |reg[Senior]|
    case Director => |reg[Junior]| + |reg[Senior]| + |reg[Manager]|
  }

  /** Each slot holds an employee of its own tier whose uid is its global position. */
  predicate Layout(reg: Registry)
  {
    && TiersPresent(reg)
    && forall t, i :: 0 <= i < |reg[t]| ==>
         reg[t][i].seniority == t && reg[t][i].uid == Offset(reg, t) + i
  }

  /** All employees in tier order Junior, Senior, Manager, Director. */
  function Roster(reg: Registry): (r: seq<Employee>)
    requires TiersPresent(reg)
    ensures |r| == TotalStaff(reg)
  {
    reg[Junior] + reg[Senior] + reg[Manager] + reg[Director]
  }

  /** Under the layout, uids are 0 .. total-1 in roster order, so they are unique. */
  lemma RosterUids(reg: Registry)
    requires Layout(reg)
    ensures forall k :: 0 <= k < |Roster(reg)| ==> Roster(reg)[k].uid == k
    ensures forall k, l :: 0 <= k < l < |Roster(reg)| ==> Roster(reg)[k].uid != Roster(reg)[l].uid
  {
    var j, s, m := |reg[Junior]|, |reg[Senior]|, |reg[Manager]|;
    forall k | 0 <= k < |Roster(reg)| ensures Roster(reg)[k].uid == k {
      if k < j {
        assert Roster(reg)[k] == reg[Junior][k];
      } else if k < j + s {
        assert Roster(reg)[k] == reg[Senior][k - j];
      } else if k < j + s + m {
        assert Roster(reg)[k] == reg[Manager][k - j - s];
      } else {
        assert Roster(reg)[k] == reg[Director][k - j - s - m];
      }
    }
  }
}
