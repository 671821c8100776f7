/**
 * The centre's two review passes (call_centre.py:68-90): ending expired
 * active calls, and retrying the backlog once in FIFO order.
 */
module Reviews {
  import opened Wrappers
  import opened Employees
  import opened Registries
  import opened Calls
  import opened Engine

  predicate Ascending(ps: seq<nat>)
  {
    forall i, j :: 0 <= i < j < |ps| ==> ps[i] < ps[j]
  }

  // ---- review_active_calls ----

  /** The call at position `p` of `active_calls`. */
  function CallAt(s: State, p: nat): (c: CallInfo)
    requires WellFormed(s) && p < |s.active|
    ensures s.active[p] < |s.calls| && c == s.calls[s.active[p]] && CallOk(s.employees, c)
  {
    assert s.active[p] in s.active;
    s.calls[s.active[p]]
  }

  lemma AscendingSnoc(ps: seq<nat>, q: nat)
    requires Ascending(ps) && forall p :: p in ps ==> p < q
    ensures Ascending(ps + [q]) && forall p :: p in ps + [q] ==> p <= q
  {
    forall i, j | 0 <= i < j < |ps + [q]| ensures (ps + [q])[i] < (ps + [q])[j] {
      if j == |ps| {
        assert (ps + [q])[i] == ps[i] && ps[i] in ps;
      } else {
        assert (ps + [q])[i] == ps[i] && (ps + [q])[j] == ps[j];
      }
    }
  }

  /**
   * The first loop of `review_active_calls` from position `ind` on: each of
   * the first `n` entries of `active_calls` that is expired is ended and its
   * position recorded. Ending only ever appends to the lists, so the first
   * `n` entries stay where they are. `draws[ind]` is the random draw the
   * call at `ind` would make if no decision is passed.
   */
  function Sweep(s: State, n: nat, ind: nat, inds: seq<nat>, now: int,
                 escalate: Option<bool>, draws: seq<bool>): (r: (State, seq<nat>))
    requires WellFormed(s) && ind <= n <= |s.active| && n <= |draws|
    requires Ascending(inds) && forall p :: p in inds ==> p < ind
    ensures WellFormed(r.0) && SameStaff(s.employees, r.0.employees) && |r.0.calls| == |s.calls|
    ensures s.active <= r.0.active && s.backlog <= r.0.backlog
    ensures Ascending(r.1) && inds <= r.1 && forall p :: p in r.1 ==> p < n
    decreases n - ind
  {
    if ind == n then (s, inds)
    else if Expired(CallAt(s, ind), now) then
      AscendingSnoc(inds, ind);
      Sweep(End(s, s.active[ind], escalate, draws[ind], now).value, n, ind + 1, inds + [ind], now, escalate, draws)
    else
      Sweep(s, n, ind + 1, inds, now, escalate, draws)
  }

  /** The sweep at an expired entry ends its call and records its position. */
  lemma SweepExpiredStep(s: State, n: nat, ind: nat, inds: seq<nat>, now: int,
                         escalate: Option<bool>, draws: seq<bool>)
    requires WellFormed(s) && ind < n <= |s.active| && n <= |draws|
    requires Ascending(inds) && (forall p :: p in inds ==> p < ind) && Expired(CallAt(s, ind), now)
    ensures End(s, s.active[ind], escalate, draws[ind], now).Success?
    ensures Ascending(inds + [ind]) && forall p :: p in inds + [ind] ==> p < ind + 1
    ensures var t := End(s, s.active[ind], escalate, draws[ind], now).value;
      && n <= |t.active|
      && Sweep(s, n, ind, inds, now, escalate, draws) == Sweep(t, n, ind + 1, inds + [ind], now, escalate, draws)
  {
    AscendingSnoc(inds, ind);
  }

  /** The sweep passes over an entry that has not expired. */
  lemma SweepLiveStep(s: State, n: nat, ind: nat, inds: seq<nat>, now: int,
                      escalate: Option<bool>, draws: seq<bool>)
    requires WellFormed(s) && ind < n <= |s.active| && n <= |draws|
    requires Ascending(inds) && (forall p :: p in inds ==> p < ind) && !Expired(CallAt(s, ind), now)
    ensures Sweep(s, n, ind, inds, now, escalate, draws) == Sweep(s, n, ind + 1, inds, now, escalate, draws)
  {
  }

  /** The sweep past the last entry it visits changes nothing more. */
  lemma SweepDone(s: State, n: nat, inds: seq<nat>, now: int, escalate: Option<bool>, draws: seq<bool>)
    requires WellFormed(s) && n <= |s.active| && n <= |draws|
    requires Ascending(inds) && forall p :: p in inds ==> p < n
    ensures Sweep(s, n, n, inds, now, escalate, draws) == (s, inds)
  {
  }

  /**
   * One `pop(ind)` per recorded position, from the highest down. The
   * positions are recorded in ascending order, so the source's
   * `sort(reverse=True)` visits them from the last one back.
   */
  function PopAll(xs: seq<CallId>, inds: seq<nat>): (r: seq<CallId>)
    requires Ascending(inds) && (inds != [] ==> inds[|inds| - 1] < |xs|)
    ensures |r| == |xs| - |inds|
    ensures forall x :: x in r ==> x in xs
    decreases |inds|
  {
    if inds == [] then xs
    else
      var i := inds[|inds| - 1];
      assert forall x :: x in RemoveAt(xs, i) ==> x in xs;
      assert |inds| > 1 ==> inds[|inds| - 2] < i;
      PopAll(RemoveAt(xs, i), inds[..|inds| - 1])
  }

  /**
   * `review_active_calls` (call_centre.py:68-84) with one clock reading `now`:
   * end every expired call among the entries present at entry, then remove
   * their positions back to front.
   */
  function ReviewActive(s: State, now: int, escalate: Option<bool>, draws: seq<bool>): (r: State)
    requires WellFormed(s) && |s.active| <= |draws|
    ensures WellFormed(r) && |r.calls| == |s.calls| && SameStaff(s.employees, r.employees)
    ensures s.backlog <= r.backlog
  {
    var (t, inds) := Sweep(s, |s.active|, 0, [], now, escalate, draws);
    assert inds != [] ==> inds[|inds| - 1] in inds;
    t.(active := PopAll(t.active, inds))
  }

  /** The entries of `xs` at positions not listed in `drop`, in their order. */
  function Keep(xs: seq<CallId>, drop: seq<nat>): (r: seq<CallId>)
    ensures |r| <= |xs|
  {
    if xs == [] then []
    else Keep(xs[..|xs| - 1], drop) + (if |xs| - 1 in drop then [] else [xs[|xs| - 1]])
  }

  /** The positions below `k` of `active_calls` whose calls are expired at `now`. */
  function ExpiredPositions(s: State, k: nat, now: int): (ps: seq<nat>)
    requires WellFormed(s) && k <= |s.active|
    ensures Ascending(ps)
    ensures forall p: nat :: p in ps <==> p < k && Expired(CallAt(s, p), now)
  {
    if k == 0 then []
    else
      var ps := ExpiredPositions(s, k - 1, now);
      AscendingSnoc(ps, k - 1);
      ps + (if Expired(CallAt(s, k - 1), now) then [k - 1] else [])
  }

  /** The active calls of `s`, in order, that are not expired at `now`. */
  function Survivors(s: State, k: nat, now: int): (r: seq<CallId>)
    requires WellFormed(s) && k <= |s.active|
    ensures forall x :: x in r ==> x in s.active[..k] && x < |s.calls| && !Expired(s.calls[x], now)
  {
    if k == 0 then []
    else
      assert s.active[k - 1] in s.active;
      Survivors(s, k - 1, now) + (if Expired(CallAt(s, k - 1), now) then [] else [s.active[k - 1]])
  }

  lemma {:induction false} SurvivorsComplete(s: State, k: nat, now: int, p: nat)
    requires WellFormed(s) && p < k <= |s.active| && !Expired(CallAt(s, p), now)
    ensures s.active[p] in Survivors(s, k, now)
  {
    var last := if Expired(CallAt(s, k - 1), now) then [] else [s.active[k - 1]];
    assert Survivors(s, k, now) == Survivors(s, k - 1, now) + last;
    if p < k - 1 {
      SurvivorsComplete(s, k - 1, now, p);
    } else {
      assert last == [s.active[p]];
    }
  }

  lemma {:induction false} KeepNone(xs: seq<CallId>)
    ensures Keep(xs, []) == xs
  {
    if xs != [] {
      KeepNone(xs[..|xs| - 1]);
    }
  }

  /** Keep looks only at the listed positions that exist. */
  lemma {:induction false} KeepAgree(xs: seq<CallId>, d1: seq<nat>, d2: seq<nat>)
    requires forall p :: 0 <= p < |xs| ==> (p in d1 <==> p in d2)
    ensures Keep(xs, d1) == Keep(xs, d2)
  {
    if xs != [] {
      KeepAgree(xs[..|xs| - 1], d1, d2);
    }
  }

  /** When nothing at or after `c` is dropped, the tail from `c` on is kept whole. */
  lemma {:induction false} KeepSplit(xs: seq<CallId>, drop: seq<nat>, c: nat)
    requires c <= |xs| && forall p :: p in drop ==> p < c
    ensures Keep(xs, drop) == Keep(xs[..c], drop) + xs[c..]
    decreases |xs| - c
  {
    if c < |xs| {
      var n := |xs| - 1;
      KeepSplit(xs[..n], drop, c);
      assert xs[..n][..c] == xs[..c];
      assert xs[..n][c..] + [xs[n]] == xs[c..];
    } else {
      assert xs[..c] == xs;
    }
  }

  /** Keeping the entries not at expired positions is keeping the survivors. */
  lemma {:induction false} KeepExpiredIsSurvivors(s: State, k: nat, now: int)
    requires WellFormed(s) && k <= |s.active|
    ensures Keep(s.active[..k], ExpiredPositions(s, k, now)) == Survivors(s, k, now)
  {
    hide Expired;
    if k > 0 {
      KeepExpiredIsSurvivors(s, k - 1, now);
      assert s.active[..k][..k - 1] == s.active[..k - 1];
      KeepAgree(s.active[..k - 1], ExpiredPositions(s, k, now), ExpiredPositions(s, k - 1, now));
    }
  }

  /** A listed position is dropped. */
  lemma KeepDropsListed(xs: seq<CallId>, drop: seq<nat>, i: nat)
    requires i < |xs| && i in drop
    ensures Keep(xs[..i + 1], drop) == Keep(xs[..i], drop)
  {
    assert xs[..i + 1][..i] == xs[..i];
  }

  lemma ConcatAssoc<T>(a: seq<T>, b: seq<T>, c: seq<T>)
    ensures a + (b + c) == a + b + c
  {
  }

  /** What a prefix-extended list holds past the entry list. */
  lemma PrefixTail<T>(e: seq<T>, a: seq<T>, b: seq<T>)
    requires e <= a <= b
    ensures b[|e|..] == a[|e|..] + b[|a|..]
  {
    assert b[..|a|] == a;
    assert b[|e|..] == b[..|a|][|e|..] + b[|a|..];
  }

  lemma SliceJoin<T>(xs: seq<T>, j: nat, m: nat)
    requires j <= m <= |xs|
    ensures xs[..m][j..] + xs[m..] == xs[j..]
  {
    assert xs[..m][j..] == xs[j..m];
  }

  /** In an ascending list the last entry bounds every other one. */
  lemma LastBounds(ps: seq<nat>)
    requires ps != [] && Ascending(ps)
    ensures forall p :: p in ps ==> p < ps[|ps| - 1] + 1
    ensures forall p :: 0 <= p < ps[|ps| - 1] ==> (p in ps <==> p in ps[..|ps| - 1])
  {
    var i := ps[|ps| - 1];
    forall p | p in ps ensures p < i + 1 {
      var j :| 0 <= j < |ps| && ps[j] == p;
      assert j < |ps| - 1 ==> ps[j] < ps[|ps| - 1];
    }
    forall p | 0 <= p < i ensures p in ps <==> p in ps[..|ps| - 1] {
      if p in ps {
        var j :| 0 <= j < |ps| && ps[j] == p;
        assert j != |ps| - 1;
        assert ps[..|ps| - 1][j] == p;
      }
    }
  }

  /** Keeping around a dropped position `i` that bounds every dropped one. */
  lemma KeepAroundLast(xs: seq<CallId>, ps: seq<nat>, m: nat, i: nat, front: seq<nat>)
    requires i < m <= |xs| && i in ps
    requires forall p :: p in ps ==> p < i + 1
    requires forall p :: 0 <= p < i ==> (p in ps <==> p in front)
    ensures Keep(xs[..m], ps) + xs[m..] == Keep(xs[..i], front) + xs[i + 1..]
  {
    var a := xs[..m];
    KeepSplit(a, ps, i + 1);
    assert a[..i + 1] == xs[..i + 1];
    KeepDropsListed(xs, ps, i);
    KeepAgree(xs[..i], ps, front);
    SliceJoin(xs, i + 1, m);
  }

  /**
   * Removing ascending positions, each below `m`, from the highest down
   * keeps every other entry before `m` in order and the rest untouched.
   */
  lemma {:induction false} PopAllKeeps(xs: seq<CallId>, ps: seq<nat>, m: nat)
    requires Ascending(ps) && m <= |xs| && forall i :: 0 <= i < |ps| ==> ps[i] < m
    ensures PopAll(xs, ps) == Keep(xs[..m], ps) + xs[m..]
    decreases |ps|
  {
    if ps == [] {
      KeepNone(xs[..m]);
    } else {
      var i := ps[|ps| - 1];
      var front := ps[..|ps| - 1];
      var ys := RemoveAt(xs, i);
      PopAllKeeps(ys, front, i);
      assert ys[..i] == xs[..i];
      assert ys[i..] == xs[i + 1..];
      LastBounds(ps);
      KeepAroundLast(xs, ps, m, i, front);
    }
  }

  /** Ending a call acts on the active list only by appending to it. */
  lemma ReleaseFrame(s: State, q: seq<CallId>, id: CallId, escalate: bool, now: int)
    requires WellFormed(s) && id < |s.calls| && s.calls[id].assignedTo.Some?
    requires forall x :: x in q ==> x < |s.calls|
    ensures WellFormed(s.(active := q))
    ensures var r := Release(s, id, escalate, now);
            Release(s.(active := q), id, escalate, now) == r.(active := q + r.active[|s.active|..])
  {
  }

  /** The state with the entries already ended taken out of `active_calls`. */
  function Clean(entry: seq<CallId>, s: State, inds: seq<nat>): State
    requires |entry| <= |s.active|
  {
    s.(active := Keep(entry, inds) + s.active[|entry|..])
  }

  /** `x` was an expired low-priority active call and is now a high-priority one. */
  ghost predicate Escalated(s0: State, s: State, x: CallId, now: int)
  {
    && WellFormed(s0) && x in s0.active && x < |s0.calls| && x < |s.calls|
    && Expired(s0.calls[x], now)
    && s0.calls[x].priority == Low && s.calls[x].priority == High
  }

  /**
   * How a sweep state relates to the entry state `s0`: the entries present
   * at entry keep their positions; calls not yet ended are untouched;
   * whatever was appended to either list is an expired call of the entry
   * list that was escalated.
   */
  ghost predicate SweepFrame(s0: State, s: State, ind: nat, inds: seq<nat>, now: int)
  {
    && WellFormed(s0) && WellFormed(s) && ind <= |s0.active|
    && s0.active <= s.active && s0.backlog <= s.backlog && |s.calls| == |s0.calls|
    && inds == ExpiredPositions(s0, ind, now)
    && (forall p :: 0 <= p < |s0.active| && p !in inds ==> CallAt(s, p) == CallAt(s0, p))
    && (forall x :: x in s.active[|s0.active|..] ==> Escalated(s0, s, x, now))
    && (forall x :: x in s.backlog[|s0.backlog|..] ==> Escalated(s0, s, x, now))
  }

  /** The sweep invariant: its frame, and the cleaned state is valid. */
  ghost predicate SweepInv(s0: State, s: State, ind: nat, inds: seq<nat>, now: int)
  {
    SweepFrame(s0, s, ind, inds, now) && Distinct(s0.active) && Valid(Clean(s0.active, s, inds))
  }

  /** Dropping one more position, `ind`, above all those dropped so far. */
  lemma KeepNext(xs: seq<CallId>, inds: seq<nat>, ind: nat)
    requires ind < |xs| && forall p :: p in inds ==> p < ind
    ensures Keep(xs, inds) == Keep(xs[..ind], inds) + [xs[ind]] + xs[ind + 1..]
    ensures Keep(xs, inds + [ind]) == Keep(xs[..ind], inds) + xs[ind + 1..]
  {
    KeepSplit(xs, inds, ind);
    assert xs[ind..] == [xs[ind]] + xs[ind + 1..];
    var e := inds + [ind];
    KeepSplit(xs, e, ind + 1);
    KeepDropsListed(xs, e, ind);
    KeepAgree(xs[..ind], e, inds);
  }

  lemma RemoveAtJoin(f: seq<CallId>, x: CallId, rest: seq<CallId>, tail: seq<CallId>)
    ensures (f + [x] + rest + tail)[|f|] == x
    ensures RemoveAt(f + [x] + rest + tail, |f|) == f + rest + tail
  {
    var xs := f + [x] + rest + tail;
    assert xs[..|f|] == f;
    assert xs[|f| + 1..] == rest + tail;
  }

  /** The entries of the cleaned list around the call at `ind`. */
  lemma CleanAround(entry: seq<CallId>, act: seq<CallId>, ind: nat, inds: seq<nat>)
    requires ind < |entry| && entry <= act && forall p :: p in inds ==> p < ind
    ensures var front := Keep(entry[..ind], inds);
            var cleaned := Keep(entry, inds) + act[|entry|..];
      && |front| < |cleaned| && cleaned[|front|] == act[ind]
      && RemoveAt(cleaned, |front|) == Keep(entry, inds + [ind]) + act[|entry|..]
  {
    KeepNext(entry, inds, ind);
    RemoveAtJoin(Keep(entry[..ind], inds), entry[ind], entry[ind + 1..], act[|entry|..]);
  }

  /**
   * Ending the call at `ind` keeps the cleaned state valid: it is the same
   * as taking the call out of the cleaned list and ending it there.
   */
  lemma CleanRelease(entry: seq<CallId>, s: State, ind: nat, inds: seq<nat>, d: bool, now: int)
    requires WellFormed(s) && ind < |entry| && entry <= s.active
    requires forall p :: p in inds ==> p < ind
    requires Valid(Clean(entry, s, inds))
    ensures s.active[ind] < |s.calls| && s.calls[s.active[ind]].assignedTo.Some?
    ensures Valid(Clean(entry, Release(s, s.active[ind], d, now), inds + [ind]))
  {
    var id := s.active[ind];
    var clean := Clean(entry, s, inds);
    var pos := |Keep(entry[..ind], inds)|;
    CleanAround(entry, s.active, ind, inds);
    RetireValid(clean, pos, d, now);
    var q := Keep(entry, inds + [ind]) + s.active[|entry|..];
    assert clean.(active := RemoveAt(clean.active, pos)) == s.(active := q);
    ReleaseFrame(s, q, id, d, now);
    var s1 := Release(s, id, d, now);
    PrefixTail(entry, s.active, s1.active);
    ConcatAssoc(Keep(entry, inds + [ind]), s.active[|entry|..], s1.active[|s.active|..]);
    assert Clean(entry, s1, inds + [ind]).active == Release(s.(active := q), id, d, now).active;
  }

  /** Ending a call appends at most that call itself, and only when it escalates. */
  lemma ReleaseAppends(s: State, id: CallId, escalate: bool, now: int)
    requires WellFormed(s) && id < |s.calls| && s.calls[id].assignedTo.Some?
    ensures var r := Release(s, id, escalate, now);
      || (r.active == s.active && r.backlog == s.backlog)
      || (&& s.calls[id].priority == Low && r.calls[id].priority == High
          && ((r.active == s.active + [id] && r.backlog == s.backlog)
              || (r.active == s.active && r.backlog == s.backlog + [id])))
  {
  }

  lemma SnocTail<T>(a: seq<T>, x: T, n: nat)
    requires n <= |a|
    ensures (a + [x])[n..] == a[n..] + [x]
  {
  }

  /** Ending the call at `ind` touches no other call of the entry list. */
  lemma UntouchedRelease(s0: State, s: State, ind: nat, inds: seq<nat>, d: bool, now: int)
    requires WellFormed(s0) && WellFormed(s) && s0.active <= s.active && |s.calls| == |s0.calls|
    requires Distinct(s0.active) && ind < |s0.active|
    requires s.active[ind] < |s.calls| && s.calls[s.active[ind]].assignedTo.Some?
    requires forall p :: 0 <= p < |s0.active| && p !in inds ==> CallAt(s, p) == CallAt(s0, p)
    ensures var s1 := Release(s, s.active[ind], d, now);
      && WellFormed(s1) && s0.active <= s1.active
      && forall p :: 0 <= p < |s0.active| && p !in inds + [ind] ==> CallAt(s1, p) == CallAt(s0, p)
  {
    var id := s0.active[ind];
    assert s.active[ind] == id;
    var s1 := Release(s, id, d, now);
    forall p | 0 <= p < |s0.active| && p !in inds + [ind]
      ensures CallAt(s1, p) == CallAt(s0, p)
    {
      var x := s0.active[p];
      assert x != id && x in s0.active;
      assert s.active[p] == x && s1.active[p] == x;
      assert CallAt(s, p) == CallAt(s0, p);
      assert s1.calls[x] == s.calls[x];
    }
  }

  /** Ending the expired call at `ind` appends, if anything, that call escalated. */
  lemma AppendedRelease(s0: State, s: State, ind: nat, d: bool, now: int)
    requires WellFormed(s0) && WellFormed(s) && s0.active <= s.active && s0.backlog <= s.backlog
    requires |s.calls| == |s0.calls| && ind < |s0.active|
    requires s.active[ind] < |s.calls| && s.calls[s.active[ind]].assignedTo.Some?
    requires CallAt(s, ind) == CallAt(s0, ind) && Expired(CallAt(s0, ind), now)
    requires forall x :: x in s.active[|s0.active|..] ==> Escalated(s0, s, x, now)
    requires forall x :: x in s.backlog[|s0.backlog|..] ==> Escalated(s0, s, x, now)
    ensures var s1 := Release(s, s.active[ind], d, now);
      && (forall x :: x in s1.active[|s0.active|..] ==> Escalated(s0, s1, x, now))
      && (forall x :: x in s1.backlog[|s0.backlog|..] ==> Escalated(s0, s1, x, now))
  {
    hide Release, Expired, FirstFree, WellFormed;
    var n := |s0.active|;
    var id := s0.active[ind];
    assert s.active[ind] == id;
    var s1 := Release(s, id, d, now);
    ReleaseAppends(s, id, d, now);
    forall x | x in s.active[n..] || x in s.backlog[|s0.backlog|..]
      ensures x != id && Escalated(s0, s1, x, now)
    {
      assert Escalated(s0, s, x, now);
    }
    if s1.active != s.active {
      SnocTail(s.active, id, n);
    }
    if s1.backlog != s.backlog {
      SnocTail(s.backlog, id, |s0.backlog|);
    }
  }

  /** Ending the call at `ind` keeps the sweep frame. */
  lemma FrameRelease(s0: State, s: State, ind: nat, inds: seq<nat>, d: bool, now: int)
    requires SweepFrame(s0, s, ind, inds, now) && Distinct(s0.active) && ind < |s0.active|
    requires Expired(CallAt(s0, ind), now) && s.active[ind] < |s.calls| && s.calls[s.active[ind]].assignedTo.Some?
    ensures SweepFrame(s0, Release(s, s.active[ind], d, now), ind + 1, inds + [ind], now)
  {
    assert ind !in inds;
    UntouchedRelease(s0, s, ind, inds, d, now);
    AppendedRelease(s0, s, ind, d, now);
  }

  /** Ending an expired entry keeps the sweep invariant. */
  lemma StepExpired(s0: State, s: State, ind: nat, inds: seq<nat>, d: bool, now: int)
    requires SweepInv(s0, s, ind, inds, now) && ind < |s0.active| && Expired(CallAt(s0, ind), now)
    ensures s.active[ind] < |s.calls| && s.calls[s.active[ind]].assignedTo.Some?
    ensures SweepInv(s0, Release(s, s.active[ind], d, now), ind + 1, inds + [ind], now)
  {
    CleanRelease(s0.active, s, ind, inds, d, now);
    FrameRelease(s0, s, ind, inds, d, now);
  }

  /** Passing over a live entry keeps the sweep invariant. */
  lemma StepLive(s0: State, s: State, ind: nat, inds: seq<nat>, now: int)
    requires SweepInv(s0, s, ind, inds, now) && ind < |s0.active| && !Expired(CallAt(s0, ind), now)
    ensures SweepInv(s0, s, ind + 1, inds, now)
  {
    assert ExpiredPositions(s0, ind + 1, now) == inds;
  }

  /** A valid state satisfies the sweep invariant before the first entry. */
  lemma SweepStart(s0: State, now: int)
    requires Valid(s0)
    ensures SweepInv(s0, s0, 0, [], now)
  {
    KeepNone(s0.active);
    assert Clean(s0.active, s0, []) == s0;
    assert s0.active[|s0.active|..] == [] && s0.backlog[|s0.backlog|..] == [];
  }

  /** One round of the sweep keeps its invariant. */
  lemma SweepAdvance(s0: State, s: State, ind: nat, inds: seq<nat>, now: int,
                     escalate: Option<bool>, draws: seq<bool>) returns (s1: State, inds1: seq<nat>)
    requires SweepInv(s0, s, ind, inds, now) && ind < |s0.active| <= |draws|
    requires Ascending(inds) && forall p :: p in inds ==> p < ind
    ensures SweepInv(s0, s1, ind + 1, inds1, now)
    ensures Ascending(inds1) && forall p :: p in inds1 ==> p < ind + 1
    ensures Sweep(s1, |s0.active|, ind + 1, inds1, now, escalate, draws)
            == Sweep(s, |s0.active|, ind, inds, now, escalate, draws)
    ensures Expired(CallAt(s0, ind), now) ==>
      && s.active[ind] < |s.calls| && s.calls[s.active[ind]].assignedTo.Some?
      && s1 == Release(s, s.active[ind], ShouldEscalate(escalate, draws[ind]), now)
    ensures !Expired(CallAt(s0, ind), now) ==> s1 == s
  {
    var n := |s0.active|;
    assert ind !in inds;
    assert CallAt(s, ind) == CallAt(s0, ind);
    if Expired(CallAt(s0, ind), now) {
      var d := ShouldEscalate(escalate, draws[ind]);
      StepExpired(s0, s, ind, inds, d, now);
      s1 := Release(s, s.active[ind], d, now);
      inds1 := inds + [ind];
      AscendingSnoc(inds, ind);
    } else {
      StepLive(s0, s, ind, inds, now);
      s1, inds1 := s, inds;
    }
  }

  /** The sweep keeps its invariant to the end, one position at a time. */
  lemma SweepRun(s0: State, now: int, escalate: Option<bool>, draws: seq<bool>)
    requires Valid(s0) && |s0.active| <= |draws|
    ensures var r := Sweep(s0, |s0.active|, 0, [], now, escalate, draws);
            SweepInv(s0, r.0, |s0.active|, r.1, now)
  {
    var n := |s0.active|;
    SweepStart(s0, now);
    var s, ind, inds: seq<nat> := s0, 0, [];
    while ind < n
      invariant ind <= n
      invariant SweepInv(s0, s, ind, inds, now)
      invariant Ascending(inds) && forall p :: p in inds ==> p < ind
      invariant Sweep(s, n, ind, inds, now, escalate, draws) == Sweep(s0, n, 0, [], now, escalate, draws)
      decreases n - ind
    {
      s, inds := SweepAdvance(s0, s, ind, inds, now, escalate, draws);
      ind := ind + 1;
    }
    assert Sweep(s, n, n, inds, now, escalate, draws) == (s, inds);
  }

  /** A call of the entry list that had not expired is untouched by the sweep. */
  lemma LiveUntouched(s0: State, s: State, inds: seq<nat>, now: int, p: nat)
    requires SweepFrame(s0, s, |s0.active|, inds, now)
    requires p < |s0.active| && !Expired(CallAt(s0, p), now)
    ensures s0.active[p] < |s0.calls| && s.calls[s0.active[p]] == s0.calls[s0.active[p]]
  {
    assert p !in inds;
    assert CallAt(s, p) == CallAt(s0, p);
    assert s.active[p] == s0.active[p];
  }

  /** The sweep of `review_active_calls` and the state it leaves once the ended calls are popped. */
  lemma SweepResult(s: State, now: int, escalate: Option<bool>, draws: seq<bool>)
    returns (t: State, inds: seq<nat>)
    requires Valid(s) && |s.active| <= |draws|
    ensures SweepInv(s, t, |s.active|, inds, now)
    ensures ReviewActive(s, now, escalate, draws) == Clean(s.active, t, inds)
    ensures Keep(s.active, inds) == Survivors(s, |s.active|, now)
    ensures (t, inds) == Sweep(s, |s.active|, 0, [], now, escalate, draws)
  {
    hide FirstFree;
    SweepRun(s, now, escalate, draws);
    var pair := Sweep(s, |s.active|, 0, [], now, escalate, draws);
    t, inds := pair.0, pair.1;
    PopAllSurvivors(s, t, inds, now);
  }

  /** Popping the recorded positions at the end of the sweep leaves the survivors in front. */
  lemma PopAllSurvivors(s: State, t: State, inds: seq<nat>, now: int)
    requires WellFormed(s) && s.active <= t.active && inds == ExpiredPositions(s, |s.active|, now)
    ensures Ascending(inds) && (inds != [] ==> inds[|inds| - 1] < |t.active|)
    ensures PopAll(t.active, inds) == Keep(s.active, inds) + t.active[|s.active|..]
    ensures Keep(s.active, inds) == Survivors(s, |s.active|, now)
  {
    hide Keep, PopAll, Survivors, Expired;
    var n := |s.active|;
    assert forall i :: 0 <= i < |inds| ==> inds[i] in inds;
    PopAllKeeps(t.active, inds, n);
    assert t.active[..n] == s.active;
    KeepExpiredIsSurvivors(s, n, now);
    assert s.active[..n] == s.active;
  }

  /**
   * `review_active_calls` on a valid state: the invariant holds afterwards;
   * the calls that had not expired stay active, untouched and in their
   * order, at the front; everything appended to either list is an expired
   * low-priority call that was escalated.
   */
  lemma ReviewActiveOutcome(s: State, now: int, escalate: Option<bool>, draws: seq<bool>)
    requires Valid(s) && |s.active| <= |draws|
    ensures var r := ReviewActive(s, now, escalate, draws);
            var live := Survivors(s, |s.active|, now);
      && Valid(r)
      && |r.calls| == |s.calls|
      && live <= r.active
      && (forall x :: x in s.active && !Expired(s.calls[x], now) ==> x in live && r.calls[x] == s.calls[x])
      && (forall x :: x in r.active[|live|..] ==> Escalated(s, r, x, now))
      && s.backlog <= r.backlog
      && (forall x :: x in r.backlog[|s.backlog|..] ==> Escalated(s, r, x, now))
  {
    hide Sweep, FirstFree;
    var n := |s.active|;
    var t, inds := SweepResult(s, now, escalate, draws);
    var r := ReviewActive(s, now, escalate, draws);
    var live := Survivors(s, n, now);
    assert r.active == live + t.active[n..];
    forall x | x in s.active && !Expired(s.calls[x], now) ensures x in live && r.calls[x] == s.calls[x] {
      var p :| 0 <= p < n && s.active[p] == x;
      SurvivorsComplete(s, n, now, p);
      LiveUntouched(s, t, inds, now, p);
    }
    assert r.active[|live|..] == t.active[n..];
  }

  /** Ending the call at entry position `p` escalates it: a low-priority call whose decision is to escalate. */
  predicate Escalates(s: State, p: nat, escalate: Option<bool>, draws: seq<bool>)
    requires WellFormed(s) && p < |s.active| && p < |draws|
  {
    CallAt(s, p).priority == Low && ShouldEscalate(escalate, draws[p])
  }

  /**
   * What ending the call at entry position `p` of `s0` has left in `s`: the
   * call is High if it escalated and keeps its priority otherwise, and an
   * escalated call is among those appended to either list.
   */
  ghost predicate EndedAs(s0: State, s: State, p: nat, escalate: Option<bool>, draws: seq<bool>)
  {
    && WellFormed(s0) && p < |s0.active| && p < |draws| && s0.active[p] < |s.calls|
    && |s0.active| <= |s.active| && |s0.backlog| <= |s.backlog|
    && s.calls[s0.active[p]].priority == (if Escalates(s0, p, escalate, draws) then High else CallAt(s0, p).priority)
    && (Escalates(s0, p, escalate, draws) ==> s0.active[p] in s.active[|s0.active|..] + s.backlog[|s0.backlog|..])
  }

  /** Every expired entry before `ind` has been ended as EndedAs says. */
  ghost predicate EndedBefore(s0: State, s: State, ind: nat, now: int, escalate: Option<bool>, draws: seq<bool>)
  {
    && WellFormed(s0) && ind <= |s0.active|
    && forall p :: 0 <= p < ind && Expired(CallAt(s0, p), now) ==> EndedAs(s0, s, p, escalate, draws)
  }

  /** What ending one call does to its priority and, when it escalates, to the lists. */
  lemma ReleasePriority(s: State, id: CallId, d: bool, now: int)
    requires WellFormed(s) && id < |s.calls| && s.calls[id].assignedTo.Some?
    ensures var r := Release(s, id, d, now);
      && r.calls[id].priority == (if s.calls[id].priority == Low && d then High else s.calls[id].priority)
      && (s.calls[id].priority == Low && d ==>
            || (r.active == s.active + [id] && r.backlog == s.backlog)
            || (r.active == s.active && r.backlog == s.backlog + [id]))
  {
    if s.calls[id].priority == Low && d {
      AssignOutcome(Raise(Unassign(s, id), id), id, now);
    }
  }

  /** A call found past position `n` of a list is still there once the list grows. */
  lemma TailGrows<T>(a: seq<T>, b: seq<T>, n: nat, x: T)
    requires a <= b && n <= |a| && x in a[n..]
    ensures x in b[n..]
  {
    var i :| 0 <= i < |a[n..]| && a[n..][i] == x;
    assert b[n..][i] == x;
  }

  /** A record EndedAs gave an entry survives a step that leaves that call alone and only appends. */
  lemma EndedAsKept(s0: State, s: State, s1: State, p: nat, escalate: Option<bool>, draws: seq<bool>)
    requires EndedAs(s0, s, p, escalate, draws)
    requires s.active <= s1.active && s.backlog <= s1.backlog
    requires s0.active[p] < |s1.calls| && s1.calls[s0.active[p]] == s.calls[s0.active[p]]
    ensures EndedAs(s0, s1, p, escalate, draws)
  {
    var x := s0.active[p];
    if Escalates(s0, p, escalate, draws) {
      if x in s.active[|s0.active|..] {
        TailGrows(s.active, s1.active, |s0.active|, x);
      } else {
        TailGrows(s.backlog, s1.backlog, |s0.backlog|, x);
      }
    }
  }

  /** Ending the untouched call at entry position `ind` gives it the record EndedAs describes. */
  lemma EndedAsHere(s0: State, s: State, ind: nat, now: int, escalate: Option<bool>, draws: seq<bool>)
    requires WellFormed(s0) && WellFormed(s) && ind < |s0.active| <= |draws|
    requires s0.active <= s.active && s0.backlog <= s.backlog && |s.calls| == |s0.calls|
    requires CallAt(s, ind) == CallAt(s0, ind) && CallAt(s0, ind).assignedTo.Some?
    ensures EndedAs(s0, Release(s, s.active[ind], ShouldEscalate(escalate, draws[ind]), now), ind, escalate, draws)
  {
    var id := s0.active[ind];
    assert s.active[ind] == id;
    var d := ShouldEscalate(escalate, draws[ind]);
    var s1 := Release(s, id, d, now);
    ReleasePriority(s, id, d, now);
    if Escalates(s0, ind, escalate, draws) {
      if s1.active == s.active + [id] {
        SnocTail(s.active, id, |s0.active|);
      } else {
        SnocTail(s.backlog, id, |s0.backlog|);
      }
    }
  }

  /** Ending (or passing over) the entry at `ind` records it in EndedBefore and keeps the earlier ones. */
  lemma EndedStep(s0: State, s: State, ind: nat, inds: seq<nat>, now: int,
                  escalate: Option<bool>, draws: seq<bool>)
    requires SweepInv(s0, s, ind, inds, now) && ind < |s0.active| <= |draws|
    requires EndedBefore(s0, s, ind, now, escalate, draws)
    ensures ind !in inds && CallAt(s, ind) == CallAt(s0, ind)
    ensures Expired(CallAt(s0, ind), now) ==>
      EndedBefore(s0, Release(s, s.active[ind], ShouldEscalate(escalate, draws[ind]), now), ind + 1, now, escalate, draws)
    ensures !Expired(CallAt(s0, ind), now) ==> EndedBefore(s0, s, ind + 1, now, escalate, draws)
  {
    hide FirstFree, Valid, Clean, Expired, ExpiredPositions, CallAt;
    assert ind !in inds;
    assert CallAt(s, ind) == CallAt(s0, ind);
    var id := s0.active[ind];
    assert s.active[ind] == id;
    if Expired(CallAt(s0, ind), now) {
      var s1 := Release(s, id, ShouldEscalate(escalate, draws[ind]), now);
      EndedAsHere(s0, s, ind, now, escalate, draws);
      hide EndedAs, Release;
      forall p | 0 <= p < ind + 1 && Expired(CallAt(s0, p), now)
        ensures EndedAs(s0, s1, p, escalate, draws)
      {
        if p < ind {
          assert s0.active[p] != id;
          EndedAsKept(s0, s, s1, p, escalate, draws);
        }
      }
    }
  }

  lemma EndedStart(s0: State, now: int, escalate: Option<bool>, draws: seq<bool>)
    requires WellFormed(s0)
    ensures EndedBefore(s0, s0, 0, now, escalate, draws)
  {
  }

  /** One round of the sweep keeps its invariant and records the entry it ended. */
  lemma EndedAdvance(s0: State, s: State, ind: nat, inds: seq<nat>, now: int,
                     escalate: Option<bool>, draws: seq<bool>) returns (s1: State, inds1: seq<nat>)
    requires SweepInv(s0, s, ind, inds, now) && ind < |s0.active| <= |draws|
    requires Ascending(inds) && forall p :: p in inds ==> p < ind
    requires EndedBefore(s0, s, ind, now, escalate, draws)
    ensures SweepInv(s0, s1, ind + 1, inds1, now)
    ensures EndedBefore(s0, s1, ind + 1, now, escalate, draws)
    ensures Ascending(inds1) && forall p :: p in inds1 ==> p < ind + 1
    ensures Sweep(s1, |s0.active|, ind + 1, inds1, now, escalate, draws)
            == Sweep(s, |s0.active|, ind, inds, now, escalate, draws)
  {
    hide Sweep, Release, FirstFree, SweepInv, EndedBefore;
    EndedStep(s0, s, ind, inds, now, escalate, draws);
    s1, inds1 := SweepAdvance(s0, s, ind, inds, now, escalate, draws);
  }

  /** The sweep ends every expired entry as EndedAs says, one position at a time. */
  lemma SweepRunEnded(s0: State, now: int, escalate: Option<bool>, draws: seq<bool>)
    requires Valid(s0) && |s0.active| <= |draws|
    ensures var r := Sweep(s0, |s0.active|, 0, [], now, escalate, draws);
            EndedBefore(s0, r.0, |s0.active|, now, escalate, draws)
  {
    var n := |s0.active|;
    SweepStart(s0, now);
    EndedStart(s0, now, escalate, draws);
    hide Sweep, Release, FirstFree, Expired, SweepInv, EndedBefore;
    var s, ind, inds: seq<nat> := s0, 0, [];
    while ind < n
      invariant ind <= n
      invariant SweepInv(s0, s, ind, inds, now)
      invariant EndedBefore(s0, s, ind, now, escalate, draws)
      invariant Ascending(inds) && forall p :: p in inds ==> p < ind
      invariant Sweep(s, n, ind, inds, now, escalate, draws) == Sweep(s0, n, 0, [], now, escalate, draws)
      decreases n - ind
    {
      s, inds := EndedAdvance(s0, s, ind, inds, now, escalate, draws);
      ind := ind + 1;
    }
    assert Sweep(s, n, n, inds, now, escalate, draws) == (s, inds);
  }

  /**
   * The escalations of `review_active_calls`: each call that had expired is
   * afterwards High exactly when it was a low-priority call whose decision
   * was to escalate, and keeps its priority otherwise; it is among the calls
   * appended to either list exactly when it escalated.
   */
  lemma ReviewActiveEscalations(s: State, now: int, escalate: Option<bool>, draws: seq<bool>)
    requires Valid(s) && |s.active| <= |draws|
    ensures var r := ReviewActive(s, now, escalate, draws);
            var live := Survivors(s, |s.active|, now);
      && |live| <= |r.active| && |s.backlog| <= |r.backlog| && |r.calls| == |s.calls|
      && forall p :: 0 <= p < |s.active| && Expired(CallAt(s, p), now) ==>
           && r.calls[s.active[p]].priority == (if Escalates(s, p, escalate, draws) then High else CallAt(s, p).priority)
           && (s.active[p] in r.active[|live|..] + r.backlog[|s.backlog|..] <==> Escalates(s, p, escalate, draws))
  {
    hide Sweep, FirstFree;
    var n := |s.active|;
    var t, inds := SweepResult(s, now, escalate, draws);
    SweepRunEnded(s, now, escalate, draws);
    ReviewActiveOutcome(s, now, escalate, draws);
    var r := ReviewActive(s, now, escalate, draws);
    var live := Survivors(s, n, now);
    assert r.active == live + t.active[n..];
    assert r.active[|live|..] == t.active[n..];
    forall p | 0 <= p < n && Expired(CallAt(s, p), now)
      ensures r.calls[s.active[p]].priority == (if Escalates(s, p, escalate, draws) then High else CallAt(s, p).priority)
      ensures s.active[p] in r.active[|live|..] + r.backlog[|s.backlog|..] <==> Escalates(s, p, escalate, draws)
    {
      assert EndedAs(s, t, p, escalate, draws);
      var x := s.active[p];
      if x in r.active[|live|..] + r.backlog[|s.backlog|..] {
        assert x in r.active[|live|..] || x in r.backlog[|s.backlog|..];
        assert Escalated(s, r, x, now);
      }
    }
  }

  /** A sweep told never to escalate changes no call's priority. */
  lemma {:induction false} SweepKeepsPriorities(s: State, n: nat, ind: nat, inds: seq<nat>, now: int,
                                                draws: seq<bool>)
    requires WellFormed(s) && ind <= n <= |s.active| && n <= |draws|
    requires Ascending(inds) && forall p :: p in inds ==> p < ind
    ensures var r := Sweep(s, n, ind, inds, now, Some(false), draws).0;
      forall x :: 0 <= x < |s.calls| ==> r.calls[x].priority == s.calls[x].priority
    decreases n - ind
  {
    hide FirstFree, Expired, Release, End, Sweep;
    if ind < n {
      if Expired(CallAt(s, ind), now) {
        SweepExpiredStep(s, n, ind, inds, now, Some(false), draws);
        var id := s.active[ind];
        var t := End(s, id, Some(false), draws[ind], now).value;
        EndOutcome(s, id, Some(false), draws[ind], now);
        assert forall x :: 0 <= x < |s.calls| ==> t.calls[x].priority == s.calls[x].priority;
        SweepKeepsPriorities(t, n, ind + 1, inds + [ind], now, draws);
      } else {
        SweepLiveStep(s, n, ind, inds, now, Some(false), draws);
        SweepKeepsPriorities(s, n, ind + 1, inds, now, draws);
      }
    } else {
      SweepDone(s, n, inds, now, Some(false), draws);
    }
  }

  /** A sweep given an escalation decision never consults the draws. */
  lemma {:induction false} SweepIgnoresDraws(s: State, n: nat, ind: nat, inds: seq<nat>, now: int,
                                             escalate: bool, d1: seq<bool>, d2: seq<bool>)
    requires WellFormed(s) && ind <= n <= |s.active| && n <= |d1| && n <= |d2|
    requires Ascending(inds) && forall p :: p in inds ==> p < ind
    ensures Sweep(s, n, ind, inds, now, Some(escalate), d1) == Sweep(s, n, ind, inds, now, Some(escalate), d2)
    decreases n - ind
  {
    hide FirstFree, Expired, Release, End;
    if ind < n {
      if Expired(CallAt(s, ind), now) {
        SweepExpiredStep(s, n, ind, inds, now, Some(escalate), d1);
        SweepExpiredStep(s, n, ind, inds, now, Some(escalate), d2);
        EndIgnoresDraw(s, s.active[ind], escalate, d1[ind], d2[ind], now);
        var t := End(s, s.active[ind], Some(escalate), d1[ind], now).value;
        SweepIgnoresDraws(t, n, ind + 1, inds + [ind], now, escalate, d1, d2);
      } else {
        SweepLiveStep(s, n, ind, inds, now, Some(escalate), d1);
        SweepLiveStep(s, n, ind, inds, now, Some(escalate), d2);
        SweepIgnoresDraws(s, n, ind + 1, inds, now, escalate, d1, d2);
      }
    }
  }

  /**
   * `review_active_calls(escalate=...)` with a decision passed: the random
   * draws play no part, so the review is deterministic.
   */
  lemma ReviewActiveIgnoresDraws(s: State, now: int, escalate: bool, d1: seq<bool>, d2: seq<bool>)
    requires WellFormed(s) && |s.active| <= |d1| && |s.active| <= |d2|
    ensures ReviewActive(s, now, Some(escalate), d1) == ReviewActive(s, now, Some(escalate), d2)
  {
    SweepIgnoresDraws(s, |s.active|, 0, [], now, escalate, d1, d2);
  }

  /**
   * When no priority changed, no call counts as escalated, so a list that
   * only had escalated calls appended to `p` is still `p`.
   */
  lemma NoneEscalated(s0: State, s: State, p: seq<CallId>, xs: seq<CallId>, now: int)
    requires forall x :: 0 <= x < |s0.calls| && x < |s.calls| ==> s.calls[x].priority == s0.calls[x].priority
    requires p <= xs && forall x :: x in xs[|p|..] ==> Escalated(s0, s, x, now)
    ensures xs == p
  {
    TailHead(xs, |p|);
  }

  /** The first entry past position `k`, if there is one, lies in the tail from `k`. */
  lemma TailHead(xs: seq<CallId>, k: nat)
    requires k <= |xs|
    ensures k < |xs| ==> xs[k] in xs[k..]
  {
    if k < |xs| {
      assert xs[k..][0] == xs[k];
    }
  }

  /** Two registries of the same people have the same size. */
  lemma SameStaffTotal(a: Registry, b: Registry)
    requires TiersPresent(a) && SameStaff(a, b)
    ensures TiersPresent(b) && TotalStaff(a) == TotalStaff(b)
  {
    assert forall t: Seniority :: t in b;
  }

  /** A review told never to escalate changes no call's priority. */
  lemma ReviewKeepsPriorities(s: State, now: int, draws: seq<bool>)
    requires WellFormed(s) && |s.active| <= |draws|
    ensures var r := ReviewActive(s, now, Some(false), draws);
      && |r.calls| == |s.calls| && SameStaff(s.employees, r.employees)
      && forall x :: 0 <= x < |s.calls| ==> r.calls[x].priority == s.calls[x].priority
  {
    SweepKeepsPriorities(s, |s.active|, 0, [], now, draws);
  }

  /**
   * `review_active_calls(escalate=False)`: the active calls afterwards are
   * exactly the calls that had not expired, in their order; the backlog is
   * unchanged; and every ended call's employee is free, so the free staff is
   * the whole staff less the calls still active.
   */
  lemma ReviewActiveNoEscalation(s: State, now: int, draws: seq<bool>)
    requires Valid(s) && |s.active| <= |draws|
    ensures var r := ReviewActive(s, now, Some(false), draws);
      && r.active == Survivors(s, |s.active|, now)
      && r.backlog == s.backlog
      && NumFree(r.employees) == TotalStaff(s.employees) - |r.active|
  {
    var r := NoEscalationLists(s, now, draws);
    ValidMeaning(r);
    SameStaffTotal(s.employees, r.employees);
  }

  /** The lists half of ReviewActiveNoEscalation. */
  lemma NoEscalationLists(s: State, now: int, draws: seq<bool>) returns (r: State)
    requires Valid(s) && |s.active| <= |draws|
    ensures r == ReviewActive(s, now, Some(false), draws) && Valid(r) && SameStaff(s.employees, r.employees)
    ensures r.active == Survivors(s, |s.active|, now) && r.backlog == s.backlog
  {
    hide FirstFree, Place, End, Release, Sweep, Escalated;
    ReviewActiveOutcome(s, now, Some(false), draws);
    ReviewKeepsPriorities(s, now, draws);
    r := ReviewActive(s, now, Some(false), draws);
    NoneEscalated(s, r, Survivors(s, |s.active|, now), r.active, now);
    NoneEscalated(s, r, s.backlog, r.backlog, now);
  }

  // ---- review_backlog ----

  /** Taking the head off the backlog keeps every reference valid. */
  lemma PopHeadWellFormed(s: State)
    requires WellFormed(s) && s.backlog != []
    ensures s.backlog[0] < |s.calls| && WellFormed(s.(backlog := s.backlog[1..]))
  {
    assert s.backlog[0] in s.backlog;
    assert forall x :: x in s.backlog[1..] ==> x in s.backlog;
  }

  /**
   * One round of `review_backlog` (call_centre.py:88-90): pop the head of
   * the backlog and assign it, which puts it in the active calls or back
   * at the tail of the backlog; an assigned call in the backlog makes
   * `assign` raise.
   */
  function RetryHead(s: State, now: int): (r: Result<State, CallError>)
    requires WellFormed(s) && s.backlog != []
    ensures r.Success? ==> WellFormed(r.value) && |r.value.calls| == |s.calls|
    ensures r.Success? ==> s.backlog[1..] <= r.value.backlog
  {
    PopHeadWellFormed(s);
    Assign(s.(backlog := s.backlog[1..]), s.backlog[0], now)
  }

  /** The loop of `review_backlog` with `k` rounds left. */
  function Drain(s: State, k: nat, now: int): (r: Result<State, CallError>)
    requires WellFormed(s) && k <= |s.backlog|
    ensures r.Success? ==> WellFormed(r.value) && |r.value.calls| == |s.calls|
    decreases k
  {
    if k == 0 then Success(s)
    else
      match RetryHead(s, now)
      case Failure(e) => Failure(e)
      case Success(t) => Drain(t, k - 1, now)
  }

  /** With no rounds left the loop stops where it is. */
  lemma DrainDone(s: State, now: int)
    requires WellFormed(s)
    ensures Drain(s, 0, now) == Success(s)
  {
  }

  /** `review_backlog` (call_centre.py:86-90): one retry of every call in the backlog at entry. */
  function ReviewBacklog(s: State, now: int): (r: Result<State, CallError>)
    requires WellFormed(s)
    ensures r.Success? ==> WellFormed(r.value) && |r.value.calls| == |s.calls|
  {
    Drain(s, |s.backlog|, now)
  }

  /** Whether call `x` is assigned in `calls`. */
  predicate IsAssigned(calls: seq<CallInfo>, x: CallId)
  {
    x < |calls| && calls[x].assignedTo.Some?
  }

  /**
   * What the next `k` rounds need: the backlog holds no call twice and its
   * first `k` calls are unassigned, so none of them makes `assign` raise.
   */
  predicate Retryable(s: State, k: nat)
  {
    && WellFormed(s) && k <= |s.backlog| && Distinct(s.backlog)
    && forall i :: 0 <= i < k ==> !IsAssigned(s.calls, s.backlog[i])
  }

  /** In a valid state the whole backlog is retryable. */
  lemma ValidRetryable(s: State)
    requires Valid(s)
    ensures Retryable(s, |s.backlog|)
  {
    forall i | 0 <= i < |s.backlog| ensures !IsAssigned(s.calls, s.backlog[i]) {
      assert s.backlog[i] in s.backlog;
    }
  }

  lemma DistinctTail(b: seq<CallId>)
    requires b != [] && Distinct(b)
    ensures Distinct(b[1..]) && b[0] !in b[1..]
    ensures Distinct(b[1..] + [b[0]])
  {
    var t := b[1..];
    forall j | 0 <= j < |t| ensures t[j] != b[0] {
      assert t[j] == b[j + 1];
    }
    var u := t + [b[0]];
    forall i, j | 0 <= i < j < |u| ensures u[i] != u[j] {
      if j < |t| {
        assert u[i] == b[i + 1] && u[j] == b[j + 1];
      } else {
        assert u[i] == t[i];
      }
    }
  }

  /**
   * One round with an unassigned head succeeds, and the next `k - 1` rounds
   * stay retryable.
   */
  lemma RetryStep(s: State, k: nat, now: int) returns (t: State)
    requires Retryable(s, k) && k > 0
    ensures RetryHead(s, now) == Success(t) && Retryable(t, k - 1)
    ensures Drain(s, k, now) == Drain(t, k - 1, now)
  {
    var id := s.backlog[0];
    PopHeadWellFormed(s);
    DistinctTail(s.backlog);
    var popped := s.(backlog := s.backlog[1..]);
    AssignOutcome(popped, id, now);
    t := Place(popped, id, now);
    RetryLists(s, t, now);
    RetryCalls(s, t, now);
    forall i | 0 <= i < k - 1 ensures !IsAssigned(t.calls, t.backlog[i]) {
      assert t.backlog[i] == s.backlog[i + 1];
      assert s.backlog[i + 1] != id;
    }
  }

  /** One round of the first `k`, with what it does to the staff. */
  lemma RoundStaff(s: State, k: nat, now: int) returns (t: State)
    requires Retryable(s, k) && k > 0
    ensures Retryable(t, k - 1) && Drain(s, k, now) == Drain(t, k - 1, now)
    ensures SameStaff(s.employees, t.employees)
    ensures forall g :: ValidHandle(t.employees, g) && At(t.employees, g).isFree ==>
              ValidHandle(s.employees, g) && At(s.employees, g).isFree
    ensures |t.calls| == |s.calls| && s.backlog[1..] <= t.backlog
    ensures forall x :: 0 <= x < |s.calls| ==> t.calls[x].priority == s.calls[x].priority
  {
    t := RetryStep(s, k, now);
    RetryStaff(s, t, now);
    RetryCalls(s, t, now);
  }

  /** One round of the first `k`, with what it does to the calls. */
  lemma RoundCalls(s: State, k: nat, now: int) returns (t: State)
    requires Retryable(s, k) && k > 0
    ensures Retryable(t, k - 1) && Drain(s, k, now) == Drain(t, k - 1, now)
    ensures |t.calls| == |s.calls| && s.backlog[1..] <= t.backlog
    ensures forall x :: 0 <= x < |s.calls| && x != s.backlog[0] ==> t.calls[x] == s.calls[x]
    ensures forall x :: 0 <= x < |s.calls| ==> t.calls[x].priority == s.calls[x].priority
  {
    t := RetryStep(s, k, now);
    RetryCalls(s, t, now);
  }

  /** One round of the first `k`, with where it puts the head. */
  lemma RoundLists(s: State, k: nat, now: int) returns (t: State)
    requires Retryable(s, k) && k > 0
    ensures Retryable(t, k - 1) && Drain(s, k, now) == Drain(t, k - 1, now)
    ensures var id := s.backlog[0];
      && id < |s.calls| && |t.calls| == |s.calls| && s.backlog[1..] <= t.backlog
      && (t.calls[id].assignedTo.Some? ==> t.active == s.active + [id] && t.backlog == s.backlog[1..])
      && (t.calls[id].assignedTo.None? ==>
            t.active == s.active && t.backlog == s.backlog[1..] + [id] && t.employees == s.employees)
      && (t.calls[id].assignedTo.None? <==> FirstFree(s.employees, AssignmentOrder(s.calls[id].priority)).None?)
    ensures forall x :: 0 <= x < |s.calls| ==> t.calls[x].priority == s.calls[x].priority
  {
    t := RetryStep(s, k, now);
    RetryLists(s, t, now);
    RetryCalls(s, t, now);
  }

  /**
   * Where one round puts the head: an assigned head is appended to the
   * active calls; otherwise nobody in its tiers was free, it goes to the
   * tail of the backlog and the registry is unchanged.
   */
  lemma RetryLists(s: State, t: State, now: int)
    requires WellFormed(s) && s.backlog != [] && RetryHead(s, now) == Success(t)
    ensures var id := s.backlog[0];
      && id < |s.calls| && id < |t.calls|
      && (t.calls[id].assignedTo.Some? ==> t.active == s.active + [id] && t.backlog == s.backlog[1..])
      && (t.calls[id].assignedTo.None? ==>
            t.active == s.active && t.backlog == s.backlog[1..] + [id] && t.employees == s.employees)
      && (t.calls[id].assignedTo.None? <==> FirstFree(s.employees, AssignmentOrder(s.calls[id].priority)).None?)
  {
    PopHeadWellFormed(s);
    AssignOutcome(s.(backlog := s.backlog[1..]), s.backlog[0], now);
  }

  /** One round changes no call but the head, and no priority. */
  lemma RetryCalls(s: State, t: State, now: int)
    requires WellFormed(s) && s.backlog != [] && RetryHead(s, now) == Success(t)
    ensures |t.calls| == |s.calls|
    ensures forall x :: 0 <= x < |s.calls| && x != s.backlog[0] ==> t.calls[x] == s.calls[x]
    ensures forall x :: 0 <= x < |s.calls| ==> t.calls[x].priority == s.calls[x].priority
  {
    PopHeadWellFormed(s);
    AssignOutcome(s.(backlog := s.backlog[1..]), s.backlog[0], now);
  }

  /** One round keeps the staff the same people and frees nobody. */
  lemma RetryStaff(s: State, t: State, now: int)
    requires WellFormed(s) && s.backlog != [] && RetryHead(s, now) == Success(t)
    ensures SameStaff(s.employees, t.employees)
    ensures forall g :: ValidHandle(t.employees, g) && At(t.employees, g).isFree ==>
              ValidHandle(s.employees, g) && At(s.employees, g).isFree
  {
    PopHeadWellFormed(s);
    AssignOutcome(s.(backlog := s.backlog[1..]), s.backlog[0], now);
    forall g | ValidHandle(t.employees, g) && At(t.employees, g).isFree
      ensures ValidHandle(s.employees, g) && At(s.employees, g).isFree
    {
      SameStaffHandles(s.employees, t.employees, g);
    }
  }

  /** One round of `review_backlog` on a valid state keeps the invariant. */
  lemma DrainAdvance(s: State, k: nat, now: int) returns (t: State)
    requires Valid(s) && 0 < k <= |s.backlog|
    ensures Valid(t) && k - 1 <= |t.backlog|
    ensures Drain(t, k - 1, now) == Drain(s, k, now)
  {
    var id := s.backlog[0];
    PopHeadValid(s);
    var popped := s.(backlog := s.backlog[1..]);
    PlaceValid(popped, id, now);
    t := Place(popped, id, now);
  }

  /** Taking a backlogged call off the queue leaves a valid state and an unassigned call. */
  lemma PopHeadValid(s: State)
    requires Valid(s) && s.backlog != []
    ensures var id := s.backlog[0];
      && id < |s.calls| && s.calls[id].assignedTo.None?
      && id !in s.backlog[1..] && Valid(s.(backlog := s.backlog[1..]))
  {
    assert s.backlog[0] in s.backlog;
    DistinctTail(s.backlog);
    assert forall x :: x in s.backlog[1..] ==> x in s.backlog;
  }

  /** A valid state retries its whole backlog without error and stays valid. */
  lemma {:induction false} DrainValid(s: State, k: nat, now: int)
    requires Valid(s) && k <= |s.backlog|
    ensures Drain(s, k, now).Success? && Valid(Drain(s, k, now).value)
    decreases k
  {
    hide RetryHead, FirstFree;
    if k > 0 {
      var t := DrainAdvance(s, k, now);
      DrainValid(t, k - 1, now);
    }
  }

  /**
   * `review_backlog` on a valid state: no error, and the invariant holds
   * afterwards.
   */
  lemma ReviewBacklogValid(s: State, now: int)
    requires Valid(s)
    ensures ReviewBacklog(s, now).Success? && Valid(ReviewBacklog(s, now).value)
  {
    DrainValid(s, |s.backlog|, now);
  }

  /**
   * Where the loop of `review_backlog` stands: `k` retryable rounds are left
   * from `s`, and they end where `k0` rounds from `s0` end.
   */
  ghost predicate RoundsLeft(s0: State, k0: nat, s: State, k: nat, now: int)
  {
    Retryable(s0, k0) && Retryable(s, k) && Drain(s, k, now) == Drain(s0, k0, now)
  }

  /** Before the first round all `k` rounds are left. */
  lemma RoundsStart(s: State, k: nat, now: int)
    requires Retryable(s, k)
    ensures RoundsLeft(s, k, s, k, now)
  {
  }

  /** A state the remaining rounds leave as it is is where `review_backlog` ends. */
  lemma ReviewBacklogDone(s0: State, s: State, now: int)
    requires Valid(s0) && RoundsLeft(s0, |s0.backlog|, s, 0, now)
    ensures ReviewBacklog(s0, now) == Success(s) && Valid(s) && |s.calls| == |s0.calls|
  {
    DrainDone(s, now);
    ReviewBacklogValid(s0, now);
  }

  /** The calls of `xs` that are (`want`) or are not assigned in `calls`, in order. */
  function Select(xs: seq<CallId>, calls: seq<CallInfo>, want: bool): (r: seq<CallId>)
    ensures forall x :: x in r ==> x in xs && IsAssigned(calls, x) == want
  {
    if xs == [] then []
    else (if IsAssigned(calls, xs[0]) == want then [xs[0]] else []) + Select(xs[1..], calls, want)
  }

  lemma SelectCons(x: CallId, rest: seq<CallId>, calls: seq<CallInfo>, want: bool)
    ensures Select([x] + rest, calls, want)
            == (if IsAssigned(calls, x) == want then [x] else []) + Select(rest, calls, want)
  {
    assert ([x] + rest)[1..] == rest;
  }

  /** How the lists of one round relate to those of the entry state. */
  lemma DrainRound(b: seq<CallId>, tb: seq<CallId>, k: nat, id: CallId)
    requires 0 < k <= |b| && b[0] == id && b[1..] <= tb
    ensures b[..k] == [id] + b[1..k] && b[1..k] == tb[..k - 1]
    ensures tb == b[1..] ==> tb[k - 1..] == b[k..]
    ensures tb == b[1..] + [id] ==> tb[k - 1..] == b[k..] + [id]
  {
  }

  /**
   * The first `k` rounds all succeed, keep the staff the same people and
   * free nobody.
   */
  lemma {:induction false} DrainStaff(s: State, k: nat, now: int)
    requires Retryable(s, k)
    ensures Drain(s, k, now).Success?
    ensures var r := Drain(s, k, now).value;
      && SameStaff(s.employees, r.employees)
      && (forall g :: ValidHandle(r.employees, g) && At(r.employees, g).isFree ==>
            ValidHandle(s.employees, g) && At(s.employees, g).isFree)
    decreases k
  {
    hide RetryHead, FirstFree;
    if k > 0 {
      var t := RoundStaff(s, k, now);
      DrainStaff(t, k - 1, now);
      var r := Drain(t, k - 1, now).value;
      forall g | ValidHandle(r.employees, g) && At(r.employees, g).isFree
        ensures ValidHandle(s.employees, g) && At(s.employees, g).isFree
      {
        SameStaffHandles(t.employees, r.employees, g);
      }
    }
  }

  /**
   * The first `k` rounds all succeed, change no call outside them and no
   * priority.
   */
  lemma {:induction false} DrainCalls(s: State, k: nat, now: int)
    requires Retryable(s, k)
    ensures Drain(s, k, now).Success?
    ensures var r := Drain(s, k, now).value;
      && (forall x :: 0 <= x < |s.calls| && x !in s.backlog[..k] ==> r.calls[x] == s.calls[x])
      && (forall x :: 0 <= x < |s.calls| ==> r.calls[x].priority == s.calls[x].priority)
    decreases k
  {
    hide RetryHead, FirstFree;
    if k > 0 {
      var t := RoundCalls(s, k, now);
      DrainCalls(t, k - 1, now);
      var r := Drain(t, k - 1, now).value;
      forall x | 0 <= x < |s.calls| && x !in s.backlog[..k] ensures r.calls[x] == s.calls[x] {
        DrainRoundOutside(s.backlog, t.backlog, k, x);
      }
    }
  }

  /** A call among the first `k` backlogged calls other than the head is among the next round's first `k - 1`. */
  lemma DrainRoundInside(b: seq<CallId>, tb: seq<CallId>, k: nat, x: CallId)
    requires 0 < k <= |b| && b[1..] <= tb && x in b[..k] && x != b[0]
    ensures x in tb[..k - 1]
  {
    var i :| 0 <= i < k && b[..k][i] == x;
    assert tb[..k - 1][i - 1] == x;
  }

  /** The head of a backlog without repeats is not among the next round's first `k - 1`. */
  lemma HeadNotLater(b: seq<CallId>, tb: seq<CallId>, k: nat)
    requires 0 < k <= |b| && Distinct(b) && b[1..] <= tb
    ensures b[0] !in tb[..k - 1]
  {
    forall i | 0 <= i < k - 1 ensures tb[i] != b[0] {
      assert tb[i] == b[i + 1];
    }
  }

  /** A call outside the first `k` backlogged calls is outside the next round's first `k - 1`. */
  lemma DrainRoundOutside(b: seq<CallId>, tb: seq<CallId>, k: nat, x: CallId)
    requires 0 < k <= |b| && b[1..] <= tb && x !in b[..k]
    ensures x != b[0] && x !in tb[..k - 1]
  {
    assert b[..k][0] == b[0];
    forall i | 0 <= i < k - 1 ensures tb[i] != x {
      assert tb[i] == b[..k][i + 1];
    }
  }

  /**
   * Where the first `k` rounds put their calls: those that found an
   * employee are appended to the active calls in backlog order, and the
   * backlog becomes the rounds not reviewed followed by the calls that
   * failed, in their original order.
   */
  lemma {:induction false} DrainLists(s: State, k: nat, now: int) returns (r: State)
    requires Retryable(s, k)
    ensures Drain(s, k, now) == Success(r)
    ensures r.active == s.active + Select(s.backlog[..k], r.calls, true)
    ensures r.backlog == s.backlog[k..] + Select(s.backlog[..k], r.calls, false)
    decreases k
  {
    hide RetryHead, FirstFree, Select, Drain;
    if k == 0 {
      r := DrainNone(s, now);
    } else {
      assert Distinct(s.backlog) && k <= |s.backlog|;
      hide Retryable, WellFormed;
      var id := s.backlog[0];
      var t := HeadRound(s, k, now);
      r := DrainLists(t, k - 1, now);
      HeadNotLater(s.backlog, t.backlog, k);
      DrainCallAt(t, k - 1, now, id);
      ListsRound(s.active, s.backlog, t.active, t.backlog, r.active, r.backlog, r.calls, k);
    }
  }

  /** No rounds leave the state as it was. */
  lemma DrainNone(s: State, now: int) returns (r: State)
    requires Retryable(s, 0)
    ensures Drain(s, 0, now) == Success(r) && r == s
    ensures r.active == s.active + Select(s.backlog[..0], r.calls, true)
    ensures r.backlog == s.backlog[0..] + Select(s.backlog[..0], r.calls, false)
  {
    r := s;
    assert s.backlog[..0] == [] && s.backlog[0..] == s.backlog;
  }

  /** One round of the first `k`, with where it puts the head of the backlog. */
  lemma HeadRound(s: State, k: nat, now: int) returns (t: State)
    requires Retryable(s, k) && k > 0
    ensures Retryable(t, k - 1) && Drain(s, k, now) == Drain(t, k - 1, now)
    ensures var id := s.backlog[0];
      && id < |t.calls| && s.backlog[1..] <= t.backlog
      && (IsAssigned(t.calls, id) ==> t.active == s.active + [id] && t.backlog == s.backlog[1..])
      && (!IsAssigned(t.calls, id) ==> t.active == s.active && t.backlog == s.backlog[1..] + [id])
  {
    t := RoundLists(s, k, now);
  }

  /** A call the first `k` rounds do not retry keeps its record. */
  lemma DrainCallAt(s: State, k: nat, now: int, x: CallId)
    requires Retryable(s, k) && x < |s.calls| && x !in s.backlog[..k]
    ensures Drain(s, k, now).Success? && Drain(s, k, now).value.calls[x] == s.calls[x]
  {
    DrainCalls(s, k, now);
  }

  /**
   * The step of DrainLists on the lists alone: the head `b[0]` goes to the
   * active list when it is assigned at the end and to the backlog's tail
   * otherwise, and the later rounds select from the rest.
   */
  lemma ListsRound(a: seq<CallId>, b: seq<CallId>, ta: seq<CallId>, tb: seq<CallId>,
                   ra: seq<CallId>, rb: seq<CallId>, calls: seq<CallInfo>, k: nat)
    requires 0 < k <= |b| && b[1..] <= tb
    requires IsAssigned(calls, b[0]) ==> ta == a + [b[0]] && tb == b[1..]
    requires !IsAssigned(calls, b[0]) ==> ta == a && tb == b[1..] + [b[0]]
    requires ra == ta + Select(tb[..k - 1], calls, true)
    requires rb == tb[k - 1..] + Select(tb[..k - 1], calls, false)
    ensures ra == a + Select(b[..k], calls, true)
    ensures rb == b[k..] + Select(b[..k], calls, false)
  {
    hide Select;
    var id := b[0];
    var rest := b[1..k];
    DrainRound(b, tb, k, id);
    SelectCons(id, rest, calls, true);
    SelectCons(id, rest, calls, false);
    var selT := Select(rest, calls, true);
    var selF := Select(rest, calls, false);
    if IsAssigned(calls, id) {
      assert Select(b[..k], calls, true) == [id] + selT;
      assert Select(b[..k], calls, false) == selF;
      ConcatAssoc(a, [id], selT);
    } else {
      assert Select(b[..k], calls, true) == selT;
      assert Select(b[..k], calls, false) == [id] + selF;
      ConcatAssoc(b[k..], [id], selF);
    }
  }

  /** After `review_backlog` the backlog holds exactly the retried calls that failed, in order. */
  lemma ReviewBacklogOutcome(s: State, now: int)
    requires Valid(s)
    ensures ReviewBacklog(s, now).Success?
    ensures var r := ReviewBacklog(s, now).value;
      && Valid(r)
      && r.active == s.active + Select(s.backlog, r.calls, true)
      && r.backlog == Select(s.backlog, r.calls, false)
  {
    DrainValid(s, |s.backlog|, now);
    ValidRetryable(s);
    var r := DrainLists(s, |s.backlog|, now);
    assert s.backlog[..|s.backlog|] == s.backlog;
    assert s.backlog[|s.backlog|..] == [];
  }

  /**
   * Once nobody in a priority's tiers is free, every call of that priority
   * still to be retried in this pass fails: assignment only takes staff.
   */
  lemma {:induction false} DrainNoCapacity(s: State, k: nat, now: int, p: Priority, x: CallId)
    requires Retryable(s, k)
    requires FirstFree(s.employees, AssignmentOrder(p)).None?
    requires x in s.backlog[..k] && x < |s.calls| && s.calls[x].priority == p
    ensures Drain(s, k, now).Success? && Drain(s, k, now).value.calls[x].assignedTo.None?
    decreases k
  {
    hide RetryHead, FirstFree;
    var id := s.backlog[0];
    if x == id {
      var t := RoundLists(s, k, now);
      DrainCalls(t, k - 1, now);
      HeadNotLater(s.backlog, t.backlog, k);
    } else {
      var t := RoundStaff(s, k, now);
      FirstFreeNoneStays(s.employees, t.employees, AssignmentOrder(p));
      DrainRoundInside(s.backlog, t.backlog, k, x);
      DrainNoCapacity(t, k - 1, now, p, x);
    }
  }

  /**
   * FIFO fairness of `review_backlog`: if a retried call fails, every later
   * retried call of the same priority fails too, so calls of one priority
   * are served strictly in arrival order.
   */
  lemma {:induction false} DrainFifo(s: State, k: nat, now: int, i: nat, j: nat)
    requires Retryable(s, k) && i < j < k
    requires s.backlog[i] < |s.calls| && s.backlog[j] < |s.calls|
    requires s.calls[s.backlog[i]].priority == s.calls[s.backlog[j]].priority
    requires Drain(s, k, now).Success? && Drain(s, k, now).value.calls[s.backlog[i]].assignedTo.None?
    ensures Drain(s, k, now).value.calls[s.backlog[j]].assignedTo.None?
    decreases i
  {
    hide RetryHead, FirstFree;
    if i == 0 {
      DrainHeadFails(s, k, now, j);
    } else {
      var t := RoundCalls(s, k, now);
      DrainRound(s.backlog, t.backlog, k, s.backlog[0]);
      assert t.backlog[j - 1] == s.backlog[j];
      assert t.backlog[i - 1] == s.backlog[i];
      DrainFifo(t, k - 1, now, i - 1, j - 1);
    }
  }

  /** The first case of DrainFifo: the head of the backlog fails. */
  lemma DrainHeadFails(s: State, k: nat, now: int, j: nat)
    requires Retryable(s, k) && 0 < j < k
    requires s.backlog[0] < |s.calls| && s.backlog[j] < |s.calls|
    requires s.calls[s.backlog[0]].priority == s.calls[s.backlog[j]].priority
    requires Drain(s, k, now).Success? && Drain(s, k, now).value.calls[s.backlog[0]].assignedTo.None?
    ensures Drain(s, k, now).value.calls[s.backlog[j]].assignedTo.None?
  {
    hide RetryHead, FirstFree;
    var t := HeadFailed(s, k, now);
    assert s.backlog[j] != s.backlog[0] && s.backlog[..k][j] == s.backlog[j];
    DrainRoundInside(s.backlog, t.backlog, k, s.backlog[j]);
    DrainNoCapacity(t, k - 1, now, s.calls[s.backlog[0]].priority, s.backlog[j]);
  }

  /**
   * A head that the pass leaves unassigned found nobody free in its tiers,
   * and the round that sent it back changed no flag.
   */
  lemma HeadFailed(s: State, k: nat, now: int) returns (t: State)
    requires Retryable(s, k) && 0 < k && s.backlog[0] < |s.calls|
    requires Drain(s, k, now).Success? && Drain(s, k, now).value.calls[s.backlog[0]].assignedTo.None?
    ensures Retryable(t, k - 1) && Drain(s, k, now) == Drain(t, k - 1, now)
    ensures s.backlog[1..] <= t.backlog
    ensures FirstFree(t.employees, AssignmentOrder(s.calls[s.backlog[0]].priority)).None?
    ensures forall x :: 0 <= x < |s.calls| ==> t.calls[x].priority == s.calls[x].priority
  {
    hide RetryHead, FirstFree;
    var id := s.backlog[0];
    t := RoundLists(s, k, now);
    DrainCalls(t, k - 1, now);
    HeadNotLater(s.backlog, t.backlog, k);
    assert t.calls[id].assignedTo.None?;
  }
}
