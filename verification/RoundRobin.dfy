/** Fairness of the Osmium schedule. */
module RoundRobin {
  import opened Schedule

  /** The runnable positions from `lo` up to `hi`, in order. */
  function Between(ring: seq<Tcb>, lo: int, hi: int): (b: seq<int>)
    requires 0 <= lo && hi <= |ring|
    decreases hi - lo
  {
    if lo >= hi then []
    else if Runnable(ring, lo) then [lo] + Between(ring, lo + 1, hi)
    else Between(ring, lo + 1, hi)
  }

  /** The runnable positions in ring order, starting after `cur` and ending with it. */
  function Rotation(ring: seq<Tcb>, cur: int): (r: seq<int>)
    requires 0 <= cur < |ring|
  {
    Between(ring, cur + 1, |ring|) + Between(ring, 0, cur + 1)
  }

  lemma {:induction false} BetweenMembers(ring: seq<Tcb>, lo: int, hi: int)
    requires 0 <= lo && hi <= |ring|
    ensures forall i :: i in Between(ring, lo, hi) <==> lo <= i < hi && Runnable(ring, i)
    decreases hi - lo
  {
    if lo < hi {
      BetweenMembers(ring, lo + 1, hi);
    }
  }

  lemma RotationMembers(ring: seq<Tcb>, cur: int)
    requires 0 <= cur < |ring|
    ensures forall i :: i in Rotation(ring, cur) <==> 0 <= i < |ring| && Runnable(ring, i)
  {
    BetweenMembers(ring, cur + 1, |ring|);
    BetweenMembers(ring, 0, cur + 1);
  }

  lemma {:induction false} BetweenSplit(ring: seq<Tcb>, lo: int, mid: int, hi: int)
    requires 0 <= lo <= mid <= hi <= |ring|
    ensures Between(ring, lo, hi) == Between(ring, lo, mid) + Between(ring, mid, hi)
    decreases mid - lo
  {
    if lo < mid {
      BetweenSplit(ring, lo + 1, mid, hi);
    }
  }

  lemma {:induction false} BetweenSame(a: seq<Tcb>, b: seq<Tcb>, lo: int, hi: int)
    requires SamePaused(a, b) && 0 <= lo && hi <= |a|
    ensures Between(a, lo, hi) == Between(b, lo, hi)
    decreases hi - lo
  {
    if lo < hi {
      BetweenSame(a, b, lo + 1, hi);
    }
  }

  lemma {:induction false} BetweenNone(ring: seq<Tcb>, lo: int, hi: int)
    requires 0 <= lo && hi <= |ring|
    requires forall i :: lo <= i < hi ==> !Runnable(ring, i)
    ensures Between(ring, lo, hi) == []
    decreases hi - lo
  {
    if lo < hi {
      BetweenNone(ring, lo + 1, hi);
    }
  }

  ghost predicate Distinct(s: seq<int>) {
    forall i, j :: 0 <= i < j < |s| ==> s[i] != s[j]
  }

  lemma ConcatDistinct(a: seq<int>, b: seq<int>)
    requires Distinct(a) && Distinct(b) && forall x :: x in a ==> x !in b
    ensures Distinct(a + b)
  {
    forall i, j | 0 <= i < j < |a + b| ensures (a + b)[i] != (a + b)[j] {
      if i < |a| <= j {
        assert (a + b)[i] in a && (a + b)[j] in b;
      } else if |a| <= i {
        assert b[i - |a|] != b[j - |a|];
      }
    }
  }

  lemma {:induction false} BetweenDistinct(ring: seq<Tcb>, lo: int, hi: int)
    requires 0 <= lo && hi <= |ring|
    ensures Distinct(Between(ring, lo, hi))
    decreases hi - lo
  {
    if lo < hi {
      BetweenDistinct(ring, lo + 1, hi);
      BetweenMembers(ring, lo + 1, hi);
      ConcatDistinct([lo], Between(ring, lo + 1, hi));
    }
  }

  lemma RotationDistinct(ring: seq<Tcb>, cur: int)
    requires 0 <= cur < |ring|
    ensures Distinct(Rotation(ring, cur))
  {
    BetweenDistinct(ring, cur + 1, |ring|);
    BetweenDistinct(ring, 0, cur + 1);
    BetweenMembers(ring, cur + 1, |ring|);
    BetweenMembers(ring, 0, cur + 1);
    ConcatDistinct(Between(ring, cur + 1, |ring|), Between(ring, 0, cur + 1));
  }

  /** `r` is where the skip loop stops after leaving `cur`. */
  lemma SelectSkipsOnlyPaused(ring: seq<Tcb>, cur: nat)
    requires cur < |ring| && Runnable(ring, 0)
    ensures var r := Select(ring, cur);
            if r > cur then forall i :: cur < i < r ==> !Runnable(ring, i)
            else r == 0 && forall i :: cur < i < |ring| ==> !Runnable(ring, i)
    ensures Runnable(ring, Select(ring, cur))
  {
    var idled := SetStatus(ring, cur, Idle);
    FirstRunnableIsFirst(idled, Wrap(cur + 1, |ring|));
    assert forall i :: cur < i < |ring| ==> (Runnable(ring, i) <==> Runnable(idled, i));
  }

  /** The rotation from `cur` starts at the selected position `r`, and the rotation from `r`
      is the rest of it with `r` at the end. */
  lemma RotationSplit(ring: seq<Tcb>, cur: int, r: int) returns (rest: seq<int>)
    requires 0 <= cur < |ring| && 0 <= r < |ring| && Runnable(ring, r)
    requires if r > cur then forall i :: cur < i < r ==> !Runnable(ring, i)
             else r == 0 && forall i :: cur < i < |ring| ==> !Runnable(ring, i)
    ensures Rotation(ring, cur) == [r] + rest && Rotation(ring, r) == rest + [r]
  {
    var n := |ring|;
    if r > cur {
      var a, b := Between(ring, r + 1, n), Between(ring, 0, cur + 1);
      rest := a + b;
      BetweenNone(ring, cur + 1, r);
      assert Between(ring, cur + 1, n) == [r] + a by { BetweenSplit(ring, cur + 1, r, n); }
      assert Between(ring, 0, r + 1) == b + [r] by {
        BetweenSplit(ring, 0, cur + 1, r + 1);
        BetweenSplit(ring, cur + 1, r, r + 1);
      }
    } else {
      rest := Between(ring, 1, cur + 1);
      BetweenNone(ring, cur + 1, n);
      assert Between(ring, 1, n) == rest by { BetweenSplit(ring, 1, cur + 1, n); }
    }
  }

  lemma RotationSame(a: seq<Tcb>, b: seq<Tcb>, cur: int)
    requires SamePaused(a, b) && 0 <= cur < |a|
    ensures Rotation(a, cur) == Rotation(b, cur)
  {
    BetweenSame(a, b, cur + 1, |a|);
    BetweenSame(a, b, 0, cur + 1);
  }

  lemma TickPausesNothing(s: State)
    requires Inv(s)
    ensures SamePaused(s.ring, Selected(s.ring, s.cur))
  {
    SelectSkipsOnlyPaused(s.ring, s.cur);
  }

  /** A tick runs the first task of the rotation and moves it to the back. */
  lemma TickRotates(s: State)
    requires Inv(s)
    ensures var t, rot := TickState(s), Rotation(s.ring, s.cur);
            && SamePaused(s.ring, t.ring)
            && |rot| > 0 && t.cur == rot[0]
            && Rotation(t.ring, t.cur) == rot[1..] + [rot[0]]
  {
    SelectSkipsOnlyPaused(s.ring, s.cur);
    var r := Select(s.ring, s.cur);
    var rest := RotationSplit(s.ring, s.cur, r);
    assert ([r] + rest)[1..] == rest;
    TickPausesNothing(s);
    RotationSame(s.ring, Selected(s.ring, s.cur), r);
  }

  function Ticks(s: State, m: nat): (t: State)
    requires s.cur < |s.ring| && Runnable(s.ring, 0)
    ensures t.cur < |t.ring| && Runnable(t.ring, 0)
  {
    if m == 0 then s else TickState(Ticks(s, m - 1))
  }

  lemma RotateOnce<T>(rot: seq<T>, m: nat)
    requires 0 < m <= |rot|
    ensures var before := rot[m - 1..] + rot[..m - 1];
            before[0] == rot[m - 1] && before[1..] + [before[0]] == rot[m..] + rot[..m]
  {
  }

  /** For one trip around, the m-th tick runs the m-th task of the rotation. */
  lemma {:induction false} TicksFollowRotation(s: State, m: nat)
    requires Inv(s) && m <= |Rotation(s.ring, s.cur)|
    ensures var t, rot := Ticks(s, m), Rotation(s.ring, s.cur);
            && Inv(t) && SamePaused(s.ring, t.ring)
            && Rotation(t.ring, t.cur) == rot[m..] + rot[..m]
            && (m > 0 ==> t.cur == rot[m - 1])
  {
    var rot := Rotation(s.ring, s.cur);
    if m == 0 {
      assert rot[0..] + rot[..0] == rot;
    } else {
      var t := Ticks(s, m - 1);
      TicksFollowRotation(s, m - 1);
      TickKeepsInv(t);
      TickRotates(t);
      RotateOnce(rot, m);
    }
  }

  lemma {:induction false} DistinctCount(xs: seq<int>)
    requires Distinct(xs)
    ensures |set x | x in xs| == |xs|
  {
    if xs != [] {
      DistinctCount(xs[1..]);
      assert xs == [xs[0]] + xs[1..];
      assert (set x | x in xs) == {xs[0]} + set x | x in xs[1..];
      assert xs[0] !in xs[1..];
    }
  }

  ghost function RunnableSet(ring: seq<Tcb>): set<int> {
    set i | 0 <= i < |ring| && Runnable(ring, i)
  }

  lemma CurrentIsLast(s: State)
    requires Inv(s)
    ensures var rot := Rotation(s.ring, s.cur); |rot| > 0 && rot[|rot| - 1] == s.cur
  {
    BetweenSplit(s.ring, 0, s.cur, s.cur + 1);
  }

  /** The rotation lists every runnable task, and nothing else, exactly once. */
  lemma RotationCount(ring: seq<Tcb>, cur: int)
    requires 0 <= cur < |ring|
    ensures var rot := Rotation(ring, cur);
            && (forall i :: i in rot <==> i in RunnableSet(ring))
            && Distinct(rot) && |rot| == |RunnableSet(ring)|
  {
    RotationDistinct(ring, cur);
    RotationMembers(ring, cur);
    DistinctCount(Rotation(ring, cur));
    assert (set x | x in Rotation(ring, cur)) == RunnableSet(ring);
  }

  /** The position run by the m-th tick. */
  function RunBy(s: State, m: nat): int
    requires s.cur < |s.ring| && Runnable(s.ring, 0)
  {
    Ticks(s, m).cur
  }

  /** Fairness: from any state a run can reach, as many ticks as there are runnable tasks make
      each of them current exactly once, no paused task ever, in ring order starting after the
      current task, and end where they began with the same tasks paused. */
  lemma Fairness(s: State)
    requires Inv(s)
    ensures var k, rot := |RunnableSet(s.ring)|, Rotation(s.ring, s.cur);
            && |rot| == k
            && (forall m :: 1 <= m <= k ==> RunBy(s, m) == rot[m - 1])
            && (forall i :: i in RunnableSet(s.ring) ==> exists m :: 1 <= m <= k && RunBy(s, m) == i)
            && (forall m, m' :: 1 <= m < m' <= k ==> RunBy(s, m) != RunBy(s, m'))
            && RunBy(s, k) == s.cur && SamePaused(s.ring, Ticks(s, k).ring)
  {
    var rot := Rotation(s.ring, s.cur);
    RotationCount(s.ring, s.cur);
    RotationDistinct(s.ring, s.cur);
    RotationMembers(s.ring, s.cur);
    CurrentIsLast(s);
    forall m | 1 <= m <= |rot| ensures RunBy(s, m) == rot[m - 1] {
      TicksFollowRotation(s, m);
    }
    forall i | i in RunnableSet(s.ring) ensures exists m :: 1 <= m <= |rot| && RunBy(s, m) == i {
      var k :| 0 <= k < |rot| && rot[k] == i;
      assert RunBy(s, k + 1) == i;
    }
    TicksFollowRotation(s, |rot|);
  }
}
