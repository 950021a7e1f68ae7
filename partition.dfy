/** Python's range(start, stop, step) and the striping of a key range
    between workers: worker sid walks range(base + sid, stop, workers), so
    the workers together visit every id of [base, stop) exactly once. */
module Partition {

  import opened Arith

  /** range(start, stop, step) for a positive step. */
  function Stepped(start: int, stop: int, step: Pos): (r: seq<int>)
    ensures forall i :: 0 <= i < |r| ==> start <= r[i] < stop
    ensures forall i, j :: 0 <= i < j < |r| ==> r[i] < r[j]
    decreases stop - start
  {
    if start >= stop then [] else [start] + Stepped(start + step, stop, step)
  }

  /** range(start, stop, step) holds the ids of [start, stop) that are a
      whole number of steps past start. */
  lemma {:induction false} SteppedMembers(start: int, stop: int, step: Pos, x: int)
    ensures x in Stepped(start, stop, step) <==> start <= x < stop && (x - start) % step == 0
    decreases stop - start
  {
    if start < stop {
      SteppedMembers(start + step, stop, step, x);
      ModAddMul(x - start - step, 1, step);
      if x != start && start <= x && (x - start) % step == 0 {
        MultipleAtLeast(x - start, step);
      }
    }
  }

  /** A positive multiple of step is at least step. */
  lemma MultipleAtLeast(d: int, step: Pos)
    requires d > 0 && d % step == 0
    ensures d >= step
  {
    var q := d / step;
    assert d == q * step;
    if q <= 0 {
      MulMonoLeft(q, 0, step);
    }
  }

  /** Worker sid < step of a striping from base visits the ids whose
      distance from base leaves remainder sid. */
  lemma Residue(base: int, stop: int, step: Pos, sid: nat, x: int)
    requires sid < step
    ensures x in Stepped(base + sid, stop, step) <==> base <= x < stop && (x - base) % step == sid
  {
    SteppedMembers(base + sid, stop, step, x);
    var e := x - base;
    if sid <= e && (e - sid) % step == 0 {
      ResidueUp(e - sid, step, sid);
    }
    if 0 <= e && e % step == sid {
      ResidueDown(e, step, sid);
    }
  }

  /** A multiple of step plus sid < step leaves remainder sid. */
  lemma ResidueUp(d: int, step: Pos, sid: nat)
    requires sid < step && d % step == 0
    ensures (d + sid) % step == sid
  {
    DivModUnique(d + sid, step, d / step, sid);
  }

  /** A non-negative e with remainder sid is sid past a non-negative
      multiple of step. */
  lemma ResidueDown(e: int, step: Pos, sid: nat)
    requires sid < step && 0 <= e && e % step == sid
    ensures sid <= e && (e - sid) % step == 0
  {
    var q := e / step;
    assert e - sid == q * step;
    MulMonoLeft(0, q, step);
    DivModUnique(e - sid, step, q, 0);
  }

  /** The ids of range(start, stop, step) are all different. */
  lemma SteppedDistinct(start: int, stop: int, step: Pos)
    ensures Distinct(Stepped(start, stop, step))
  {
    var r := Stepped(start, stop, step);
    forall i, j | 0 <= i < j < |r|
      ensures r[i] != r[j]
    {
      assert r[i] < r[j];
    }
  }

  /** The ids of workers 0 .. k-1, one worker's ids after the other's. */
  function Striped(base: int, stop: int, step: Pos, k: nat): seq<int>
  {
    if k == 0 then [] else Striped(base, stop, step, k - 1) + Stepped(base + k - 1, stop, step)
  }

  lemma DistinctConcat(a: seq<int>, b: seq<int>)
    requires Distinct(a) && Distinct(b)
    requires forall x :: x in a ==> x !in b
    ensures Distinct(a + b)
  {
    forall i, j | 0 <= i < j < |a + b|
      ensures (a + b)[i] != (a + b)[j]
    {
      if i < |a| && j >= |a| {
        assert (a + b)[i] in a && (a + b)[j] in b;
      }
    }
  }

  /** Workers 0 .. k-1 visit, without repetition, the ids of [base, stop)
      whose remainder is below k. */
  lemma {:induction false} StripedMembers(base: int, stop: int, step: Pos, k: nat)
    requires k <= step
    ensures Distinct(Striped(base, stop, step, k))
    ensures forall x :: x in Striped(base, stop, step, k) <==> base <= x < stop && (x - base) % step < k
  {
    if k > 0 {
      var a, b := Striped(base, stop, step, k - 1), Stepped(base + k - 1, stop, step);
      StripedMembers(base, stop, step, k - 1);
      ResidueSet(base, base + k - 1, stop, step);
      SteppedDistinct(base + k - 1, stop, step);
      DistinctConcat(a, b);
      assert Striped(base, stop, step, k) == a + b;
    }
  }

  /** The worker that starts at start, less than step past base, visits
      exactly the ids whose distance from base leaves start - base. */
  lemma ResidueSet(base: int, start: int, stop: int, step: Pos)
    requires base <= start < base + step
    ensures forall x :: x in Stepped(start, stop, step) <==> base <= x < stop && (x - base) % step == start - base
  {
    forall x
      ensures x in Stepped(start, stop, step) <==> base <= x < stop && (x - base) % step == start - base
    {
      Residue(base, stop, step, start - base, x);
    }
  }

  /** All step workers together visit each id of [base, stop) exactly once. */
  lemma StripedCover(base: int, stop: int, step: Pos)
    requires base <= stop
    ensures Distinct(Striped(base, stop, step, step))
    ensures forall x :: x in Striped(base, stop, step, step) <==> base <= x < stop
    ensures |Striped(base, stop, step, step)| == stop - base
  {
    StripedMembers(base, stop, step, step);
    DistinctIntervalLength(Striped(base, stop, step, step), base, stop);
  }
}
