/** The access generators of spring/docgen.py, which pick an existing key
    for reads and updates: UniformKey, WorkingSetKey, ZipfKey and
    KeyForCASUpdate. Each random draw is a parameter whose range is a
    precondition; an empty numpy interval, on which random_integers raises,
    is a Failure. */
module Access {

  import opened Arith
  import opened Keys
  import opened Partition
  import opened Generators
  import opened Outcomes

  /** Python's int() of a quotient: division truncated toward zero. */
  function TruncDiv(a: int, b: Pos): (r: int)
    ensures a >= 0 ==> r * b <= a < (r + 1) * b
    ensures a < 0 ==> (r - 1) * b < a <= r * b
  {
    if a >= 0 then a / b else -((-a) / b)
  }

  // ----- UniformKey -----

  /** UniformKey.next: draw is random_integers(curr_deletes, curr_items - 1). */
  function UniformNext(currItems: int, currDeletes: int, draw: int, prefix: string, fmtr: KeyFormat): (r: Result<Key>)
    requires currDeletes < currItems ==> currDeletes <= draw < currItems
    ensures r.Success? <==> currDeletes < currItems
    ensures r.Success? ==> currDeletes <= r.value.number < currItems && !r.value.hit
  {
    if currItems - 1 < currDeletes then Failure("low > high")
    else Success(Key(draw, prefix, fmtr, false))
  }

  /** A uniform pick between the deleted and the loaded boundary is a key
      UnorderedKey loaded. */
  lemma UniformLoaded(w: Workload, currItems: int, currDeletes: int, draw: int, prefix: string)
    requires 0 <= currDeletes < currItems <= w.items && w.items % w.workers == 0
    requires Gcd(PRIME, KeysPerWorker(w)) == 1
    requires currDeletes <= draw < currItems
    ensures UniformNext(currItems, currDeletes, draw, prefix, w.keyFmtr).value.number in AllUnordered(w, w.workers)
  {
    UnorderedCoverage(w);
  }

  // ----- WorkingSetKey -----

  /** The interval WorkingSetKey draws from: the hot tail [cd + cold, ci) on
      a hit, the cold head [cd, cd + cold) on a miss, where cold is the live
      count minus int(live * working_set / 100). */
  function WorkingSetInterval(workingSet: Percent, access: int, currItems: int, currDeletes: int, coin: int): (int, int)
  {
    var live := currItems - currDeletes;
    var hot := TruncDiv(live * workingSet, 100);
    var cold := live - hot;
    if coin <= access then (currDeletes + cold, currItems) else (currDeletes, currDeletes + cold)
  }

  /** WorkingSetKey.next: coin is random.randint(0, 100) and draw is
      random_integers over the interval chosen by the coin. */
  function WorkingSetNext(workingSet: Percent, access: int, currItems: int, currDeletes: int, currOffset: int,
                          coin: int, draw: int, prefix: string, fmtr: KeyFormat): (r: Result<Key>)
    requires 0 <= coin <= 100
    requires var (lo, hi) := WorkingSetInterval(workingSet, access, currItems, currDeletes, coin);
      lo < hi ==> lo <= draw < hi
    ensures r.Success? <==>
      WorkingSetInterval(workingSet, access, currItems, currDeletes, coin).0
      < WorkingSetInterval(workingSet, access, currItems, currDeletes, coin).1
    ensures r.Success? ==> 0 <= r.value.number < currItems - currDeletes
    ensures r.Success? ==> (r.value.hit <==> coin <= access)
    ensures r.Success? ==> (r.value.hit <==>
      currDeletes + (currItems - currDeletes) - TruncDiv((currItems - currDeletes) * workingSet, 100) <= draw)
  {
    var live := currItems - currDeletes;
    var hot := TruncDiv(live * workingSet, 100);
    var cold := live - hot;
    var hit := coin <= access;
    var (lo, hi) := if hit then (currDeletes + cold, currItems) else (currDeletes, currDeletes + cold);
    if hi - 1 < lo then Failure("low > high")
    else
      LiveHotBounds(live, workingSet);
      Success(Key(((draw + currOffset) * PRIME) % live, prefix, fmtr, hit))
  }

  /** The hot count lies between 0 and the live count when that is
      positive, and between the live count and 0 otherwise. */
  lemma LiveHotBounds(live: int, workingSet: Percent)
    ensures live >= 0 ==> 0 <= TruncDiv(live * workingSet, 100) <= live
    ensures live < 0 ==> live <= TruncDiv(live * workingSet, 100) <= 0
  {
    if live >= 0 {
      MulMonoLeft(workingSet, 100, live);
    } else {
      MulMonoLeft(workingSet, 100, -live);
      assert (-live) * workingSet == -(live * workingSet);
    }
  }

  /** For an id of [0, items), its scattered image is a hot key exactly when
      the id lies in the hot tail [cold, items). */
  lemma HotMember(w: Workload, x: int)
    requires Gcd(PRIME, w.items) == 1 && 0 <= x < w.items
    ensures (x * PRIME) % w.items in AllHot(w, w.workers) <==> NumCold(w) <= x
  {
    var s := Striped(NumCold(w), w.items, w.workers, w.workers);
    StripedCover(NumCold(w), w.items, w.workers);
    AllHotScattered(w, w.workers);
    if NumCold(w) <= x {
      HotTail(w, x);
    }
    if (x * PRIME) % w.items in Scatter(s, w.items) {
      HotMemberHead(s, NumCold(w), w.items, x);
    }
  }

  /** The image of an id of the hot tail [cold, items) is a hot key, for
      every items. */
  lemma HotTail(w: Workload, x: int)
    requires NumCold(w) <= x < w.items
    ensures (x * PRIME) % w.items in AllHot(w, w.workers)
  {
    var s := Striped(NumCold(w), w.items, w.workers, w.workers);
    StripedCover(NumCold(w), w.items, w.workers);
    AllHotScattered(w, w.workers);
    HotMemberTail(s, w.items, x);
  }

  /** An id of s has its scattered image in Scatter(s). */
  lemma HotMemberTail(s: seq<int>, m: Pos, x: int)
    requires Within(s, 0, m) && x in s
    ensures (x * PRIME) % m in Scatter(s, m)
  {
    var i :| 0 <= i < |s| && s[i] == x;
    assert Scatter(s, m)[i] == (x * PRIME) % m;
  }

  /** An id of [0, m) whose scattered image is in Scatter(s) belongs to s,
      so lies at or above s's lower bound. */
  lemma HotMemberHead(s: seq<int>, lo: int, m: Pos, x: int)
    requires Gcd(PRIME, m) == 1 && Within(s, 0, m) && 0 <= x < m
    requires forall y :: y in s ==> lo <= y
    requires (x * PRIME) % m in Scatter(s, m)
    ensures lo <= x
  {
    var h := Scatter(s, m);
    var i :| 0 <= i < |h| && h[i] == (x * PRIME) % m;
    assert s[i] in s;
    CoprimeCancel(PRIME, m, x, s[i]);
  }

  /** With nothing deleted and no offset, a hit returns a key HotKey warmed
      up, whatever items is. */
  lemma WorkingSetHit(w: Workload, access: int, coin: int, draw: int, prefix: string)
    requires 0 <= coin <= 100
    requires var (lo, hi) := WorkingSetInterval(w.workingSet, access, w.items, 0, coin);
      lo < hi ==> lo <= draw < hi
    ensures var r := WorkingSetNext(w.workingSet, access, w.items, 0, 0, coin, draw, prefix, w.keyFmtr);
      r.Success? && r.value.hit ==> r.value.number in AllHot(w, w.workers)
  {
    var r := WorkingSetNext(w.workingSet, access, w.items, 0, 0, coin, draw, prefix, w.keyFmtr);
    if r.Success? && r.value.hit {
      assert TruncDiv(w.items * w.workingSet, 100) == NumHot(w);
      HotTail(w, draw);
    }
  }

  /** When 971 and items are coprime, a miss returns a key HotKey did not
      warm up; without coprimality a cold image can coincide with a hot
      one. */
  lemma WorkingSetMiss(w: Workload, access: int, coin: int, draw: int, prefix: string)
    requires Gcd(PRIME, w.items) == 1 && 0 <= coin <= 100
    requires var (lo, hi) := WorkingSetInterval(w.workingSet, access, w.items, 0, coin);
      lo < hi ==> lo <= draw < hi
    ensures var r := WorkingSetNext(w.workingSet, access, w.items, 0, 0, coin, draw, prefix, w.keyFmtr);
      r.Success? && !r.value.hit ==> r.value.number !in AllHot(w, w.workers)
  {
    var r := WorkingSetNext(w.workingSet, access, w.items, 0, 0, coin, draw, prefix, w.keyFmtr);
    if r.Success? && !r.value.hit {
      assert TruncDiv(w.items * w.workingSet, 100) == NumHot(w);
      HotMember(w, draw);
    }
  }

  /** The coprimality is needed for misses: with 1942 items, half of them
      hot, the miss that draws index 2 returns id 0, which is also the
      image of the hot id 972. */
  lemma MissCollides()
    ensures var r := WorkingSetNext(50, 0, 1942, 0, 0, 100, 2, [], Decimal);
      r.Success? && !r.value.hit && r.value.number == 0
    ensures 0 in AllHot(Workload(1942, 1, 50, Decimal), 1)
  {
    var w := Workload(1942, 1, 50, Decimal);
    assert TruncDiv(1942 * 50, 100) == 971;
    assert WorkingSetInterval(50, 0, 1942, 0, 100) == (0, 971);
    DivModUnique(2 * PRIME, 1942, 1, 0);
    assert NumCold(w) == 971;
    HotTail(w, 972);
    DivModUnique(972 * PRIME, 1942, 486, 0);
  }

  /** With any non-negative drift d, a hit whose drawn index plus d stays
      below items returns a warmed-up key, whatever items is. */
  lemma WorkingSetDriftHit(w: Workload, access: int, d: int, coin: int, draw: int, prefix: string)
    requires 0 <= coin <= 100 && 0 <= d
    requires var (lo, hi) := WorkingSetInterval(w.workingSet, access, w.items, 0, coin);
      lo < hi ==> lo <= draw < hi
    ensures var r := WorkingSetNext(w.workingSet, access, w.items, 0, d, coin, draw, prefix, w.keyFmtr);
      r.Success? && r.value.hit && draw + d < w.items ==> r.value.number in AllHot(w, w.workers)
  {
    var r := WorkingSetNext(w.workingSet, access, w.items, 0, d, coin, draw, prefix, w.keyFmtr);
    if r.Success? && r.value.hit && draw + d < w.items {
      assert TruncDiv(w.items * w.workingSet, 100) == NumHot(w);
      HotTail(w, draw + d);
    }
  }

  /** With a drift d no larger than the cold head, a hit is a warmed-up key
      exactly when the drawn index plus d stays below items; the drifted
      indexes that pass items wrap into the cold head. */
  lemma WorkingSetDrift(w: Workload, access: int, d: int, coin: int, draw: int, prefix: string)
    requires Gcd(PRIME, w.items) == 1 && 0 <= coin <= 100
    requires 0 <= d <= NumCold(w)
    requires var (lo, hi) := WorkingSetInterval(w.workingSet, access, w.items, 0, coin);
      lo < hi ==> lo <= draw < hi
    ensures var r := WorkingSetNext(w.workingSet, access, w.items, 0, d, coin, draw, prefix, w.keyFmtr);
      r.Success? && r.value.hit ==> (r.value.number in AllHot(w, w.workers) <==> draw + d < w.items)
  {
    var r := WorkingSetNext(w.workingSet, access, w.items, 0, d, coin, draw, prefix, w.keyFmtr);
    if r.Success? && r.value.hit {
      assert TruncDiv(w.items * w.workingSet, 100) == NumHot(w);
      if draw + d < w.items {
        HotMember(w, draw + d);
      } else {
        var x := draw + d - w.items;
        ModAddMul(x * PRIME, PRIME, w.items);
        assert (draw + d) * PRIME == x * PRIME + PRIME * w.items;
        HotMember(w, x);
      }
    }
  }

  // ----- ZipfKey -----

  /** ZipfKey.next: z is the Zipf draw, at least 1. */
  function ZipfNext(currItems: int, currDeletes: int, z: int, prefix: string, fmtr: KeyFormat): (k: Key)
    requires z >= 1
    ensures k.number <= currItems - 1
    ensures currDeletes < currItems ==> currDeletes <= k.number < currItems
    ensures currItems - z > currDeletes ==> k.number == currItems - z
    ensures currItems - z <= currDeletes ==> k.number == currItems - 1
  {
    var number := currItems - z;
    Key(if number <= currDeletes then currItems - 1 else number, prefix, fmtr, false)
  }

  /** A Zipf pick over a loaded range never leaves it. */
  lemma ZipfLoaded(w: Workload, currItems: int, currDeletes: int, z: int, prefix: string)
    requires 0 <= currDeletes < currItems <= w.items && w.items % w.workers == 0
    requires Gcd(PRIME, KeysPerWorker(w)) == 1 && z >= 1
    ensures ZipfNext(currItems, currDeletes, z, prefix, w.keyFmtr).number in AllUnordered(w, w.workers)
  {
    UnorderedCoverage(w);
  }

  // ----- KeyForCASUpdate -----

  /** curr_items // n1ql_workers: each worker's shard. */
  function PerWorker(totalWorkers: Pos, currItems: int): int
  {
    currItems / totalWorkers
  }

  /** KeyForCASUpdate.next: draw is random_integers over worker sid's shard
      [sid * per, (sid + 1) * per). */
  function CasNext(totalWorkers: Pos, sid: int, currItems: int, draw: int, prefix: string, fmtr: KeyFormat): (r: Result<Key>)
    requires PerWorker(totalWorkers, currItems) > 0 ==>
      sid * PerWorker(totalWorkers, currItems) <= draw < (sid + 1) * PerWorker(totalWorkers, currItems)
    ensures r.Success? <==> PerWorker(totalWorkers, currItems) > 0
    ensures r.Success? ==>
      sid * PerWorker(totalWorkers, currItems) <= r.value.number < (sid + 1) * PerWorker(totalWorkers, currItems)
  {
    var per := currItems / totalWorkers;
    var lo := sid * per;
    var hi := lo + per;
    if hi - 1 < lo then Failure("low > high")
    else
      assert hi == (sid + 1) * per;
      Success(Key(draw, prefix, fmtr, false))
  }

  /** Two workers with different sids never update the same key, and a
      worker of [0, n1ql_workers) stays below curr_items. */
  lemma CasDisjoint(totalWorkers: Pos, s1: int, s2: int, currItems: int, d1: int, d2: int, prefix: string, fmtr: KeyFormat)
    requires PerWorker(totalWorkers, currItems) > 0
    requires s1 * PerWorker(totalWorkers, currItems) <= d1 < (s1 + 1) * PerWorker(totalWorkers, currItems)
    requires s2 * PerWorker(totalWorkers, currItems) <= d2 < (s2 + 1) * PerWorker(totalWorkers, currItems)
    ensures s1 != s2 ==>
      CasNext(totalWorkers, s1, currItems, d1, prefix, fmtr).value.number
      != CasNext(totalWorkers, s2, currItems, d2, prefix, fmtr).value.number
    ensures 0 <= s1 < totalWorkers ==> 0 <= CasNext(totalWorkers, s1, currItems, d1, prefix, fmtr).value.number < currItems
  {
    var per := PerWorker(totalWorkers, currItems);
    if s1 < s2 {
      MulMonoLeft(s1 + 1, s2, per);
    } else if s2 < s1 {
      MulMonoLeft(s2 + 1, s1, per);
    }
    if 0 <= s1 < totalWorkers {
      MulMonoLeft(0, s1, per);
      MulMonoLeft(s1 + 1, totalWorkers, per);
      assert currItems == totalWorkers * per + currItems % totalWorkers;
    }
  }
}
