/** The loading generators of spring/docgen.py: SequentialKey, HotKey and
    UnorderedKey. Each worker sid produces its share of the key space; the
    lemmas state what the workers produce together. */
module Generators {

  import opened Arith
  import opened Keys
  import opened Partition

  /** A percentage from 0 to 100. */
  type Percent = p: nat | p <= 100

  /** The workload settings a loading generator reads. */
  datatype Workload = Workload(items: nat, workers: Pos, workingSet: Percent, keyFmtr: KeyFormat)

  // ----- SequentialKey -----

  /** The ids worker sid loads: range(sid, items, workers). */
  function SequentialIds(sid: nat, w: Workload): seq<int>
  {
    Stepped(sid, w.items, w.workers)
  }

  /** SequentialKey.__iter__. */
  method SequentialKeys(sid: nat, w: Workload, prefix: string) returns (keys: seq<Key>)
    ensures keys == KeysOf(SequentialIds(sid, w), prefix, w.keyFmtr)
  {
    keys := [];
    ghost var done: seq<int> := [];
    var id: int := sid;
    while id < w.items
      invariant Stepped(sid, w.items, w.workers) == done + Stepped(id, w.items, w.workers)
      invariant keys == KeysOf(done, prefix, w.keyFmtr)
      decreases w.items - id
    {
      SteppedStep(done, id, w.items, w.workers);
      KeysOfSnoc(done, id, prefix, w.keyFmtr);
      keys := keys + [Key(id, prefix, w.keyFmtr, false)];
      done := done + [id];
      id := id + w.workers;
    }
  }

  /** One step of a range: the ids still to visit lose their first. */
  lemma SteppedStep(done: seq<int>, id: int, stop: int, step: Pos)
    requires id < stop
    ensures done + Stepped(id, stop, step) == (done + [id]) + Stepped(id + step, stop, step)
  {
    assert Stepped(id, stop, step) == [id] + Stepped(id + step, stop, step);
  }

  /** Keys of one more id: one more key at the end. */
  lemma KeysOfSnoc(ids: seq<int>, x: int, prefix: string, fmtr: KeyFormat)
    ensures KeysOf(ids + [x], prefix, fmtr) == KeysOf(ids, prefix, fmtr) + [Key(x, prefix, fmtr, false)]
  {
  }

  /** Each worker's ids are strictly increasing, start at sid and lie in
      [0, items). */
  lemma SequentialIncreasing(sid: nat, w: Workload)
    ensures forall i, j :: 0 <= i < j < |SequentialIds(sid, w)| ==>
      SequentialIds(sid, w)[i] < SequentialIds(sid, w)[j]
    ensures forall x :: x in SequentialIds(sid, w) <==>
      sid <= x < w.items && (x - sid) % w.workers == 0
  {
    forall x
      ensures x in SequentialIds(sid, w) <==> sid <= x < w.items && (x - sid) % w.workers == 0
    {
      SteppedMembers(sid, w.items, w.workers, x);
    }
  }

  /** All the workers together load every id of [0, items) exactly once. */
  lemma SequentialCoverage(w: Workload)
    ensures Distinct(Striped(0, w.items, w.workers, w.workers))
    ensures forall x :: x in Striped(0, w.items, w.workers, w.workers) <==> 0 <= x < w.items
    ensures |Striped(0, w.items, w.workers, w.workers)| == w.items
  {
    StripedCover(0, w.items, w.workers);
  }

  // ----- HotKey -----

  /** int(items * working_set / 100): the size of the working set. */
  function NumHot(w: Workload): (r: nat)
    ensures r <= w.items
  {
    MulMonoLeft(w.workingSet, 100, w.items);
    w.items * w.workingSet / 100
  }

  function NumCold(w: Workload): nat
  {
    w.items - NumHot(w)
  }

  /** Every element of s lies in [lo, hi). */
  predicate Within(s: seq<int>, lo: int, hi: int)
  {
    forall i :: 0 <= i < |s| ==> lo <= s[i] < hi
  }

  lemma MembersWithin(s: seq<int>, lo: int, hi: int)
    requires forall x :: x in s ==> lo <= x < hi
    ensures Within(s, lo, hi)
  {
    forall i | 0 <= i < |s|
      ensures lo <= s[i] < hi
    {
      assert s[i] in s;
    }
  }

  /** Each id of s multiplied by PRIME, modulo m. */
  function Scatter(s: seq<int>, m: int): (r: seq<int>)
    requires Within(s, 0, m)
  {
    seq(|s|, i requires 0 <= i < |s| && 0 <= s[i] < m => (s[i] * PRIME) % m)
  }

  /** Scattering one more id appends its image. */
  lemma ScatterSnoc(s: seq<int>, x: int, m: int)
    requires Within(s, 0, m) && 0 <= x < m
    ensures Within(s + [x], 0, m)
    ensures Scatter(s + [x], m) == Scatter(s, m) + [(x * PRIME) % m]
  {
  }

  /** The ids worker sid warms up: the tail [cold + sid, items) striped
      between the workers, each scattered by PRIME modulo items. */
  function HotIds(sid: nat, w: Workload): (r: seq<int>)
    ensures Within(r, 0, w.items)
  {
    Scatter(Stepped(NumCold(w) + sid, w.items, w.workers), w.items)
  }

  /** HotKey.__iter__. */
  method HotKeys(sid: nat, w: Workload, prefix: string) returns (keys: seq<Key>)
    ensures keys == KeysOf(HotIds(sid, w), prefix, w.keyFmtr)
  {
    var numHot := w.items * w.workingSet / 100;
    var numCold := w.items - numHot;
    assert numHot == NumHot(w);
    keys := [];
    ghost var done: seq<int> := [];
    var id: int := numCold + sid;
    while id < w.items
      invariant numCold + sid <= id
      invariant Stepped(numCold + sid, w.items, w.workers) == done + Stepped(id, w.items, w.workers)
      invariant Within(done, 0, w.items)
      invariant keys == KeysOf(Scatter(done, w.items), prefix, w.keyFmtr)
      decreases w.items - id
    {
      var number := (id * PRIME) % w.items;
      SteppedStep(done, id, w.items, w.workers);
      ScatterSnoc(done, id, w.items);
      KeysOfSnoc(Scatter(done, w.items), number, prefix, w.keyFmtr);
      keys := keys + [Key(number, prefix, w.keyFmtr, false)];
      done := done + [id];
      id := id + w.workers;
    }
  }

  /** The hot ids of workers 0 .. k-1, one worker's after the other's. */
  function AllHot(w: Workload, k: nat): seq<int>
  {
    if k == 0 then [] else AllHot(w, k - 1) + HotIds(k - 1, w)
  }

  lemma ScatterConcat(a: seq<int>, b: seq<int>, m: int)
    requires Within(a, 0, m) && Within(b, 0, m)
    ensures Within(a + b, 0, m)
    ensures Scatter(a + b, m) == Scatter(a, m) + Scatter(b, m)
  {
  }

  /** Together the hot ids are the scattered striping of [cold, items). */
  lemma {:induction false} AllHotScattered(w: Workload, k: nat)
    requires k <= w.workers
    ensures Within(Striped(NumCold(w), w.items, w.workers, k), 0, w.items)
    ensures AllHot(w, k) == Scatter(Striped(NumCold(w), w.items, w.workers, k), w.items)
  {
    if k > 0 {
      var cold := NumCold(w);
      var a0, b := Striped(cold, w.items, w.workers, k - 1), Stepped(cold + (k - 1), w.items, w.workers);
      assert Striped(cold, w.items, w.workers, k) == a0 + b;
      AllHotScattered(w, k - 1);
      assert Within(b, 0, w.items);
      ScatterConcat(a0, b, w.items);
    }
  }

  /** Scattering by a PRIME coprime to m keeps distinct ids of [0, m)
      distinct. */
  lemma ScatterDistinct(s: seq<int>, m: Pos)
    requires Gcd(PRIME, m) == 1 && Distinct(s) && Within(s, 0, m)
    ensures Distinct(Scatter(s, m))
  {
    var r := Scatter(s, m);
    forall i, j | 0 <= i < j < |r|
      ensures r[i] != r[j]
    {
      if r[i] == r[j] {
        CoprimeCancel(PRIME, m, s[i], s[j]);
      }
    }
  }

  /** When 971 and items are coprime the workers together warm up exactly
      int(items * working_set / 100) ids, none of them twice. */
  lemma HotCoverage(w: Workload)
    requires Gcd(PRIME, w.items) == 1
    ensures Distinct(AllHot(w, w.workers))
    ensures |AllHot(w, w.workers)| == NumHot(w)
    ensures Within(AllHot(w, w.workers), 0, w.items)
  {
    var s := Striped(NumCold(w), w.items, w.workers, w.workers);
    StripedCover(NumCold(w), w.items, w.workers);
    AllHotScattered(w, w.workers);
    if w.items == 0 {
      assert false;
    }
    ScatterDistinct(s, w.items);
  }

  // ----- UnorderedKey -----

  /** items // workers: the size of each worker's block. */
  function KeysPerWorker(w: Workload): nat
  {
    w.items / w.workers
  }

  /** The ids worker sid inserts: step n (from 1) yields n * 971 modulo the
      block size, shifted into the worker's block. */
  function UnorderedIds(sid: nat, w: Workload): (r: seq<int>)
    ensures |r| == KeysPerWorker(w)
    ensures forall i :: 0 <= i < |r| ==>
      sid * KeysPerWorker(w) <= r[i] < (sid + 1) * KeysPerWorker(w)
  {
    var kpw := KeysPerWorker(w);
    seq(kpw, i requires 0 <= i < kpw => ((i + 1) * PRIME) % kpw + sid * kpw)
  }

  /** One step of the loop: adding 971 to the previous number and reducing
      modulo the block removes the previous shift. */
  lemma UnorderedStep(n: nat, sid: nat, kpw: Pos)
    ensures (((n * PRIME) % kpw + sid * kpw) + PRIME) % kpw == ((n + 1) * PRIME) % kpw
  {
    var a := n * PRIME;
    ModAddMul((a % kpw + PRIME), sid, kpw);
    assert a == (a / kpw) * kpw + a % kpw;
    ModAddMul(a % kpw + PRIME, a / kpw, kpw);
    assert (n + 1) * PRIME == a + PRIME;
  }

  /** UnorderedKey.__iter__. */
  method UnorderedKeys(sid: nat, w: Workload, prefix: string) returns (keys: seq<Key>)
    ensures keys == KeysOf(UnorderedIds(sid, w), prefix, w.keyFmtr)
  {
    var kpw := w.items / w.workers;
    var number := 0;
    keys := [];
    var n := 0;
    while n < kpw
      invariant 0 <= n <= kpw
      invariant keys == KeysOf(UnorderedIds(sid, w)[..n], prefix, w.keyFmtr)
      invariant n > 0 ==> number == (n * PRIME) % kpw + sid * kpw
      invariant n == 0 ==> number == 0
    {
      if n > 0 {
        UnorderedStep(n, sid, kpw);
      }
      number := (number + PRIME) % kpw;
      number := number + sid * kpw;
      assert UnorderedIds(sid, w)[..n + 1] == UnorderedIds(sid, w)[..n] + [number];
      keys := keys + [Key(number, prefix, w.keyFmtr, false)];
      n := n + 1;
    }
    assert UnorderedIds(sid, w)[..n] == UnorderedIds(sid, w);
  }

  /** With 971 coprime to the block size, a worker never inserts an id twice
      and so inserts every id of its block. */
  lemma UnorderedPermutes(sid: nat, w: Workload)
    requires Gcd(PRIME, KeysPerWorker(w)) == 1
    ensures Distinct(UnorderedIds(sid, w))
    ensures forall x :: x in UnorderedIds(sid, w) <==>
      sid * KeysPerWorker(w) <= x < (sid + 1) * KeysPerWorker(w)
  {
    var r, kpw := UnorderedIds(sid, w), KeysPerWorker(w);
    forall i, j | 0 <= i < j < |r|
      ensures r[i] != r[j]
    {
      if r[i] == r[j] {
        CoprimeCancel(PRIME, kpw, i + 1, j + 1);
      }
    }
    assert (sid + 1) * kpw == sid * kpw + kpw;
    Pigeonhole(r, sid * kpw, (sid + 1) * kpw);
    forall x
      ensures x in r <==> sid * kpw <= x < (sid + 1) * kpw
    {
      assert x in r <==> x in Elements(r);
    }
  }

  /** Without coprimality the order is no permutation: when the block size
      is 971 itself, every step yields the block's first id, and the worker
      inserts that one key 971 times. */
  lemma UnorderedDegenerate(sid: nat, w: Workload)
    requires KeysPerWorker(w) == PRIME
    ensures forall i :: 0 <= i < |UnorderedIds(sid, w)| ==>
      UnorderedIds(sid, w)[i] == sid * PRIME
  {
    var r := UnorderedIds(sid, w);
    forall i | 0 <= i < |r|
      ensures r[i] == sid * PRIME
    {
      DivModUnique((i + 1) * PRIME, PRIME, i + 1, 0);
    }
  }

  /** The ids workers 0 .. k-1 insert, one worker's after the other's. */
  function AllUnordered(w: Workload, k: nat): seq<int>
  {
    if k == 0 then [] else AllUnordered(w, k - 1) + UnorderedIds(k - 1, w)
  }

  lemma {:induction false} AllUnorderedMembers(w: Workload, k: nat)
    requires Gcd(PRIME, KeysPerWorker(w)) == 1
    ensures Distinct(AllUnordered(w, k))
    ensures forall x :: x in AllUnordered(w, k) <==> 0 <= x < k * KeysPerWorker(w)
  {
    var kpw := KeysPerWorker(w);
    if k > 0 {
      var a, b := AllUnordered(w, k - 1), UnorderedIds(k - 1, w);
      var lo := (k - 1) * kpw;
      assert lo + kpw == k * kpw;
      AllUnorderedMembers(w, k - 1);
      UnorderedPermutes(k - 1, w);
      forall x | x in a
        ensures x !in b
      {
        assert x < lo;
      }
      DistinctConcat(a, b);
      assert AllUnordered(w, k) == a + b;
    }
  }

  /** When 971 is coprime to items // workers, the workers together insert
      every id of [0, workers * (items // workers)) exactly once; that is
      [0, items) when workers divides items. */
  lemma UnorderedCoverage(w: Workload)
    requires Gcd(PRIME, KeysPerWorker(w)) == 1
    ensures Distinct(AllUnordered(w, w.workers))
    ensures forall x :: x in AllUnordered(w, w.workers) <==> 0 <= x < w.workers * KeysPerWorker(w)
    ensures w.items % w.workers == 0 ==>
      forall x :: x in AllUnordered(w, w.workers) <==> 0 <= x < w.items
  {
    AllUnorderedMembers(w, w.workers);
    assert w.items == w.workers * KeysPerWorker(w) + w.items % w.workers;
  }

  /** When workers divides items, every warmed-up id is one that
      UnorderedKey inserted, whatever the gcd of 971 and the block size. */
  lemma HotWithinUnordered(w: Workload)
    requires w.items % w.workers == 0
    ensures forall x :: x in AllHot(w, w.workers) ==> x in AllUnordered(w, w.workers)
  {
    forall x | x in AllHot(w, w.workers)
      ensures x in AllUnordered(w, w.workers)
    {
      var y := HotImage(w, w.workers, x);
      ImageInUnordered(w, y);
    }
  }

  /** Every warmed-up id is the scattered image of some id. */
  lemma {:induction false} HotImage(w: Workload, k: nat, x: int) returns (y: int)
    requires x in AllHot(w, k)
    ensures w.items > 0 && x == (y * PRIME) % w.items
  {
    assert k > 0;
    if x in AllHot(w, k - 1) {
      y := HotImage(w, k - 1, x);
    } else {
      var s, r := Stepped(NumCold(w) + (k - 1), w.items, w.workers), HotIds(k - 1, w);
      var i :| 0 <= i < |r| && r[i] == x;
      y := s[i];
    }
  }

  /** When workers divides items, every image (y * 971) % items is inserted
      by UnorderedKey, whatever the gcd of 971 and the block: it lies in
      block image // (items // workers), at the step n in [1, block] with
      n = y modulo the block. */
  lemma ImageInUnordered(w: Workload, y: int)
    requires w.items > 0 && w.items % w.workers == 0
    ensures (y * PRIME) % w.items in AllUnordered(w, w.workers)
  {
    var kpw := KeysPerWorker(w);
    assert w.items == w.workers * kpw;
    var h := (y * PRIME) % w.items;
    var sid := BlockOf(h, w.workers, kpw);
    ModModMultiple(y * PRIME, w.workers, kpw);
    var n := StepOf(y, kpw);
    assert UnorderedIds(sid, w)[n - 1] == h;
    UnorderedInAll(w, sid, w.workers, h);
  }

  /** An id of [0, workers * block) lies in block h // block, below workers. */
  lemma BlockOf(h: int, workers: Pos, kpw: int) returns (sid: nat)
    requires 0 <= h < workers * kpw
    ensures kpw > 0 && sid == h / kpw && sid < workers
    ensures h == sid * kpw + h % kpw
  {
    if kpw <= 0 {
      MulMonoLeft(kpw, 0, workers);
    }
    sid := h / kpw;
    if sid >= workers {
      MulMonoLeft(workers, sid, kpw);
    }
  }

  /** The step n in [1, block] of UnorderedKey whose number has the same
      remainder as y * 971. */
  lemma StepOf(y: int, kpw: Pos) returns (n: int)
    ensures 1 <= n <= kpw && (n * PRIME) % kpw == (y * PRIME) % kpw
  {
    if y % kpw == 0 {
      n := kpw;
      ModMulCongruent(y, 0, PRIME, kpw);
      ModMulCongruent(kpw, 0, PRIME, kpw);
    } else {
      n := y % kpw;
      ModMulCongruent(n, y, PRIME, kpw);
    }
  }

  /** What one worker inserts is part of what workers 0 .. k-1 insert. */
  lemma {:induction false} UnorderedInAll(w: Workload, sid: nat, k: nat, x: int)
    requires sid < k && x in UnorderedIds(sid, w)
    ensures x in AllUnordered(w, k)
  {
    if sid < k - 1 {
      UnorderedInAll(w, sid, k - 1, x);
    }
    assert AllUnordered(w, k) == AllUnordered(w, k - 1) + UnorderedIds(k - 1, w);
  }

  lemma {:induction false} HotBound(w: Workload, k: nat, x: int)
    requires x in AllHot(w, k)
    ensures 0 <= x < w.items
  {
    if k > 0 {
      if x in AllHot(w, k - 1) {
        HotBound(w, k - 1, x);
      } else {
        var r := HotIds(k - 1, w);
        var i :| 0 <= i < |r| && r[i] == x;
      }
    }
  }

  // ----- NewOrderedKey and KeyForRemoval -----

  /** NewOrderedKey.next: the next id past the loaded range. */
  function NewOrderedNext(currItems: int, prefix: string, fmtr: KeyFormat): (k: Key)
    ensures k.number == currItems && !k.hit
  {
    Key(currItems, prefix, fmtr, false)
  }

  /** KeyForRemoval.next: the oldest id not yet deleted. */
  function KeyForRemovalNext(currDeletes: int, prefix: string, fmtr: KeyFormat): (k: Key)
    ensures k.number == currDeletes && !k.hit
  {
    Key(currDeletes, prefix, fmtr, false)
  }

  /** An id NewOrderedKey produces at or past items was never loaded, and an
      id KeyForRemoval produces below items was. */
  lemma NewOrderedFresh(w: Workload, currItems: int, currDeletes: int, prefix: string)
    ensures currItems >= w.items ==>
      NewOrderedNext(currItems, prefix, w.keyFmtr).number !in Striped(0, w.items, w.workers, w.workers)
    ensures 0 <= currDeletes < w.items ==>
      KeyForRemovalNext(currDeletes, prefix, w.keyFmtr).number in Striped(0, w.items, w.workers, w.workers)
  {
    SequentialCoverage(w);
  }
}
