/** spring/reservoir.py: a per-worker reservoir of latency measurements kept
    by Algorithm R. The first `capacity` measurements are stored in order;
    after that the n-th one replaces slot r, where r is drawn from [0, n),
    when r falls inside the reservoir. The clock and the random draw are
    parameters. */
module Sampling {

  /** One measurement: the operation, its nanosecond timestamp, its value. */
  datatype Sample = Sample(operation: string, timestamp: int, value: real)

  const MAX_CAPACITY: nat := 100000

  /** The state of a reservoir as a value: what the class keeps in its
      fields. */
  datatype Sampler = Sampler(capacity: nat, values: seq<Sample>, count: nat)

  function Min(a: nat, b: nat): nat
  {
    if a <= b then a else b
  }

  /** The reservoir holds as many samples as were offered, up to capacity. */
  predicate Filled(m: Sampler)
  {
    |m.values| == Min(m.count, m.capacity)
  }

  /** Reservoir.__init__: an empty reservoir with an equal share of
      MAX_CAPACITY for each worker. */
  function Init(numWorkers: nat): (m: Sampler)
    requires numWorkers >= 1
    ensures m.values == [] && m.count == 0 && Filled(m)
    ensures m.capacity * numWorkers <= MAX_CAPACITY < (m.capacity + 1) * numWorkers
  {
    Sampler(MAX_CAPACITY / numWorkers, [], 0)
  }

  /** Reservoir.update on a state: a zero value is dropped; any other value
      counts, is appended while the reservoir is not full, and otherwise
      overwrites slot r when r is inside the reservoir. r is
      int(count * random()) for the incremented count. */
  function Offer(m: Sampler, s: Sample, r: int): (n: Sampler)
    requires s.value != 0.0 ==> 0 <= r <= m.count
    ensures s.value == 0.0 ==> n == m
    ensures s.value != 0.0 ==> n.count == m.count + 1 && n.capacity == m.capacity
    ensures s.value != 0.0 && |m.values| < m.capacity ==> n.values == m.values + [s]
    ensures s.value != 0.0 && |m.values| >= m.capacity ==> |n.values| == |m.values|
    ensures s.value != 0.0 && |m.values| >= m.capacity && r >= m.capacity ==> n.values == m.values
    ensures s.value != 0.0 && |m.values| >= m.capacity && r < m.capacity ==>
      n.values[r] == s && forall i :: 0 <= i < |m.values| && i != r ==> n.values[i] == m.values[i]
    ensures Filled(m) ==> Filled(n)
  {
    if s.value == 0.0 then m
    else if |m.values| < m.capacity then Sampler(m.capacity, m.values + [s], m.count + 1)
    else if r < m.capacity then Sampler(m.capacity, m.values[r := s], m.count + 1)
    else Sampler(m.capacity, m.values, m.count + 1)
  }

  /** The number of measurements in a stream that the reservoir counts. */
  function Counted(stream: seq<Sample>): (k: nat)
    ensures k <= |stream|
  {
    if stream == [] then 0 else Counted(stream[..|stream| - 1]) + (if stream[|stream| - 1].value != 0.0 then 1 else 0)
  }

  /** Every draw lies in [0, n) for the count n its measurement brings the
      reservoir to. */
  predicate DrawsFit(count: nat, stream: seq<Sample>, draws: seq<int>)
    decreases |stream|
  {
    |draws| == |stream|
    && (stream != [] ==>
        DrawsFit(count, stream[..|stream| - 1], draws[..|draws| - 1])
        && (stream[|stream| - 1].value != 0.0 ==>
            0 <= draws[|draws| - 1] <= count + Counted(stream[..|stream| - 1])))
  }

  /** The state after offering a stream of measurements in order. */
  function OfferAll(m: Sampler, stream: seq<Sample>, draws: seq<int>): (n: Sampler)
    requires DrawsFit(m.count, stream, draws)
    ensures n.capacity == m.capacity && n.count == m.count + Counted(stream)
    decreases |stream|
  {
    if stream == [] then m
    else
      var prev := OfferAll(m, stream[..|stream| - 1], draws[..|draws| - 1]);
      Offer(prev, stream[|stream| - 1], draws[|draws| - 1])
  }

  /** Any stream keeps the reservoir filled up to capacity, and every sample
      it holds is one it already held or a non-zero measurement of the
      stream. */
  lemma {:induction false} OfferAllKeeps(m: Sampler, stream: seq<Sample>, draws: seq<int>)
    requires Filled(m) && DrawsFit(m.count, stream, draws)
    ensures Filled(OfferAll(m, stream, draws))
    ensures forall x :: x in OfferAll(m, stream, draws).values ==>
      x in m.values || (x in stream && x.value != 0.0)
    decreases |stream|
  {
    if stream != [] {
      var init, last := stream[..|stream| - 1], stream[|stream| - 1];
      OfferAllKeeps(m, init, draws[..|draws| - 1]);
      var prev := OfferAll(m, init, draws[..|draws| - 1]);
      var n := OfferAll(m, stream, draws);
      forall x | x in n.values
        ensures x in m.values || (x in stream && x.value != 0.0)
      {
        var i :| 0 <= i < |n.values| && n.values[i] == x;
        if x != last {
          assert i < |prev.values| && x == prev.values[i];
          if x in init {
            assert init[..] == stream[..|stream| - 1];
          }
        }
      }
    }
  }

  /** Offering more than capacity non-zero measurements to a fresh
      reservoir leaves it holding exactly capacity samples. */
  lemma StreamFills(numWorkers: nat, stream: seq<Sample>, draws: seq<int>)
    requires numWorkers >= 1 && DrawsFit(0, stream, draws)
    requires Counted(stream) >= Init(numWorkers).capacity
    ensures |OfferAll(Init(numWorkers), stream, draws).values| == MAX_CAPACITY / numWorkers
    ensures OfferAll(Init(numWorkers), stream, draws).count == Counted(stream)
  {
    OfferAllKeeps(Init(numWorkers), stream, draws);
  }

  /** spring/reservoir.py's Reservoir, one per worker. */
  class Reservoir {
    var capacity: nat
    var values: seq<Sample>
    var count: nat

    function Model(): Sampler
      reads this
    {
      Sampler(capacity, values, count)
    }

    predicate Valid()
      reads this
    {
      Filled(Model())
    }

    constructor (numWorkers: nat)
      requires numWorkers >= 1
      ensures Model() == Init(numWorkers) && Valid()
    {
      capacity := MAX_CAPACITY / numWorkers;
      values := [];
      count := 0;
    }

    /** Reservoir.update: timestamp is int(time.time() * 10 ** 9) and r is
        int(self.count * random.random()) after the increment. */
    method Update(operation: string, value: real, timestamp: int, r: int)
      requires Valid()
      requires value != 0.0 ==> 0 <= r <= count
      modifies this
      ensures Valid()
      ensures Model() == Offer(old(Model()), Sample(operation, timestamp, value), r)
    {
      if value == 0.0 {
        return;
      }
      count := count + 1;
      if |values| < capacity {
        values := values + [Sample(operation, timestamp, value)];
      } else if r < capacity {
        values := values[r := Sample(operation, timestamp, value)];
      }
    }
  }
}
