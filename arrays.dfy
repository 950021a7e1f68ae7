/** The array and item builders of spring/docgen.py:
    ArrayIndexingDocument's two achievement arrays, which reserve ranges of
    consecutive integers; ImportExportDocumentArray._random_array, which cuts
    a value into pieces at sampled positions; and PlasmaDocument.build_item,
    which rotates a tiled alphabet. */
module Arrays {

  import opened Arith
  import opened PyFormat
  import opened Fields
  import opened References
  import opened Outcomes

  /** [offset + i for i in range(n)]. */
  function Run(offset: int, n: nat): (r: seq<int>)
    ensures |r| == n && forall i :: 0 <= i < n ==> r[i] == offset + i
  {
    seq(n, i requires 0 <= i < n => offset + i)
  }

  /** The integers of a run are exactly those of [offset, offset + n). */
  lemma RunMembers(offset: int, n: nat, x: int)
    ensures x in Run(offset, n) <==> offset <= x < offset + n
  {
    if offset <= x < offset + n {
      assert Run(offset, n)[x - offset] == x;
    }
  }

  // ----- ArrayIndexingDocument._build_achievements1 -----

  /** Where the achievements1 range of seqId starts: seqId * size when
      deterministic; past all deterministic ranges, at twice the stride plus
      a draw from [1, size], when random. */
  function Achievements1Offset(seqId: int, arraySize: nat, numDocs: int, isRandom: bool, draw: int): int
  {
    if isRandom then numDocs * arraySize + 2 * seqId * arraySize + draw else seqId * arraySize
  }

  /** ArrayIndexingDocument._build_achievements1: draw is
      random.randint(1, array_size), which raises for an empty range. */
  function Achievements1(seqId: int, arraySize: nat, numDocs: int, isRandom: bool, draw: int): (r: Result<seq<int>>)
    requires isRandom && arraySize >= 1 ==> 1 <= draw <= arraySize
    ensures r.Success? <==> !isRandom || arraySize >= 1
    ensures r.Success? ==> |r.value| == arraySize
    ensures r.Success? ==> forall i :: 0 <= i < arraySize ==>
      r.value[i] == Achievements1Offset(seqId, arraySize, numDocs, isRandom, draw) + i
    ensures r.Success? ==> forall x :: x in r.value <==>
      Achievements1Offset(seqId, arraySize, numDocs, isRandom, draw) <= x
      < Achievements1Offset(seqId, arraySize, numDocs, isRandom, draw) + arraySize
  {
    if isRandom && arraySize < 1 then Failure("empty range for randrange")
    else
      var offset := Achievements1Offset(seqId, arraySize, numDocs, isRandom, draw);
      forall x
        ensures x in Run(offset, arraySize) <==> offset <= x < offset + arraySize
      {
        RunMembers(offset, arraySize, x);
      }
      Success(Run(offset, arraySize))
  }

  /** Deterministic ranges of different ids never overlap. */
  lemma Achievements1DeterministicDisjoint(s1: int, s2: int, arraySize: nat, numDocs: int, x: int)
    requires s1 < s2
    requires x in Achievements1(s1, arraySize, numDocs, false, 0).value
    ensures x !in Achievements1(s2, arraySize, numDocs, false, 0).value
  {
    MulMonoLeft(s1 + 1, s2, arraySize);
  }

  /** Random ranges of different ids never overlap: each id reserves twice
      the array size and the draw moves the start by at most the size. */
  lemma Achievements1RandomDisjoint(s1: int, s2: int, arraySize: Pos, numDocs: int, d1: int, d2: int, x: int)
    requires s1 < s2 && 1 <= d1 <= arraySize && 1 <= d2 <= arraySize
    requires x in Achievements1(s1, arraySize, numDocs, true, d1).value
    ensures x !in Achievements1(s2, arraySize, numDocs, true, d2).value
  {
    MulMonoLeft(s1 + 1, s2, arraySize);
    assert 2 * s2 * arraySize == 2 * (s2 * arraySize);
    assert 2 * s1 * arraySize == 2 * (s1 * arraySize);
    assert (s1 + 1) * arraySize == s1 * arraySize + arraySize;
  }

  /** A deterministic range of an id in [0, num_docs] and a random range of
      an id from 1 up never overlap (the builders are called with
      key.number + 1). */
  lemma Achievements1ModesDisjoint(s1: int, s2: int, arraySize: Pos, numDocs: nat, d2: int, x: int)
    requires 0 <= s1 <= numDocs && s2 >= 1 && 1 <= d2 <= arraySize
    requires x in Achievements1(s1, arraySize, numDocs, false, 0).value
    ensures x !in Achievements1(s2, arraySize, numDocs, true, d2).value
  {
    MulMonoLeft(s1, numDocs, arraySize);
    MulMonoLeft(1, s2, arraySize);
    assert 2 * s2 * arraySize == 2 * (s2 * arraySize);
  }

  // ----- ArrayIndexingDocument._build_achievements2 -----

  const ARRAY_CAP: nat := 100
  const ARRAY_SIZE: nat := 10

  /** Where the achievements2 range of seqId starts: one range per block of
      ARRAY_CAP ids when deterministic. */
  function Achievements2Offset(seqId: int, numDocs: int, isRandom: bool, draw: int): int
  {
    if isRandom then numDocs * ARRAY_SIZE + (2 * seqId) / ARRAY_CAP * ARRAY_SIZE + draw
    else seqId / ARRAY_CAP * ARRAY_SIZE
  }

  /** ArrayIndexingDocument._build_achievements2: draw is
      random.randint(1, ARRAY_SIZE). */
  function Achievements2(seqId: int, numDocs: int, isRandom: bool, draw: int): (r: seq<int>)
    requires isRandom ==> 1 <= draw <= ARRAY_SIZE
    ensures |r| == ARRAY_SIZE
    ensures forall i :: 0 <= i < ARRAY_SIZE ==> r[i] == Achievements2Offset(seqId, numDocs, isRandom, draw) + i
    ensures forall x :: x in r <==>
      Achievements2Offset(seqId, numDocs, isRandom, draw) <= x < Achievements2Offset(seqId, numDocs, isRandom, draw) + ARRAY_SIZE
  {
    var offset := Achievements2Offset(seqId, numDocs, isRandom, draw);
    forall x
      ensures x in Run(offset, ARRAY_SIZE) <==> offset <= x < offset + ARRAY_SIZE
    {
      RunMembers(offset, ARRAY_SIZE, x);
    }
    Run(offset, ARRAY_SIZE)
  }

  /** Deterministic arrays are equal for the ids of one block of ARRAY_CAP
      and disjoint across blocks. */
  lemma Achievements2Blocks(s1: int, s2: int, numDocs: int, x: int)
    ensures s1 / ARRAY_CAP == s2 / ARRAY_CAP ==> Achievements2(s1, numDocs, false, 0) == Achievements2(s2, numDocs, false, 0)
    ensures s1 / ARRAY_CAP < s2 / ARRAY_CAP && x in Achievements2(s1, numDocs, false, 0) ==>
      x !in Achievements2(s2, numDocs, false, 0)
  {
    if s1 / ARRAY_CAP < s2 / ARRAY_CAP {
      MulMonoLeft(s1 / ARRAY_CAP + 1, s2 / ARRAY_CAP, ARRAY_SIZE);
    }
  }

  /** With at least one document, a deterministic array of an id in
      [0, num_docs] and a random array of an id from 0 up never overlap. */
  lemma Achievements2ModesDisjoint(s1: int, s2: int, numDocs: nat, d2: int, x: int)
    requires numDocs >= 1 && 0 <= s1 <= numDocs && s2 >= 0 && 1 <= d2 <= ARRAY_SIZE
    requires x in Achievements2(s1, numDocs, false, 0)
    ensures x !in Achievements2(s2, numDocs, true, d2)
  {
    MulMonoLeft(s1 / ARRAY_CAP, numDocs - 1, ARRAY_SIZE);
    MulMonoLeft(0, (2 * s2) / ARRAY_CAP, ARRAY_SIZE);
  }

  // ----- ImportExportDocumentArray._random_array -----

  /** random.sample(range(l), num), sorted: num distinct positions of
      [0, l) in increasing order. */
  predicate SortedSample(scope: seq<int>, l: nat, num: nat)
  {
    |scope| == num
    && (forall i :: 0 <= i < |scope| ==> 0 <= scope[i] < l)
    && (forall i, j :: 0 <= i < j < |scope| ==> scope[i] < scope[j])
  }

  /** p occurs in value starting at position start. */
  predicate RunAt(value: string, start: int, p: string)
  {
    0 <= start && start + |p| <= |value| && p == value[start..start + |p|]
  }

  /** ImportExportDocumentArray._random_array: piece i runs from the
      previous sampled position (0 for the first) to i plus the current
      one; an empty value gives no pieces and a value shorter than num five
      copies of itself. */
  function RandomArray(value: string, num: nat, scope: seq<int>): (r: seq<string>)
    requires value != [] && |value| >= num ==> SortedSample(scope, |value|, num)
    ensures value == [] ==> r == []
    ensures value != [] && |value| < num ==> |r| == 5 && forall i :: 0 <= i < 5 ==> r[i] == value
    ensures value != [] && |value| >= num ==> |r| == num
    ensures value != [] && |value| >= num ==> forall i :: 0 <= i < num ==> r[i] == Piece(value, scope, i)
  {
    if value == [] then []
    else if |value| < num then [value, value, value, value, value]
    else seq(num, i requires 0 <= i < num => Piece(value, scope, i))
  }

  /** value[0 if i == 0 else scope[i - 1]:i + scope[i]]. */
  function Piece(value: string, scope: seq<int>, i: nat): string
    requires i < |scope|
  {
    Slice(value, if i == 0 then 0 else scope[i - 1], i + scope[i])
  }

  /** Each piece occurs in the value where its start says: the first at the
      beginning, every later one, non-empty, at the previous sampled
      position. */
  lemma RandomArrayPieces(value: string, num: nat, scope: seq<int>)
    requires value != [] && |value| >= num && SortedSample(scope, |value|, num)
    ensures forall i :: 1 <= i < num ==>
      RandomArray(value, num, scope)[i] != [] && RunAt(value, scope[i - 1], RandomArray(value, num, scope)[i])
    ensures num > 0 ==> RunAt(value, 0, RandomArray(value, num, scope)[0])
  {
    var r := RandomArray(value, num, scope);
    forall i | 1 <= i < num
      ensures r[i] != [] && RunAt(value, scope[i - 1], r[i])
    {
      assert r[i] == Piece(value, scope, i);
      PieceFromSample(value, scope[i - 1], scope[i], i);
    }
    if num > 0 {
      assert r[0] == Piece(value, scope, 0);
    }
  }

  /** A piece that starts at one sampled position and ends i past a later
      one is a non-empty run of the value starting at the first. */
  lemma PieceFromSample(value: string, lo: int, hi: int, i: int)
    requires 0 <= lo < hi < |value| && i >= 1
    ensures Slice(value, lo, i + hi) != [] && RunAt(value, lo, Slice(value, lo, i + hi))
  {
  }

  // ----- PlasmaDocument.build_item -----

  /** The first n characters of the alphabet tiled: the item body before
      rotation. */
  function Tiled(a: Alphabet, n: nat): (r: string)
    ensures |r| == n && forall i :: 0 <= i < n ==> r[i] == a[i % 64]
  {
    BuildString(a, n as real)
  }

  /** PlasmaDocument.build_item: num is random.randint(1, length), which
      raises when length = size - len(prefix) is below 1. */
  function BuildItem(a: Alphabet, size: int, prefix: string, num: int): (r: Result<string>)
    requires size - |prefix| >= 1 ==> 1 <= num <= size - |prefix|
    ensures r.Success? <==> size - |prefix| >= 1
    ensures r.Success? && prefix != [] ==>
      r.value == prefix + "-" + Tiled(a, size - |prefix|)[num..] + Tiled(a, size - |prefix|)[..num]
    ensures r.Success? && prefix == [] ==>
      r.value == Tiled(a, size) [num..] + Tiled(a, size)[..num]
  {
    var length := size - |prefix|;
    if length < 1 then Failure("empty range for randrange")
    else
      var body := Repeat(a, Ceil(length as real / 64.0));
      ItemSlices(a, length, num);
      var rotated := Slice(body, num, length) + Slice(body, 0, num);
      if prefix != [] then Success(prefix + "-" + rotated) else Success(rotated)
  }

  /** The two slices build_item takes of ceil(length / 64) copies of the
      alphabet are the two parts of the tiled body. */
  lemma ItemSlices(a: Alphabet, length: nat, num: int)
    requires 1 <= num <= length
    ensures var body := Repeat(a, Ceil(length as real / 64.0));
      Slice(body, num, length) == Tiled(a, length)[num..] && Slice(body, 0, num) == Tiled(a, length)[..num]
  {
    var numSlices := Ceil(length as real / 64.0);
    var body := Repeat(a, numSlices);
    ItemBody(a, length, numSlices);
    var t := Tiled(a, length);
    assert body[..length] == t;
    assert body[num..length] == t[num..];
    assert body[0..num] == t[..num];
  }

  /** ceil(length / 64) copies of the alphabet start with the first length
      tiled characters. */
  lemma ItemBody(a: Alphabet, length: nat, numSlices: int)
    requires numSlices == Ceil(length as real / 64.0)
    ensures length <= |Repeat(a, numSlices)|
    ensures Repeat(a, numSlices)[..length] == Tiled(a, length)
  {
    if numSlices > 0 {
      RepeatLength(a, numSlices);
      forall i | 0 <= i < length
        ensures Repeat(a, numSlices)[i] == a[i % 64]
      {
        RepeatAt(a, numSlices, i);
      }
    }
  }

  /** Rotating a sequence left by k and then by the rest restores it. */
  lemma RotateBack(t: string, k: nat)
    requires k <= |t|
    ensures var b := t[k..] + t[..k]; b[|t| - k..] + b[..|t| - k] == t
  {
    var b := t[k..] + t[..k];
    assert b[|t| - k..] == t[..k];
    assert b[..|t| - k] == t[k..];
  }

  /** An item ends with a rotation of the tiled body, and rotating back
      restores it; with a prefix the item has one character more than size,
      the dash. */
  lemma ItemRotation(a: Alphabet, size: int, prefix: string, num: int)
    requires size - |prefix| >= 1 && 1 <= num <= size - |prefix|
    ensures var item := BuildItem(a, size, prefix, num).value;
      var body := item[|item| - (size - |prefix|)..];
      body[size - |prefix| - num..] + body[..size - |prefix| - num] == Tiled(a, size - |prefix|)
    ensures |BuildItem(a, size, prefix, num).value| == if prefix != [] then size + 1 else size
  {
    var t := Tiled(a, size - |prefix|);
    var head: string := if prefix != [] then prefix + "-" else [];
    ItemValue(a, size, prefix, num, head, t);
    TailRotation(head, t, num);
  }

  /** A built item is the head (the prefix and a dash, if any) followed by
      the rotated tiled body. */
  lemma ItemValue(a: Alphabet, size: int, prefix: string, num: int, head: string, t: string)
    requires size - |prefix| >= 1 && 1 <= num <= size - |prefix|
    requires t == Tiled(a, size - |prefix|)
    requires head == if prefix != [] then prefix + "-" else []
    ensures BuildItem(a, size, prefix, num).Success?
    ensures BuildItem(a, size, prefix, num).value == head + (t[num..] + t[..num])
  {
    var r := BuildItem(a, size, prefix, num);
    if prefix != [] {
      var x, y := t[num..], t[..num];
      assert r.value == prefix + "-" + x + y;
      assert prefix + "-" + x + y == head + (x + y);
    } else {
      assert r.value == t[num..] + t[..num];
    }
  }

  /** Whatever precedes a rotation, the last |t| characters rotated back
      give t. */
  lemma TailRotation(head: string, t: string, k: nat)
    requires k <= |t|
    ensures |head + (t[k..] + t[..k])| == |head| + |t|
    ensures var item := head + (t[k..] + t[..k]);
      var body := item[|item| - |t|..];
      body[|t| - k..] + body[..|t| - k] == t
  {
    var item := head + (t[k..] + t[..k]);
    assert item[|item| - |t|..] == t[k..] + t[..k];
    RotateBack(t, k);
  }
}
