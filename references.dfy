/** The fields of spring/docgen.py that depend on the key's number rather
    than on its alphabet: the capped fields that many documents share, the
    zip code, and the join references of JoinedDocument,
    ExtReverseLookupDocument and RefDocument, each a decimal key taken
    modulo the population it points into. */
module References {

  import opened Arith
  import opened PyFormat
  import opened Keys
  import opened Fields
  import opened Outcomes

  /** ReverseLookupDocument.is_random: every prefix except "n1ql" makes the
      document builders draw randomly. */
  function IsRandom(prefix: string): (r: bool)
    ensures !r <==> prefix == "n1ql"
  {
    prefix != "n1ql"
  }

  /** ReverseLookupDocument.build_email: the alternative email when the
      prefix draws randomly, the plain email otherwise. */
  function ReverseLookupEmail(a: Alphabet, prefix: string, name: int, domain: int): (r: string)
    requires 1 <= name <= 9 && 12 <= domain <= 18
    ensures |r| == 17 && Find(r, '@') == 6 && r[13..] == ".com"
    ensures IsRandom(prefix) ==> r[..6] == a[name..name + 6] && r[7..13] == a[domain..domain + 6]
    ensures !IsRandom(prefix) ==> r[..6] == a[12..18] && r[7..13] == a[18..24]
  {
    if IsRandom(prefix) then BuildAltEmail(a, name, domain)
    else
      var e := BuildEmail(a);
      assert e[..6] == a[12..18] && e[7..13] == a[18..24];
      e
  }

  // ----- capped fields -----

  /** "prefix_numUnique_": what every deterministic capped value starts with. */
  function CappedTag(prefix: string, numUnique: int): string
  {
    prefix + "_" + Str(numUnique) + "_"
  }

  /** ReverseLookupDocument._build_capped: offset is random.randint(1, 9). */
  function BuildCapped(a: Alphabet, prefix: string, seqId: int, numUnique: Pos, offset: int): (r: string)
    requires IsRandom(prefix) ==> 1 <= offset <= 9
    ensures IsRandom(prefix) ==> HexWord(r, 6)
    ensures !IsRandom(prefix) ==>
      |CappedTag(prefix, numUnique)| <= |r| && r[..|CappedTag(prefix, numUnique)|] == CappedTag(prefix, numUnique)
      && ParseInt(r[|CappedTag(prefix, numUnique)|..]) == seqId / numUnique
  {
    if IsRandom(prefix) then a[offset..offset + 6]
    else
      var tag := CappedTag(prefix, numUnique);
      var r := tag + Str(seqId / numUnique);
      StrRoundTrip(seqId / numUnique);
      assert r[|tag|..] == Str(seqId / numUnique);
      r
  }

  /** Deterministic capped values are shared by exactly the ids of one block
      of numUnique consecutive ids. */
  lemma CappedShared(a: Alphabet, prefix: string, s1: int, s2: int, numUnique: Pos)
    requires !IsRandom(prefix)
    ensures BuildCapped(a, prefix, s1, numUnique, 0) == BuildCapped(a, prefix, s2, numUnique, 0)
      <==> s1 / numUnique == s2 / numUnique
  {
  }

  /** ReverseRangeLookupDocument._build_capped: the block index is
      right-justified in twelve columns ('%12s'). */
  function BuildRangeCapped(a: Alphabet, prefix: string, seqId: int, numUnique: Pos, offset: int): (r: string)
    requires IsRandom(prefix) ==> 1 <= offset <= 9
    ensures IsRandom(prefix) ==> HexWord(r, 6)
    ensures !IsRandom(prefix) ==>
      |CappedTag(prefix, numUnique)| <= |r| && r[..|CappedTag(prefix, numUnique)|] == CappedTag(prefix, numUnique)
      && ParseInt(StripLeft(r[|CappedTag(prefix, numUnique)|..], ' ')) == seqId / numUnique
    ensures !IsRandom(prefix) && 0 <= seqId / numUnique < Pow10(12) ==>
      |r| == |CappedTag(prefix, numUnique)| + 12
  {
    if IsRandom(prefix) then a[offset..offset + 6]
    else
      var tag := CappedTag(prefix, numUnique);
      var index := Str(seqId / numUnique);
      var r := tag + PadLeft(index, 12, ' ');
      assert r[|tag|..] == PadLeft(index, 12, ' ');
      PaddedIndex(seqId / numUnique);
      r
  }

  /** '%12s' of a block index strips back to the index, and is exactly
      twelve columns for an index below 10^12. */
  lemma PaddedIndex(k: int)
    ensures ParseInt(StripLeft(PadLeft(Str(k), 12, ' '), ' ')) == k
    ensures 0 <= k < Pow10(12) ==> |PadLeft(Str(k), 12, ' ')| == 12
  {
    StripPadLeft(Str(k), 12, ' ');
    StrRoundTrip(k);
    if 0 <= k < Pow10(12) {
      DigitsLength(k, 12);
    }
  }

  /** The range field of id n is the capped value of id n + distance * 100:
      its block index is n's plus the distance, so a range query from one
      to the other spans distance blocks. */
  lemma RangeCappedDistance(a: Alphabet, prefix: string, n: int, distance: int)
    requires !IsRandom(prefix)
    ensures ParseInt(StripLeft(BuildRangeCapped(a, prefix, n + distance * 100, 100, 0)[|CappedTag(prefix, 100)|..], ' '))
      == n / 100 + distance
  {
    DivModUnique(n + distance * 100, 100, n / 100 + distance, n % 100);
  }

  /** Deterministic range values are shared by the ids of one block. */
  lemma RangeCappedShared(a: Alphabet, prefix: string, s1: int, s2: int, numUnique: Pos)
    requires !IsRandom(prefix)
    ensures BuildRangeCapped(a, prefix, s1, numUnique, 0) == BuildRangeCapped(a, prefix, s2, numUnique, 0)
      <==> s1 / numUnique == s2 / numUnique
  {
  }

  /** ProfileDocument._build_capped: the inherited value without '_'. */
  function BuildProfileCapped(a: Alphabet, prefix: string, seqId: int, numUnique: Pos, offset: int): (r: string)
    requires IsRandom(prefix) ==> 1 <= offset <= 9
    ensures '_' !in r
    ensures IsRandom(prefix) ==> r == BuildCapped(a, prefix, seqId, numUnique, offset)
    ensures !IsRandom(prefix) ==> r == Remove(prefix, '_') + Str(numUnique) + Str(seqId / numUnique)
  {
    ProfileRemove(a, prefix, seqId, numUnique, offset);
    Remove(BuildCapped(a, prefix, seqId, numUnique, offset), '_')
  }

  lemma ProfileRemove(a: Alphabet, prefix: string, seqId: int, numUnique: Pos, offset: int)
    requires IsRandom(prefix) ==> 1 <= offset <= 9
    ensures IsRandom(prefix) ==>
      Remove(BuildCapped(a, prefix, seqId, numUnique, offset), '_') == BuildCapped(a, prefix, seqId, numUnique, offset)
    ensures !IsRandom(prefix) ==>
      Remove(BuildCapped(a, prefix, seqId, numUnique, offset), '_')
      == Remove(prefix, '_') + Str(numUnique) + Str(seqId / numUnique)
  {
    var c := BuildCapped(a, prefix, seqId, numUnique, offset);
    if !IsRandom(prefix) {
      assert c == prefix + "_" + Str(numUnique) + "_" + Str(seqId / numUnique);
      RemoveStr(numUnique);
      RemoveStr(seqId / numUnique);
      RemoveTagged(prefix, Str(numUnique), Str(seqId / numUnique));
    } else {
      RemoveHex(c);
    }
  }

  /** Removing '_' from "p_s1_s2" joins the parts when s1 and s2 hold none. */
  lemma RemoveTagged(p: string, s1: string, s2: string)
    requires '_' !in s1 && '_' !in s2
    ensures Remove(p + "_" + s1 + "_" + s2, '_') == Remove(p, '_') + s1 + s2
  {
    var u: string := "_";
    RemoveSingle('_', '_');
    var a1 := p + u;
    var a2 := a1 + s1;
    var a3 := a2 + u;
    assert p + "_" + s1 + "_" + s2 == a3 + s2;
    RemoveConcat(p, u, '_');
    assert Remove(a1, '_') == Remove(p, '_');
    RemoveConcat(a1, s1, '_');
    assert Remove(a2, '_') == Remove(p, '_') + s1;
    RemoveConcat(a2, u, '_');
    assert Remove(a3, '_') == Remove(p, '_') + s1;
    RemoveConcat(a3, s2, '_');
  }

  /** A hex string holds no '_'. */
  lemma RemoveHex(c: string)
    requires IsHexString(c)
    ensures Remove(c, '_') == c
  {
    assert '_' !in c by {
      forall i | 0 <= i < |c|
        ensures c[i] != '_'
      {
        assert IsHexDigit(c[i]);
      }
    }
  }

  lemma RemoveStr(n: int)
    ensures Remove(Str(n), '_') == Str(n)
  {
    assert forall i :: 0 <= i < |Str(n)| ==> Str(n)[i] != '_';
  }

  /** For one numUnique, deterministic profile values are shared by exactly
      the ids of one block. */
  lemma ProfileCappedShared(a: Alphabet, prefix: string, s1: int, s2: int, numUnique: Pos)
    requires !IsRandom(prefix)
    ensures BuildProfileCapped(a, prefix, s1, numUnique, 0) == BuildProfileCapped(a, prefix, s2, numUnique, 0)
      <==> s1 / numUnique == s2 / numUnique
  {
    var head := Remove(prefix, '_') + Str(numUnique);
    var t1, t2 := Str(s1 / numUnique), Str(s2 / numUnique);
    if head + t1 == head + t2 {
      assert t1 == (head + t1)[|head|..];
      assert t2 == (head + t2)[|head|..];
      StrInjective(s1 / numUnique, s2 / numUnique);
    }
  }

  /** ProfileDocument._build_zip: draw is random.randint(70000, 90000). */
  function BuildZip(prefix: string, seqId: int, draw: int): (r: string)
    requires IsRandom(prefix) ==> 70000 <= draw <= 90000
    ensures |r| == 5 && AllDigits(r)
    ensures IsRandom(prefix) ==> ParseInt(r) == draw
    ensures !IsRandom(prefix) ==> 70000 <= ParseInt(r) < 90000
  {
    var zip := if IsRandom(prefix) then draw else 70000 + seqId % 20000;
    StrRoundTrip(zip);
    DigitsLength(zip, 5);
    DigitsLengthAtLeast(zip, 4);
    Str(zip)
  }

  /** Deterministic zip codes repeat every 20000 ids and differ within
      such a run. */
  lemma ZipPeriodic(prefix: string, s1: int, s2: int)
    requires !IsRandom(prefix)
    ensures BuildZip(prefix, s1, 0) == BuildZip(prefix, s1 + 20000, 0)
    ensures 0 < s2 - s1 < 20000 ==> BuildZip(prefix, s1, 0) != BuildZip(prefix, s2, 0)
  {
    ModAddMul(s1, 1, 20000);
    if 0 < s2 - s1 < 20000 {
      NearbyDistinct(s1, s2, 20000);
      StrRoundTrip(70000 + s1 % 20000);
      StrRoundTrip(70000 + s2 % 20000);
    }
  }

  // ----- join references -----

  /** A reference resolves in a population when it is the decimal key of a
      document numbered inside it. */
  predicate Resolves(reference: string, prefix: string, population: int)
  {
    var j := ParseDecimalKey(prefix, reference);
    0 <= j < population && DecimalFmtr(j, prefix) == reference
  }

  /** RefDocument._build_ref_name: the decimal key of the document. */
  function BuildRefName(prefix: string, seqId: int): (r: string)
    ensures ParseDecimalKey(prefix, r) == seqId
  {
    DecimalFmtrRoundTrip(seqId, prefix);
    DecimalFmtr(seqId, prefix)
  }

  /** The reference to document j resolves exactly when j is in the
      population, and it names the RefDocument generated for j. */
  lemma RefNameResolves(prefix: string, j: int, population: int)
    ensures Resolves(BuildRefName(prefix, j), prefix, population) <==> 0 <= j < population
  {
  }

  /** JoinedDocument._build_owner: a 4:1 reference into the first quarter
      of the documents; no quarter is a modulo by zero. */
  function BuildOwner(prefix: string, seqId: int, numDocs: nat): (r: Result<string>)
    ensures r.Success? <==> numDocs >= 4
    ensures r.Success? ==> Resolves(r.value, prefix, numDocs / 4)
    ensures r.Success? ==> ParseDecimalKey(prefix, r.value) % (numDocs / 4) == seqId % (numDocs / 4)
  {
    var quarter := numDocs / 4;
    if quarter == 0 then Failure("integer division or modulo by zero")
    else
      var j := seqId % quarter;
      DivModUnique(j, quarter, 0, j);
      Success(BuildRefName(prefix, j))
  }

  /** Two documents share their owner exactly when their ids are congruent
      modulo a quarter of the documents. */
  lemma OwnerShared(prefix: string, s1: int, s2: int, numDocs: nat)
    requires numDocs >= 4
    ensures BuildOwner(prefix, s1, numDocs) == BuildOwner(prefix, s2, numDocs)
      <==> s1 % (numDocs / 4) == s2 % (numDocs / 4)
  {
    OwnerOf(prefix, s1, numDocs);
    OwnerOf(prefix, s2, numDocs);
  }

  /** With a non-empty quarter the owner is the reference to seq_id modulo
      the quarter. */
  lemma OwnerOf(prefix: string, seqId: int, numDocs: nat)
    requires numDocs >= 4
    ensures BuildOwner(prefix, seqId, numDocs) == Success(BuildRefName(prefix, seqId % (numDocs / 4)))
  {
  }

  /** The ids 11, 19, 23 and 29 past seqId, modulo the population. */
  function Offsets4(seqId: int, population: Pos): (r: seq<int>)
    ensures |r| == 4 && forall i :: 0 <= i < 4 ==> 0 <= r[i] < population
  {
    [(seqId + 11) % population, (seqId + 19) % population,
     (seqId + 23) % population, (seqId + 29) % population]
  }

  /** Two ids closer than the population have different remainders. */
  lemma NearbyDistinct(u: int, v: int, m: Pos)
    requires 0 < v - u < m
    ensures u % m != v % m
  {
    if u % m == v % m {
      SameRemainder(v, u, m);
      SmallMultipleIsZero(v / m - u / m, m);
    }
  }

  /** A population above 18 keeps the four references apart. */
  lemma Offsets4Distinct(seqId: int, population: Pos)
    requires population > 18
    ensures Distinct(Offsets4(seqId, population))
  {
    NearbyDistinct(seqId + 11, seqId + 19, population);
    NearbyDistinct(seqId + 11, seqId + 23, population);
    NearbyDistinct(seqId + 11, seqId + 29, population);
    NearbyDistinct(seqId + 19, seqId + 23, population);
    NearbyDistinct(seqId + 19, seqId + 29, population);
    NearbyDistinct(seqId + 23, seqId + 29, population);
  }

  /** The decimal keys of a list of ids. */
  function RefNames(prefix: string, ids: seq<int>): (r: seq<string>)
    ensures |r| == |ids| && forall i :: 0 <= i < |ids| ==> ParseDecimalKey(prefix, r[i]) == ids[i]
  {
    seq(|ids|, i requires 0 <= i < |ids| => BuildRefName(prefix, ids[i]))
  }

  /** Distinct ids give distinct keys. */
  lemma RefNamesDistinct(prefix: string, ids: seq<int>)
    requires Distinct(ids)
    ensures forall i, j :: 0 <= i < j < |ids| ==> RefNames(prefix, ids)[i] != RefNames(prefix, ids)[j]
  {
  }

  /** JoinedDocument._build_categories: four references into the
      categories; no categories is a modulo by zero. */
  function BuildCategories(prefix: string, seqId: int, numCategories: nat): (r: Result<seq<string>>)
    ensures r.Success? <==> numCategories > 0
    ensures r.Success? ==> |r.value| == 4
    ensures r.Success? ==> forall i :: 0 <= i < 4 ==> Resolves(r.value[i], prefix, numCategories)
  {
    if numCategories == 0 then Failure("integer division or modulo by zero")
    else Success(RefNames(prefix, Offsets4(seqId, numCategories)))
  }

  /** ExtReverseLookupDocument._build_topics: four references into the
      joined documents. */
  function BuildTopics(prefix: string, seqId: int, numDocs: nat): (r: Result<seq<string>>)
    ensures r.Success? <==> numDocs > 0
    ensures r.Success? ==> |r.value| == 4
    ensures r.Success? ==> forall i :: 0 <= i < 4 ==> Resolves(r.value[i], prefix, numDocs)
  {
    if numDocs == 0 then Failure("integer division or modulo by zero")
    else Success(RefNames(prefix, Offsets4(seqId, numDocs)))
  }

  /** With more than 18 categories (documents) the four categories (topics)
      of a document are four different ones. */
  lemma CategoriesTopicsDistinct(prefix: string, seqId: int, population: nat)
    requires population > 18
    ensures forall i, j :: 0 <= i < j < 4 ==>
      BuildCategories(prefix, seqId, population).value[i] != BuildCategories(prefix, seqId, population).value[j]
    ensures BuildTopics(prefix, seqId, population) == BuildCategories(prefix, seqId, population)
  {
    Offsets4Distinct(seqId, population);
    RefNamesDistinct(prefix, Offsets4(seqId, population));
  }

  /** JoinedDocument._build_user: reply idx references document
      seqId + idx + 537. */
  function BuildUser(prefix: string, seqId: int, idx: int, numDocs: Pos): (r: string)
    ensures Resolves(r, prefix, numDocs)
    ensures ParseDecimalKey(prefix, r) == (seqId + idx + 537) % numDocs
  {
    BuildRefName(prefix, (seqId + idx + 537) % numDocs)
  }

  /** JoinedDocument._build_replies: one user per reply; with no documents
      any reply is a modulo by zero. */
  function BuildReplies(prefix: string, seqId: int, numReplies: nat, numDocs: nat): (r: Result<seq<string>>)
    ensures r.Success? <==> numReplies == 0 || numDocs > 0
    ensures r.Success? ==> |r.value| == numReplies
    ensures r.Success? ==> forall i :: 0 <= i < numReplies ==> Resolves(r.value[i], prefix, numDocs)
  {
    if numReplies == 0 then Success([])
    else if numDocs == 0 then Failure("integer division or modulo by zero")
    else Success(seq(numReplies, idx requires 0 <= idx < numReplies => BuildUser(prefix, seqId, idx, numDocs)))
  }

  /** No more replies than documents: every reply has a different user. */
  lemma RepliesDistinct(prefix: string, seqId: int, numReplies: nat, numDocs: nat)
    requires 0 < numReplies <= numDocs
    ensures forall i, j :: 0 <= i < j < numReplies ==>
      BuildReplies(prefix, seqId, numReplies, numDocs).value[i] != BuildReplies(prefix, seqId, numReplies, numDocs).value[j]
  {
    var r := BuildReplies(prefix, seqId, numReplies, numDocs).value;
    forall i, j | 0 <= i < j < numReplies
      ensures r[i] != r[j]
    {
      assert r[i] == BuildUser(prefix, seqId, i, numDocs) && r[j] == BuildUser(prefix, seqId, j, numDocs);
      UsersDistinct(prefix, seqId, i, j, numDocs);
    }
  }

  /** Two reply indexes closer than num_docs name different users. */
  lemma UsersDistinct(prefix: string, seqId: int, i: int, j: int, numDocs: Pos)
    requires 0 < j - i < numDocs
    ensures BuildUser(prefix, seqId, i, numDocs) != BuildUser(prefix, seqId, j, numDocs)
  {
    NearbyDistinct(seqId + i + 537, seqId + j + 537, numDocs);
  }
}
