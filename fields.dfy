/** The document field builders of spring/docgen.py (String, Document and
    JoinedDocument's title): every field is a fixed slice of a 64-character
    alphabet derived from the key, or a small number read from one of its
    hex digits; the body tiles the alphabet to the requested size. */
module Fields {

  import opened Arith
  import opened PyFormat
  import opened Keys

  /** Two md5 hex digests side by side: 64 hex characters. */
  type Alphabet = s: string | |s| == 64 && IsHexString(s) witness Fill('0', 64)

  /** String._build_alphabet: the digest of the key, then the digest of the
      key reversed. */
  function BuildAlphabet(md5: Digest, key: string): (r: Alphabet)
    ensures |r| == 64 && IsHexString(r)
    ensures IsHexDigest(r[..32]) && IsHexDigest(r[32..])
  {
    md5(key) + md5(Reverse(key))
  }

  /** The first half of the alphabet is the key's digest, the second the
      reversed key's; a palindromic key repeats its digest. */
  lemma AlphabetHalves(md5: Digest, key: string)
    ensures BuildAlphabet(md5, key)[..32] == md5(key)
    ensures BuildAlphabet(md5, key)[32..] == md5(Reverse(key))
    ensures Reverse(key) == key ==> BuildAlphabet(md5, key)[32..] == BuildAlphabet(md5, key)[..32]
  {
  }

  /** int(c, 16) for a lower-case hex digit. */
  function HexValue(c: char): (r: nat)
    requires IsHexDigit(c)
    ensures r < 16
    ensures r < 10 <==> '0' <= c <= '9'
  {
    if '0' <= c <= '9' then c as int - '0' as int else c as int - 'a' as int + 10
  }

  /** Different hex digits have different values, so int(c, 16) maps the
      sixteen digits one to one onto [0, 16). */
  lemma HexValueInjective(c: char, d: char)
    requires IsHexDigit(c) && IsHexDigit(d) && c != d
    ensures HexValue(c) != HexValue(d)
  {
  }

  // ----- the body -----

  /** String._build_string: int(length) characters of the alphabet repeated
      ceil(length / 64) times. */
  function BuildString(a: Alphabet, length: real): (r: string)
    ensures |r| == (if length >= 0.0 then length.Floor else 0)
    ensures forall i :: 0 <= i < |r| ==> r[i] == a[i % 64]
  {
    var lengthInt := Trunc(length);
    var numSlices := Ceil(length / 64.0);
    var body := Repeat(a, numSlices);
    if numSlices > 0 then
      RepeatLength(a, numSlices);
      assert lengthInt <= |body|;
      forall i | 0 <= i < |body|
        ensures body[i] == a[i % 64]
      {
        RepeatAt(a, numSlices, i);
      }
      Prefix(body, lengthInt)
    else
      Prefix(body, lengthInt)
  }

  /** Document._size: no body below the overhead, otherwise the room above
      the overhead scaled by a variation coefficient drawn from
      [0.75, 1.25]. */
  function DocumentSize(avgSize: int, overhead: nat, coeff: real): (r: real)
    requires 0.75 <= coeff <= 1.25
    ensures avgSize <= overhead ==> r == 0.0
    ensures avgSize > overhead ==>
      0.75 * (avgSize - overhead) as real <= r <= 1.25 * (avgSize - overhead) as real
  {
    if avgSize <= overhead then 0.0 else coeff * (avgSize - overhead) as real
  }

  /** ReverseLookupDocument._size: the room above the overhead, negative
      for small documents. */
  function ReverseLookupSize(avgSize: int, overhead: nat): (r: int)
    ensures r <= 0 <==> avgSize <= overhead
    ensures r < avgSize || overhead == 0
  {
    avgSize - overhead
  }

  const DOCUMENT_OVERHEAD: nat := 205
  const REVERSE_LOOKUP_OVERHEAD: nat := 420
  const REVERSE_RANGE_OVERHEAD: nat := 480
  const EXT_REVERSE_LOOKUP_OVERHEAD: nat := 500
  const ARRAY_INDEXING_OVERHEAD: nat := 530
  const PROFILE_OVERHEAD: nat := 390
  const IMPORT_EXPORT_OVERHEAD: nat := 1022

  /** A document no larger than its overhead gets an empty body, whichever
      sizing rule applies; a larger reverse-lookup document gets exactly the
      room above its overhead. */
  lemma SmallBodyEmpty(a: Alphabet, avgSize: int, overhead: nat, coeff: real)
    requires 0.75 <= coeff <= 1.25
    ensures avgSize <= overhead ==> BuildString(a, DocumentSize(avgSize, overhead, coeff)) == []
    ensures avgSize <= overhead ==> BuildString(a, ReverseLookupSize(avgSize, overhead) as real) == []
    ensures avgSize > overhead ==>
      |BuildString(a, ReverseLookupSize(avgSize, overhead) as real)| == avgSize - overhead
  {
  }

  /** String.next: the body for the key, avg_size characters long. */
  function StringNext(md5: Digest, key: Key, avgSize: int): (r: string)
    ensures |r| == (if avgSize >= 0 then avgSize else 0)
    ensures forall i :: 0 <= i < |r| ==> r[i] == BuildAlphabet(md5, KeyString(key, md5))[i % 64]
  {
    BuildString(BuildAlphabet(md5, KeyString(key, md5)), avgSize as real)
  }

  // ----- slices of the alphabet -----

  /** A hex word of the given length. */
  predicate HexWord(s: string, n: nat)
  {
    |s| == n && IsHexString(s)
  }

  /** A six-character word of the alphabet holds no separator. */
  lemma NoSeparator(a: Alphabet, start: nat, c: char)
    requires start + 6 <= 64 && !IsHexDigit(c)
    ensures c !in a[start..start + 6]
  {
    var w := a[start..start + 6];
    forall i | 0 <= i < |w|
      ensures w[i] != c
    {
      assert w[i] == a[start + i];
    }
  }

  /** Document._build_name: two six-character words and a space. */
  function BuildName(a: Alphabet): (r: string)
    ensures |r| == 13 && Find(r, ' ') == 6
    ensures HexWord(r[..6], 6) && HexWord(r[7..], 6)
  {
    var r := a[..6] + " " + a[6..12];
    assert r[..6] == a[..6] && r[7..] == a[6..12];
    NoSeparator(a, 0, ' ');
    FindAfter(a[..6], ' ', a[6..12]);
    r
  }

  /** Document._build_email: word@word.com. */
  function BuildEmail(a: Alphabet): (r: string)
    ensures |r| == 17 && Find(r, '@') == 6 && r[13..] == ".com"
    ensures HexWord(r[..6], 6) && HexWord(r[7..13], 6)
  {
    var r := a[12..18] + "@" + a[18..24] + ".com";
    assert r[..6] == a[12..18] && r[7..13] == a[18..24];
    NoSeparator(a, 12, '@');
    FindAfter(a[12..18], '@', a[18..24] + ".com");
    assert r == a[12..18] + "@" + (a[18..24] + ".com");
    r
  }

  /** Document._build_alt_email: like the email, from the two words that
      start at the drawn offsets name in [1, 9] and domain in [12, 18]. */
  function BuildAltEmail(a: Alphabet, name: int, domain: int): (r: string)
    requires 1 <= name <= 9 && 12 <= domain <= 18
    ensures |r| == 17 && Find(r, '@') == 6 && r[13..] == ".com"
    ensures r[..6] == a[name..name + 6] && r[7..13] == a[domain..domain + 6]
  {
    var r := a[name..name + 6] + "@" + a[domain..domain + 6] + ".com";
    assert r[..6] == a[name..name + 6] && r[7..13] == a[domain..domain + 6];
    NoSeparator(a, name, '@');
    FindAfter(a[name..name + 6], '@', a[domain..domain + 6] + ".com");
    assert r == a[name..name + 6] + "@" + (a[domain..domain + 6] + ".com");
    r
  }

  /** With the domain offset 18 the alternative email has the email's
      domain, and with 12 its domain is the email's user name. */
  lemma AltEmailDomains(a: Alphabet, name: int)
    requires 1 <= name <= 9
    ensures BuildAltEmail(a, name, 18)[6..] == BuildEmail(a)[6..]
    ensures BuildAltEmail(a, name, 12)[7..13] == BuildEmail(a)[..6]
  {
  }

  function BuildCity(a: Alphabet): (r: string)
    ensures HexWord(r, 6)
  {
    a[24..30]
  }

  function BuildRealm(a: Alphabet): (r: string)
    ensures HexWord(r, 6)
  {
    a[30..36]
  }

  function BuildCountry(a: Alphabet): (r: string)
    ensures HexWord(r, 6)
  {
    a[42..48]
  }

  function BuildCounty(a: Alphabet): (r: string)
    ensures HexWord(r, 6)
  {
    a[48..54]
  }

  function BuildStreet(a: Alphabet): (r: string)
    ensures HexWord(r, 8)
  {
    a[54..62]
  }

  /** JoinedDocument._build_title: the first 32 characters. */
  function BuildTitle(a: Alphabet): (r: string)
    ensures HexWord(r, 32)
  {
    a[..32]
  }

  /** A joined document's title is the md5 digest of its own key. */
  lemma TitleIsDigest(md5: Digest, key: string)
    ensures BuildTitle(BuildAlphabet(md5, key)) == md5(key)
  {
  }

  // ----- numbers read from one hex digit -----

  /** Document._build_category: digit 41 modulo 3. */
  function BuildCategory(a: Alphabet): (r: int)
    ensures 0 <= r < 3
  {
    HexValue(a[41]) % 3
  }

  /** Document._build_year: 1985 plus digit 62. */
  function BuildYear(a: Alphabet): (r: int)
    ensures 1985 <= r <= 2000
  {
    1985 + HexValue(a[62])
  }

  /** The seconds handed to time.gmtime in Document._build_gmtime: a whole
      number of 396-day periods, from 0 to 11, chosen by digit 63. */
  function GmtimeSeconds(a: Alphabet): (r: int)
    ensures r % (396 * 24 * 3600) == 0
    ensures 0 <= r <= 11 * (396 * 24 * 3600)
  {
    var k := HexValue(a[63]) % 12;
    DivModUnique(396 * 24 * 3600 * k, 396 * 24 * 3600, k, 0);
    MulMonoLeft(k, 11, 396 * 24 * 3600);
    396 * 24 * 3600 * k
  }

  /** A position below n is its own remainder, and -1 leaves n - 1. */
  lemma IndexModulo(f: int, n: Pos)
    requires -1 <= f
    ensures 0 <= f < n ==> f % n == f
    ensures f == -1 ==> f % n == n - 1
  {
    if 0 <= f < n {
      DivModUnique(f, n, 0, f);
    } else if f == -1 {
      DivModUnique(f, n, -1, n - 1);
    }
  }

  /** Document._build_state: the position of the first '7' modulo the number
      of states; an alphabet without '7' picks the last state. */
  function StateIndex(a: Alphabet, numStates: Pos): (r: int)
    ensures 0 <= r < numStates
    ensures '7' !in a ==> r == numStates - 1
    ensures '7' in a && Find(a, '7') < numStates ==> r == Find(a, '7') && a[r] == '7'
  {
    IndexModulo(Find(a, '7'), numStates);
    Find(a, '7') % numStates
  }

  /** Document._build_full_state, with the first '8'. */
  function FullStateIndex(a: Alphabet, numStates: Pos): (r: int)
    ensures 0 <= r < numStates
    ensures '8' !in a ==> r == numStates - 1
    ensures '8' in a && Find(a, '8') < numStates ==> r == Find(a, '8') && a[r] == '8'
  {
    IndexModulo(Find(a, '8'), numStates);
    Find(a, '8') % numStates
  }

  // ----- Document.next -----

  /** The fields of Document.next that the model keeps. */
  datatype Doc = Doc(name: string, email: string, altEmail: string, city: string,
                     realm: string, category: int, body: string)

  /** Document.next: coeff is the size variation, name and domain the
      alternative email offsets. */
  function DocumentNext(md5: Digest, key: Key, avgSize: int, coeff: real, name: int, domain: int): (d: Doc)
    requires 0.75 <= coeff <= 1.25 && 1 <= name <= 9 && 12 <= domain <= 18
    ensures avgSize <= DOCUMENT_OVERHEAD ==> d.body == []
    ensures |d.name| == 13 && |d.email| == 17 && |d.altEmail| == 17
    ensures 0 <= d.category < 3
  {
    var a := BuildAlphabet(md5, KeyString(key, md5));
    Doc(BuildName(a), BuildEmail(a), BuildAltEmail(a, name, domain), BuildCity(a),
        BuildRealm(a), BuildCategory(a), BuildString(a, DocumentSize(avgSize, DOCUMENT_OVERHEAD, coeff)))
  }
}
