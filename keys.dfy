/** Keys: a numeric identifier rendered as a twelve-digit string, with an
    optional "prefix-" in front, or as the md5 hex digest of that string
    (spring/docgen.py, decimal_fmtr and Key). */
module Keys {

  import opened PyFormat

  /** The odd prime that the working-set and unordered generators multiply
      or add to spread consecutive indexes over a block. */
  const PRIME: nat := 971

  datatype KeyFormat = Decimal | Hash

  predicate IsHexDigit(c: char)
  {
    '0' <= c <= '9' || 'a' <= c <= 'f'
  }

  predicate IsHexString(s: string)
  {
    forall i :: 0 <= i < |s| ==> IsHexDigit(s[i])
  }

  /** What md5(...).hexdigest() returns: 32 lower-case hex characters. */
  predicate IsHexDigest(s: string)
  {
    |s| == 32 && IsHexString(s)
  }

  /** The md5 digest is not modelled: a Digest is any function that always
      yields 32 hex characters. */
  type Digest = f: string -> string | forall s :: IsHexDigest(f(s))
    witness (s: string) => Fill('0', 32)

  datatype Key = Key(number: int, prefix: string, fmtr: KeyFormat, hit: bool)

  /** How many characters come before the twelve digits: "prefix-" or none. */
  function PrefixWidth(prefix: string): nat
  {
    if prefix != [] then |prefix| + 1 else 0
  }

  /** decimal_fmtr: '%012d' % key, preceded by "prefix-" when the prefix is
      not empty. */
  function DecimalFmtr(key: int, prefix: string): (r: string)
    ensures |r| == PrefixWidth(prefix) + |ZeroPad12(key)|
    ensures r[PrefixWidth(prefix)..] == ZeroPad12(key)
    ensures prefix != [] ==> r[..PrefixWidth(prefix)] == prefix + "-"
  {
    var k := ZeroPad12(key);
    if prefix != [] then prefix + "-" + k else k
  }

  /** Reads the identifier back from a decimal key string with a known prefix. */
  function ParseDecimalKey(prefix: string, s: string): int
  {
    var w := PrefixWidth(prefix);
    if |s| >= w then ParseInt(s[w..]) else 0
  }

  lemma DecimalFmtrRoundTrip(key: int, prefix: string)
    ensures ParseDecimalKey(prefix, DecimalFmtr(key, prefix)) == key
  {
    ZeroPad12RoundTrip(key);
  }

  /** For an identifier below 10^12 the key string is exactly "prefix-"
      (or nothing) followed by twelve digits. */
  lemma DecimalFmtrShape(key: int, prefix: string)
    requires 0 <= key < Pow10(12)
    ensures |DecimalFmtr(key, prefix)| == PrefixWidth(prefix) + 12
    ensures AllDigits(DecimalFmtr(key, prefix)[PrefixWidth(prefix)..])
    ensures prefix == [] ==> AllDigits(DecimalFmtr(key, prefix))
  {
    ZeroPad12Width(key);
  }

  /** Distinct identifiers under one prefix never share a key string. */
  lemma DecimalFmtrInjective(m: int, n: int, prefix: string)
    requires DecimalFmtr(m, prefix) == DecimalFmtr(n, prefix)
    ensures m == n
  {
    DecimalFmtrRoundTrip(m, prefix);
    DecimalFmtrRoundTrip(n, prefix);
  }

  /** Key.string. */
  function KeyString(k: Key, md5: Digest): (r: string)
    ensures k.fmtr == Hash ==> IsHexDigest(r)
    ensures k.fmtr == Decimal ==> ParseDecimalKey(k.prefix, r) == k.number
  {
    var s := DecimalFmtr(k.number, k.prefix);
    DecimalFmtrRoundTrip(k.number, k.prefix);
    if k.fmtr == Hash then md5(s) else s
  }

  /** With the decimal format, two keys with one prefix have the same string
      exactly when they have the same identifier. */
  lemma KeyStringInjective(k1: Key, k2: Key, md5: Digest)
    requires k1.fmtr == Decimal && k2.fmtr == Decimal && k1.prefix == k2.prefix
    ensures KeyString(k1, md5) == KeyString(k2, md5) <==> k1.number == k2.number
  {
    if KeyString(k1, md5) == KeyString(k2, md5) {
      DecimalFmtrInjective(k1.number, k2.number, k1.prefix);
    }
  }

  /** The keys a generator yields for a sequence of identifiers. */
  function KeysOf(ids: seq<int>, prefix: string, fmtr: KeyFormat): (r: seq<Key>)
    ensures |r| == |ids|
    ensures forall i :: 0 <= i < |ids| ==> r[i] == Key(ids[i], prefix, fmtr, false)
  {
    seq(|ids|, i requires 0 <= i < |ids| => Key(ids[i], prefix, fmtr, false))
  }
}
