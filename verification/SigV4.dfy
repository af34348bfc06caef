/** The canonical request of AWS Signature Version 4: percent-encoding, the canonical query string and path. A Go
    string is any sequence of bytes; what counts of it is the text that a range loop sees. */
module SigV4 {
  import opened Ordering
  import opened Text

  // ---------------------------------------------------------------- percent-encoding

  /** The unreserved characters, RFC 3986 section 2.3. */
  predicate Unreserved(c: char) {
    'A' <= c <= 'Z' || 'a' <= c <= 'z' || '0' <= c <= '9' || c == '-' || c == '_' || c == '.' || c == '~'
  }

  const HEX := "0123456789ABCDEF"

  /** %02X of one byte with the percent sign, RFC 3986 section 2.1. */
  function PercentByte(b: byte): string {
    ['%', HEX[b / 16], HEX[b % 16]]
  }

  function PercentBytes(bytes: seq<byte>): string {
    if bytes == [] then "" else PercentByte(bytes[0]) + PercentBytes(bytes[1..])
  }

  function EncodeChar(c: char): string {
    if Unreserved(c) then [c] else PercentBytes(Utf8(c))
  }

  function Encode(s: string): string {
    if s == [] then "" else EncodeChar(s[0]) + Encode(s[1..])
  }

  lemma {:induction false} PercentBytesAppend(a: seq<byte>, b: seq<byte>)
    ensures PercentBytes(a + b) == PercentBytes(a) + PercentBytes(b)
  {
    if a == [] {
      assert a + b == b;
    } else {
      hide PercentByte;
      PercentBytesAppend(a[1..], b);
      assert (a + b)[1..] == a[1..] + b;
    }
  }

  /** encodeURI, rune by rune and byte by byte. */
  method EncodeUri(s: seq<byte>) returns (encoded: string)
    ensures encoded == Encode(Decode(s))
  {
    encoded := "";
    var rest := s;
    while rest != []
      invariant encoded + Encode(Decode(rest)) == Encode(Decode(s))
      decreases |rest|
    {
      ghost var done, todo := encoded, rest;
      var (c, n) := FirstRune(rest);
      rest := rest[n..];
      var one := [c];
      if !Unreserved(c) {
        one := EncodeBytes(c);
      }
      EncodeNext(todo);
      Assoc(done, one, Encode(Decode(rest)));
      encoded := encoded + one;
    }
  }

  lemma EncodeNext(rest: seq<byte>)
    requires rest != []
    ensures var (c, n) := FirstRune(rest); Encode(Decode(rest)) == EncodeChar(c) + Encode(Decode(rest[n..]))
  {
    var (c, n) := FirstRune(rest);
    assert Decode(rest)[0] == c && Decode(rest)[1..] == Decode(rest[n..]);
  }

  method EncodeBytes(c: char) returns (escaped: string)
    ensures escaped == PercentBytes(Utf8(c))
  {
    var bytes := Utf8(c);
    escaped := "";
    for j := 0 to |bytes|
      invariant escaped == PercentBytes(bytes[..j])
    {
      PercentBytesAppend(bytes[..j], [bytes[j]]);
      assert bytes[..j + 1] == bytes[..j] + [bytes[j]];
      assert PercentBytes([bytes[j]]) == PercentByte(bytes[j]);
      escaped := escaped + PercentByte(bytes[j]);
    }
    assert bytes[..|bytes|] == bytes;
  }

  // ---------------------------------------------------------------- decoding

  function HexValue(c: char): nat {
    if '0' <= c <= '9' then c as int - '0' as int
    else if 'A' <= c <= 'F' then c as int - 'A' as int + 10
    else 0
  }

  /** The bytes a percent-encoded text stands for. */
  function Unescape(s: string): seq<int> {
    if s == [] then []
    else if s[0] == '%' && |s| >= 3 then [HexValue(s[1]) * 16 + HexValue(s[2])] + Unescape(s[3..])
    else [s[0] as int] + Unescape(s[1..])
  }

  lemma {:induction false} UnescapePercent(bytes: seq<byte>, rest: string)
    ensures Unescape(PercentBytes(bytes) + rest) == bytes + Unescape(rest)
  {
    if bytes == [] {
      assert PercentBytes(bytes) + rest == rest;
      assert bytes + Unescape(rest) == Unescape(rest);
    } else {
      hide PercentByte, Unescape;
      UnescapePercent(bytes[1..], rest);
      UnescapeByte(bytes[0], PercentBytes(bytes[1..]) + rest);
      Assoc(PercentByte(bytes[0]), PercentBytes(bytes[1..]), rest);
      FirstByte(bytes, Unescape(rest));
    }
  }

  lemma FirstByte(bytes: seq<byte>, rest: seq<int>)
    requires bytes != []
    ensures bytes + rest == [bytes[0]] + (bytes[1..] + rest)
  {
  }

  lemma HexOf(d: nat)
    requires d < 16
    ensures HexValue(HEX[d]) == d
  {
  }

  lemma UnescapeByte(b: byte, rest: string)
    ensures Unescape(PercentByte(b) + rest) == [b as int] + Unescape(rest)
  {
    HexOf(b / 16);
    HexOf(b % 16);
    assert (PercentByte(b) + rest)[3..] == rest;
  }

  /** Encoding one character that is not a percent sign, or keeping it, gives its UTF-8 bytes back. */
  lemma UnescapeChar(c: char, text: string, rest: string)
    requires text == EncodeChar(c) || (text == [c] && c == '/')
    ensures Unescape(text + rest) == Utf8(c) + Unescape(rest)
  {
    if text == [c] {
      assert ([c] + rest)[1..] == rest;
    } else {
      UnescapePercent(Utf8(c), rest);
    }
  }

  /** Percent-encoding is invertible: unescaping gives the UTF-8 bytes of the original. */
  lemma {:induction false} UnescapeEncode(s: string)
    ensures Unescape(Encode(s)) == Utf8Bytes(s)
  {
    if s != [] {
      UnescapeEncode(s[1..]);
      UnescapeChar(s[0], EncodeChar(s[0]), Encode(s[1..]));
    }
  }

  lemma EncodeTextInjective(a: string, b: string)
    requires Encode(a) == Encode(b)
    ensures a == b
  {
    UnescapeEncode(a);
    UnescapeEncode(b);
    Utf8Injective(a, b);
  }

  /** Two strings have the same encoding if and only if a range loop sees the same text in them. */
  lemma EncodeInjective(a: seq<byte>, b: seq<byte>)
    ensures Encode(Decode(a)) == Encode(Decode(b)) <==> Decode(a) == Decode(b)
  {
    if Encode(Decode(a)) == Encode(Decode(b)) { EncodeTextInjective(Decode(a), Decode(b)); }
  }

  predicate EncodedChar(c: char) {
    Unreserved(c) || c == '%'
  }

  lemma {:induction false} PercentIsClean(bytes: seq<byte>)
    ensures forall i :: 0 <= i < |PercentBytes(bytes)| ==> EncodedChar(PercentBytes(bytes)[i])
  {
    if bytes != [] {
      PercentIsClean(bytes[1..]);
    }
  }

  /** Encoded text consists of unreserved characters and percent signs: no '&', '=' or '/'. */
  lemma {:induction false} EncodeIsClean(s: string)
    ensures forall i :: 0 <= i < |Encode(s)| ==> EncodedChar(Encode(s)[i])
    ensures Free(Encode(s), '&') && Free(Encode(s), '=') && Free(Encode(s), '/')
  {
    if s != [] {
      EncodeIsClean(s[1..]);
      PercentIsClean(Utf8(s[0]));
    }
  }

  // ---------------------------------------------------------------- canonical query string

  /** A key and a value as bytes, and as the texts seen in them. */
  type RawPair = (seq<byte>, seq<byte>)

  type Pair = (string, string)

  function DecodePair(p: RawPair): Pair {
    (Decode(p.0), Decode(p.1))
  }

  function DecodeAll(raw: seq<RawPair>): (out: seq<Pair>)
    ensures |out| == |raw| && forall i :: 0 <= i < |raw| ==> out[i] == DecodePair(raw[i])
  {
    seq(|raw|, i requires 0 <= i < |raw| => DecodePair(raw[i]))
  }

  function EncodePair(p: Pair): Pair {
    (Encode(p.0), Encode(p.1))
  }

  function EncodeAll(pairs: seq<Pair>): (out: seq<Pair>)
    ensures |out| == |pairs| && forall i :: 0 <= i < |pairs| ==> out[i] == EncodePair(pairs[i])
  {
    seq(|pairs|, i requires 0 <= i < |pairs| => EncodePair(pairs[i]))
  }

  /** By key, then by value. */
  predicate PairLe(a: Pair, b: Pair) {
    if a.0 != b.0 then LexLe(a.0, b.0) else LexLe(a.1, b.1)
  }

  ghost predicate SortedPairs(pairs: seq<Pair>) {
    forall i, j :: 0 <= i < j < |pairs| ==> PairLe(pairs[i], pairs[j])
  }

  function Rendered(pairs: seq<Pair>): string {
    if pairs == [] then ""
    else if |pairs| == 1 then pairs[0].0 + "=" + pairs[0].1
    else pairs[0].0 + "=" + pairs[0].1 + "&" + Rendered(pairs[1..])
  }

  /** How often a query map holds a key with a value. */
  function Occurrences(values: map<seq<byte>, seq<seq<byte>>>, p: RawPair): nat {
    if p.0 in values then multiset(values[p.0])[p.1] else 0
  }

  /** The pairs of the map in some order. */
  ghost predicate Lists(values: map<seq<byte>, seq<seq<byte>>>, raw: seq<RawPair>) {
    forall p: RawPair :: multiset(raw)[p] == Occurrences(values, p)
  }

  /** Listed in some order each, the two maps show the same multiset of texts. */
  ghost predicate SameTexts(a: map<seq<byte>, seq<seq<byte>>>, b: map<seq<byte>, seq<seq<byte>>>) {
    exists rawA, rawB :: Lists(a, rawA) && Lists(b, rawB) && multiset(DecodeAll(rawA)) == multiset(DecodeAll(rawB))
  }

  /** out renders the map's encoded pairs in sorted order. */
  ghost predicate IsCanonical(values: map<seq<byte>, seq<seq<byte>>>, out: string) {
    exists raw: seq<RawPair>, pairs: seq<Pair> :: CanonicalFrom(values, raw, pairs, out)
  }

  ghost predicate CanonicalFrom(values: map<seq<byte>, seq<seq<byte>>>, raw: seq<RawPair>, pairs: seq<Pair>, out: string) {
    && Lists(values, raw)
    && multiset(pairs) == multiset(EncodeAll(DecodeAll(raw))) && SortedPairs(pairs)
    && out == Rendered(pairs)
  }

  // ---------------------------------------------------------------- sorting

  lemma PairTotal(a: Pair, b: Pair)
    ensures PairLe(a, b) || PairLe(b, a)
  {
    LexTotal(a.0, b.0);
    LexTotal(a.1, b.1);
  }

  lemma PairAntisymmetric(a: Pair, b: Pair)
    requires PairLe(a, b) && PairLe(b, a)
    ensures a == b
  {
    if a.0 != b.0 { LexAntisymmetric(a.0, b.0); } else { LexAntisymmetric(a.1, b.1); }
  }

  lemma PairTransitive(a: Pair, b: Pair, c: Pair)
    requires PairLe(a, b) && PairLe(b, c)
    ensures PairLe(a, c)
  {
    if a.0 == b.0 && b.0 == c.0 { LexTransitive(a.1, b.1, c.1); }
    else {
      if a.0 == c.0 { LexAntisymmetric(a.0, b.0); }
      if a.0 != b.0 && b.0 != c.0 { LexTransitive(a.0, b.0, c.0); }
    }
  }

  lemma PairOrder()
    ensures IsTotalOrder(PairLe)
  {
    forall a, b ensures PairLe(a, b) || PairLe(b, a) { PairTotal(a, b); }
    forall a, b, c | PairLe(a, b) && PairLe(b, c) ensures PairLe(a, c) { PairTransitive(a, b, c); }
  }

  /** sort.Slice by key and value. */
  method SortPairs(items: seq<Pair>) returns (sorted: seq<Pair>)
    ensures SortedPairs(sorted) && multiset(sorted) == multiset(items)
  {
    PairOrder();
    sorted := Sort(items, PairLe);
  }

  /** Sorting is unique: two sorted sequences with the same elements are equal. */
  lemma {:induction false} SortedUnique(a: seq<Pair>, b: seq<Pair>)
    requires SortedPairs(a) && SortedPairs(b) && multiset(a) == multiset(b)
    ensures a == b
  {
    if a == [] {
      assert |multiset(b)| == 0;
    } else {
      assert a[0] in multiset(b) && b != [];
      assert b[0] in multiset(a);
      FirstIsLeast(a, b[0]);
      FirstIsLeast(b, a[0]);
      PairAntisymmetric(a[0], b[0]);
      assert a == [a[0]] + a[1..] && b == [b[0]] + b[1..];
      assert multiset(a[1..]) == multiset(a) - multiset{a[0]};
      assert multiset(b[1..]) == multiset(b) - multiset{b[0]};
      SortedUnique(a[1..], b[1..]);
    }
  }

  lemma FirstIsLeast(a: seq<Pair>, x: Pair)
    requires SortedPairs(a) && x in a
    ensures PairLe(a[0], x)
  {
    PairTotal(a[0], a[0]);
    var i :| 0 <= i < |a| && a[i] == x;
  }

  // ---------------------------------------------------------------- rendering is injective

  ghost predicate Clean(pairs: seq<Pair>) {
    forall i :: 0 <= i < |pairs| ==>
      Free(pairs[i].0, '&') && Free(pairs[i].0, '=') && Free(pairs[i].1, '&') && Free(pairs[i].1, '=')
  }

  function Field(p: Pair): string {
    p.0 + "=" + p.1
  }

  function Fields(pairs: seq<Pair>): (out: seq<string>)
    ensures |out| == |pairs| && forall i :: 0 <= i < |pairs| ==> out[i] == Field(pairs[i])
  {
    seq(|pairs|, i requires 0 <= i < |pairs| => Field(pairs[i]))
  }

  lemma {:induction false} RenderedIsJoin(pairs: seq<Pair>)
    ensures Rendered(pairs) == Join(Fields(pairs), '&')
  {
    if |pairs| > 1 {
      RenderedIsJoin(pairs[1..]);
      assert Fields(pairs)[1..] == Fields(pairs[1..]);
    }
  }

  lemma FieldInjective(p: Pair, q: Pair)
    requires Free(p.0, '=') && Free(q.0, '=') && Field(p) == Field(q)
    ensures p == q
  {
    var f := Field(p);
    assert f[|p.0|] == '=' && f[|q.0|] == '=';
    assert |p.0| == |q.0|;
    assert p.0 == f[..|p.0|] && q.0 == f[..|q.0|];
    assert p.1 == f[|p.0| + 1..] && q.1 == f[|q.0| + 1..];
  }

  lemma RenderedInjective(a: seq<Pair>, b: seq<Pair>)
    requires Clean(a) && Clean(b) && Rendered(a) == Rendered(b)
    ensures a == b
  {
    RenderedIsJoin(a);
    RenderedIsJoin(b);
    if a != [] && b != [] {
      SplitJoin(Fields(a), '&');
      SplitJoin(Fields(b), '&');
      forall i | 0 <= i < |a| ensures a[i] == b[i] {
        assert Fields(a)[i] == Fields(b)[i];
        FieldInjective(a[i], b[i]);
      }
    } else if a != [] {
      NotEmpty(a);
    } else if b != [] {
      NotEmpty(b);
    }
  }

  lemma NotEmpty(a: seq<Pair>)
    requires a != []
    ensures Rendered(a) != ""
  {
  }

  // ---------------------------------------------------------------- encoding a multiset of pairs

  lemma EncodePairInjective(p: Pair, q: Pair)
    requires EncodePair(p) == EncodePair(q)
    ensures p == q
  {
    EncodeTextInjective(p.0, q.0);
    EncodeTextInjective(p.1, q.1);
  }

  lemma {:induction false} EncodedCount(raw: seq<Pair>, p: Pair)
    ensures multiset(EncodeAll(raw))[EncodePair(p)] == multiset(raw)[p]
  {
    if raw != [] {
      var last := raw[|raw| - 1];
      EncodedCount(raw[..|raw| - 1], p);
      assert raw == raw[..|raw| - 1] + [last];
      assert EncodeAll(raw) == EncodeAll(raw[..|raw| - 1]) + [EncodePair(last)];
      if EncodePair(last) == EncodePair(p) { EncodePairInjective(last, p); }
    }
  }

  /** The same pairs have the same encoded pairs. */
  lemma EncodedSame(a: seq<Pair>, b: seq<Pair>)
    requires multiset(a) == multiset(b)
    ensures multiset(EncodeAll(a)) == multiset(EncodeAll(b))
  {
    EncodedIncluded(a, b);
    EncodedIncluded(b, a);
  }

  /** And only the same pairs have them. */
  lemma EncodedOnlySame(a: seq<Pair>, b: seq<Pair>)
    requires multiset(EncodeAll(a)) == multiset(EncodeAll(b))
    ensures multiset(a) == multiset(b)
  {
    forall p ensures multiset(a)[p] == multiset(b)[p] {
      EncodedCount(a, p);
      EncodedCount(b, p);
    }
  }

  lemma EncodedIncluded(a: seq<Pair>, b: seq<Pair>)
    requires multiset(a) == multiset(b)
    ensures multiset(EncodeAll(a)) <= multiset(EncodeAll(b))
  {
    forall e ensures multiset(EncodeAll(a))[e] <= multiset(EncodeAll(b))[e] {
      if e in multiset(EncodeAll(a)) {
        var i :| 0 <= i < |a| && EncodeAll(a)[i] == e;
        EncodedCount(a, a[i]);
        EncodedCount(b, a[i]);
      }
    }
  }

  lemma EncodeAllIsClean(raw: seq<Pair>, pairs: seq<Pair>)
    requires multiset(pairs) == multiset(EncodeAll(raw))
    ensures Clean(pairs)
  {
    forall i | 0 <= i < |pairs|
      ensures Free(pairs[i].0, '&') && Free(pairs[i].0, '=') && Free(pairs[i].1, '&') && Free(pairs[i].1, '=')
    {
      assert pairs[i] in multiset(pairs);
      assert pairs[i] in EncodeAll(raw);
      var j :| 0 <= j < |raw| && EncodeAll(raw)[j] == pairs[i];
      EncodeIsClean(raw[j].0);
      EncodeIsClean(raw[j].1);
    }
  }

  // ---------------------------------------------------------------- main results

  /** The order of listing does not matter to the texts. */
  lemma {:induction false} SameRawSameTexts(a: seq<RawPair>, b: seq<RawPair>)
    requires multiset(a) == multiset(b)
    ensures multiset(DecodeAll(a)) == multiset(DecodeAll(b))
    decreases |a|
  {
    assert |a| == |multiset(a)| && |b| == |multiset(b)|;
    if a != [] {
      assert a[0] in multiset(b);
      var i :| 0 <= i < |b| && b[i] == a[0];
      hide DecodeAll;
      var restA := DropOne(a, 0);
      var restB := DropOne(b, i);
      OneLess(multiset(restA), multiset(restB), a[0]);
      SameRawSameTexts(restA, restB);
    }
  }

  lemma OneLess<T>(m: multiset<T>, n: multiset<T>, x: T)
    requires m + multiset{x} == n + multiset{x}
    ensures m == n
  {
    assert m == (m + multiset{x}) - multiset{x} && n == (n + multiset{x}) - multiset{x};
  }

  lemma WithoutOne<T>(s: seq<T>, i: nat)
    requires i < |s|
    ensures multiset(s) == multiset(s[..i] + s[i + 1..]) + multiset{s[i]}
  {
    assert s == s[..i] + [s[i]] + s[i + 1..];
  }

  lemma DropOne(b: seq<RawPair>, i: nat) returns (rest: seq<RawPair>)
    requires i < |b|
    ensures |rest| == |b| - 1
    ensures multiset(b) == multiset(rest) + multiset{b[i]}
    ensures multiset(DecodeAll(b)) == multiset(DecodeAll(rest)) + multiset{DecodePair(b[i])}
  {
    rest := b[..i] + b[i + 1..];
    WithoutOne(b, i);
    WithoutOne(DecodeAll(b), i);
    assert DecodeAll(b)[..i] + DecodeAll(b)[i + 1..] == DecodeAll(rest);
  }

  lemma SameListing(values: map<seq<byte>, seq<seq<byte>>>, a: seq<RawPair>, b: seq<RawPair>)
    requires Lists(values, a) && Lists(values, b)
    ensures multiset(DecodeAll(a)) == multiset(DecodeAll(b))
  {
    forall p: RawPair ensures multiset(a)[p] == multiset(b)[p] {
      assert multiset(a)[p] == Occurrences(values, p);
    }
    SameRawSameTexts(a, b);
  }

  /** Two query maps have equal canonical query strings if and only if they show the same multiset of texts. */
  lemma CanonicalQueryIsExact(a: map<seq<byte>, seq<seq<byte>>>, b: map<seq<byte>, seq<seq<byte>>>,
                              outA: string, outB: string)
    requires IsCanonical(a, outA) && IsCanonical(b, outB)
    ensures outA == outB <==> SameTexts(a, b)
  {
    var rawA, pairsA :| CanonicalFrom(a, rawA, pairsA, outA);
    var rawB, pairsB :| CanonicalFrom(b, rawB, pairsB, outB);
    var textA, textB := DecodeAll(rawA), DecodeAll(rawB);
    EncodeAllIsClean(textA, pairsA);
    EncodeAllIsClean(textB, pairsB);
    if outA == outB {
      RenderedInjective(pairsA, pairsB);
      EncodedOnlySame(textA, textB);
    }
    if SameTexts(a, b) {
      var otherA, otherB :|
        Lists(a, otherA) && Lists(b, otherB) && multiset(DecodeAll(otherA)) == multiset(DecodeAll(otherB));
      SameListing(a, rawA, otherA);
      SameListing(b, rawB, otherB);
      EncodedSame(textA, textB);
      SortedUnique(pairsA, pairsB);
    }
  }

  /** canonicalQueryString: the map is visited in any order, then the encoded pairs are sorted and rendered. */
  method CanonicalQueryString(values: map<seq<byte>, seq<seq<byte>>>) returns (out: string)
    ensures IsCanonical(values, out)
  {
    ghost var raw: seq<RawPair> := [];
    if |values| == 0 {
      assert CanonicalFrom(values, raw, [], "") by {
        assert EncodeAll(DecodeAll(raw)) == [];
      }
      return "";
    }
    var pairs: seq<Pair> := [];
    var todo := values.Keys;
    while todo != {}
      invariant todo <= values.Keys
      invariant pairs == EncodeAll(DecodeAll(raw))
      invariant forall p: RawPair :: multiset(raw)[p] == if p.0 in todo then 0 else Occurrences(values, p)
      decreases |todo|
    {
      var key :| key in todo;
      var more, moreRaw := EncodeValues(key, values[key]);
      AppendKey(values, todo, key, raw, moreRaw);
      pairs := pairs + more;
      raw := raw + moreRaw;
      todo := todo - {key};
    }
    var sorted := SortPairs(pairs);
    out := Render(sorted);
    assert CanonicalFrom(values, raw, sorted, out);
  }

  /** The encoded pairs of one key. */
  method EncodeValues(key: seq<byte>, vals: seq<seq<byte>>) returns (pairs: seq<Pair>, ghost raw: seq<RawPair>)
    ensures pairs == EncodeAll(DecodeAll(raw))
    ensures forall p: RawPair :: multiset(raw)[p] == if p.0 == key then multiset(vals)[p.1] else 0
  {
    pairs, raw := [], [];
    for i := 0 to |vals|
      invariant pairs == EncodeAll(DecodeAll(raw))
      invariant forall p: RawPair :: multiset(raw)[p] == if p.0 == key then multiset(vals[..i])[p.1] else 0
    {
      assert vals[..i + 1] == vals[..i] + [vals[i]];
      var k := EncodeUri(key);
      var v := EncodeUri(vals[i]);
      pairs := pairs + [(k, v)];
      raw := raw + [(key, vals[i])];
    }
    assert vals[..|vals|] == vals;
  }

  /** Visiting one more key. */
  lemma AppendKey(values: map<seq<byte>, seq<seq<byte>>>, todo: set<seq<byte>>, key: seq<byte>,
                  raw: seq<RawPair>, more: seq<RawPair>)
    requires key in todo && key in values
    requires forall p: RawPair :: multiset(raw)[p] == if p.0 in todo then 0 else Occurrences(values, p)
    requires forall p: RawPair :: multiset(more)[p] == if p.0 == key then multiset(values[key])[p.1] else 0
    ensures forall p: RawPair :: multiset(raw + more)[p] == if p.0 in todo - {key} then 0 else Occurrences(values, p)
    ensures EncodeAll(DecodeAll(raw + more)) == EncodeAll(DecodeAll(raw)) + EncodeAll(DecodeAll(more))
  {
    assert multiset(raw + more) == multiset(raw) + multiset(more);
  }

  method Render(pairs: seq<Pair>) returns (out: string)
    ensures out == Rendered(pairs)
  {
    out := "";
    for i := 0 to |pairs|
      invariant out == Rendered(pairs[..i])
    {
      RenderOneMore(pairs[..i], pairs[i]);
      assert pairs[..i + 1] == pairs[..i] + [pairs[i]];
      if i > 0 {
        out := out + "&";
      }
      out := out + pairs[i].0;
      out := out + "=";
      out := out + pairs[i].1;
    }
    assert pairs[..|pairs|] == pairs;
  }

  lemma {:induction false} RenderOneMore(pairs: seq<Pair>, p: Pair)
    ensures Rendered(pairs + [p]) == (if pairs == [] then "" else Rendered(pairs) + "&") + p.0 + "=" + p.1
  {
    if |pairs| == 1 {
      assert (pairs + [p])[1..] == [p];
    } else if |pairs| > 1 {
      RenderOneMore(pairs[1..], p);
      assert (pairs + [p])[1..] == pairs[1..] + [p];
      var head, tail, last := pairs[0].0 + "=" + pairs[0].1 + "&", Rendered(pairs[1..]), p.0 + "=" + p.1;
      assert tail + "&" + p.0 + "=" + p.1 == tail + "&" + last;
      assert head + (tail + "&" + last) == head + tail + "&" + last;
      assert head + tail + "&" + last == head + tail + "&" + p.0 + "=" + p.1;
    }
  }

  // ---------------------------------------------------------------- canonical path

  const SLASH: byte := 0x2F

  lemma CanonicalOf(path: seq<byte>, encoded: seq<string>)
    requires |encoded| == |Split(path, SLASH)|
    requires forall j :: 0 <= j < |encoded| ==> encoded[j] == Encode(Decode(Split(path, SLASH)[j]))
    ensures CanonicalPath(path) == if path == [] then "/" else Join(encoded, '/')
  {
    hide Encode, Decode, Join, Split;
    assert encoded == EncodeSegments(DecodeEach(Split(path, SLASH)));
  }

  /** canonicalURIPath: each segment is encoded, the slashes stay. */
  method CanonicalUriPath(path: seq<byte>) returns (out: string)
    ensures out == CanonicalPath(path)
  {
    if path == [] {
      return "/";
    }
    hide CanonicalPath, Encode, Decode, Join, Split;
    var segments := Split(path, SLASH);
    var encoded: seq<string> := [];
    for i := 0 to |segments|
      invariant |encoded| == i && forall j :: 0 <= j < i ==> encoded[j] == Encode(Decode(segments[j]))
    {
      var one := EncodeUri(segments[i]);
      encoded := encoded + [one];
    }
    CanonicalOf(path, encoded);
    out := Join(encoded, '/');
  }

  function EncodeSegments(segments: seq<string>): (out: seq<string>)
    ensures |out| == |segments| && forall i :: 0 <= i < |segments| ==> out[i] == Encode(segments[i])
  {
    seq(|segments|, i requires 0 <= i < |segments| => Encode(segments[i]))
  }

  /** The canonical form of a path. */
  function CanonicalPath(path: seq<byte>): string {
    if path == [] then "/" else Join(EncodeSegments(DecodeEach(Split(path, SLASH))), '/')
  }

  /** The canonical form is decided by the text seen in the path. */
  function TextPath(text: string): string {
    if text == "" then "/" else Join(EncodeSegments(Split(text, '/')), '/')
  }

  lemma PathOfText(path: seq<byte>)
    ensures CanonicalPath(path) == TextPath(Decode(path))
  {
    SplitDecode(path, SLASH);
    assert SLASH as char == '/';
  }

  /** Two paths have the same canonical form exactly when the texts seen in them are equal, or one is empty and the
      other is "/". */
  lemma CanonicalPathIsExact(a: seq<byte>, b: seq<byte>)
    ensures CanonicalPath(a) == CanonicalPath(b) <==> Decode(a) == Decode(b) || {Decode(a), Decode(b)} == {"", "/"}
  {
    PathOfText(a);
    PathOfText(b);
    TextPathIsExact(Decode(a), Decode(b));
  }

  lemma TextPathIsExact(a: string, b: string)
    ensures TextPath(a) == TextPath(b) <==> a == b || {a, b} == {"", "/"}
  {
    assert TextPath("/") == "/" by { RootPath(); }
    if TextPath(a) == TextPath(b) {
      SegmentsInjective(if a == "" then "/" else a, if b == "" then "/" else b);
    }
  }

  lemma RootPath()
    ensures TextPath("/") == "/"
  {
    assert "/"[1..] == "";
    assert Split("/", '/') == ["", ""];
    assert EncodeSegments(["", ""]) == ["", ""];
    assert ["", ""][1..] == [""];
  }

  lemma SegmentsInjective(a: string, b: string)
    requires Join(EncodeSegments(Split(a, '/')), '/') == Join(EncodeSegments(Split(b, '/')), '/')
    ensures a == b
  {
    var pa, pb := EncodeSegments(Split(a, '/')), EncodeSegments(Split(b, '/'));
    forall i | 0 <= i < |pa| ensures Free(pa[i], '/') { EncodeIsClean(Split(a, '/')[i]); }
    forall i | 0 <= i < |pb| ensures Free(pb[i], '/') { EncodeIsClean(Split(b, '/')[i]); }
    SplitJoin(pa, '/');
    SplitJoin(pb, '/');
    forall i | 0 <= i < |pa| ensures Split(a, '/')[i] == Split(b, '/')[i] {
      EncodeTextInjective(Split(a, '/')[i], Split(b, '/')[i]);
    }
    assert Split(a, '/') == Split(b, '/');
    JoinSplit(a, '/');
    JoinSplit(b, '/');
  }
}
