/** Strings as the repository's Go code handles them: ordering, splitting and joining, UTF-8. */
module Text {
  import opened Ordering

  lemma Assoc<T>(a: seq<T>, b: seq<T>, c: seq<T>)
    ensures a + (b + c) == a + b + c
  {
  }

  // ---------------------------------------------------------------- ordering

  /** Go's <= on strings. On valid UTF-8 the order of bytes is the order of code points. */
  predicate LexLe(a: string, b: string) {
    if a == [] then true
    else if b == [] then false
    else if a[0] == b[0] then LexLe(a[1..], b[1..])
    else a[0] < b[0]
  }

  lemma {:induction false} LexTotal(a: string, b: string)
    ensures LexLe(a, b) || LexLe(b, a)
  {
    if a != [] && b != [] && a[0] == b[0] { LexTotal(a[1..], b[1..]); }
  }

  lemma {:induction false} LexAntisymmetric(a: string, b: string)
    requires LexLe(a, b) && LexLe(b, a)
    ensures a == b
  {
    if a != [] {
      LexAntisymmetric(a[1..], b[1..]);
      assert a == [a[0]] + a[1..] && b == [b[0]] + b[1..];
    }
  }

  lemma {:induction false} LexTransitive(a: string, b: string, c: string)
    requires LexLe(a, b) && LexLe(b, c)
    ensures LexLe(a, c)
  {
    if a != [] && a[0] == b[0] == c[0] { LexTransitive(a[1..], b[1..], c[1..]); }
  }

  /** A prefix comes first. */
  lemma {:induction false} PrefixLe(a: string, b: string)
    requires a <= b
    ensures LexLe(a, b)
  {
    if a != [] { PrefixLe(a[1..], b[1..]); }
  }

  /** Strictly increasing, so without repetition. */
  ghost predicate StrictlySorted(s: seq<string>) {
    forall i, j :: 0 <= i < j < |s| ==> LexLe(s[i], s[j]) && s[i] != s[j]
  }

  ghost predicate Sorted(s: seq<string>) {
    forall i, j :: 0 <= i < j < |s| ==> LexLe(s[i], s[j])
  }

  lemma LexOrder()
    ensures IsTotalOrder(LexLe)
  {
    forall a, b ensures LexLe(a, b) || LexLe(b, a) { LexTotal(a, b); }
    forall a, b, c | LexLe(a, b) && LexLe(b, c) ensures LexLe(a, c) { LexTransitive(a, b, c); }
  }

  /** sort.Strings. */
  method SortStrings(items: seq<string>) returns (sorted: seq<string>)
    ensures Sorted(sorted) && multiset(sorted) == multiset(items)
  {
    LexOrder();
    sorted := Sort(items, LexLe);
  }

  // ---------------------------------------------------------------- splitting and joining

  predicate Free<T(==)>(s: seq<T>, sep: T) {
    forall i :: 0 <= i < |s| ==> s[i] != sep
  }

  /** strings.Split on one character, or on one byte. */
  function Split<T(==)>(s: seq<T>, sep: T): (parts: seq<seq<T>>)
    ensures |parts| >= 1
  {
    if s == [] then [[]]
    else if s[0] == sep then [[]] + Split(s[1..], sep)
    else var rest := Split(s[1..], sep); [[s[0]] + rest[0]] + rest[1..]
  }

  /** strings.Join with one character or byte. */
  function Join<T>(parts: seq<seq<T>>, sep: T): seq<T> {
    if parts == [] then []
    else if |parts| == 1 then parts[0]
    else parts[0] + [sep] + Join(parts[1..], sep)
  }

  lemma {:induction false} SplitFront<T>(p: seq<T>, rest: seq<T>, sep: T)
    requires Free(p, sep)
    ensures Split(p + [sep] + rest, sep) == [p] + Split(rest, sep)
    ensures Split(p, sep) == [p]
  {
    if p == [] {
      assert [] + [sep] + rest == [sep] + rest;
    } else {
      SplitFront(p[1..], rest, sep);
      assert (p + [sep] + rest)[1..] == p[1..] + [sep] + rest;
      assert p == [p[0]] + p[1..];
    }
  }

  /** Splitting undoes joining parts that do not contain the separator. */
  lemma {:induction false} SplitJoin<T>(parts: seq<seq<T>>, sep: T)
    requires |parts| >= 1 && forall i :: 0 <= i < |parts| ==> Free(parts[i], sep)
    ensures Split(Join(parts, sep), sep) == parts
  {
    if |parts| == 1 {
      SplitFront(parts[0], [], sep);
    } else {
      SplitJoin(parts[1..], sep);
      SplitFront(parts[0], Join(parts[1..], sep), sep);
      assert parts == [parts[0]] + parts[1..];
    }
  }

  /** Joining undoes splitting. */
  lemma {:induction false} JoinSplit<T>(s: seq<T>, sep: T)
    ensures Join(Split(s, sep), sep) == s
  {
    if s != [] {
      JoinSplit(s[1..], sep);
      var rest := Split(s[1..], sep);
      assert s == [s[0]] + s[1..];
      if s[0] == sep {
        assert ([[]] + rest)[1..] == rest;
      } else {
        assert ([[s[0]] + rest[0]] + rest[1..])[1..] == rest[1..];
        if |rest| > 1 {
          assert [s[0]] + rest[0] + [sep] + Join(rest[1..], sep) == [s[0]] + (rest[0] + [sep] + Join(rest[1..], sep));
        }
      }
    }
  }

  lemma {:induction false} PartsAreFree<T>(s: seq<T>, sep: T)
    ensures forall i :: 0 <= i < |Split(s, sep)| ==> Free(Split(s, sep)[i], sep)
  {
    if s != [] { PartsAreFree(s[1..], sep); }
  }

  // ---------------------------------------------------------------- UTF-8

  type byte = x: nat | x < 256

  /** The UTF-8 bytes of one code point, RFC 3629 section 3. */
  function Utf8(c: char): (bytes: seq<byte>)
    ensures 1 <= |bytes| <= 4
  {
    var n := c as int;
    if n < 0x80 then [n]
    else if n < 0x800 then [0xC0 + n / 64, 0x80 + n % 64]
    else if n < 0x10000 then [0xE0 + n / 4096, 0x80 + n / 64 % 64, 0x80 + n % 64]
    else [0xF0 + n / 262144, 0x80 + n / 4096 % 64, 0x80 + n / 64 % 64, 0x80 + n % 64]
  }

  function Utf8Bytes(s: string): seq<byte> {
    if s == [] then [] else Utf8(s[0]) + Utf8Bytes(s[1..])
  }

  /** U+FFFD, which Go yields for a byte that starts no well-formed sequence. */
  const REPLACEMENT := 0xFFFD as char

  predicate Continues(b: byte) {
    0x80 <= b < 0xC0
  }

  /** The six bits that a continuation byte carries. */
  function Low(b: byte): (bits: int)
    requires Continues(b)
    ensures 0 <= bits < 64
  {
    b as int - 0x80
  }

  /** What one turn of Go's range loop over a string sees: the code point of the first well-formed sequence, RFC 3629
      section 4, and its length, or U+FFFD for one byte. */
  function FirstRune(bytes: seq<byte>): (rune: (char, nat))
    requires bytes != []
    ensures 1 <= rune.1 <= |bytes|
  {
    var b: int := bytes[0];
    if b < 0x80 then (b as char, 1)
    else if 0xC2 <= b < 0xE0 && |bytes| >= 2 && Continues(bytes[1]) then
      (((b - 0xC0) * 64 + Low(bytes[1])) as char, 2)
    else if 0xE0 <= b < 0xF0 && |bytes| >= 3 && Continues(bytes[1]) && Continues(bytes[2])
            && (b == 0xE0 ==> bytes[1] >= 0xA0) && (b == 0xED ==> bytes[1] < 0xA0) then
      (((b - 0xE0) * 4096 + Low(bytes[1]) * 64 + Low(bytes[2])) as char, 3)
    else if 0xF0 <= b < 0xF5 && |bytes| >= 4 && Continues(bytes[1]) && Continues(bytes[2]) && Continues(bytes[3])
            && (b == 0xF0 ==> bytes[1] >= 0x90) && (b == 0xF4 ==> bytes[1] < 0x90) then
      (((b - 0xF0) * 262144 + Low(bytes[1]) * 4096 + Low(bytes[2]) * 64 + Low(bytes[3])) as char, 4)
    else (REPLACEMENT, 1)
  }

  /** The text that a range loop over a Go string sees. */
  function Decode(bytes: seq<byte>): string {
    if bytes == [] then "" else var (c, n) := FirstRune(bytes); [c] + Decode(bytes[n..])
  }

  lemma FirstRuneOf(c: char, rest: seq<byte>)
    ensures FirstRune(Utf8(c) + rest) == (c, |Utf8(c)|)
  {
    var n := c as int;
    assert n / 64 == n / 4096 * 64 + n / 64 % 64;
    assert n / 4096 == n / 262144 * 64 + n / 4096 % 64;
  }

  /** Decoding gives back every text from its UTF-8 bytes. */
  lemma {:induction false} DecodeUtf8(s: string)
    ensures Decode(Utf8Bytes(s)) == s
  {
    if s != [] {
      FirstRuneOf(s[0], Utf8Bytes(s[1..]));
      assert Utf8Bytes(s)[|Utf8(s[0])|..] == Utf8Bytes(s[1..]);
      DecodeUtf8(s[1..]);
      assert s == [s[0]] + s[1..];
    }
  }

  /** UTF-8 is injective: a byte sequence comes from one string only. */
  lemma Utf8Injective(a: string, b: string)
    requires Utf8Bytes(a) == Utf8Bytes(b)
    ensures a == b
  {
    DecodeUtf8(a);
    DecodeUtf8(b);
  }

  /** Decoding loses nothing if and only if the bytes are UTF-8. */
  lemma DecodeIsExact(bytes: seq<byte>)
    ensures Utf8Bytes(Decode(bytes)) == bytes <==> exists s: string :: bytes == Utf8Bytes(s)
  {
    if s: string :| bytes == Utf8Bytes(s) { DecodeUtf8(s); }
  }

  /** Bytes that are no UTF-8 all look alike. */
  lemma InvalidBytesCollapse()
    ensures Decode([0xFF]) == Decode([0xFE]) == [REPLACEMENT]
  {
    assert [0xFF][1..] == [] && [0xFE][1..] == [];
  }

  // ---------------------------------------------------------------- decoding around an ASCII byte

  /** A rune never reaches past an ASCII byte. */
  lemma RuneBefore(a: seq<byte>, b: seq<byte>)
    requires a != [] && (b == [] || b[0] < 0x80)
    ensures FirstRune(a + b) == FirstRune(a)
  {
    var all := a + b;
    assert forall i :: 0 <= i < |a| ==> all[i] == a[i];
    assert |a| < |all| ==> all[|a|] < 0x80;
  }

  lemma {:induction false} DecodeBefore(a: seq<byte>, b: seq<byte>)
    requires b == [] || b[0] < 0x80
    ensures Decode(a + b) == Decode(a) + Decode(b)
    decreases |a|
  {
    if a == [] {
      assert a + b == b;
    } else {
      var (c, n) := FirstRune(a);
      RuneBefore(a, b);
      assert (a + b)[n..] == a[n..] + b;
      DecodeBefore(a[n..], b);
    }
  }

  lemma {:induction false} DecodedIsFree(a: seq<byte>, sep: byte)
    requires sep < 0x80 && Free(a, sep)
    ensures Free(Decode(a), sep as char)
    decreases |a|
  {
    if a != [] {
      var (c, n) := FirstRune(a);
      assert a[0] != sep && c != sep as char;
      DecodedIsFree(a[n..], sep);
    }
  }

  function DecodeEach(parts: seq<seq<byte>>): (texts: seq<string>)
    ensures |texts| == |parts| && forall i :: 0 <= i < |parts| ==> texts[i] == Decode(parts[i])
  {
    seq(|parts|, i requires 0 <= i < |parts| => Decode(parts[i]))
  }

  lemma {:induction false} DecodeJoin(parts: seq<seq<byte>>, sep: byte)
    requires sep < 0x80
    ensures Decode(Join(parts, sep)) == Join(DecodeEach(parts), sep as char)
  {
    if |parts| > 1 {
      var rest := Join(parts[1..], sep);
      DecodeJoin(parts[1..], sep);
      assert DecodeEach(parts)[1..] == DecodeEach(parts[1..]);
      assert parts[0] + [sep] + rest == parts[0] + ([sep] + rest);
      DecodeBefore(parts[0], [sep] + rest);
      assert ([sep] + rest)[1..] == rest;
      assert Decode([sep] + rest) == [sep as char] + Decode(rest);
    }
  }

  /** Splitting at an ASCII byte and decoding the parts is splitting the decoded text. */
  lemma SplitDecode(bytes: seq<byte>, sep: byte)
    requires sep < 0x80
    ensures Split(Decode(bytes), sep as char) == DecodeEach(Split(bytes, sep))
  {
    var parts := Split(bytes, sep);
    PartsAreFree(bytes, sep);
    JoinSplit(bytes, sep);
    DecodeJoin(parts, sep);
    forall i | 0 <= i < |parts| ensures Free(DecodeEach(parts)[i], sep as char) { DecodedIsFree(parts[i], sep); }
    SplitJoin(DecodeEach(parts), sep as char);
  }
}
