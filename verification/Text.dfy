/** Strings as the provider reads them: sequences of Unicode scalar values, whose length in
    bytes is that of their UTF-8 form; joining and splitting on a separator; decimal digits. */
module Text {
  function Utf8Width(c: char): nat {
    if c as int < 0x80 then 1 else if c as int < 0x800 then 2 else if c as int < 0x10000 then 3 else 4
  }

  /** One byte for seven bits, two for eleven, three for sixteen, four for the rest: section 3 of
      RFC 3629. */
  lemma Utf8WidthExact(c: char)
    ensures Utf8Width(c) == 1 <==> c as int <= 0x7F
    ensures Utf8Width(c) == 2 <==> 0x80 <= c as int <= 0x7FF
    ensures Utf8Width(c) == 3 <==> 0x800 <= c as int <= 0xFFFF
    ensures Utf8Width(c) == 4 <==> 0x10000 <= c as int
  {
  }

  /** Go's len(s). */
  function ByteLen(s: string): nat {
    if s == "" then 0 else Utf8Width(s[0]) + ByteLen(s[1..])
  }

  lemma {:induction false} ByteLenBounds(s: string)
    ensures |s| <= ByteLen(s) <= 4 * |s|
    ensures (forall c | c in s :: c as int < 0x80) ==> ByteLen(s) == |s|
  {
    if s != "" {
      ByteLenBounds(s[1..]);
      assert s[0] in s && forall c | c in s[1..] :: c in s;
    }
  }

  lemma {:induction false} ByteLenConcat(a: string, b: string)
    ensures ByteLen(a + b) == ByteLen(a) + ByteLen(b)
  {
    if a == "" {
      assert a + b == b;
    } else {
      assert (a + b)[1..] == a[1..] + b;
      ByteLenConcat(a[1..], b);
    }
  }

  /** unicode.IsSpace, which strings.TrimSpace trims by. */
  predicate IsSpace(c: char) {
    var n := c as int;
    || 0x09 <= n <= 0x0D || n == 0x20 || n == 0x85 || n == 0xA0 || n == 0x1680
    || 0x2000 <= n <= 0x200A || n == 0x2028 || n == 0x2029 || n == 0x202F || n == 0x205F || n == 0x3000
  }

  predicate Blank(s: string) {
    forall i | 0 <= i < |s| :: IsSpace(s[i])
  }

  /** validText, provider/provider.go:101. */
  predicate ValidText(s: string) {
    !Blank(s) && ByteLen(s) <= 4096
  }

  // ---------------------------------------------------------------- join and split

  /** strings.Join with a one-element separator. */
  function Join<T>(parts: seq<seq<T>>, sep: T): seq<T> {
    if parts == [] then []
    else if |parts| == 1 then parts[0]
    else parts[0] + [sep] + Join(parts[1..], sep)
  }

  /** The longest prefix without the separator. */
  function Head<T(==)>(s: seq<T>, sep: T): (h: seq<T>)
    ensures |h| <= |s| && h == s[..|h|] && sep !in h
    ensures |h| < |s| ==> s[|h|] == sep
  {
    if s == [] || s[0] == sep then [] else [s[0]] + Head(s[1..], sep)
  }

  /** strings.Split with a one-element separator: never empty. */
  function Split<T(==)>(s: seq<T>, sep: T): (parts: seq<seq<T>>)
    ensures parts != []
    ensures forall p | p in parts :: sep !in p
    decreases |s|
  {
    var h := Head(s, sep);
    if |h| == |s| then [s] else [h] + Split(s[|h| + 1..], sep)
  }

  lemma {:induction false} JoinSplit<T>(s: seq<T>, sep: T)
    ensures Join(Split(s, sep), sep) == s
    decreases |s|
  {
    var h := Head(s, sep);
    if |h| < |s| {
      var rest := s[|h| + 1..];
      var parts := Split(rest, sep);
      JoinSplit(rest, sep);
      assert ([h] + parts)[1..] == parts;
      assert Join([h] + parts, sep) == h + [sep] + rest;
      assert s == s[..|h|] + [s[|h|]] + rest;
    }
  }

  lemma {:induction false} HeadOfConcat<T>(h: seq<T>, sep: T, rest: seq<T>)
    requires sep !in h
    ensures Head(h + [sep] + rest, sep) == h
  {
    var s := h + [sep] + rest;
    if h == [] {
      assert s[0] == sep;
    } else {
      assert s[1..] == h[1..] + [sep] + rest;
      HeadOfConcat(h[1..], sep, rest);
    }
  }

  lemma {:induction false} HeadWhole<T>(s: seq<T>, sep: T)
    requires sep !in s
    ensures Head(s, sep) == s
  {
  }

  lemma {:induction false} SplitJoin<T>(parts: seq<seq<T>>, sep: T)
    requires parts != [] && forall p | p in parts :: sep !in p
    ensures Split(Join(parts, sep), sep) == parts
  {
    var s := Join(parts, sep);
    if |parts| == 1 {
      HeadWhole(s, sep);
    } else {
      HeadOfConcat(parts[0], sep, Join(parts[1..], sep));
      assert s[|parts[0]| + 1..] == Join(parts[1..], sep);
      SplitJoin(parts[1..], sep);
    }
  }

  // ---------------------------------------------------------------- decimal digits

  function Digit(d: nat): char
    requires d < 10
  {
    '0' + d as char
  }

  predicate IsDigit(c: char) {
    '0' <= c <= '9'
  }

  /** strconv and Python's str on a natural number. */
  function Decimal(n: nat): (s: string)
    ensures s != "" && forall c | c in s :: IsDigit(c)
  {
    if n < 10 then [Digit(n)] else Decimal(n / 10) + [Digit(n % 10)]
  }

  function FromDecimal(s: string): nat
    requires forall c | c in s :: IsDigit(c)
  {
    if s == "" then 0
    else
      assert IsDigit(s[|s| - 1]);
      10 * FromDecimal(s[..|s| - 1]) + (s[|s| - 1] as int - '0' as int)
  }

  lemma {:induction false} DecimalRoundTrip(n: nat)
    ensures FromDecimal(Decimal(n)) == n
  {
    if n >= 10 {
      DecimalRoundTrip(n / 10);
      assert Decimal(n)[..|Decimal(n)| - 1] == Decimal(n / 10);
    } else {
      assert Decimal(n)[..0] == "";
    }
  }

  /** The most significant digit comes first. */
  lemma {:induction false} DecimalLeads(n: nat)
    ensures n > 0 ==> Decimal(n)[0] != '0'
    ensures n < 10 ==> Decimal(n) == ["0123456789"[n]]
  {
    if n >= 10 {
      DecimalLeads(n / 10);
    }
  }

  lemma {:induction false} DecimalLength(n: nat, digits: nat)
    requires digits >= 1 && n < Power10(digits)
    ensures |Decimal(n)| <= digits
  {
    if n >= 10 {
      assert Power10(digits) == 10 * Power10(digits - 1);
      DecimalLength(n / 10, digits - 1);
    }
  }

  function Power10(k: nat): nat {
    if k == 0 then 1 else 10 * Power10(k - 1)
  }
}
