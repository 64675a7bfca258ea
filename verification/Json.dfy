/** The JSON that encoding/json writes for strings, arrays of strings and flat objects, and the
    reader for that output.  A string is a sequence of Unicode scalar values. */
module Json {
  import opened Wrappers
  import opened Text

  // ---------------------------------------------------------------- strings

  function HexDigit(n: nat): char
    requires n < 16
  {
    if n < 10 then '0' + n as char else 'a' + (n - 10) as char
  }

  function HexValue(c: char): Option<nat> {
    if '0' <= c <= '9' then Some(c as int - '0' as int)
    else if 'a' <= c <= 'f' then Some(c as int - 'a' as int + 10)
    else None
  }

  function Hex4(n: nat): string
    requires n < 0x10000
  {
    [HexDigit(n / 4096), HexDigit(n / 256 % 16), HexDigit(n / 16 % 16), HexDigit(n % 16)]
  }

  /** What the encoder writes as \uXXXX: controls, the three HTML characters, U+2028 and U+2029. */
  predicate Spelled(c: char) {
    c as int < 0x20 || c == '<' || c == '>' || c == '&' || c as int == 0x2028 || c as int == 0x2029
  }

  function ShortEscape(c: char): Option<char> {
    if c == '"' || c == '\\' then Some(c)
    else if c as int == 8 then Some('b')
    else if c as int == 12 then Some('f')
    else if c == '\n' then Some('n')
    else if c == '\r' then Some('r')
    else if c == '\t' then Some('t')
    else None
  }

  function EscapeChar(c: char): string {
    if ShortEscape(c).Some? then ['\\', ShortEscape(c).value]
    else if Spelled(c) then ['\\', 'u'] + Hex4(c as int)
    else [c]
  }

  predicate NeedsNoEscape(s: string) {
    forall i | 0 <= i < |s| :: EscapeChar(s[i]) == [s[i]]
  }

  function Escape(s: string): string {
    if s == "" then "" else EscapeChar(s[0]) + Escape(s[1..])
  }

  function Quote(s: string): string {
    ['"'] + Escape(s) + ['"']
  }

  function FromShort(c: char): Option<char> {
    if c == '"' || c == '\\' || c == '/' then Some(c)
    else if c == 'b' then Some(8 as char)
    else if c == 'f' then Some(12 as char)
    else if c == 'n' then Some('\n')
    else if c == 'r' then Some('\r')
    else if c == 't' then Some('\t')
    else None
  }

  function FromHex4(t: string): Option<char>
    requires |t| >= 4
  {
    var a, b, c, d := HexValue(t[0]), HexValue(t[1]), HexValue(t[2]), HexValue(t[3]);
    if a.None? || b.None? || c.None? || d.None? then None
    else
      var n := 4096 * a.value + 256 * b.value + 16 * c.value + d.value;
      if 0xD800 <= n <= 0xDFFF || n > 0xFFFF then None else Some(n as char)
  }

  /** One character of a string literal, and the text after it. */
  function ReadChar(t: string): (r: Option<(char, string)>)
    requires t != ""
    ensures r.Some? ==> |r.value.1| < |t|
  {
    if t[0] == '\\' then
      if |t| < 2 then None
      else if t[1] == 'u' then
        if |t| < 6 then None
        else
          var c := FromHex4(t[2..6]);
          if c.Some? then Some((c.value, t[6..])) else None
      else
        var c := FromShort(t[1]);
        if c.Some? then Some((c.value, t[2..])) else None
    else if t[0] as int < 0x20 then None
    else Some((t[0], t[1..]))
  }

  /** The rest of a string literal whose opening quote has been read. */
  function ReadString(t: string): (r: Option<(string, string)>)
    ensures r.Some? ==> |r.value.1| < |t|
    decreases |t|
  {
    if t == "" then None
    else if t[0] == '"' then Some(("", t[1..]))
    else
      var first := ReadChar(t);
      if first.None? then None
      else
        var more := ReadString(first.value.1);
        if more.None? then None else Some(([first.value.0] + more.value.0, more.value.1))
  }

  lemma HexDigitRoundTrip(d: nat)
    requires d < 16
    ensures HexValue(HexDigit(d)) == Some(d)
  {
  }

  lemma HexSum(n: nat)
    ensures n == 4096 * (n / 4096) + 256 * (n / 256 % 16) + 16 * (n / 16 % 16) + n % 16
  {
    var a, b := n / 16, n / 256;
    assert b == a / 16 && n / 4096 == b / 16;
    assert n == 16 * a + n % 16 && a == 16 * b + a % 16 && b == 16 * (b / 16) + b % 16;
  }

  lemma Hex4RoundTrip(n: nat)
    requires n < 0xD800
    ensures FromHex4(Hex4(n)) == Some(n as char)
  {
    HexDigitRoundTrip(n / 4096);
    HexDigitRoundTrip(n / 256 % 16);
    HexDigitRoundTrip(n / 16 % 16);
    HexDigitRoundTrip(n % 16);
    HexSum(n);
  }

  lemma ReadEscapedChar(c: char, rest: string)
    ensures EscapeChar(c) != "" && EscapeChar(c)[0] != '"'
    ensures ReadChar(EscapeChar(c) + rest) == Some((c, rest))
  {
    var t := EscapeChar(c) + rest;
    if ShortEscape(c).Some? {
      assert t[2..] == rest;
    } else if Spelled(c) {
      Hex4RoundTrip(c as int);
      assert t[2..6] == Hex4(c as int) && t[6..] == rest;
    } else {
      assert t[1..] == rest;
    }
  }

  /** A written string is read back whole, whatever follows its closing quote. */
  lemma {:induction false} StringRoundTrip(s: string, rest: string)
    ensures ReadString(Escape(s) + ['"'] + rest) == Some((s, rest))
  {
    var t := Escape(s) + ['"'] + rest;
    if s == "" {
      assert t == ['"'] + rest && t[1..] == rest;
    } else {
      var tail := Escape(s[1..]) + ['"'] + rest;
      assert t == EscapeChar(s[0]) + tail;
      ReadEscapedChar(s[0], tail);
      StringRoundTrip(s[1..], rest);
      assert [s[0]] + s[1..] == s;
    }
  }

  /** Character by character, what encoding/json writes: section 7 of RFC 8259 with Go's short forms,
      lower-case digits, and its escaping for HTML and JavaScript. */
  lemma EscapeTable(c: char)
    ensures c == '"' ==> EscapeChar(c) == "\\\""
    ensures c == '\\' ==> EscapeChar(c) == "\\\\"
    ensures c as int == 8 ==> EscapeChar(c) == "\\b"
    ensures c as int == 9 ==> EscapeChar(c) == "\\t"
    ensures c as int == 10 ==> EscapeChar(c) == "\\n"
    ensures c as int == 12 ==> EscapeChar(c) == "\\f"
    ensures c as int == 13 ==> EscapeChar(c) == "\\r"
    ensures c as int < 32 && c as int !in {8, 9, 10, 12, 13} ==>
              EscapeChar(c) == "\\u00" + ["01"[c as int / 16], "0123456789abcdef"[c as int % 16]]
    ensures c == '<' ==> EscapeChar(c) == "\\u003c"
    ensures c == '>' ==> EscapeChar(c) == "\\u003e"
    ensures c == '&' ==> EscapeChar(c) == "\\u0026"
    ensures c as int == 0x2028 ==> EscapeChar(c) == "\\u2028"
    ensures c as int == 0x2029 ==> EscapeChar(c) == "\\u2029"
    ensures c as int >= 32 && c !in "\"\\<>&" && c as int !in {0x2028, 0x2029} ==> EscapeChar(c) == [c]
  {
    var n := c as int;
    if n < 32 && n !in {8, 9, 10, 12, 13} {
      assert HexDigit(n / 4096) == '0' && HexDigit(n / 256 % 16) == '0';
      assert HexDigit(n / 16 % 16) == "01"[n / 16];
      HexDigitIs(n % 16);
    }
  }

  lemma HexDigitIs(d: nat)
    requires d < 16
    ensures HexDigit(d) == "0123456789abcdef"[d]
  {
  }

  /** Nothing the encoder spells out is left in an encoded string, and no quote without a backslash
      before it. */
  lemma {:induction false} EscapedIsSafe(s: string)
    ensures forall c | c in Escape(s) :: !Spelled(c)
    ensures forall i | 0 <= i < |Escape(s)| && Escape(s)[i] == '"' :: i > 0 && Escape(s)[i - 1] == '\\'
  {
    if s != "" {
      EscapedIsSafe(s[1..]);
      EscapedCharIsSafe(s[0]);
      var e, more := EscapeChar(s[0]), Escape(s[1..]);
      assert forall i | 0 <= i < |more| :: Escape(s)[|e| + i] == more[i];
    }
  }

  lemma EscapedCharIsSafe(c: char)
    ensures forall x | x in EscapeChar(c) :: !Spelled(x)
    ensures forall i | 0 <= i < |EscapeChar(c)| && EscapeChar(c)[i] == '"' :: i == 1 && EscapeChar(c)[0] == '\\'
  {
    if Spelled(c) && ShortEscape(c).None? {
      var e, d := EscapeChar(c), Hex4(c as int);
      assert e == ['\\', 'u', d[0], d[1], d[2], d[3]];
      assert forall i | 0 <= i < 4 :: HexValue(d[i]).Some?;
      assert forall x | HexValue(x).Some? :: !Spelled(x);
    }
  }

  // ---------------------------------------------------------------- arrays of strings

  /** The elements after the first, each behind a comma, and the closing bracket. */
  function MoreElements(items: seq<string>): string {
    if items == [] then [']'] else [','] + (Quote(items[0]) + MoreElements(items[1..]))
  }

  /** json.Marshal of a []string. */
  function EncodeArray(items: seq<string>): string {
    if items == [] then "[]" else ['['] + (Quote(items[0]) + MoreElements(items[1..]))
  }

  /** The elements after the first, up to the closing bracket, which must end the text. */
  function ReadElements(t: string): Option<seq<string>>
    decreases |t|
  {
    if t == "]" then Some([])
    else if |t| < 2 || t[0] != ',' || t[1] != '"' then None
    else
      var first := ReadString(t[2..]);
      if first.None? then None
      else
        var more := ReadElements(first.value.1);
        if more.None? then None else Some([first.value.0] + more.value)
  }

  /** json.Unmarshal into a []string, of what Marshal writes. */
  function DecodeArray(t: string): Option<seq<string>> {
    if t == "[]" then Some([])
    else if |t| < 2 || t[0] != '[' || t[1] != '"' then None
    else
      var first := ReadString(t[2..]);
      if first.None? then None
      else
        var more := ReadElements(first.value.1);
        if more.None? then None else Some([first.value.0] + more.value)
  }

  lemma QuoteBehind(mark: char, item: string, rest: string)
    ensures var t := [mark] + (Quote(item) + rest);
            && |t| >= 2 && t[0] == mark && t[1] == '"' && ReadString(t[2..]) == Some((item, rest))
  {
    QuoteTail(item, rest);
    var t := [mark] + (Quote(item) + rest);
    assert t[1..] == Quote(item) + rest;
    assert t[2..] == t[1..][1..];
    StringRoundTrip(item, rest);
  }

  lemma {:induction false} ElementsRoundTrip(items: seq<string>)
    ensures ReadElements(MoreElements(items)) == Some(items)
  {
    if items != [] {
      QuoteBehind(',', items[0], MoreElements(items[1..]));
      ElementsRoundTrip(items[1..]);
      assert [items[0]] + items[1..] == items;
    }
  }

  /** A written list of strings is read back element for element, in order. */
  lemma ArrayRoundTrip(items: seq<string>)
    ensures DecodeArray(EncodeArray(items)) == Some(items)
  {
    if items != [] {
      QuoteBehind('[', items[0], MoreElements(items[1..]));
      ElementsRoundTrip(items[1..]);
      assert [items[0]] + items[1..] == items;
      assert EncodeArray(items)[1] == '"';
    }
  }

  lemma QuoteTail(a: string, rest: string)
    ensures (Quote(a) + rest)[0] == '"' && (Quote(a) + rest)[1..] == Escape(a) + ['"'] + rest
  {
  }

  /** So no delimiter, quote or escape inside a string can make two different lists read alike. */
  lemma ArrayInjective(a: seq<string>, b: seq<string>)
    requires EncodeArray(a) == EncodeArray(b)
    ensures a == b
  {
    ArrayRoundTrip(a);
    ArrayRoundTrip(b);
  }

  // ---------------------------------------------------------------- flat objects

  /** A scalar; a number is its literal, so that 1, 1.5 and 1e+90 stay apart. */
  datatype Scalar = Str(s: string) | Num(literal: string) | Bool(b: bool) | Null

  type Member = (string, Scalar)

  predicate NumberChar(c: char) {
    IsDigit(c) || c == '-' || c == '+' || c == '.' || c == 'e' || c == 'E'
  }

  predicate IsLiteral(s: string) {
    s != "" && (s[0] == '-' || IsDigit(s[0])) && forall i | 0 <= i < |s| :: NumberChar(s[i])
  }

  predicate Encodable(v: Scalar) {
    v.Num? ==> IsLiteral(v.literal)
  }

  function EncodeScalar(v: Scalar): string {
    match v
    case Str(s) => Quote(s)
    case Num(literal) => literal
    case Bool(b) => if b then "true" else "false"
    case Null => "null"
  }

  function EncodeMember(m: Member): string {
    Quote(m.0) + [':'] + EncodeScalar(m.1)
  }

  function Members(ms: seq<Member>): string {
    if ms == [] then ""
    else if |ms| == 1 then EncodeMember(ms[0])
    else EncodeMember(ms[0]) + [','] + Members(ms[1..])
  }

  /** json.Marshal of a struct, or of a map whose keys it has sorted. */
  function EncodeObject(ms: seq<Member>): string {
    ['{'] + Members(ms) + ['}']
  }

  function LiteralRun(t: string): (n: nat)
    ensures n <= |t| && forall i | 0 <= i < n :: NumberChar(t[i])
    ensures n < |t| ==> !NumberChar(t[n])
  {
    if t == "" || !NumberChar(t[0]) then 0 else 1 + LiteralRun(t[1..])
  }

  function ReadScalar(t: string): (r: Option<(Scalar, string)>)
    ensures r.Some? ==> |r.value.1| < |t|
  {
    if t == "" then None
    else if t[0] == '"' then
      var s := ReadString(t[1..]);
      if s.None? then None else Some((Str(s.value.0), s.value.1))
    else if t[0] == '-' || IsDigit(t[0]) then
      var n := LiteralRun(t);
      if n == 0 then None else Some((Num(t[..n]), t[n..]))
    else if "true" <= t then Some((Bool(true), t[4..]))
    else if "false" <= t then Some((Bool(false), t[5..]))
    else if "null" <= t then Some((Null, t[4..]))
    else None
  }

  function ReadMember(t: string): (r: Option<(Member, string)>)
    ensures r.Some? ==> |r.value.1| < |t|
  {
    if t == "" || t[0] != '"' then None
    else
      var name := ReadString(t[1..]);
      if name.None? || name.value.1 == "" || name.value.1[0] != ':' then None
      else
        var v := ReadScalar(name.value.1[1..]);
        if v.None? then None else Some(((name.value.0, v.value.0), v.value.1))
  }

  /** The members up to the closing brace, which must end the text. */
  function ReadMembers(t: string): Option<seq<Member>>
    decreases |t|
  {
    var m := ReadMember(t);
    if m.None? || m.value.1 == "" then None
    else if m.value.1 == "}" then Some([m.value.0])
    else if m.value.1[0] != ',' then None
    else
      var more := ReadMembers(m.value.1[1..]);
      if more.None? then None else Some([m.value.0] + more.value)
  }

  function DecodeObject(t: string): Option<seq<Member>> {
    if t == "{}" then Some([])
    else if t == "" || t[0] != '{' then None
    else ReadMembers(t[1..])
  }

  lemma {:induction false} LiteralStops(s: string, rest: string)
    requires forall i | 0 <= i < |s| :: NumberChar(s[i])
    requires rest != "" && !NumberChar(rest[0])
    ensures LiteralRun(s + rest) == |s|
  {
    if s == "" {
      assert s + rest == rest;
    } else {
      assert (s + rest)[1..] == s[1..] + rest;
      LiteralStops(s[1..], rest);
    }
  }

  lemma ScalarRoundTrip(v: Scalar, rest: string)
    requires Encodable(v) && rest != "" && (rest[0] == ',' || rest[0] == '}')
    ensures ReadScalar(EncodeScalar(v) + rest) == Some((v, rest))
  {
    match v {
      case Str(s) =>
        StringRoundTrip(s, rest);
        var t := Quote(s) + rest;
        assert t[1..] == Escape(s) + ['"'] + rest;
      case Num(literal) =>
        NumberRoundTrip(literal, rest);
      case Bool(b) =>
        WordRoundTrip(rest);
      case Null =>
        WordRoundTrip(rest);
    }
  }

  lemma NumberRoundTrip(literal: string, rest: string)
    requires IsLiteral(literal) && rest != "" && !NumberChar(rest[0])
    ensures ReadScalar(literal + rest) == Some((Num(literal), rest))
  {
    LiteralStops(literal, rest);
    var t := literal + rest;
    assert t[0] == literal[0] && t[..|literal|] == literal && t[|literal|..] == rest;
  }

  lemma WordRoundTrip(rest: string)
    ensures ReadScalar("true" + rest) == Some((Bool(true), rest))
    ensures ReadScalar("false" + rest) == Some((Bool(false), rest))
    ensures ReadScalar("null" + rest) == Some((Null, rest))
  {
  }

  lemma MemberRoundTrip(m: Member, rest: string)
    requires Encodable(m.1) && rest != "" && (rest[0] == ',' || rest[0] == '}')
    ensures ReadMember(EncodeMember(m) + rest) == Some((m, rest))
  {
    var value := EncodeScalar(m.1) + rest;
    MemberText(m, rest);
    QuoteTail(m.0, [':'] + value);
    StringRoundTrip(m.0, [':'] + value);
    assert ([':'] + value)[1..] == value;
    ScalarRoundTrip(m.1, rest);
  }

  lemma MemberText(m: Member, rest: string)
    ensures EncodeMember(m) + rest == Quote(m.0) + ([':'] + (EncodeScalar(m.1) + rest))
  {
  }

  lemma ReadsOneMore(m: Member, tail: string, more: seq<Member>)
    requires Encodable(m.1) && ReadMembers(tail) == Some(more)
    ensures ReadMembers(EncodeMember(m) + ([','] + tail)) == Some([m] + more)
  {
    var rest := [','] + tail;
    MemberRoundTrip(m, rest);
    assert rest[1..] == tail && rest[0] == ',';
  }

  lemma Reassociate(first: string, more: string)
    ensures first + [','] + more + "}" == first + ([','] + (more + "}"))
  {
  }

  lemma {:induction false} MembersRoundTrip(ms: seq<Member>)
    requires ms != [] && forall i | 0 <= i < |ms| :: Encodable(ms[i].1)
    ensures ReadMembers(Members(ms) + "}") == Some(ms)
  {
    if |ms| == 1 {
      MemberRoundTrip(ms[0], "}");
      assert [ms[0]] == ms;
    } else {
      MembersRoundTrip(ms[1..]);
      ReadsOneMore(ms[0], Members(ms[1..]) + "}", ms[1..]);
      Reassociate(EncodeMember(ms[0]), Members(ms[1..]));
      assert [ms[0]] + ms[1..] == ms;
    }
  }

  /** A written object is read back member for member, in order. */
  lemma ObjectRoundTrip(ms: seq<Member>)
    requires forall i | 0 <= i < |ms| :: Encodable(ms[i].1)
    ensures DecodeObject(EncodeObject(ms)) == Some(ms)
  {
    var t := EncodeObject(ms);
    if ms == [] {
      assert t == "{}";
    } else {
      MembersRoundTrip(ms);
      assert t[1..] == Members(ms) + "}";
      assert |Members(ms)| > 0;
    }
  }
}
