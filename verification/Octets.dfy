/** Byte strings, and the bytes of ASCII text. */
module Octets {
  type Byte = b: int | 0 <= b < 256
  type Bytes = seq<Byte>

  function Ascii(s: string): Bytes
    requires forall c | c in s :: c as int < 128
  {
    seq<Byte>(|s|, i requires 0 <= i < |s| => assert s[i] in s; s[i] as int as Byte)
  }

  lemma AsciiInjective(s: string, t: string)
    requires forall c | c in s :: c as int < 128
    requires forall c | c in t :: c as int < 128
    requires Ascii(s) == Ascii(t)
    ensures s == t
  {
    assert |s| == |Ascii(s)| && |t| == |Ascii(t)|;
    forall i | 0 <= i < |s|
      ensures s[i] == t[i]
    {
      assert Ascii(s)[i] == Ascii(t)[i];
    }
  }
}
