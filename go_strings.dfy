/** The pieces of Go's runtime and `strings` package that the decoder relies on:
    bytes, the conversion `string(b)` of a byte to a one-rune string, the byte
    length `len(s)` of a string, `strings.TrimSuffix(s, "\x00")` and
    `strings.TrimSpace`. A Go string is modelled by the sequence of runes it
    encodes. */
module GoStrings {

  newtype byte = x: int | 0 <= x < 0x100

  /** Go's `string(b)` for a byte `b`: the rune whose code point is `b`. */
  function Rune(b: byte): (c: char)
    ensures c as int == b as int
  {
    (b as int) as char
  }

  /** The runes of `string(b0) + string(b1) + ...`. */
  function Runes(bs: seq<byte>): (r: string)
    ensures |r| == |bs|
    ensures forall k :: 0 <= k < |bs| ==> r[k] == Rune(bs[k])
  {
    if bs == [] then [] else [Rune(bs[0])] + Runes(bs[1..])
  }

  lemma RunesAppend(a: seq<byte>, b: seq<byte>)
    ensures Runes(a + b) == Runes(a) + Runes(b)
  {
    assert forall k :: 0 <= k < |a + b| ==> Runes(a + b)[k] == (Runes(a) + Runes(b))[k];
  }

  /** Number of bytes in the UTF-8 encoding of one rune. */
  function RuneWidth(c: char): nat
  {
    if c as int < 0x80 then 1
    else if c as int < 0x800 then 2
    else if c as int < 0x10000 then 3
    else 4
  }

  /** Go's `len(s)`: the number of bytes of the UTF-8 encoding of `s`. */
  function Utf8Len(s: string): (n: nat)
    ensures |s| <= n <= 4 * |s|
  {
    if s == [] then 0 else RuneWidth(s[0]) + Utf8Len(s[1..])
  }

  lemma {:induction false} Utf8LenAppend(a: string, b: string)
    ensures Utf8Len(a + b) == Utf8Len(a) + Utf8Len(b)
  {
    if a != [] {
      assert (a + b)[1..] == a[1..] + b;
      Utf8LenAppend(a[1..], b);
    } else {
      assert a + b == b;
    }
  }

  /** On ASCII text a string's byte length is its number of runes. */
  lemma {:induction false} Utf8LenAscii(s: string)
    requires forall k :: 0 <= k < |s| ==> s[k] as int < 0x80
    ensures Utf8Len(s) == |s|
  {
    if s != [] {
      Utf8LenAscii(s[1..]);
    }
  }

  /** `strings.TrimSuffix(s, "\x00")`: drops one trailing NUL, if there is one. */
  function TrimNul(s: string): (r: string)
    ensures if |s| > 0 && s[|s| - 1] == '\0' then r + ['\0'] == s else r == s
  {
    if |s| > 0 && s[|s| - 1] == '\0' then s[..|s| - 1] else s
  }

  /** `unicode.IsSpace`: the runes with the Unicode White_Space property. */
  predicate IsSpace(c: char)
  {
    ('\t' <= c <= '\r') || c == ' ' || c == '\U{85}' || c == '\U{A0}' || c == '\U{1680}'
    || ('\U{2000}' <= c <= '\U{200A}') || c == '\U{2028}' || c == '\U{2029}'
    || c == '\U{202F}' || c == '\U{205F}' || c == '\U{3000}'
  }

  /** Drops the leading white space of `s`. */
  function TrimLeft(s: string): (r: string)
    ensures |r| <= |s| && r == s[|s| - |r|..]
    ensures forall k :: 0 <= k < |s| - |r| ==> IsSpace(s[k])
    ensures r == [] || !IsSpace(r[0])
  {
    if s != [] && IsSpace(s[0]) then TrimLeft(s[1..]) else s
  }

  /** Drops the trailing white space of `s`. */
  function TrimRight(s: string): (r: string)
    ensures |r| <= |s| && r == s[..|r|]
    ensures forall k :: |r| <= k < |s| ==> IsSpace(s[k])
    ensures r == [] || !IsSpace(r[|r| - 1])
  {
    if s != [] && IsSpace(s[|s| - 1]) then TrimRight(s[..|s| - 1]) else s
  }

  /** `strings.TrimSpace`: `s` without its leading and trailing white space. */
  function TrimSpace(s: string): (r: string)
    ensures |r| <= |s|
    ensures r == [] || (!IsSpace(r[0]) && !IsSpace(r[|r| - 1]))
  {
    TrimRight(TrimLeft(s))
  }

  /** What TrimSpace removes is white space on both sides of an infix of `s`. */
  lemma TrimSpaceInfix(s: string)
    ensures var r, i := TrimSpace(s), |s| - |TrimLeft(s)|;
      i + |r| <= |s| && r == s[i..i + |r|]
      && (forall k :: 0 <= k < i ==> IsSpace(s[k]))
      && (forall k :: i + |r| <= k < |s| ==> IsSpace(s[k]))
  {
    var l := TrimLeft(s);
    var r := TrimRight(l);
    var i := |s| - |l|;
    assert l == s[i..];
    forall k | i + |r| <= k < |s|
      ensures IsSpace(s[k])
    {
      assert s[k] == l[k - i];
    }
  }

  /** Trimming twice trims nothing more. */
  lemma TrimSpaceIdempotent(s: string)
    ensures TrimSpace(TrimSpace(s)) == TrimSpace(s)
  {
    var r := TrimSpace(s);
    assert TrimLeft(r) == r;
    assert TrimRight(r) == r;
  }

  /** TrimSpace leaves exactly the strings without white space at either end
      as they are. */
  lemma TrimSpaceUnchanged(s: string)
    ensures TrimSpace(s) == s <==> s == [] || (!IsSpace(s[0]) && !IsSpace(s[|s| - 1]))
  {
  }
}
