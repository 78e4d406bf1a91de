/** Text as it travels: strings and their UTF-8 encoding (RFC 3629). */
module Utf8 {
  newtype octet = x: int | 0 <= x < 256

  const REPLACEMENT: char := '\U{FFFD}'

  predicate IsAscii(s: string) {
    forall i :: 0 <= i < |s| ==> s[i] as int < 0x80
  }

  /** The encoding of one character. */
  function Encode(c: char): (r: seq<octet>)
    ensures 1 <= |r| <= 4
    ensures c as int < 0x80 ==> r == [c as octet]
    ensures c as int >= 0x80 ==> |r| >= 2 && forall i :: 0 <= i < |r| ==> r[i] >= 0x80
    ensures c as int >= 0x10000 <==> |r| == 4
  {
    var n := c as int;
    if n < 0x80 then [n as octet]
    else if n < 0x800 then [(0xC0 + n / 0x40) as octet, Trailing(n)]
    else if n < 0x10000 then [(0xE0 + n / 0x1000) as octet, Trailing(n / 0x40), Trailing(n)]
    else [(0xF0 + n / 0x40000) as octet, Trailing(n / 0x1000), Trailing(n / 0x40), Trailing(n)]
  }

  /** A continuation octet carries six bits. */
  function Trailing(n: nat): (r: octet)
    ensures 0x80 <= r < 0xC0
  {
    (0x80 + n % 0x40) as octet
  }

  function ToUtf8(s: string): seq<octet> {
    if s == [] then [] else Encode(s[0]) + ToUtf8(s[1..])
  }

  /** The number the octets at the front spell, by the length the first one announces; -1 if there are too few. */
  function Spelled(s: seq<octet>): int
    requires s != []
  {
    var b := s[0] as int;
    if b < 0x80 then b
    else if b < 0xE0 then
      if |s| < 2 then -1 else 0x40 * (b - 0xC0) + (s[1] as int - 0x80)
    else if b < 0xF0 then
      if |s| < 3 then -1 else 0x1000 * (b - 0xE0) + 0x40 * (s[1] as int - 0x80) + (s[2] as int - 0x80)
    else
      if |s| < 4 then -1
      else 0x40000 * (b - 0xF0) + 0x1000 * (s[1] as int - 0x80) + 0x40 * (s[2] as int - 0x80) + (s[3] as int - 0x80)
  }

  predicate IsScalar(n: int) { 0 <= n < 0xD800 || 0xE000 <= n < 0x110000 }

  /** The first character of the octets. One that starts no valid encoding stands for itself, replaced. */
  function FirstChar(s: seq<octet>): char
    requires s != []
  {
    var n := Spelled(s);
    if IsScalar(n) && Encode(n as char) <= s then n as char else REPLACEMENT
  }

  function FirstLength(s: seq<octet>): (n: nat)
    requires s != []
    ensures 1 <= n <= |s|
  {
    if Encode(FirstChar(s)) <= s then |Encode(FirstChar(s))| else 1
  }

  function FromUtf8(s: seq<octet>): string
    decreases |s|
  {
    if s == [] then [] else [FirstChar(s)] + FromUtf8(s[FirstLength(s)..])
  }

  lemma SixBits(n: nat)
    ensures n / 0x1000 == n / 0x40 / 0x40 && n / 0x40000 == n / 0x1000 / 0x40
  {
    var a, b, c := n % 0x40, n / 0x40 % 0x40, n / 0x40 / 0x40;
    assert n == 0x1000 * c + (0x40 * b + a);
    var d, e := c % 0x40, c / 0x40;
    assert n == 0x40000 * e + (0x1000 * d + 0x40 * b + a);
  }

  lemma SpelledBack(c: char, rest: seq<octet>)
    ensures Spelled(Encode(c) + rest) == c as int
  {
    var n := c as int;
    SixBits(n);
    if n < 0x80 {
      assert (Encode(c) + rest)[0] == Encode(c)[0];
    } else if n < 0x800 {
      assert (Encode(c) + rest)[..2] == Encode(c);
    } else if n < 0x10000 {
      assert (Encode(c) + rest)[..3] == Encode(c);
    } else {
      assert (Encode(c) + rest)[..4] == Encode(c);
    }
  }

  /** The decoder takes the character whose encoding stands in front, whichever it is, and where there is none
      replaces one octet. */
  lemma FirstIsWhatStandsThere(s: seq<octet>)
    requires s != []
    ensures forall c: char :: Encode(c) <= s ==> FirstChar(s) == c && FirstLength(s) == |Encode(c)|
    ensures (forall c: char :: !(Encode(c) <= s)) ==> FirstChar(s) == REPLACEMENT && FirstLength(s) == 1
  {
    forall c: char | Encode(c) <= s
      ensures FirstChar(s) == c && FirstLength(s) == |Encode(c)|
    {
      assert s == Encode(c) + s[|Encode(c)|..];
      SpelledBack(c, s[|Encode(c)|..]);
    }
  }

  /** One encoding of each length: U+00E9, U+20AC and U+1F600. */
  lemma KnownEncodings()
    ensures Encode('A') == [0x41] && Encode('\U{E9}') == [0xC3, 0xA9]
    ensures Encode('\U{20AC}') == [0xE2, 0x82, 0xAC] && Encode('\U{1F600}') == [0xF0, 0x9F, 0x98, 0x80]
  {
  }

  /** Decoding undoes encoding. */
  lemma {:induction false} DecodesBack(s: string)
    ensures FromUtf8(ToUtf8(s)) == s
  {
    if s != [] {
      var rest := ToUtf8(s[1..]);
      SpelledBack(s[0], rest);
      assert FirstChar(ToUtf8(s)) == s[0];
      assert ToUtf8(s)[|Encode(s[0])|..] == rest;
      DecodesBack(s[1..]);
    }
  }

  lemma Associates<T>(a: seq<T>, b: seq<T>, c: seq<T>)
    ensures (a + b) + c == a + (b + c)
  {
  }

  lemma {:induction false} ToUtf8Concat(a: string, b: string)
    ensures ToUtf8(a + b) == ToUtf8(a) + ToUtf8(b)
  {
    if a == [] {
      assert a + b == b;
    } else {
      ToUtf8Concat(a[1..], b);
      assert (a + b)[1..] == a[1..] + b;
      Associates(Encode(a[0]), ToUtf8(a[1..]), ToUtf8(b));
    }
  }

  /** An octet below 0x80 stands for itself, in a text and in its encoding. */
  lemma {:induction false} AsciiInEncoding(s: string, b: octet)
    requires b < 0x80
    ensures b in ToUtf8(s) <==> b as char in s
  {
    if s != [] {
      AsciiInEncoding(s[1..], b);
      assert b in Encode(s[0]) <==> s[0] == b as char;
    }
  }

  lemma {:induction false} AsciiInDecoding(s: seq<octet>, b: octet)
    requires b < 0x80
    ensures b as char in FromUtf8(s) ==> b in s
    decreases |s|
  {
    if s != [] {
      AsciiInDecoding(s[FirstLength(s)..], b);
      if FirstChar(s) == b as char {
        assert s[0] == b;
      }
    }
  }

  lemma {:induction false} AsciiIsItself(s: string)
    requires IsAscii(s)
    ensures |ToUtf8(s)| == |s| && forall i :: 0 <= i < |s| ==> ToUtf8(s)[i] as int == s[i] as int
  {
    if s != [] {
      AsciiIsItself(s[1..]);
    }
  }

  /** The length of a text in UTF-16 code units. */
  function Units(s: string): nat {
    if s == [] then 0 else (if s[0] as int < 0x10000 then 1 else 2) + Units(s[1..])
  }

  /** Texts put together take their units together. */
  lemma {:induction false} UnitsConcat(a: string, b: string)
    ensures Units(a + b) == Units(a) + Units(b)
  {
    if a == [] {
      assert a + b == b;
    } else {
      UnitsConcat(a[1..], b);
      assert (a + b)[1..] == a[1..] + b;
    }
  }

  /** A character takes one unit, or two from U+10000 on. */
  lemma UnitsOfOne(c: char)
    ensures Units([c]) == if c as int < 0x10000 then 1 else 2
  {
    assert [c][1..] == [];
  }

  /** A text has as many code units as its encoding has octets exactly when it is ASCII, and fewer otherwise. */
  lemma {:induction false} EncodingIsLonger(s: string)
    ensures Units(s) <= |ToUtf8(s)|
    ensures Units(s) == |ToUtf8(s)| <==> IsAscii(s)
  {
    if s != [] {
      EncodingIsLonger(s[1..]);
      assert IsAscii(s) <==> s[0] as int < 0x80 && IsAscii(s[1..]) by {
        assert s == [s[0]] + s[1..];
      }
    }
  }
}
