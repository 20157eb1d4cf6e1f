/** UTF-8, section 3 of RFC 3629. */
module Utf8 {
  import opened Prelude

  /** The bytes of one character. */
  function EncodeChar(c: char): (b: seq<Byte>)
    ensures 1 <= |b| <= 4
  {
    var n := c as int;
    if n < 0x80 then [n]
    else if n < 0x800 then [0xC0 + n / 0x40, 0x80 + n % 0x40]
    else if n < 0x10000 then [0xE0 + n / 0x1000, 0x80 + n / 0x40 % 0x40, 0x80 + n % 0x40]
    else [0xF0 + n / 0x40000, 0x80 + n / 0x1000 % 0x40, 0x80 + n / 0x40 % 0x40, 0x80 + n % 0x40]
  }

  function Encode(s: string): seq<Byte> {
    if s == "" then [] else EncodeChar(s[0]) + Encode(s[1..])
  }

  /** The bytes are the encoding of some text. */
  ghost predicate Valid(b: seq<Byte>) {
    exists s :: Encode(s) == b
  }

  predicate IsAscii(s: string) {
    forall i :: 0 <= i < |s| ==> s[i] as int < 128
  }

  lemma AsciiConcat(s: string, t: string)
    requires IsAscii(s) && IsAscii(t)
    ensures IsAscii(s + t)
  {
  }

  lemma {:induction false} EncodeAscii(s: string)
    requires IsAscii(s)
    ensures |Encode(s)| == |s| && forall i :: 0 <= i < |s| ==> Encode(s)[i] == s[i] as int
  {
    if s != "" {
      EncodeAscii(s[1..]);
    }
  }

  lemma {:induction false} EncodeSpelled(s: string, b: seq<Byte>)
    requires |s| == |b| && forall i :: 0 <= i < |s| ==> s[i] as int == b[i] < 128
    ensures Encode(s) == b
  {
    if s != "" {
      EncodeSpelled(s[1..], b[1..]);
      assert b == [b[0]] + b[1..];
    }
  }

  lemma {:induction false} EncodeConcat(s: string, t: string)
    ensures Encode(s + t) == Encode(s) + Encode(t)
  {
    hide EncodeChar;
    if s == "" {
      assert s + t == t;
    } else {
      EncodeConcat(s[1..], t);
      assert (s + t)[1..] == s[1..] + t;
    }
  }

  /** Encoded length, told by the first byte. */
  function LengthFrom(first: Byte): nat {
    if first < 0x80 then 1 else if first < 0xE0 then 2 else if first < 0xF0 then 3 else 4
  }

  lemma CharShape(c: char)
    ensures var b := EncodeChar(c);
            && |b| == LengthFrom(b[0]) && !(0x80 <= b[0] < 0xC0)
            && forall k :: 0 < k < |b| ==> 0x80 <= b[k] < 0xC0
  {
  }

  lemma EncodeStep(s: string)
    requires s != ""
    ensures var c, rest := EncodeChar(s[0]), Encode(s[1..]);
            && Encode(s) == c + rest && Encode(s)[..|c|] == c && Encode(s)[|c|..] == rest
            && Encode(s)[0] == c[0]
  {
  }

  lemma AsciiHead(s: string)
    requires s != "" && s[0] as int < 128
    ensures Encode(s) == [s[0] as int] + Encode(s[1..])
  {
  }

  /** The character a code stands for. */
  function CharFrom(b: seq<Byte>): int
    requires 1 <= |b| <= 4
  {
    match |b|
    case 1 => b[0]
    case 2 => 0x40 * (b[0] as int) + b[1] as int - 0x3080
    case 3 => 0x1000 * (b[0] as int) + 0x40 * (b[1] as int) + b[2] as int - 0xE2080
    case _ => 0x40000 * (b[0] as int) + 0x1000 * (b[1] as int) + 0x40 * (b[2] as int) + b[3] as int - 0x3C82080
  }

  lemma SixBitGroups(n: nat)
    ensures n == 0x40 * (n / 0x40) + n % 0x40
    ensures n == 0x1000 * (n / 0x1000) + 0x40 * (n / 0x40 % 0x40) + n % 0x40
    ensures n == 0x40000 * (n / 0x40000) + 0x1000 * (n / 0x1000 % 0x40) + 0x40 * (n / 0x40 % 0x40) + n % 0x40
  {
    assert n / 0x1000 == n / 0x40 / 0x40;
    assert n / 0x40000 == n / 0x1000 / 0x40;
  }

  lemma CharReadsBack(c: char)
    ensures CharFrom(EncodeChar(c)) == c as int
  {
    SixBitGroups(c as int);
  }

  lemma {:induction false} EncodeInjective(s: string, t: string)
    requires Encode(s) == Encode(t)
    ensures s == t
  {
    hide EncodeChar, CharFrom, LengthFrom;
    if s != "" && t != "" {
      EncodeStep(s);
      EncodeStep(t);
      CharShape(s[0]);
      CharShape(t[0]);
      CharReadsBack(s[0]);
      CharReadsBack(t[0]);
      EncodeInjective(s[1..], t[1..]);
      assert s == [s[0]] + s[1..] && t == [t[0]] + t[1..];
    }
  }

  predicate IsTrail(b: Byte) {
    0x80 <= b <= 0xBF
  }

  /** The syntax of one character, section 4 of RFC 3629. */
  predicate IsCharacter(b: seq<Byte>) {
    || (|b| == 1 && b[0] <= 0x7F)
    || (|b| == 2 && 0xC2 <= b[0] <= 0xDF && IsTrail(b[1]))
    || (|b| == 3 && IsTrail(b[2]) && IsTrail(b[1]) && 0xE0 <= b[0] <= 0xEF
        && (b[0] == 0xE0 ==> b[1] >= 0xA0) && (b[0] == 0xED ==> b[1] <= 0x9F))
    || (|b| == 4 && IsTrail(b[3]) && IsTrail(b[2]) && IsTrail(b[1]) && 0xF0 <= b[0] <= 0xF4
        && (b[0] == 0xF0 ==> b[1] >= 0x90) && (b[0] == 0xF4 ==> b[1] <= 0x8F))
  }

  /** Every character is written in the one form that the standard allows. */
  lemma CharIsCharacter(c: char)
    ensures IsCharacter(EncodeChar(c))
  {
  }
}
