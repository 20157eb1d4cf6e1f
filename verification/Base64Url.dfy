/** Unpadded base64url, section 5 of RFC 4648, as the strict decoder of src/custom_server.rs:28 reads it. */
module Base64Url {
  import opened Prelude

  type Sextet = d: int | 0 <= d < 64

  const HYPHEN: int := 62

  function Digit(d: Sextet): (c: char)
    ensures c == '-' <==> d == HYPHEN
  {
    if d < 26 then ('A' as int + d) as char
    else if d < 52 then ('a' as int + d - 26) as char
    else if d < 62 then ('0' as int + d - 52) as char
    else if d == HYPHEN then '-' else '_'
  }

  function Value(c: char): (d: Option<Sextet>)
    ensures d.Some? ==> Digit(d.value) == c
  {
    if 'A' <= c <= 'Z' then Some(c as int - 'A' as int)
    else if 'a' <= c <= 'z' then Some(c as int - 'a' as int + 26)
    else if '0' <= c <= '9' then Some(c as int - '0' as int + 52)
    else if c == '-' then Some(HYPHEN)
    else if c == '_' then Some(63)
    else None
  }

  function High(b0: Byte): Sextet { b0 / 4 }

  function Upper(b0: Byte, b1: Byte): Sextet { b0 % 4 * 16 + b1 / 16 }

  function Lower(b1: Byte, b2: Byte): Sextet { b1 % 16 * 4 + b2 / 64 }

  function Low(b2: Byte): Sextet { b2 % 64 }

  /** Three bytes make four sextets; one or two bytes at the end make two or three, filled up with zero bits. */
  function Sextets(b: seq<Byte>): seq<Sextet> {
    if |b| == 0 then []
    else if |b| == 1 then [High(b[0]), Upper(b[0], 0)]
    else if |b| == 2 then [High(b[0]), Upper(b[0], b[1]), Lower(b[1], 0)]
    else [High(b[0]), Upper(b[0], b[1]), Lower(b[1], b[2]), Low(b[2])] + Sextets(b[3..])
  }

  function First(d0: Sextet, d1: Sextet): Byte { d0 * 4 + d1 / 16 }

  function Second(d1: Sextet, d2: Sextet): Byte { d1 % 16 * 16 + d2 / 4 }

  function Third(d2: Sextet, d3: Sextet): Byte { d2 % 4 * 64 + d3 }

  /** Rejects a single left-over sextet and left-over bits that are not zero. */
  function Bytes(d: seq<Sextet>): Option<seq<Byte>> {
    if |d| == 0 then Some([])
    else if |d| == 1 then None
    else if |d| == 2 then
      if d[1] % 16 == 0 then Some([First(d[0], d[1])]) else None
    else if |d| == 3 then
      if d[2] % 4 == 0 then Some([First(d[0], d[1]), Second(d[1], d[2])]) else None
    else match Bytes(d[4..])
      case None => None
      case Some(rest) =>
        Some([First(d[0], d[1]), Second(d[1], d[2]), Third(d[2], d[3])] + rest)
  }

  function Digits(d: seq<Sextet>): (s: string)
    ensures |s| == |d| && forall i :: 0 <= i < |d| ==> s[i] == Digit(d[i])
  {
    if d == [] then "" else [Digit(d[0])] + Digits(d[1..])
  }

  function Values(s: string): (d: Option<seq<Sextet>>)
    ensures d.Some? ==> |d.value| == |s| && forall i :: 0 <= i < |s| ==> Value(s[i]) == Some(d.value[i])
    ensures d.None? ==> exists i :: 0 <= i < |s| && Value(s[i]).None?
  {
    if s == "" then Some([])
    else match (Value(s[0]), Values(s[1..]))
      case (Some(v), Some(rest)) => Some([v] + rest)
      case _ => None
  }

  function Encode(b: seq<Byte>): string {
    Digits(Sextets(b))
  }

  function Decode(s: string): Option<seq<Byte>> {
    match Values(s)
    case None => None
    case Some(d) => Bytes(d)
  }

  lemma GroupThere(b0: Byte, b1: Byte, b2: Byte)
    ensures First(High(b0), Upper(b0, b1)) == b0
    ensures Second(Upper(b0, b1), Lower(b1, b2)) == b1
    ensures Third(Lower(b1, b2), Low(b2)) == b2
    ensures Upper(b0, 0) % 16 == 0 && Lower(b1, 0) % 4 == 0
  {
  }

  lemma GroupBack(d0: Sextet, d1: Sextet, d2: Sextet, d3: Sextet)
    ensures High(First(d0, d1)) == d0
    ensures Upper(First(d0, d1), Second(d1, d2)) == d1
    ensures Lower(Second(d1, d2), Third(d2, d3)) == d2
    ensures Low(Third(d2, d3)) == d3
    ensures d1 % 16 == 0 ==> Upper(First(d0, d1), 0) == d1
    ensures d2 % 4 == 0 ==> Lower(Second(d1, d2), 0) == d2
  {
  }

  lemma {:induction false} BytesOfSextets(b: seq<Byte>)
    ensures Bytes(Sextets(b)) == Some(b)
  {
    hide High, Upper, Lower, Low, First, Second, Third;
    if |b| >= 3 {
      GroupThere(b[0], b[1], b[2]);
      BytesOfSextets(b[3..]);
      assert Sextets(b)[4..] == Sextets(b[3..]);
      assert b == [b[0], b[1], b[2]] + b[3..];
    } else if |b| == 2 {
      GroupThere(b[0], b[1], 0);
      assert b == [b[0], b[1]];
    } else if |b| == 1 {
      GroupThere(b[0], 0, 0);
      assert b == [b[0]];
    }
  }

  lemma {:induction false} SextetsOfBytes(d: seq<Sextet>)
    requires Bytes(d).Some?
    ensures Sextets(Bytes(d).value) == d
  {
    hide High, Upper, Lower, Low, First, Second, Third;
    if |d| >= 4 {
      GroupBack(d[0], d[1], d[2], d[3]);
      SextetsOfBytes(d[4..]);
      var b := Bytes(d).value;
      assert b[3..] == Bytes(d[4..]).value;
      assert d == [d[0], d[1], d[2], d[3]] + d[4..];
    } else if |d| == 3 {
      GroupBack(d[0], d[1], d[2], 0);
      assert d == [d[0], d[1], d[2]];
    } else if |d| == 2 {
      GroupBack(d[0], d[1], 0, 0);
      assert d == [d[0], d[1]];
    }
  }

  lemma DigitHasValue(d: Sextet)
    ensures Value(Digit(d)) == Some(d)
  {
  }

  lemma {:induction false} ValuesOfDigits(d: seq<Sextet>)
    ensures Values(Digits(d)) == Some(d)
  {
    if d != [] {
      DigitHasValue(d[0]);
      ValuesOfDigits(d[1..]);
      assert Digits(d)[1..] == Digits(d[1..]);
      assert d == [d[0]] + d[1..];
    }
  }

  /** Decoding undoes encoding ... */
  lemma DecodeEncode(b: seq<Byte>)
    ensures Decode(Encode(b)) == Some(b)
  {
    ValuesOfDigits(Sextets(b));
    BytesOfSextets(b);
  }

  /** ... and every text the decoder accepts is the one the encoder writes for those bytes. */
  lemma EncodeDecode(s: string)
    requires Decode(s).Some?
    ensures Encode(Decode(s).value) == s
  {
    SextetsOfBytes(Values(s).value);
    var t := Encode(Decode(s).value);
    assert |t| == |s|;
    assert forall i :: 0 <= i < |s| ==> t[i] == s[i];
  }

  /** A character outside the alphabet is fatal, and so is a length of 1 modulo 4. */
  lemma DecodeRejects(s: string, i: nat)
    requires i < |s| && Value(s[i]).None?
    ensures Decode(s).None?
  {
  }

  lemma {:induction false} LengthOneRejected(d: seq<Sextet>)
    requires |d| % 4 == 1
    ensures Bytes(d).None?
  {
    if |d| >= 4 {
      LengthOneRejected(d[4..]);
    }
  }

  /** For ASCII bytes the sextet 62 occurs at positions 3 modulo 4 only. */
  lemma {:induction false} HyphenPositions(b: seq<Byte>, i: nat)
    requires forall k :: 0 <= k < |b| ==> b[k] < 128
    requires i < |Sextets(b)| && Sextets(b)[i] == HYPHEN
    ensures i % 4 == 3
  {
    hide High, Upper, Lower, Low;
    if |b| >= 3 && i >= 4 {
      assert Sextets(b)[i] == Sextets(b[3..])[i - 4];
      HyphenPositions(b[3..], i - 4);
    } else if |b| >= 3 {
      GroupHyphen(b[0], b[1], b[2]);
    } else {
      GroupHyphen(b[0], if |b| == 2 then b[1] else 0, 0);
    }
  }

  lemma GroupHyphen(b0: Byte, b1: Byte, b2: Byte)
    requires b0 < 128 && b1 < 128 && b2 < 128
    ensures High(b0) != HYPHEN && Upper(b0, b1) != HYPHEN && Lower(b1, b2) != HYPHEN
  {
  }

  /** The last sextet of bytes that end in `x`, `y`. */
  lemma {:induction false} LastSextet(b: seq<Byte>, x: Byte, y: Byte)
    requires |b| >= 2 && b[|b| - 2] == x && b[|b| - 1] == y
    ensures |Sextets(b)| >= 2
    ensures Sextets(b)[|Sextets(b)| - 1] == match |b| % 3
                                            case 0 => Low(y)
                                            case 1 => Upper(y, 0)
                                            case _ => Lower(y, 0)
  {
    if |b| >= 5 {
      assert |b[3..]| % 3 == |b| % 3;
      LastSextet(b[3..], x, y);
      assert Sextets(b)[|Sextets(b)| - 1] == Sextets(b[3..])[|Sextets(b[3..])| - 1];
    } else if |b| == 4 {
      assert b[3..] == [y];
    } else if |b| == 3 {
      assert b[3..] == [];
    }
  }
}
