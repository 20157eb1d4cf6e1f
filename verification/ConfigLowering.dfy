/**
 What Unicode lower-casing leaves of the parser's patterns, and byte positions in texts.

 Suffixes and `host=` are found in a name exactly where ASCII lower-casing (`Text.ToLower`) shows them; only the byte
 positions of what comes before may differ.
 */
module ConfigLowering {
  import opened Prelude
  import opened Lists
  import opened Text
  import opened ConfigName
  import Utf8

  /** ASCII letters are lowered as usual. Of all other characters only U+0130 and U+212A give ASCII ones, `i` and `k`. */
  ghost predicate IsLowering(lower: Lowering) {
    forall c: char :: LowersWell(lower, c)
  }

  predicate IsBorrowed(c: char) {
    c == 'i' || c == 'k'
  }

  predicate LowersWell(lower: Lowering, c: char) {
    if c as int < 128 then lower(c) == [ToLowerChar(c)]
    else lower(c) != "" && forall i :: 0 <= i < |lower(c)| ==> lower(c)[i] as int >= 128 || IsBorrowed(lower(c)[i])
  }

  /** Written only by ASCII characters. */
  predicate IsPlain(p: string) {
    forall i :: 0 <= i < |p| ==> p[i] as int < 128 && !IsBorrowed(p[i])
  }

  lemma {:induction false} LowerConcat(lower: Lowering, s: string, t: string)
    ensures Lower(lower, s + t) == Lower(lower, s) + Lower(lower, t)
  {
    if s == "" {
      assert s + t == t;
    } else {
      LowerConcat(lower, s[1..], t);
      assert (s + t)[1..] == s[1..] + t;
      Assoc(lower(s[0]), Lower(lower, s[1..]), Lower(lower, t));
    }
  }

  lemma {:induction false} LowerAscii(lower: Lowering, s: string)
    requires IsLowering(lower) && Utf8.IsAscii(s)
    ensures Lower(lower, s) == ToLower(s)
  {
    if s != "" {
      LowerAscii(lower, s[1..]);
      assert LowersWell(lower, s[0]);
    }
  }

  /** A plain character stands in the lowered text only if it, or its capital, stands in the text. */
  lemma {:induction false} LowerHas(lower: Lowering, s: string, x: char)
    requires IsLowering(lower) && x as int < 128 && !IsBorrowed(x) && x in Lower(lower, s)
    ensures x in ToLower(s)
  {
    if s != "" {
      assert LowersWell(lower, s[0]);
      assert Lower(lower, s) == lower(s[0]) + Lower(lower, s[1..]);
      if x !in lower(s[0]) {
        LowerHas(lower, s[1..], x);
        assert ToLower(s)[1..] == ToLower(s[1..]);
      } else {
        var i :| 0 <= i < |lower(s[0])| && lower(s[0])[i] == x;
        assert ToLower(s)[0] == x;
      }
    }
  }

  // ---------- plain patterns ----------

  lemma {:induction false} PrefixIff(lower: Lowering, s: string, p: string)
    requires IsLowering(lower) && IsPlain(p)
    ensures p <= Lower(lower, s) <==> p <= ToLower(s)
  {
    if p != "" && s != "" {
      assert LowersWell(lower, s[0]);
      PrefixIff(lower, s[1..], p[1..]);
      assert ToLower(s) == [ToLowerChar(s[0])] + ToLower(s[1..]);
      if s[0] as int < 128 {
        assert Lower(lower, s) == [ToLowerChar(s[0])] + Lower(lower, s[1..]);
        ConsPrefix(p, ToLowerChar(s[0]), Lower(lower, s[1..]));
        ConsPrefix(p, ToLowerChar(s[0]), ToLower(s[1..]));
      } else {
        assert Lower(lower, s)[0] == lower(s[0])[0];
        assert p[0] != Lower(lower, s)[0] && p[0] != ToLower(s)[0];
      }
    }
  }

  lemma ConsPrefix(p: string, c: char, s: string)
    requires p != ""
    ensures p <= [c] + s <==> p[0] == c && p[1..] <= s
  {
    assert ([c] + s)[1..] == s;
    if p[0] == c && p[1..] <= s {
      assert p == [c] + p[1..];
    }
  }

  lemma {:induction false} ContainsIff(lower: Lowering, s: string, p: string)
    requires IsLowering(lower) && IsPlain(p) && p != ""
    ensures Contains(Lower(lower, s), p) <==> Contains(ToLower(s), p)
  {
    if s != "" {
      assert LowersWell(lower, s[0]);
      ContainsIff(lower, s[1..], p);
      PrefixIff(lower, s, p);
      assert ToLower(s)[1..] == ToLower(s[1..]);
      var u, v := lower(s[0]), Lower(lower, s[1..]);
      if s[0] as int < 128 {
        assert (u + v)[1..] == v;
      } else {
        assert forall i :: 0 <= i < |u| ==> u[i] != p[0];
        ContainsSkips(u, v, p);
        NotAt(ToLower(s), p, 0, 0);
      }
    }
  }

  lemma {:induction false} ContainsSkips(u: string, v: string, p: string)
    requires p != "" && forall i :: 0 <= i < |u| ==> u[i] != p[0]
    ensures Contains(u + v, p) <==> Contains(v, p)
  {
    if u == "" {
      assert u + v == v;
    } else {
      ContainsSkips(u[1..], v, p);
      assert (u + v)[1..] == u[1..] + v;
      NotAt(u + v, p, 0, 0);
    }
  }

  lemma LowerSnoc(lower: Lowering, s: string, c: char)
    ensures Lower(lower, s + [c]) == Lower(lower, s) + lower(c)
    ensures ToLower(s + [c]) == ToLower(s) + [ToLowerChar(c)]
  {
    LowerConcat(lower, s, [c]);
    assert Lower(lower, [c]) == lower(c) + "";
  }

  lemma {:induction false} EndsIff(lower: Lowering, s: string, p: string)
    requires IsLowering(lower) && IsPlain(p)
    ensures EndsWith(Lower(lower, s), p) <==> EndsWith(ToLower(s), p)
  {
    if p != "" && s != "" {
      var t, c, q := s[..|s| - 1], s[|s| - 1], p[..|p| - 1];
      assert LowersWell(lower, c) && s == t + [c];
      EndsIff(lower, t, q);
      LowerSnoc(lower, t, c);
      hide Lower, ToLower, EndsWith;
      SnocEnds(ToLower(t), ToLowerChar(c), p);
      if c as int < 128 {
        SnocEnds(Lower(lower, t), ToLowerChar(c), p);
      } else {
        LastDiffers(Lower(lower, s), p);
        LastDiffers(ToLower(s), p);
      }
    }
  }

  lemma SnocEnds(s: string, c: char, p: string)
    requires p != ""
    ensures EndsWith(s + [c], p) <==> p[|p| - 1] == c && EndsWith(s, p[..|p| - 1])
  {
    var t := s + [c];
    if |p| <= |t| {
      assert t[|t| - |p|..] == s[|s| - (|p| - 1)..] + [c];
      assert p == p[..|p| - 1] + [p[|p| - 1]];
    }
  }

  lemma LastDiffers(s: string, p: string)
    requires s != "" && p != "" && s[|s| - 1] != p[|p| - 1]
    ensures !EndsWith(s, p)
  {
    if |p| <= |s| {
      assert s[|s| - |p|..][|p| - 1] == s[|s| - 1];
    }
  }

  // ---------- byte positions ----------

  lemma ByteLenConcat(s: string, t: string)
    ensures ByteLen(s + t) == ByteLen(s) + ByteLen(t)
  {
    Utf8.EncodeConcat(s, t);
  }

  lemma {:induction false} FromByteSkips(s: string, t: string, b: nat)
    ensures FromByte(s + t, ByteLen(s) + b) == FromByte(t, b)
  {
    hide Utf8.EncodeChar;
    if s == "" {
      assert s + t == t;
    } else {
      FromByteSkips(s[1..], t, b);
      assert (s + t)[1..] == s[1..] + t;
    }
  }

  /** A byte position inside the first of two texts. */
  lemma {:induction false} FromByteInside(s: string, t: string, b: int)
    requires b <= ByteLen(s)
    ensures FromByte(s, b).Some? ==> FromByte(s + t, b) == Some(FromByte(s, b).value + t)
    ensures FromByte(s, b).None? ==> FromByte(s + t, b).None?
  {
    hide Utf8.EncodeChar;
    if b > 0 && s != "" {
      FromByteInside(s[1..], t, b - |Utf8.EncodeChar(s[0])|);
      assert (s + t)[1..] == s[1..] + t;
    }
  }

  /** What a slice leaves is an end of the text, and the byte position is that of its start. */
  lemma {:induction false} FromByteCuts(s: string, b: int) returns (o: nat)
    requires FromByte(s, b).Some?
    ensures o <= |s| && FromByte(s, b).value == s[o..] && ByteLen(s[..o]) == b
    ensures b > 0 ==> o > 0
  {
    hide Utf8.EncodeChar;
    if b == 0 {
      o := 0;
    } else {
      o := FromByteCuts(s[1..], b - |Utf8.EncodeChar(s[0])|);
      assert s[1..][o..] == s[o + 1..];
      assert s[..o + 1] == [s[0]] + s[1..][..o];
      ByteLenConcat([s[0]], s[1..][..o]);
      assert Utf8.Encode([s[0]]) == Utf8.EncodeChar(s[0]) + [];
      o := o + 1;
    }
  }

  lemma {:induction false} UpToByteAt(s: string, t: string)
    ensures UpToByte(s + t, ByteLen(s)) == Some(s)
  {
    hide Utf8.EncodeChar;
    if s == "" {
    } else {
      UpToByteAt(s[1..], t);
      assert (s + t)[1..] == s[1..] + t && (s + t)[..1] == s[..1];
      assert s == s[..1] + s[1..];
    }
  }

  lemma AsciiByteLen(s: string)
    requires Utf8.IsAscii(s)
    ensures ByteLen(s) == |s|
  {
    Utf8.EncodeAscii(s);
  }

  // ---------- the parser in these terms ----------

  /** Suffix removal as ASCII lower-casing shows it. */
  function Stem(s: string): string {
    if EndsWith(ToLower(s), ".exe.exe") then s[..|s| - 8]
    else if EndsWith(ToLower(s), ".exe") then s[..|s| - 4]
    else s
  }

  lemma EndIsAscii(s: string, p: string, v: string)
    requires IsPlain(p) && EndsWith(ToLower(s), p)
    requires |p| <= |s| && v == s[|s| - |p|..]
    ensures Utf8.IsAscii(v)
  {
    hide ToLower, ToLowerChar, EndsWith;
    forall i | 0 <= i < |v| ensures v[i] as int < 128 {
      EndChar(s, p, i);
    }
  }

  lemma EndsAt(low: string, p: string, i: nat)
    requires EndsWith(low, p) && i < |p|
    ensures low[|low| - |p| + i] == p[i]
  {
    assert low[|low| - |p|..][i] == p[i];
  }

  lemma AsciiUnder(c: char, x: char)
    requires ToLowerChar(c) == x && x as int < 128
    ensures c as int < 128
  {
  }

  lemma EndChar(s: string, p: string, i: nat)
    requires i < |p| <= |s| && p[i] as int < 128 && EndsWith(ToLower(s), p)
    ensures s[|s| - |p| + i] as int < 128
  {
    hide ToLower, EndsWith, ToLowerChar;
    EndsAt(ToLower(s), p, i);
    AsciiUnder(s[|s| - |p| + i], p[i]);
  }

  lemma EndFits(s: string, p: string)
    requires EndsWith(ToLower(s), p)
    ensures |p| <= |s|
  {
    hide ToLower;
  }

  lemma AsciiEnd(s: string, p: string)
    requires IsPlain(p) && EndsWith(ToLower(s), p)
    ensures |p| <= |s| && UpToByte(s, ByteLen(s) - |p|) == Some(s[..|s| - |p|])
  {
    hide ToLower, UpToByte, ByteLen, EndsWith, IsPlain, Utf8.IsAscii;
    EndFits(s, p);
    var u, v := s[..|s| - |p|], s[|s| - |p|..];
    EndIsAscii(s, p, v);
    assert s == u + v;
    ByteLenConcat(u, v);
    AsciiByteLen(v);
    UpToByteAt(u, v);
  }

  lemma StripIsStem(lower: Lowering, s: string)
    requires IsLowering(lower)
    ensures StripExe(lower, s) == Some(Stem(s))
  {
    hide ToLower, Lower, UpToByte, IsLowering, EndsWith;
    EndsIff(lower, s, ".exe.exe");
    EndsIff(lower, s, ".exe");
    if EndsWith(ToLower(s), ".exe.exe") {
      AsciiEnd(s, ".exe.exe");
    } else if EndsWith(ToLower(s), ".exe") {
      AsciiEnd(s, ".exe");
    }
  }

  const HOST := "host="

  lemma {:induction false} FindNone(s: string, p: string)
    ensures Find(s, p).None? <==> !Contains(s, p)
  {
    if s != "" {
      FindNone(s[1..], p);
    }
  }

  /** A name without `host=` is read piece by piece. */
  lemma ParseByPieces(libs: Libraries, lower: Lowering, name: string)
    requires IsLowering(lower) && !Contains(ToLower(Stem(name)), HOST)
    ensures Parse(libs, lower, name) ==
            match TryPieces(libs, Split(Unlicensed(Stem(name)), "--"))
            case Some(c) => Parsed(c)
            case None => Rejected
  {
    hide ToLower, Lower, StripExe, Stem, IsLowering, Unlicensed, TryPieces, Split;
    StripIsStem(lower, name);
    ContainsIff(lower, Stem(name), HOST);
    FindNone(Lower(lower, Stem(name)), HOST);
  }

  const CAPITALS := "ABCDEFGHIJKLMNOPQRSTUVWXYZ"
  const SMALL := "abcdefghijklmnopqrstuvwxyz"

  /** The letters of ASCII are lowered one by one ... */
  lemma LettersAreLowered(lower: Lowering, i: nat)
    requires IsLowering(lower) && i < 26
    ensures lower(CAPITALS[i]) == [SMALL[i]]
  {
    assert LowersWell(lower, CAPITALS[i]);
  }

  /** ... and nothing else of it is. */
  lemma OthersAreNotLowered(lower: Lowering, c: char)
    requires IsLowering(lower) && c as int < 128 && c !in CAPITALS
    ensures lower(c) == [c]
  {
    assert LowersWell(lower, c);
    if 'A' <= c <= 'Z' {
      NoGap(c);
    }
  }

  lemma NoGap(c: char)
    requires 'A' <= c <= 'Z'
    ensures c in CAPITALS
  {
    assert CAPITALS[c as int - 'A' as int] == c;
  }
}
