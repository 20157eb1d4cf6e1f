/**
 Signed configurations and any other bytes in the name of an executable (src/custom_server.rs:21-37, 89-105).

 A signature is no text, so the name of a signed configuration can start or end like anything. It is read wherever the
 parser tries it, and that is in every file name exactly if the name is clean and clear.
 */
module ConfigSealed {
  import opened Prelude
  import opened Lists
  import opened Text
  import opened ConfigName
  import opened ConfigLowering
  import opened ConfigRoundTrip
  import opened ConfigTried
  import ConfigJson
  import Utf8
  import Base64Url

  /** The name printed for some bytes. */
  function Printed(d: seq<Byte>): string {
    Reverse(Base64Url.Encode(d))
  }

  lemma PrintedChars(d: seq<Byte>)
    ensures InAlphabet(Printed(d)) && Base64Url.Decode(Reverse(Printed(d))) == Some(d)
  {
    hide Base64Url.Decode;
    var e := Base64Url.Encode(d);
    ReverseReverse(e);
    Base64Url.DecodeEncode(d);
    var x := Base64Url.Sextets(d);
    forall i | 0 <= i < |e| ensures Base64Url.Value(Printed(d)[i]).Some? {
      Base64Url.DigitHasValue(x[|e| - 1 - i]);
    }
  }

  /** The configuration itself if it can be read, otherwise the signed message. */
  lemma PrintedMeans(libs: Libraries, d: seq<Byte>)
    ensures FromConfigString(libs, Printed(d)) ==
            if libs.read(d).Some? then libs.read(d)
            else if libs.verify(d).Some? then libs.read(libs.verify(d).value)
            else None
  {
    hide Base64Url.Decode, Base64Url.Encode, Reverse, InAlphabet;
    PrintedChars(d);
  }

  /** A signed configuration is read back from every file name, if its printed form is clean and clear. */
  lemma SignedIsReadBack(libs: Libraries, lower: Lowering, d: seq<Byte>, m: seq<Byte>, c: CustomServer,
                         sep: string, copies: seq<Copy>, tail: string, ext: string)
    requires Faithful(libs) && IsLowering(lower)
    requires IsSigned(libs, d, m, c)
    requires IsClean(Printed(d)) && IsClear(Printed(d))
    requires IsSeparator(sep) && AreNumbered(copies) && IsTail(tail) && IsExtension(ext)
    requires !Contains(ToLower(tail), HOST)
    ensures Parse(libs, lower, Wrapped(sep, Printed(d), copies, tail, ext)) == Parsed(c)
  {
    hide Faithful, IsLowering, Contains, IsClean, IsClear, Parse, Wrapped, Printed, FromConfigString, IsSeparator;
    hide IsExtension, AreNumbered, ToLower, InAlphabet;
    PrintedChars(d);
    PrintedMeans(libs, d);
    WrappedIsRead(libs, lower, Printed(d), c, sep, copies, tail, ext);
  }

  // ---------- what is not read ----------

  lemma {:induction false} TrimStartKeeps(s: string, x: char)
    requires x in s && !IsWhitespace(x)
    ensures x in TrimStart(s)
  {
    if IsWhitespace(s[0]) {
      TrimStartKeeps(s[1..], x);
    }
  }

  lemma {:induction false} TrimEndKeeps(s: string, x: char)
    requires x in s && !IsWhitespace(x)
    ensures x in TrimEnd(s)
  {
    if IsWhitespace(s[|s| - 1]) {
      TrimEndKeeps(s[..|s| - 1], x);
    }
  }

  /** A text with a parenthesis in it cannot be decoded. */
  lemma ParenthesisIsNotRead(libs: Libraries, s: string, x: char)
    requires x in s && x in "()"
    ensures FromConfigString(libs, s).None? && FromConfigString(libs, Trim(s)).None?
  {
    hide IsWhitespace, Base64Url.Decode;
    assert !IsWhitespace(x) by { ParenthesisIsInk(x); }
    TrimStartKeeps(s, x);
    TrimEndKeeps(TrimStart(s), x);
    ForeignIsNotRead(libs, s, x);
    ForeignIsNotRead(libs, Trim(s), x);
  }

  lemma ParenthesisIsInk(x: char)
    requires x in "()"
    ensures !IsWhitespace(x) && Base64Url.Value(x).None?
  {
  }

  lemma ForeignIsNotRead(libs: Libraries, s: string, x: char)
    requires x in s && x in "()"
    ensures FromConfigString(libs, s).None?
  {
    hide Base64Url.Decode;
    ParenthesisIsInk(x);
    var i :| 0 <= i < |s| && s[i] == x;
    assert Reverse(s)[|s| - 1 - i] == x;
    Base64Url.DecodeRejects(Reverse(s), |s| - 1 - i);
  }

  lemma {:induction false} NoPartIsRead(libs: Libraries, parts: seq<string>)
    requires forall i :: 0 <= i < |parts| ==> ')' in parts[i]
    ensures TryParts(libs, parts).None?
  {
    hide FromConfigString, Trim;
    if parts != [] {
      ParenthesisIsNotRead(libs, parts[0], ')');
      NoPartIsRead(libs, parts[1..]);
    }
  }

  /** Behind the first parenthesis every part of the marks holds a closing one. */
  lemma {:induction false} MarkParts(number: string, copies: seq<Copy>, i: nat)
    requires AreNumbered(copies) && '(' !in number
    requires i < |Split(number + ")" + Marks(copies), "(")|
    ensures ')' in Split(number + ")" + Marks(copies), "(")[i]
    decreases copies
  {
    hide Split;
    var x := number + ")";
    if copies == [] {
      assert x + Marks(copies) == x + "";
      NoParenthesisStart(x, "");
      SplitSkips(x, "", "(");
      EmptySplit();
    } else {
      var v := MarksBegin(copies);
      var u := x + if copies[0].spaced then " " else "";
      assert x + Marks(copies) == u + ("(" + v);
      NoParenthesisStart(u, "(" + v);
      SplitFirst(u, "(", v);
      if i > 0 {
        MarkParts(copies[0].number, copies[1..], i - 1);
      }
    }
  }

  lemma EmptySplit()
    ensures Split("", "(") == [""]
  {
  }

  /** A text that is not read by itself is not read with marks behind it either. */
  lemma MarkedTextIsNotRead(libs: Libraries, n: string, copies: seq<Copy>)
    requires IsText(n) && FromConfigString(libs, n).None? && AreNumbered(copies)
    ensures TryPiece(libs, n + Marks(copies)).None?
  {
    hide FromConfigString, Split, Trim, Contains, IsWhitespace, IsClear;
    assert n != "" by { ClearIsSome(n); }
    AlphabetChars(n[0]);
    AlphabetChars(n[|n| - 1]);
    TrimIsIdentity(n);
    assert '(' !in n by {
      forall k | 0 <= k < |n| ensures n[k] != '(' { AlphabetChars(n[k]); }
    }
    if copies == [] {
      assert n + Marks(copies) == n;
      if Contains(n, "(") {
        ContainsChar(n, "(", "("[0]);
      }
    } else {
      var v := MarksBegin(copies);
      var u := if copies[0].spaced then n + " " else n;
      assert n + Marks(copies) == u + ("(" + v);
      var parts := Split(v, "(");
      assert (n + Marks(copies))[|u|] == '(';
      ParenthesisIsNotRead(libs, n + Marks(copies), '(');
      NoParenthesisStart(u, "(" + v);
      SplitFirst(u, "(", v);
      assert ([u] + parts)[1..] == parts;
      forall i | 0 <= i < |parts| ensures ')' in parts[i] {
        MarkParts(copies[0].number, copies[1..], i);
      }
      NoPartIsRead(libs, parts);
    }
  }

  lemma ClearIsSome(n: string)
    requires IsClear(n)
    ensures n != ""
  {
  }

  /** Without a tail the bytes alone decide: read them, or else their signed message, or else nothing. */
  lemma SealedOutcome(libs: Libraries, lower: Lowering, d: seq<Byte>, sep: string, copies: seq<Copy>, ext: string)
    requires Faithful(libs) && IsLowering(lower) && IsClean(Printed(d)) && IsClear(Printed(d))
    requires IsSeparator(sep) && AreNumbered(copies) && IsExtension(ext)
    ensures Parse(libs, lower, Wrapped(sep, Printed(d), copies, "", ext)) ==
            if libs.read(d).Some? then Parsed(libs.read(d).value)
            else if libs.verify(d).Some? && libs.read(libs.verify(d).value).Some? then Parsed(libs.read(libs.verify(d).value).value)
            else Rejected
  {
    hide Faithful, IsLowering, Contains, IsClean, IsClear, Parse, Wrapped, Printed, FromConfigString, IsSeparator;
    hide IsExtension, AreNumbered, ToLower, InAlphabet, TryPiece, Split, Unlicensed, Stem;
    var n, name := Printed(d), Wrapped(sep, Printed(d), copies, "", ext);
    PrintedChars(d);
    PrintedMeans(libs, d);
    NoHostInNothing();
    match FromConfigString(libs, n)
    case Some(c) => WrappedIsRead(libs, lower, n, c, sep, copies, "", ext);
    case None =>
      WrappedPieces(sep, n, copies, "", ext);
      ParseByPieces(libs, lower, name);
      ProgramIsNoConfig(libs);
      MarkedTextIsNotRead(libs, n, copies);
      NeitherIsRead(libs, Split(Unlicensed(Stem(name)), "--"));
  }

  lemma NeitherIsRead(libs: Libraries, pieces: seq<string>)
    requires |pieces| == 2 && TryPiece(libs, pieces[0]).None? && TryPiece(libs, pieces[1]).None?
    ensures TryPieces(libs, pieces).None?
  {
    hide TryPiece;
    var rest := pieces[1..];
    assert rest[0] == pieces[1] && rest[1..] == [];
    assert TryPieces(libs, rest[1..]).None?;
    assert TryPieces(libs, rest).None?;
  }

  lemma NoHostInNothing()
    ensures !Contains(ToLower(""), HOST)
  {
  }

  // ---------- where a text is tried ----------

  /** What is tried is a stretch of a piece. */
  lemma {:induction false} TriedOfWithin(pieces: seq<string>, w: string) returns (i: nat)
    requires w in TriedOf(pieces)
    ensures i < |pieces| && Contains(pieces[i], w)
  {
    hide TriedIn, Contains;
    if w in TriedIn(pieces[0]) {
      TriedInWithin(pieces[0], w);
      i := 0;
    } else {
      i := TriedOfWithin(pieces[1..], w);
      i := i + 1;
    }
  }

  lemma TriedInWithin(piece: string, w: string)
    requires w in TriedIn(piece)
    ensures Contains(piece, w)
  {
    hide Trim, Contains, Split, TrimAll;
    if w == Trim(piece) {
      TrimContained(piece);
    } else {
      var i := TrimAllFrom(Split(piece, "("), w);
      SplitPartContained(piece, "(", i);
      TrimContained(Split(piece, "(")[i]);
      ContainsTrans(piece, Split(piece, "(")[i], w);
    }
  }

  lemma LongerIsNotWithin(s: string, w: string)
    requires |s| < |w|
    ensures !Contains(s, w)
  {
    if Contains(s, w) {
      var i := WhereContained(s, w);
    }
  }

  /** With too little behind the program's name, a text is not tried. */
  lemma ShortRestIsNotEnough(stem: string, rest: string, n: string)
    requires Unlicensed(stem) == PROGRAM + ("--" + rest) && |rest| < |n| && !Contains(PROGRAM, n)
    ensures n !in Tried(stem)
  {
    hide Contains, Split, TriedOf, Unlicensed;
    NoHyphenNoStart(PROGRAM, "--" + rest, "--");
    SplitFirst(PROGRAM, "--", rest);
    var pieces := Split(Unlicensed(stem), "--");
    if n in Tried(stem) {
      var i := TriedOfWithin(pieces, n);
      if i > 0 {
        SplitPartContained(rest, "--", i - 1);
        ContainsTrans(rest, pieces[i], n);
        LongerIsNotWithin(rest, n);
      }
    }
  }

  /** Rewriting never makes a text longer, and shortens it where it does anything. */
  lemma {:induction false} ReplaceSaves(s: string, p: string)
    requires |p| >= 2
    ensures |Replace(s, p, "--")| <= |s|
    ensures Contains(s, p) ==> |Replace(s, p, "--")| <= |s| - (|p| - 2)
    ensures !Contains(s, p) ==> Replace(s, p, "--") == s
    decreases |s|
  {
    if s != "" {
      if p <= s {
        ReplaceSaves(s[|p|..], p);
      } else {
        ReplaceSaves(s[1..], p);
        assert s == s[..1] + s[1..];
      }
    }
  }

  lemma LicenseWithin(s: string)
    ensures Contains(s, LICENSED + "-") ==> Contains(s, LICENSED)
    ensures Contains(s, LICENSED + "--") ==> Contains(s, LICENSED + "-")
  {
    hide Contains;
    assert At(LICENSED + "-", LICENSED, 0) && At(LICENSED + "--", LICENSED + "-", 0);
    ContainsAt(LICENSED + "-", LICENSED, 0);
    ContainsAt(LICENSED + "--", LICENSED + "-", 0);
    if Contains(s, LICENSED + "-") {
      ContainsTrans(s, LICENSED + "-", LICENSED);
    }
    if Contains(s, LICENSED + "--") {
      ContainsTrans(s, LICENSED + "--", LICENSED + "-");
    }
  }

  lemma UnlicensedSaves(s: string)
    ensures Contains(s, LICENSED) ==> |Unlicensed(s)| <= |s| - 8
    ensures Contains(s, LICENSED + "-") ==> |Unlicensed(s)| <= |s| - 9
    ensures !Contains(s, LICENSED) ==> Unlicensed(s) == s
  {
    hide Contains, Replace;
    LicenseWithin(s);
    var l3, l2 := LICENSED + "--", LICENSED + "-";
    var s3 := Replace(s, l3, "--");
    var s2 := Replace(s3, l2, "--");
    ReplaceSaves(s, l3);
    ReplaceSaves(s3, l2);
    ReplaceSaves(s2, LICENSED);
  }

  /** Something that begins with two hyphens behind the program's name still does when it has been rewritten. */
  lemma TailStays(more: string) returns (more': string)
    requires "--" <= more
    ensures Unlicensed(PROGRAM + more) == PROGRAM + more' && "--" <= more'
  {
    hide Replace;
    var l3, l2 := LICENSED + "--", LICENSED + "-";
    var m3 := OneTailPass(more, l3);
    var m2 := OneTailPass(m3, l2);
    more' := OneTailPass(m2, LICENSED);
  }

  lemma OneTailPass(more: string, l: string) returns (more': string)
    requires "--" <= more && IsLicense(l)
    ensures more' == Replace(more, l, "--") && "--" <= more' && Replace(PROGRAM + more, l, "--") == PROGRAM + more'
  {
    LicenseChars(l);
    hide IsLicense;
    NoHyphenNoStart(PROGRAM, more, l);
    ReplaceSkips(PROGRAM, more, l, "--");
    more' := Replace(more, l, "--");
    HyphensStay(more, l);
  }

  lemma HyphensStay(more: string, l: string)
    requires "--" <= more && |l| >= 10 && l[0] == '-' && l[1] == 'l'
    ensures "--" <= Replace(more, l, "--")
  {
    var t := more[1..];
    assert more[1] == '-' && t[0] == '-';
    assert !(l <= more);
    assert l <= t || Replace(t, l, "--") == t[..1] + Replace(t[1..], l, "--");
  }

  /** So a wrapped text of which the rewriting takes enough is not tried. */
  lemma ShortenedIsNotTried(more: string, n: string)
    requires "--" <= more && |Unlicensed(PROGRAM + more)| < |PROGRAM| + 2 + |n| && !Contains(PROGRAM, n)
    ensures n !in Tried(PROGRAM + more)
  {
    hide Contains, Unlicensed, Tried;
    var more' := TailStays(more);
    assert more' == "--" + more'[2..];
    ShortRestIsNotEnough(PROGRAM + more, more'[2..], n);
  }

  // ---------- texts that are not clear ----------

  lemma StartIsForeign(n: string)
    requires n != "" && n[0] !in PROGRAM
    ensures !Contains(PROGRAM, n)
  {
    hide Contains;
    if Contains(PROGRAM, n) {
      ContainsChar(PROGRAM, n, n[0]);
    }
  }

  /** A stem with no dot in it loses nothing. */
  lemma StemOfWrapped(sep: string, n: string, tail: string)
    requires InAlphabet(n) && IsSeparator(sep) && (tail == "" || tail == "--")
    ensures Stem(Wrapped(sep, n, [], tail, "")) == PROGRAM + (sep + n + tail)
  {
    hide Stem, ToLower, IsSeparator, InAlphabet;
    var head := PROGRAM + sep + n;
    assert Marks([]) == "";
    HeadChars(sep, n, "");
    assert head + "" == head && tail + "" == tail;
    var s := head + tail;
    assert '.' !in s;
    if |Stem(s)| < |s| {
      StripsAtDot(s);
    }
    StemIsPrefix(s);
    Assoc(PROGRAM, sep, n);
    Assoc(PROGRAM, sep + n, tail);
  }

  lemma StemIsPrefix(s: string)
    ensures Stem(s) <= s
  {
  }

  /** A hyphen at the start is taken for one of the separator's. */
  lemma HyphenStartIsNotTried(n: string)
    requires InAlphabet(n) && n != "" && n[0] == '-'
    ensures n !in Tried(Stem(Wrapped(LICENSED, n, [], "", "")))
  {
    hide Contains, Unlicensed, Tried, Stem, InAlphabet, Replace;
    StemOfWrapped(LICENSED, n, "");
    StartIsForeign(n);
    var t := "-" + n;
    assert "--" <= t && LICENSED + n + "" == "-licensed" + t;
    var stem := PROGRAM + ("-licensed" + t);
    assert stem == (PROGRAM + LICENSED) + n;
    assert (LICENSED + "-") <= ("-licensed" + t);
    assert At(stem, LICENSED + "-", |PROGRAM|);
    ContainsAt(stem, LICENSED + "-", |PROGRAM|);
    UnlicensedSaves(stem);
    var more' := LicensedTail(t);
    assert more' == "--" + more'[2..];
    ShortRestIsNotEnough(stem, more'[2..], n);
  }

  /** The pattern with a third hyphen behind it becomes two. */
  lemma LicensedTail(t: string) returns (more: string)
    requires "--" <= t
    ensures Unlicensed(PROGRAM + ("-licensed" + t)) == PROGRAM + more && "--" <= more
  {
    hide Replace;
    var l3, l2 := LICENSED + "--", LICENSED + "-";
    var z := "-licensed" + t;
    NoHyphenNoStart(PROGRAM, z, l3);
    ReplaceSkips(PROGRAM, z, l3, "--");
    var z3 := Replace(z, l3, "--");
    if l3 <= z {
      assert z == l3 + z[|l3|..];
      ReplaceHere(l3, z[|l3|..], "--");
      var m2 := OneTailPass(z3, l2);
      more := OneTailPass(m2, LICENSED);
    } else {
      LetterByLetter(t, l3);
      HyphensStay(t, l3);
      var t3 := Replace(t, l3, "--");
      assert z3 == l2 + t3[2..];
      NoHyphenNoStart(PROGRAM, z3, l2);
      ReplaceSkips(PROGRAM, z3, l2, "--");
      ReplaceHere(l2, t3[2..], "--");
      more := OneTailPass("--" + Replace(t3[2..], l2, "--"), LICENSED);
    }
  }

  /** A pattern that does not begin here passes over the letters up to the next hyphen. */
  lemma LetterByLetter(t: string, l: string)
    requires l == LICENSED + "--" && "--" <= t && !(l <= "-licensed" + t)
    ensures Replace("-licensed" + t, l, "--") == "-licensed" + Replace(t, l, "--")
  {
    var u := "-licensed";
    forall k | 0 <= k < |u| ensures !At(u + t, l, k) {
      if k == 0 {
        assert (u + t)[0..] == u + t;
      } else {
        assert u[k] != '-';
        NotAt(u + t, l, k, 0);
      }
    }
    ReplaceSkips(u, t, l, "--");
  }

  lemma AtInside(s: string, p: string, k: nat)
    requires k + |p| <= |s| && s[k..k + |p|] == p
    ensures Contains(s, p)
  {
    assert s[k..][..|p|] == p;
    ContainsAt(s, p, k);
  }

  /** The start of the pattern's rest is joined with the separator's hyphen. */
  lemma LicensedStartIsNotTried(n: string)
    requires InAlphabet(n) && "licensed-" <= n
    ensures n !in Tried(Stem(Wrapped("--", n, [], "", "")))
  {
    hide Contains, Unlicensed, Tried, Stem, InAlphabet;
    StemOfWrapped("--", n, "");
    assert n[0] == "licensed-"[0];
    StartIsForeign(n);
    var more := "--" + n + "";
    var stem := PROGRAM + more;
    assert more[1..11] == LICENSED by { assert n[..9] == "licensed-" && more[1..11] == "-" + n[..9]; }
    assert stem[|PROGRAM| + 1..|PROGRAM| + 11] == more[1..11];
    AtInside(stem, LICENSED, |PROGRAM| + 1);
    UnlicensedSaves(stem);
    ShortenedIsNotTried(more, n);
  }

  /** The end of the pattern's start is joined with the hyphens of a tail. */
  lemma LicensedEndIsNotTried(n: string)
    requires InAlphabet(n) && n != "" && EndsWith("-" + n, "-licensed")
    ensures n !in Tried(Stem(Wrapped("--", n, [], "--", "")))
  {
    hide Contains, Unlicensed, Tried, Stem, InAlphabet;
    StemOfWrapped("--", n, "--");
    var more := "--" + n + "--";
    var stem := PROGRAM + more;
    NotWithinProgram(n);
    var h := "-" + n;
    var w := h[..|h| - 9];
    EndsInPattern(w, h);
    assert stem == (PROGRAM + "-" + w) + ((LICENSED + "-") + "") by { Respelled(w, n, more); }
    ContainsMiddle(PROGRAM + "-" + w, LICENSED + "-", "");
    UnlicensedSaves(stem);
    ShortenedIsNotTried(more, n);
  }

  lemma EndsInPattern(w: string, h: string)
    requires EndsWith(h, "-licensed") && |h| >= 9 && w == h[..|h| - 9]
    ensures h == w + "-licensed"
  {
  }

  lemma Respelled(w: string, n: string, more: string)
    requires "-" + n == w + "-licensed" && more == "--" + n + "--"
    ensures PROGRAM + more == (PROGRAM + "-" + w) + ((LICENSED + "-") + "")
  {
    assert more == "-" + ("-" + n) + "--";
    assert "-licensed" + "--" == (LICENSED + "-") + "";
    assert more == "-" + w + ((LICENSED + "-") + "");
  }

  lemma ContainsMiddle(u: string, p: string, v: string)
    ensures Contains(u + (p + v), p)
  {
    assert (u + (p + v))[|u|..] == p + v;
    ContainsAt(u + (p + v), p, |u|);
  }

  lemma NotWithinProgram(n: string)
    requires n != "" && EndsWith("-" + n, "-licensed")
    ensures !Contains(PROGRAM, n)
  {
    hide Contains;
    var s := "-" + n;
    assert s[|s| - 6] == "-licensed"[3];
    assert n[|n| - 6] == 'c';
    if Contains(PROGRAM, n) {
      ContainsChar(PROGRAM, n, 'c');
    }
  }

  /** A hyphen at the end is taken for one of the tail's. */
  lemma HyphenEndIsNotTried(n: string)
    requires InAlphabet(n) && n != "" && n[0] != '-' && n[|n| - 1] == '-' && IsClean(n)
    ensures n !in Tried(Stem(Wrapped("--", n, [], "--", "")))
  {
    hide Unlicensed, Tried, Stem, InAlphabet, IsClean;
    StemOfWrapped("--", n, "--");
    var more := "--" + n + "--";
    var stem := PROGRAM + more;
    assert !Contains(PROGRAM, n) by {
      hide Contains;
      if Contains(PROGRAM, n) {
        ContainsChar(PROGRAM, n, '-');
      }
    }
    hide Contains;
    UnlicensedSaves(stem);
    if Contains(stem, LICENSED) {
      ShortenedIsNotTried(more, n);
    } else {
      CutAtEnd(n);
      assert stem == PROGRAM + ("--" + (n + "--"));
      NoneIsWhole(stem, n);
    }
  }

  lemma CutAtEnd(n: string)
    requires n != "" && n[|n| - 1] == '-' && IsClean(n)
    ensures Split(PROGRAM + ("--" + (n + "--")), "--") == [PROGRAM, n[..|n| - 1], "-"]
  {
    hide Contains, Split;
    var y := n[..|n| - 1];
    assert n + "--" == y + ("--" + "-");
    NoHyphenNoStart(PROGRAM, "--" + (n + "--"), "--");
    SplitFirst(PROGRAM, "--", n + "--");
    forall k | 0 <= k < |y| ensures !At(y + ("--" + "-"), "--", k) {
      NoPairInside(n, k);
    }
    SplitFirst(y, "--", "-");
    OneHyphen();
  }

  lemma NoPairInside(n: string, k: nat)
    requires IsClean(n) && k + 2 <= |n|
    ensures !At(n + "--", "--", k)
  {
    AtLeft(n, "--", "--", k);
    if At(n, "--", k) {
      ContainsAt(n, "--", k);
    }
  }

  lemma OneHyphen()
    ensures Split("-", "--") == ["-"]
  {
    assert "-"[1..] == "" && Split("", "--") == [""];
    assert "-" + "" == "-";
  }

  lemma NoneIsWhole(stem: string, n: string)
    requires n != "" && n[0] != '-' && !Contains(PROGRAM, n) && Unlicensed(stem) == stem
    requires Split(stem, "--") == [PROGRAM, n[..|n| - 1], "-"]
    ensures n !in Tried(stem)
  {
    hide Contains, Split, Unlicensed;
    var pieces := Split(stem, "--");
    LongerIsNotWithin(pieces[1], n);
    assert !Contains("-", n) by {
      if Contains("-", n) {
        ContainsChar("-", n, n[0]);
      }
    }
    assert |pieces| == 3 && pieces[0] == PROGRAM && pieces[2] == "-";
    NotWithinNotTried(pieces, n);
  }

  lemma NotWithinNotTried(pieces: seq<string>, n: string)
    requires forall i :: 0 <= i < |pieces| ==> !Contains(pieces[i], n)
    ensures n !in TriedOf(pieces)
  {
    if n in TriedOf(pieces) {
      var i := TriedOfWithin(pieces, n);
    }
  }

  // ---------- the exact condition ----------

  /** The parser tries the text in every file name that it can be wrapped in. */
  ghost predicate IsTriedEverywhere(n: string) {
    forall sep, copies, tail, ext ::
      IsSeparator(sep) && AreNumbered(copies) && IsTail(tail) && IsExtension(ext) && !Contains(ToLower(tail), HOST) ==>
        n in Tried(Stem(Wrapped(sep, n, copies, tail, ext)))
  }

  lemma WrappedIsTried(n: string, sep: string, copies: seq<Copy>, tail: string, ext: string)
    requires IsText(n) && IsClean(n)
    requires IsSeparator(sep) && AreNumbered(copies) && IsTail(tail) && IsExtension(ext) && !Contains(ToLower(tail), HOST)
    ensures n in Tried(Stem(Wrapped(sep, n, copies, tail, ext)))
  {
    hide Contains, Split, Unlicensed, Stem, Wrapped, IsExtension, AreNumbered, IsSeparator, IsClean, ToLower;
    WrappedPieces(sep, n, copies, tail, ext);
    var pieces := Split(Unlicensed(Stem(Wrapped(sep, n, copies, tail, ext))), "--");
    MarkedIsTried(n, copies);
    SecondTried(pieces, n);
  }

  lemma SecondTried(pieces: seq<string>, w: string)
    requires |pieces| >= 2 && w in TriedIn(pieces[1])
    ensures w in TriedOf(pieces)
  {
    hide TriedIn;
    assert pieces[1..][0] == pieces[1];
  }

  lemma MarkedIsTried(n: string, copies: seq<Copy>)
    requires IsText(n)
    ensures n in TriedIn(n + Marks(copies))
  {
    hide Split, Trim, Contains, IsWhitespace, IsClear;
    assert n != "" by { ClearIsSome(n); }
    AlphabetChars(n[0]);
    AlphabetChars(n[|n| - 1]);
    TrimIsIdentity(n);
    if copies == [] {
      assert n + Marks(copies) == n;
    } else {
      var v := MarksBegin(copies);
      var u := if copies[0].spaced then n + " " else n;
      var s := u + ("(" + v);
      assert n + Marks(copies) == s;
      forall k | 0 <= k < |n| ensures n[k] != '(' { AlphabetChars(n[k]); }
      NoParenthesisStart(u, "(" + v);
      SplitFirst(u, "(", v);
      assert s[|u|..] == "(" + v;
      ContainsAt(s, "(", |u|);
      assert Split(s, "(")[0] == u && Trim(u) == n;
    }
  }

  /** Digits are tried in every file name exactly if they hold no separator and are part of none where they stand. */
  lemma TriedEverywhereIff(n: string)
    requires n != "" && InAlphabet(n)
    ensures IsTriedEverywhere(n) <==> IsClean(n) && IsClear(n)
  {
    hide Contains, Tried, Stem, Wrapped, IsExtension, AreNumbered, IsSeparator, IsClean, ToLower, InAlphabet;
    if IsClean(n) && IsClear(n) {
      forall sep, copies, tail, ext |
        IsSeparator(sep) && AreNumbered(copies) && IsTail(tail) && IsExtension(ext) && !Contains(ToLower(tail), HOST)
        ensures n in Tried(Stem(Wrapped(sep, n, copies, tail, ext)))
      {
        WrappedIsTried(n, sep, copies, tail, ext);
      }
    } else {
      var sep, tail := UntriedIn(n);
      NoMarks();
      assert !IsTriedEverywhere(n);
    }
  }

  lemma NoMarks()
    ensures AreNumbered([]) && IsExtension("")
  {
  }

  lemma UntriedIn(n: string) returns (sep: string, tail: string)
    requires n != "" && InAlphabet(n) && !(IsClean(n) && IsClear(n))
    ensures IsSeparator(sep) && IsTail(tail) && !Contains(ToLower(tail), HOST)
    ensures n !in Tried(Stem(Wrapped(sep, n, [], tail, "")))
  {
    hide Tried, Stem, Wrapped, IsClean, InAlphabet;
    NoHostInNothing();
    if n[0] == '-' {
      sep, tail := LICENSED, "";
      HyphenStartIsNotTried(n);
    } else if !IsClean(n) {
      sep, tail := "--", "";
      if n in Tried(Stem(Wrapped(sep, n, [], tail, ""))) {
        TriedIsClean(Stem(Wrapped(sep, n, [], tail, "")), n);
      }
    } else if "licensed-" <= n {
      sep, tail := "--", "";
      LicensedStartIsNotTried(n);
    } else if EndsWith("-" + n, "-licensed") {
      sep, tail := "--", "--";
      LicensedEndIsNotTried(n);
    } else {
      sep, tail := "--", "--";
      HyphenEndIsNotTried(n);
    }
  }

  // ---------- signed names exist ----------

  lemma PrintedHyphen(d: seq<Byte>, i: nat)
    requires (forall k :: 0 <= k < |d| ==> d[k] < 128) && i < |Printed(d)| && Printed(d)[i] == '-'
    ensures (|Printed(d)| - 1 - i) % 4 == 3
  {
    hide Base64Url.Sextets;
    Base64Url.HyphenPositions(d, |Printed(d)| - 1 - i);
  }

  /** Bytes below 128 are printed as clean names, whatever they say. */
  lemma AsciiBytesAreClean(d: seq<Byte>)
    requires forall k :: 0 <= k < |d| ==> d[k] < 128
    ensures IsClean(Printed(d))
  {
    hide Printed, Contains;
    var n := Printed(d);
    if Contains(n, "--") {
      var i := WhereContained(n, "--");
      AtChar(n, "--", i, 0);
      AtChar(n, "--", i, 1);
      PrintedHyphen(d, i);
      PrintedHyphen(d, i + 1);
    }
    if Contains(n, LICENSED) {
      var i := WhereContained(n, LICENSED);
      AtChar(n, LICENSED, i, 0);
      AtChar(n, LICENSED, i, 9);
      PrintedHyphen(d, i);
      PrintedHyphen(d, i + 9);
    }
  }

  /** Bytes that start with a zero and end like a configuration are printed as clear names. */
  lemma PrintedIsClear(d: seq<Byte>)
    requires |d| >= 3 && d[0] == 0 && d[|d| - 2] == 0x22 && d[|d| - 1] == 0x7D
    ensures IsClear(Printed(d))
  {
    var x, n := Base64Url.Sextets(d), Printed(d);
    Base64Url.LastSextet(d, 0x22, 0x7D);
    assert x[0] == 0;
    LastDigit(x[|x| - 1]);
    hide Base64Url.Sextets, Base64Url.Digit, IsClear, Base64Url.Upper, Base64Url.Lower, Base64Url.Low;
    FirstDigit();
    ClearByEnds(n);
  }

  lemma LastDigit(d: Base64Url.Sextet)
    requires d in {Base64Url.Low(0x7D), Base64Url.Upper(0x7D, 0), Base64Url.Lower(0x7D, 0)}
    ensures Base64Url.Digit(d) in "9Q0"
  {
  }

  lemma FirstDigit()
    ensures Base64Url.Digit(0) == 'A'
  {
  }

  lemma ClearByEnds(n: string)
    requires n != "" && n[0] in "9Q0" && n[|n| - 1] == 'A'
    ensures IsClear(n)
  {
    var h, word := "-" + n, "licensed-";
    assert h[|h| - 1] == 'A';
    assert word[0] == 'l';
  }

  /** Bytes that are no configuration but carry one, under a good signature. */
  predicate IsSigned(libs: Libraries, d: seq<Byte>, m: seq<Byte>, c: CustomServer) {
    libs.read(d) == None && libs.verify(d) == Some(m) && libs.read(m) == Some(c)
  }

  /** For every configuration with ASCII fields there are libraries and signed bytes that meet all that is assumed here. */
  lemma SignedNamesExist(c: CustomServer)
    requires IsAsciiConfig(c)
    ensures exists libs, d, m :: Faithful(libs) && IsSigned(libs, d, m, c) && IsClean(Printed(d)) && IsClear(Printed(d))
  {
    hide JsonBytes, IsClean, IsClear, Printed, Faithful, StartsLikeJson;
    ConfigJson.FaithfulLibrariesExist();
    var plain :| Faithful(plain);
    var verify: seq<Byte> -> Option<seq<Byte>> := data => if |data| >= 64 then Some(data[64..]) else None;
    var libs := Libraries(plain.read, verify);
    var m := JsonBytes(c);
    var d := seq(64, i => 0) + m;
    JsonEnds(c);
    AsciiJson(c);
    AsciiBytesAreClean(d);
    PrintedIsClear(d);
    assert d[64..] == m;
    StillFaithful(plain, libs, c, d);
    assert IsSigned(libs, d, m, c);
  }

  /** A signature check that asks for a signature's length does no harm. */
  lemma StillFaithful(plain: Libraries, libs: Libraries, c: CustomServer, d: seq<Byte>)
    requires Faithful(plain) && libs.read == plain.read && forall data :: libs.verify(data).Some? ==> |data| >= 64
    requires d != [] && d[0] == 0
    ensures Faithful(libs) && libs.read(JsonBytes(c)) == Some(c) && libs.read(d) == None
  {
    hide JsonBytes;
    assert !StartsLikeJson(d);
  }

  lemma AsciiJson(c: CustomServer)
    requires IsAsciiConfig(c)
    ensures forall k :: 0 <= k < |JsonBytes(c)| ==> JsonBytes(c)[k] < 128
  {
    hide Json;
    JsonAscii(c);
    Utf8.EncodeAscii(Json(c));
  }
}
