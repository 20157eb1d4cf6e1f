/**
 What the parser tries to decode (src/custom_server.rs:89-105), for any file name at all.

 No text it tries holds a separator, except at its very start. So a generated name that is not clean is never tried
 whole, and clean names are exactly those that are read back.
 */
module ConfigTried {
  import opened Prelude
  import opened Lists
  import opened Text
  import opened ConfigName
  import opened ConfigLowering
  import opened ConfigRoundTrip

  function TrimAll(parts: seq<string>): seq<string> {
    if parts == [] then [] else [Trim(parts[0])] + TrimAll(parts[1..])
  }

  function TriedIn(piece: string): seq<string> {
    [Trim(piece)] + if Contains(piece, "(") then TrimAll(Split(piece, "(")) else []
  }

  function TriedOf(pieces: seq<string>): seq<string> {
    if pieces == [] then [] else TriedIn(pieces[0]) + TriedOf(pieces[1..])
  }

  /** Everything that is decoded for a stem without `host=`, if nothing before it is a configuration. */
  function Tried(stem: string): seq<string> {
    TriedOf(Split(Unlicensed(stem), "--"))
  }

  lemma {:induction false} PartsRead(libs: Libraries, parts: seq<string>, c: CustomServer)
    requires TryParts(libs, parts) == Some(c)
    ensures exists w :: w in TrimAll(parts) && FromConfigString(libs, w) == Some(c)
  {
    hide FromConfigString, Trim;
    var w := Trim(parts[0]);
    assert w in TrimAll(parts);
    if FromConfigString(libs, w) != Some(c) {
      PartsRead(libs, parts[1..], c);
      var v :| v in TrimAll(parts[1..]) && FromConfigString(libs, v) == Some(c);
      assert v in TrimAll(parts);
    }
  }

  lemma PieceRead(libs: Libraries, piece: string, c: CustomServer)
    requires TryPiece(libs, piece) == Some(c)
    ensures exists w :: w in TriedIn(piece) && FromConfigString(libs, w) == Some(c)
  {
    hide FromConfigString, Trim, Split, Contains, TrimAll, TryParts;
    if FromConfigString(libs, Trim(piece)) == Some(c) {
      assert Trim(piece) in TriedIn(piece);
    } else {
      PartsRead(libs, Split(piece, "("), c);
      var v :| v in TrimAll(Split(piece, "(")) && FromConfigString(libs, v) == Some(c);
      assert v in TriedIn(piece);
    }
  }

  /** What is read is read from one of the tried texts. */
  lemma {:induction false} OnlyTriedIsRead(libs: Libraries, pieces: seq<string>, c: CustomServer)
    requires TryPieces(libs, pieces) == Some(c)
    ensures exists w :: w in TriedOf(pieces) && FromConfigString(libs, w) == Some(c)
  {
    hide FromConfigString, TriedIn, TryPiece;
    if TryPiece(libs, pieces[0]) == Some(c) {
      PieceRead(libs, pieces[0], c);
      var w :| w in TriedIn(pieces[0]) && FromConfigString(libs, w) == Some(c);
      assert w in TriedOf(pieces);
    } else {
      OnlyTriedIsRead(libs, pieces[1..], c);
      var v :| v in TriedOf(pieces[1..]) && FromConfigString(libs, v) == Some(c);
      assert v in TriedOf(pieces);
    }
  }

  // ---------- what is left of `-licensed-` ----------

  lemma LicensedChars(j: nat)
    requires j < 10
    ensures |LICENSED| == 10 && (LICENSED[j] == '-' <==> j == 0 || j == 9)
  {
  }

  /** An end of the pattern can only be made by rewriting if a second hyphen follows it. */
  lemma {:induction false} EndMade(v: string, j: nat)
    requires 1 <= j <= 10 && LICENSED[j..] <= Replace(v, LICENSED, "--")
    ensures var r := Replace(v, LICENSED, "--");
            LICENSED[j..] <= v || (|r| > 10 - j && r[10 - j] == '-')
  {
    var w, r := LICENSED[j..], Replace(v, LICENSED, "--");
    if j < 10 {
      LicensedChars(j);
      assert r[0] == w[0] == LICENSED[j];
      assert v != "";
      if LICENSED <= v {
        assert r[0] == '-' && r[1] == '-';
      } else {
        var r1 := Replace(v[1..], LICENSED, "--");
        assert r == v[..1] + r1 && r[1..] == r1;
        assert w[1..] == LICENSED[j + 1..];
        EndMade(v[1..], j + 1);
        assert v == v[..1] + v[1..] && w == w[..1] + w[1..];
      }
    }
  }

  lemma HeadAndRest(u: string)
    requires u != ""
    ensures u[0] == LICENSED[0] && LICENSED[1..] <= u[1..] ==> LICENSED <= u
  {
    assert u == [u[0]] + u[1..] && LICENSED == [LICENSED[0]] + LICENSED[1..];
  }

  /** After rewriting, the pattern is left only next to a hyphen. */
  lemma {:induction false} NextToHyphen(u: string, k: nat)
    requires At(Replace(u, LICENSED, "--"), LICENSED, k)
    ensures var t := Replace(u, LICENSED, "--");
            (k > 0 && t[k - 1] == '-') || (k + 10 < |t| && t[k + 10] == '-')
    decreases |u|
  {
    var t := Replace(u, LICENSED, "--");
    LicensedChars(0);
    LicensedChars(1);
    AtChar(t, LICENSED, k, 0);
    AtChar(t, LICENSED, k, 1);
    if u != "" && LICENSED <= u {
      var r := Replace(u[10..], LICENSED, "--");
      assert t == "--" + r;
      if k >= 2 {
        assert t[k..] == r[k - 2..];
        NextToHyphen(u[10..], k - 2);
      }
    } else if u != "" {
      var r := Replace(u[1..], LICENSED, "--");
      assert t == u[..1] + r && t[1..] == r;
      if k >= 1 {
        assert t[k..] == r[k - 1..];
        NextToHyphen(u[1..], k - 1);
      } else {
        assert t[0..] == t;
        assert LICENSED[1..] <= r;
        EndMade(u[1..], 1);
        HeadAndRest(u);
      }
    }
  }

  /** An occurrence of the pattern behind the start has a hyphen before or after it. */
  ghost predicate Hyphenated(t: string) {
    forall k :: k > 0 && At(t, LICENSED, k) ==> t[k - 1] == '-' || (k + 10 < |t| && t[k + 10] == '-')
  }

  // ---------- the pieces ----------

  /** A split is its first part and the split of what comes behind the first separator, if there is one. */
  lemma {:induction false} SplitShape(t: string, p: string) returns (rest: string)
    requires p != ""
    ensures var head := Split(t, p)[0];
            && t == head + rest && NoneStarts(head, rest, p)
            && (rest == "" ==> Split(t, p) == [head])
            && (rest != "" ==> p <= rest && Split(t, p) == [head] + Split(rest[|p|..], p))
  {
    if t == "" {
      rest := "";
    } else if p <= t {
      rest := t;
      assert "" + t == t;
    } else {
      rest := SplitShape(t[1..], p);
      var parts := Split(t[1..], p);
      assert Split(t, p) == [t[..1] + parts[0]] + parts[1..];
      assert t == t[..1] + t[1..];
      var head := t[..1] + parts[0];
      assert t == head + rest by { Assoc(t[..1], parts[0], rest); }
      forall k | 0 <= k < |head| ensures !At(head + rest, p, k) {
        if k > 0 {
          assert (head + rest)[k..] == (parts[0] + rest)[k - 1..];
          assert !At(parts[0] + rest, p, k - 1);
        } else {
          assert t[0..] == t;
        }
      }
      if rest == "" {
        assert parts == [parts[0]];
      } else {
        assert parts[1..] == Split(rest[|p|..], p);
      }
    }
  }

  /** A piece holds no `--`, and the pattern at most at its start. */
  ghost predicate Piece(s: string) {
    !Contains(s, "--") && forall k :: k > 0 ==> !At(s, LICENSED, k)
  }

  lemma HeadIsPiece(head: string, rest: string)
    requires NoneStarts(head, rest, "--") && Hyphenated(head + rest)
    ensures Piece(head)
  {
    hide Contains;
    var t := head + rest;
    if Contains(head, "--") {
      var k := WhereContained(head, "--");
      AtLeft(head, rest, "--", k);
    }
    forall k | k > 0 ensures !At(head, LICENSED, k) {
      PatternNotInHead(head, rest, k);
    }
  }

  lemma PatternNotInHead(head: string, rest: string, k: nat)
    requires NoneStarts(head, rest, "--") && Hyphenated(head + rest) && k > 0
    ensures !At(head, LICENSED, k)
  {
    var t := head + rest;
    if At(head, LICENSED, k) {
      AtChar(head, LICENSED, k, 0);
      AtChar(head, LICENSED, k, 9);
      AtLeft(head, rest, LICENSED, k);
      HyphenPair(t, if t[k - 1] == '-' then k - 1 else k + 9);
    }
  }

  lemma HyphenPair(t: string, i: nat)
    requires i + 1 < |t| && t[i] == '-' && t[i + 1] == '-'
    ensures At(t, "--", i)
  {
    assert t[i..][..2] == "--";
  }

  lemma {:induction false} PiecesAre(t: string, i: nat)
    requires Hyphenated(t) && i < |Split(t, "--")|
    ensures Piece(Split(t, "--")[i])
    decreases |t|
  {
    hide Contains, Split;
    var rest := SplitShape(t, "--");
    var head := Split(t, "--")[0];
    HeadIsPiece(head, rest);
    if i > 0 {
      var t' := rest[2..];
      forall k | k > 0 && At(t', LICENSED, k)
        ensures t'[k - 1] == '-' || (k + 10 < |t'| && t'[k + 10] == '-')
      {
        var o := |head| + 2;
        assert t[o..] == t' && t[o + k..] == t'[k..];
        assert At(t, LICENSED, o + k);
      }
      PiecesAre(t', i - 1);
    }
  }

  // ---------- the tried texts ----------

  lemma {:induction false} TrimStartCuts(s: string) returns (n: nat)
    ensures n <= |s| && TrimStart(s) == s[n..]
  {
    n := 0;
    if s != "" && IsWhitespace(s[0]) {
      n := TrimStartCuts(s[1..]);
      n := n + 1;
    }
  }

  lemma {:induction false} TrimEndCuts(s: string)
    ensures TrimEnd(s) <= s
  {
    if s != "" && IsWhitespace(s[|s| - 1]) {
      TrimEndCuts(s[..|s| - 1]);
    }
  }

  lemma TrimContained(s: string)
    ensures Contains(s, Trim(s))
  {
    var n := TrimStartCuts(s);
    TrimEndCuts(s[n..]);
    ContainsAt(s, Trim(s), n);
  }

  lemma AtWithin(s: string, w: string, p: string, o: nat, k: nat)
    requires At(s, w, o) && At(w, p, k)
    ensures At(s, p, o + k)
  {
    assert s[o..][k..] == s[o + k..];
  }

  /** A stretch of a piece that does not start with a hyphen is clean. */
  lemma StretchIsClean(piece: string, w: string)
    requires Piece(piece) && Contains(piece, w) && (w == "" || w[0] != '-')
    ensures IsClean(w)
  {
    hide Contains;
    if Contains(w, "--") {
      ContainsTrans(piece, w, "--");
    }
    if Contains(w, LICENSED) {
      var o := WhereContained(piece, w);
      var k := WhereContained(w, LICENSED);
      AtChar(w, LICENSED, k, 0);
      AtWithin(piece, w, LICENSED, o, k);
    }
  }

  lemma {:induction false} TrimAllFrom(parts: seq<string>, w: string) returns (i: nat)
    requires w in TrimAll(parts)
    ensures i < |parts| && w == Trim(parts[i])
  {
    hide Trim;
    if w == Trim(parts[0]) {
      i := 0;
    } else {
      i := TrimAllFrom(parts[1..], w);
      i := i + 1;
    }
  }

  lemma TriedInIsClean(piece: string, w: string)
    requires Piece(piece) && w in TriedIn(piece) && (w == "" || w[0] != '-')
    ensures IsClean(w)
  {
    hide Trim, Contains, Split, TrimAll, IsClean, Piece;
    if w == Trim(piece) {
      TrimContained(piece);
    } else {
      var i := TrimAllFrom(Split(piece, "("), w);
      SplitPartContained(piece, "(", i);
      TrimContained(Split(piece, "(")[i]);
      ContainsTrans(piece, Split(piece, "(")[i], w);
    }
    StretchIsClean(piece, w);
  }

  lemma {:induction false} TriedOfIsClean(pieces: seq<string>, w: string)
    requires (forall i :: 0 <= i < |pieces| ==> Piece(pieces[i])) && w in TriedOf(pieces) && (w == "" || w[0] != '-')
    ensures IsClean(w)
  {
    hide TriedIn, Piece, IsClean;
    if w in TriedIn(pieces[0]) {
      TriedInIsClean(pieces[0], w);
    } else {
      TriedOfIsClean(pieces[1..], w);
    }
  }

  /** For every file name, a tried text that does not start with a hyphen is clean. */
  lemma TriedIsClean(stem: string, w: string)
    requires w in Tried(stem) && (w == "" || w[0] != '-')
    ensures IsClean(w)
  {
    hide Split, Replace, TriedOf, Piece, IsClean;
    var u := Replace(Replace(stem, LICENSED + "--", "--"), LICENSED + "-", "--");
    var t := Unlicensed(stem);
    forall k | k > 0 && At(t, LICENSED, k) ensures t[k - 1] == '-' || (k + 10 < |t| && t[k + 10] == '-') {
      NextToHyphen(u, k);
    }
    forall i | 0 <= i < |Split(t, "--")| ensures Piece(Split(t, "--")[i]) {
      PiecesAre(t, i);
    }
    TriedOfIsClean(Split(t, "--"), w);
  }

  /** A generated name that is not clean is tried for no file name. */
  lemma UncleanIsNeverTried(stem: string, c: CustomServer)
    requires !IsClean(GenName(c))
    ensures GenName(c) !in Tried(stem)
  {
    hide Tried, IsClean, GenName, InAlphabet;
    NameShape(c);
    if GenName(c) in Tried(stem) {
      TriedIsClean(stem, GenName(c));
    }
  }

  /**
   A configuration is read back from the file names of ConfigRoundTrip exactly if its generated name is clean, for
   every reader that does not find it in another of the texts tried.
   */
  lemma ReadsBackIffClean(libs: Libraries, lower: Lowering, c: CustomServer,
                          sep: string, copies: seq<Copy>, tail: string, ext: string)
    requires Faithful(libs) && IsLowering(lower)
    requires IsSeparator(sep) && AreNumbered(copies) && IsTail(tail) && IsExtension(ext)
    requires !Contains(ToLower(tail), HOST)
    requires forall w :: w in Tried(Stem(FileName(sep, c, copies, tail, ext))) && w != GenName(c) ==>
                           FromConfigString(libs, w) != Some(c)
    ensures Parse(libs, lower, FileName(sep, c, copies, tail, ext)) == Parsed(c) <==> IsClean(GenName(c))
  {
    hide Faithful, IsLowering, GenName, IsClean, Contains, IsSeparator, AreNumbered, IsExtension, ToLower, Parse, Stem;
    hide FileName, Unlicensed, Split, TryPieces, TriedOf, FromConfigString;
    if IsClean(GenName(c)) {
      CleanNameReadsBack(libs, lower, c, sep, copies, tail, ext);
    } else {
      var name := FileName(sep, c, copies, tail, ext);
      UncleanIsNeverTried(Stem(name), c);
      NoHostInFileName(c, sep, copies, tail, ext);
      ParseByPieces(libs, lower, name);
      if Parse(libs, lower, name) == Parsed(c) {
        OnlyTriedIsRead(libs, Split(Unlicensed(Stem(name)), "--"), c);
      }
    }
  }

  lemma NoHostInFileName(c: CustomServer, sep: string, copies: seq<Copy>, tail: string, ext: string)
    requires IsSeparator(sep) && AreNumbered(copies) && IsTail(tail) && IsExtension(ext)
    requires !Contains(ToLower(tail), HOST)
    ensures !Contains(ToLower(Stem(FileName(sep, c, copies, tail, ext))), HOST)
  {
    hide GenName, Contains, Stem, IsExtension, ToLower, Marks, AreNumbered, IsSeparator, InAlphabet;
    var head := PROGRAM + sep + GenName(c) + Marks(copies);
    NameShape(c);
    MarksShape(copies);
    HeadChars(sep, GenName(c), Marks(copies));
    var more := StripKeepsHead(head, tail, ext);
    NoHost(head, more, tail);
  }

  // ---------- the first readable text wins ----------

  /** What the first of the texts that can be read says. */
  function FirstRead(libs: Libraries, texts: seq<string>): Option<CustomServer> {
    if texts == [] then None
    else if FromConfigString(libs, texts[0]).Some? then FromConfigString(libs, texts[0])
    else FirstRead(libs, texts[1..])
  }

  lemma {:induction false} FirstReadConcat(libs: Libraries, a: seq<string>, b: seq<string>)
    ensures FirstRead(libs, a + b) == if FirstRead(libs, a).Some? then FirstRead(libs, a) else FirstRead(libs, b)
  {
    hide FromConfigString;
    if a == [] {
      assert a + b == b;
    } else {
      FirstReadConcat(libs, a[1..], b);
      assert (a + b)[1..] == a[1..] + b;
    }
  }

  lemma {:induction false} PartsFirst(libs: Libraries, parts: seq<string>)
    ensures TryParts(libs, parts) == FirstRead(libs, TrimAll(parts))
  {
    hide FromConfigString, Trim;
    if parts != [] {
      PartsFirst(libs, parts[1..]);
      assert TrimAll(parts)[1..] == TrimAll(parts[1..]);
    }
  }

  lemma {:induction false} PiecesFirst(libs: Libraries, pieces: seq<string>)
    ensures TryPieces(libs, pieces) == FirstRead(libs, TriedOf(pieces))
  {
    hide FromConfigString, Trim, Contains, Split, TrimAll, TryParts;
    if pieces != [] {
      var piece := pieces[0];
      PiecesFirst(libs, pieces[1..]);
      FirstReadConcat(libs, TriedIn(piece), TriedOf(pieces[1..]));
      var parts := if Contains(piece, "(") then TrimAll(Split(piece, "(")) else [];
      PartsFirst(libs, Split(piece, "("));
      FirstReadConcat(libs, [Trim(piece)], parts);
      assert [Trim(piece)][1..] == [];
    }
  }

  /** A name without `host=` is read as the first readable text of all that are tried, however many and wherever it stands. */
  lemma ParseIsFirstTried(libs: Libraries, lower: Lowering, name: string)
    requires IsLowering(lower) && !Contains(ToLower(Stem(name)), HOST)
    ensures Parse(libs, lower, name) == match FirstRead(libs, Tried(Stem(name)))
                                        case Some(c) => Parsed(c)
                                        case None => Rejected
  {
    hide Parse, FirstRead, TriedOf, TryPieces, Unlicensed, Stem, Contains, ToLower, Split, IsLowering;
    ParseByPieces(libs, lower, name);
    PiecesFirst(libs, Split(Unlicensed(Stem(name)), "--"));
  }

  // ---------- trimming ----------

  /** The characters with Unicode's White_Space property. */
  lemma WhitespaceIs(c: char)
    ensures IsWhitespace(c) <==>
            c as int in {0x09, 0x0A, 0x0B, 0x0C, 0x0D, 0x20, 0x85, 0xA0, 0x1680, 0x2000, 0x2001, 0x2002, 0x2003, 0x2004,
                         0x2005, 0x2006, 0x2007, 0x2008, 0x2009, 0x200A, 0x2028, 0x2029, 0x202F, 0x205F, 0x3000}
  {
  }

  predicate IsBlank(s: string) {
    forall i :: 0 <= i < |s| ==> IsWhitespace(s[i])
  }

  lemma {:induction false} TrimStartIs(s: string) returns (u: string)
    ensures s == u + TrimStart(s) && IsBlank(u) && (TrimStart(s) != "" ==> !IsWhitespace(TrimStart(s)[0]))
  {
    hide IsWhitespace;
    u := "";
    if s != "" && IsWhitespace(s[0]) {
      u := TrimStartIs(s[1..]);
      assert s == [s[0]] + s[1..];
      u := [s[0]] + u;
    }
  }

  lemma {:induction false} TrimEndIs(s: string) returns (v: string)
    ensures s == TrimEnd(s) + v && IsBlank(v)
    ensures TrimEnd(s) != "" ==> !IsWhitespace(TrimEnd(s)[|TrimEnd(s)| - 1]) && TrimEnd(s)[0] == s[0]
  {
    hide IsWhitespace;
    v := "";
    if s != "" && IsWhitespace(s[|s| - 1]) {
      v := TrimEndIs(s[..|s| - 1]);
      assert s == s[..|s| - 1] + [s[|s| - 1]];
      v := v + [s[|s| - 1]];
    }
  }

  /** Trimming takes the white space at both ends and nothing else. */
  lemma TrimIs(s: string) returns (u: string, v: string)
    ensures s == u + Trim(s) + v && IsBlank(u) && IsBlank(v)
    ensures Trim(s) != "" ==> !IsWhitespace(Trim(s)[0]) && !IsWhitespace(Trim(s)[|Trim(s)| - 1])
  {
    hide IsWhitespace, TrimStart, TrimEnd;
    u := TrimStartIs(s);
    v := TrimEndIs(TrimStart(s));
    Assoc(u, Trim(s), v);
  }
}
