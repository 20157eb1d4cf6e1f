/** The file name printed by `main` of src/naming.rs, and why the parser does not read it back. */
module ConfigForms {
  import opened Prelude
  import opened Text
  import opened ConfigName
  import opened ConfigLowering
  import opened ConfigRoundTrip
  import opened ConfigTried
  import Utf8
  import Base64Url

  const PRINTED_PREFIX := "rustdesk-custom_serverd-"

  function PrintedFileName(c: CustomServer): string {
    PRINTED_PREFIX + GenName(c) + ".exe"
  }

  /** Text that ends like JSON: a closing bracket or white space. */
  predicate EndsLikeJson(data: seq<Byte>) {
    data != [] && data[|data| - 1] in {0x7D, 0x5D, 0x20, 0x09, 0x0A, 0x0D}
  }

  /** The final sextets of a text the decoder accepts. */
  lemma {:induction false} FinalSextets(d: seq<Base64Url.Sextet>)
    requires |d| >= 2 && Base64Url.Bytes(d).Some?
    ensures |d| % 4 == 2 ==> d[|d| - 1] % 16 == 0
    ensures |d| % 4 == 3 ==> d[|d| - 1] % 4 == 0
    ensures |d| % 4 == 0 ==>
              var b := Base64Url.Bytes(d).value;
              b != [] && b[|b| - 1] == Base64Url.Third(d[|d| - 2], d[|d| - 1])
    ensures |d| % 4 != 1
  {
    hide Base64Url.First, Base64Url.Second, Base64Url.Third;
    if |d| >= 6 {
      FinalSextets(d[4..]);
    } else if |d| == 5 {
      Base64Url.LengthOneRejected(d);
    } else if |d| == 4 {
      assert d[4..] == [];
    }
  }

  /** Whatever a text ending in "ur" decodes to does not end like JSON. */
  lemma ReversedPrefixIsNotJson(s: string)
    requires |s| >= 2 && s[|s| - 2] == 'u' && s[|s| - 1] == 'r' && Base64Url.Decode(s).Some?
    ensures !EndsLikeJson(Base64Url.Decode(s).value)
  {
    var d := Base64Url.Values(s).value;
    assert d[|d| - 1] == 43 && d[|d| - 2] == 46;
    FinalSextets(d);
    assert Base64Url.Third(46, 43) == 171;
  }

  lemma PrintedPassesThrough(n: string, p: string)
    requires IsNameShaped(n) && IsClean(n) && (p == "--" || IsLicense(p))
    ensures !Contains(PRINTED_PREFIX + n, p)
  {
    hide InAlphabet, IsLicense, Contains;
    var s := PRINTED_PREFIX + n;
    if Contains(s, p) {
      var i := WhereContained(s, p);
      if p != "--" {
        LicenseChars(p);
        assert At(s, LICENSED, i);
      }
      if i < |PRINTED_PREFIX| {
        AtChar(s, p, i, 0);
        AtChar(s, p, i, 1);
      } else {
        assert s[i..] == n[i - 24..];
        ContainsAt(n, if p == "--" then p else LICENSED, i - 24);
      }
    }
  }

  lemma {:induction false} UncutText(s: string, p: string, r: string)
    requires p != "" && !Contains(s, p)
    ensures Split(s, p) == [s] && Replace(s, p, r) == s
  {
    if s != "" {
      UncutText(s[1..], p, r);
      assert s[..1] + s[1..] == s;
    }
  }

  lemma StripPrinted(s: string)
    requires '.' !in s
    ensures Stem(s + ".exe") == s
  {
    hide ToLower;
    assert ToLower(".exe") == ".exe";
    var more := StripKeepsHead(s, "", ".exe");
    assert s + ("" + ".exe") == s + ".exe";
  }

  lemma ReversedPrinted(n: string)
    requires n != ""
    ensures var r := Reverse(PRINTED_PREFIX + n); |r| >= 2 && r[|r| - 2] == 'u' && r[|r| - 1] == 'r'
  {
    hide Reverse;
  }

  lemma PrintedIsOnePiece(n: string)
    requires IsNameShaped(n) && IsClean(n)
    ensures var s := PRINTED_PREFIX + n; Unlicensed(s) == s && Split(s, "--") == [s]
  {
    hide InAlphabet, Contains, Split, Replace, IsClean;
    var s := PRINTED_PREFIX + n;
    forall p | p in [LICENSED, LICENSED + "-", LICENSED + "--", "--"]
      ensures Split(s, p) == [s] && Replace(s, p, "--") == s
    {
      PrintedPassesThrough(n, p);
      UncutText(s, p, "--");
    }
    assert LICENSED in [LICENSED, LICENSED + "-", LICENSED + "--", "--"];
    assert LICENSED + "-" in [LICENSED, LICENSED + "-", LICENSED + "--", "--"];
    assert LICENSED + "--" in [LICENSED, LICENSED + "-", LICENSED + "--", "--"];
    assert "--" in [LICENSED, LICENSED + "-", LICENSED + "--", "--"];
  }

  lemma OnePieceTried(libs: Libraries, s: string)
    requires Trim(s) == s && '(' !in s
    requires FromConfigString(libs, s).None?
    ensures TryPieces(libs, [s]).None?
  {
    hide Trim, FromConfigString;
    if Contains(s, "(") {
      ContainsChar(s, "(", "("[0]);
    }
  }

  /**
   The file name that `main` of src/naming.rs prints is not one of the accepted forms: when the name
   is clean, reading it fails, for every reader whose texts end like JSON and no forged signature.
   */
  lemma PrintedFileNameIsRejected(libs: Libraries, lower: Lowering, c: CustomServer)
    requires IsLowering(lower) && IsClean(GenName(c))
    requires forall data :: libs.read(data).Some? ==> EndsLikeJson(data)
    requires var d := Base64Url.Decode(Reverse(PRINTED_PREFIX + GenName(c))); d.Some? ==> libs.verify(d.value).None?
    ensures Parse(libs, lower, PrintedFileName(c)) == Rejected
  {
    var n := GenName(c);
    var s := PRINTED_PREFIX + n;
    hide GenName, Stem, Contains, Split, ToLower, Parse, IsLowering, Trim, Reverse, Base64Url.Decode, EndsLikeJson, IsClean;
    hide Unlicensed, TryPieces;
    NameShape(c);
    forall k | 0 <= k < |n| ensures n[k] !in ".=(" { AlphabetChars(n[k]); }
    StripPrinted(s);
    NoHostIn(s);
    PrintedIsOnePiece(n);
    ReversedPrinted(n);
    if Base64Url.Decode(Reverse(s)).Some? {
      ReversedPrefixIsNotJson(Reverse(s));
    }
    assert FromConfigString(libs, s).None?;
    TrimPrinted(n);
    OnePieceTried(libs, s);
    ParseByPieces(libs, lower, PrintedFileName(c));
  }

  lemma NoHostIn(s: string)
    requires '=' !in s
    ensures !Contains(ToLower(s), HOST)
  {
    NoHost(s, "", "");
    assert s + "" == s;
  }

  lemma TrimPrinted(n: string)
    requires IsNameShaped(n)
    ensures Trim(PRINTED_PREFIX + n) == PRINTED_PREFIX + n
  {
    AlphabetChars(n[|n| - 1]);
    TrimIsIdentity(PRINTED_PREFIX + n);
  }

  lemma PrintedStem(c: CustomServer)
    ensures Stem(PrintedFileName(c)) == PRINTED_PREFIX + GenName(c)
    ensures !Contains(ToLower(Stem(PrintedFileName(c))), HOST)
  {
    var n := GenName(c);
    hide GenName, Stem, Contains, ToLower;
    NameShape(c);
    forall k | 0 <= k < |n| ensures n[k] !in ".=(" { AlphabetChars(n[k]); }
    StripPrinted(PRINTED_PREFIX + n);
    NoHostIn(PRINTED_PREFIX + n);
  }

  /** A clean name is tried with the prefix in front of it only. */
  lemma PrintedIsTriedWhole(c: CustomServer)
    requires IsClean(GenName(c))
    ensures Tried(Stem(PrintedFileName(c))) == [PRINTED_PREFIX + GenName(c)]
  {
    var n := GenName(c);
    hide GenName, Stem, Contains, Split, Trim, IsClean, Unlicensed, ToLower, TrimAll, Tried;
    PrintedStem(c);
    NameShape(c);
    PrintedIsOnePiece(n);
    TrimPrinted(n);
    forall k | 0 <= k < |n| ensures n[k] !in ".=(" { AlphabetChars(n[k]); }
    TriedOnce(PRINTED_PREFIX + n);
  }

  /** From the printed file name the generated name is never tried by itself, clean or not ... */
  lemma PrintedNameIsNeverTried(c: CustomServer)
    ensures GenName(c) !in Tried(Stem(PrintedFileName(c)))
  {
    hide GenName, Stem, Contains, IsClean, ToLower, Tried;
    PrintedStem(c);
    if IsClean(GenName(c)) {
      PrintedIsTriedWhole(c);
    } else {
      UncleanIsNeverTried(PRINTED_PREFIX + GenName(c), c);
    }
  }

  lemma TriedOnce(s: string)
    requires Unlicensed(s) == s && Split(s, "--") == [s] && Trim(s) == s && '(' !in s
    ensures Tried(s) == [s]
  {
    hide Trim, Unlicensed, TrimAll;
    if Contains(s, "(") {
      ContainsChar(s, "(", "("[0]);
    }
    assert TriedOf([s]) == TriedIn(s) + TriedOf([]);
  }

  /** A text that starts like the printed prefix is no JSON, read backwards, and so no configuration without a signature. */
  lemma PrefixedIsNoConfig(libs: Libraries, w: string)
    requires "ru" <= w && forall data :: libs.read(data).Some? ==> EndsLikeJson(data)
    requires var d := Base64Url.Decode(Reverse(w)); d.Some? ==> libs.verify(d.value).None?
    ensures FromConfigString(libs, w).None?
  {
    hide Base64Url.Decode, EndsLikeJson;
    var r := Reverse(w);
    assert r[|r| - 2] == 'u' && r[|r| - 1] == 'r';
    if Base64Url.Decode(r).Some? {
      ReversedPrefixIsNotJson(r);
    }
  }

  /**
   ... so no configuration is read back from its printed file name, for every reader whose texts end like JSON. Texts
   tried that start like the prefix carry no signature, and in the others the reader does not find the configuration;
   a clean name has none of those.
   */
  lemma PrintedIsNotReadBack(libs: Libraries, lower: Lowering, c: CustomServer)
    requires IsLowering(lower) && forall data :: libs.read(data).Some? ==> EndsLikeJson(data)
    requires forall w :: w in Tried(Stem(PrintedFileName(c))) ==>
               if "ru" <= w then var d := Base64Url.Decode(Reverse(w)); d.Some? ==> libs.verify(d.value).None?
               else FromConfigString(libs, w) != Some(c)
    ensures Parse(libs, lower, PrintedFileName(c)) != Parsed(c)
  {
    var name := PrintedFileName(c);
    hide PrintedFileName, GenName, Stem, Contains, Split, Unlicensed, ToLower, TriedOf, TryPieces, FromConfigString, Parse;
    hide IsLowering, EndsLikeJson, Reverse, Base64Url.Decode;
    PrintedStem(c);
    ParseByPieces(libs, lower, name);
    if Parse(libs, lower, name) == Parsed(c) {
      OnlyTriedIsRead(libs, Split(Unlicensed(Stem(name)), "--"), c);
      var w :| w in TriedOf(Split(Unlicensed(Stem(name)), "--")) && FromConfigString(libs, w) == Some(c);
      ReadTextIsNotPrefixed(libs, w);
    }
  }

  lemma ReadTextIsNotPrefixed(libs: Libraries, w: string)
    requires forall data :: libs.read(data).Some? ==> EndsLikeJson(data)
    requires FromConfigString(libs, w).Some?
    ensures "ru" <= w ==> var d := Base64Url.Decode(Reverse(w)); d.Some? && libs.verify(d.value).Some?
  {
    hide FromConfigString, EndsLikeJson, Reverse, Base64Url.Decode;
    if "ru" <= w && (Base64Url.Decode(Reverse(w)).Some? ==> libs.verify(Base64Url.Decode(Reverse(w)).value).None?) {
      PrefixedIsNoConfig(libs, w);
    }
  }
}
