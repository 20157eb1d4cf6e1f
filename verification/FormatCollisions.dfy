/**
 When different format-name lists share a signature (src/clipboard.rs:696-724, 777-798).

 Names are joined by a bar. Without bars in the names the signature names the set; a bar in a name makes it ambiguous.
 */
module FormatCollisions {
  import opened Prelude
  import opened Lists
  import opened ClipboardItems
  import opened FormatNames
  import opened FormatSignatures
  import Utf8

  /** Among preserved names without a bar, equal signatures mean equal sets of names. */
  lemma GenericNamesTheSet(a: seq<Name>, b: seq<Name>, isPlainText: Name -> bool)
    requires AllNoBar(Preserved(a, isPlainText)) && AllNoBar(Preserved(b, isPlainText))
    requires GenericSignature(a, isPlainText).Some? && GenericSignature(b, isPlainText).Some?
    ensures GenericSignature(a, isPlainText) == GenericSignature(b, isPlainText) <==>
            SameSet(Preserved(a, isPlainText), Preserved(b, isPlainText))
  {
    hide SameSet, Any, Preserved, Join, Canonical, AllNoBar;
    JoinCanonicalIff(Preserved(a, isPlainText), Preserved(b, isPlainText));
  }

  // ---------- the empty list ----------

  /** The bytes of "empty-format-list". */
  function EmptyList(): Name {
    [101, 109, 112, 116, 121, 45, 102, 111, 114, 109, 97, 116, 45, 108, 105, 115, 116]
  }

  lemma EmptyListSpelled()
    ensures EmptyList() == Utf8.Encode("empty-format-list")
  {
    hide Utf8.Encode;
    Utf8.EncodeSpelled("empty-format-list", EmptyList());
  }

  /** Character `j` of the entry is in the word in neither case. */
  predicate IsForeignAt(t: string, j: nat, word: Name) {
    j < |t| && t[j] as int < 128 && forall i :: 0 <= i < |word| ==> LowerByte(word[i]) != LowerByte(t[j] as int)
  }

  lemma ForeignNotMentioned(t: string, j: nat, word: Name)
    requires Utf8.IsAscii(t) && IsForeignAt(t, j, word)
    ensures !ContainsIgnoreAsciiCase(word, Utf8.Encode(t))
  {
    var needle := Utf8.Encode(t);
    Utf8.EncodeAscii(t);
    hide Utf8.Encode, LowerByte;
  }

  /** A letter that "empty-format-list" lacks, in an entry of lower-case ASCII. */
  lemma NotInEmptyList(t: string, j: nat)
    requires Utf8.IsAscii(t) && j < |t| && t[j] in ['b', 'c', 'd', 'n', 'u', 'v']
    ensures !ContainsIgnoreAsciiCase(EmptyList(), Utf8.Encode(t))
  {
    ForeignLetter(t[j] as int);
    hide EmptyList, LowerByte, Utf8.Encode, ContainsIgnoreAsciiCase;
    assert IsForeignAt(t, j, EmptyList());
    ForeignNotMentioned(t, j, EmptyList());
  }

  lemma ForeignLetter(x: Byte)
    requires x == 98 || x == 99 || x == 100 || x == 110 || x == 117 || x == 118
    ensures forall i :: 0 <= i < |EmptyList()| ==> LowerByte(EmptyList()[i]) != LowerByte(x)
  {
    assert LowerByte(x) == x;
    assert forall i :: 0 <= i < |EmptyList()| ==> LowerByte(EmptyList()[i]) == EmptyList()[i];
  }

  predicate IsAbsent(t: string) {
    !ContainsIgnoreAsciiCase(EmptyList(), Utf8.Encode(t))
  }

  lemma FirstPatternsAbsent()
    ensures forall i :: 0 <= i < 5 ==> IsAbsent(OPAQUE_PATTERNS[i])
  {
    hide ContainsIgnoreAsciiCase, Utf8.Encode, EmptyList;
    NotInEmptyList("adobe illustrator", 1);
    NotInEmptyList("illustrator", 3);
    NotInEmptyList("aicb", 2);
    NotInEmptyList("ai private", 6);
    NotInEmptyList("com.adobe", 0);
  }

  lemma SecondPatternsAbsent()
    ensures forall i :: 5 <= i < 9 ==> IsAbsent(OPAQUE_PATTERNS[i])
  {
    hide ContainsIgnoreAsciiCase, Utf8.Encode, EmptyList;
    NotInEmptyList("portable document format", 5);
    NotInEmptyList("application/pdf", 5);
    NotInEmptyList("application/postscript", 5);
    NotInEmptyList("application/eps", 5);
  }

  lemma ThirdPatternsAbsent()
    ensures forall i :: 9 <= i < 12 ==> IsAbsent(OPAQUE_PATTERNS[i])
  {
    hide ContainsIgnoreAsciiCase, Utf8.Encode, EmptyList;
    NotInEmptyList("application/vnd.adobe.illustrator", 5);
    NotInEmptyList("application/x-adobe-illustrator", 5);
    NotInEmptyList("pdf", 1);
  }

  lemma FourthPatternsAbsent()
    ensures forall i :: 12 <= i < 15 ==> IsAbsent(OPAQUE_PATTERNS[i])
  {
    hide ContainsIgnoreAsciiCase, Utf8.Encode, EmptyList;
    NotInEmptyList("public.pdf", 1);
    NotInEmptyList("public.eps", 1);
    NotInEmptyList("public.postscript", 1);
  }

  lemma LastPatternsAbsent()
    ensures forall i :: 15 <= i < 18 ==> IsAbsent(OPAQUE_PATTERNS[i])
  {
    hide ContainsIgnoreAsciiCase, Utf8.Encode, EmptyList;
    NotInEmptyList("encapsulated postscript", 1);
    NotInEmptyList("postscript", 5);
    EpsNotMentioned();
  }

  /** No pattern occurs in "empty-format-list": each but "eps" has a letter that it lacks. */
  lemma NothingMentioned()
    ensures !Mentions(OPAQUE_PATTERNS, EmptyList())
  {
    hide ContainsIgnoreAsciiCase, Utf8.Encode, EmptyList;
    FirstPatternsAbsent();
    SecondPatternsAbsent();
    ThirdPatternsAbsent();
    FourthPatternsAbsent();
    LastPatternsAbsent();
    forall i | 0 <= i < |OPAQUE_PATTERNS| ensures IsAbsent(OPAQUE_PATTERNS[i]) {
    }
  }

  lemma EpsNotMentioned()
    ensures !ContainsIgnoreAsciiCase(EmptyList(), Utf8.Encode("eps"))
  {
    Utf8.EncodeSpelled("eps", [101, 112, 115]);
    hide Utf8.Encode;
    forall k: nat | k <= 17 ensures !MatchesAt(EmptyList(), k, [101, 112, 115]) {
      NoMatchAt(EmptyList(), k, [101, 112, 115], if k == 0 then 1 else 0);
    }
  }

  lemma NoMatchAt(name: Name, k: nat, needle: Name, j: nat)
    requires j < |needle| && (k + |needle| <= |name| ==> LowerByte(name[k + j]) != LowerByte(needle[j]))
    ensures !MatchesAt(name, k, needle)
  {
    assert k + |needle| <= |name| ==> name[k..k + |needle|][j] == name[k + j];
  }

  lemma ThirdLetterDiffers(t: string)
    requires |t| >= 3 && (forall k :: 0 <= k < 3 ==> t[k] as int < 128) && ToLowerByte(t[2]) != 112
    ensures !EqIgnoreAsciiCase(Utf8.Encode(t), EmptyList())
  {
    Utf8.AsciiHead(t);
    Utf8.AsciiHead(t[1..]);
    Utf8.AsciiHead(t[2..]);
    assert t[1..][1..] == t[2..];
    hide Utf8.Encode;
    assert Utf8.Encode(t)[2] == Utf8.Encode(t[1..])[1] == Utf8.Encode(t[2..])[0] == t[2] as int;
    assert LowerByte(EmptyList()[2]) == 112;
  }

  function ToLowerByte(c: char): int
    requires c as int < 128
  {
    LowerByte(c as int)
  }

  lemma NothingListed()
    ensures !Listed(WINDOWS_OPAQUE, EmptyList())
  {
    hide Utf8.Encode, EmptyList, EqIgnoreAsciiCase;
    forall i | 0 <= i < |WINDOWS_OPAQUE| ensures !EqIgnoreAsciiCase(Utf8.Encode(WINDOWS_OPAQUE[i]), EmptyList()) {
      ThirdLetterDiffers(WINDOWS_OPAQUE[i]);
    }
  }

  /** The text that stands for the empty list is not the signature of any list of bar-free opaque names. */
  lemma EmptyListIsNoName(names: seq<Name>)
    requires names != [] && AllNoBar(names) && forall name :: name in names ==> IsWindowsOpaque(name)
    ensures Join(Canonical(names)) != EmptyList()
  {
    hide Canonical, IsOpaqueNative, Listed, NoBar;
    var c := Canonical(names);
    CanonicalIff(names, names);
    SameSetEmpty(c, names);
    BarIff(c);
    assert BAR !in EmptyList();
    if |c| == 1 {
      assert c[0] in names;
      EmptyListNotOpaque();
    }
  }

  lemma EmptyListNotOpaque()
    ensures !IsWindowsOpaque(EmptyList())
  {
    hide Listed, Mentions;
    NothingListed();
    NothingMentioned();
    assert NumberedFormat()[0] != EmptyList()[0];
  }

  /** Among opaque names without a bar, equal Windows signatures mean equal sequence numbers and equal sets of names. */
  lemma WindowsNamesTheSet(m: nat, a: seq<Name>, n: nat, b: seq<Name>)
    requires AllNoBar(OpaqueNames(a)) && AllNoBar(OpaqueNames(b))
    requires WindowsSignature(m, false, a).Some? && WindowsSignature(n, false, b).Some?
    ensures WindowsSignature(m, false, a) == WindowsSignature(n, false, b) <==>
            m == n && SameSet(OpaqueNames(a), OpaqueNames(b))
  {
    hide SameSet, Any, OpaqueNames, Join, Canonical, AllNoBar, WindowsText, OnlyWrappers, Utf8.Encode, EmptyList;
    var x, y := OpaqueNames(a), OpaqueNames(b);
    NoNames();
    EmptyListSpelled();
    WindowsTextInjective(m, WindowsRest(a), n, WindowsRest(b));
    SameSetReflexive(x);
    if x != [] && y != [] {
      JoinCanonicalIff(x, y);
    } else if x != [] {
      NotEmptyList(a);
      NotSameAsNone(x);
    } else if y != [] {
      NotEmptyList(b);
      NotSameAsNone(y);
    }
  }

  /** What the signature holds behind the sequence number. */
  function WindowsRest(names: seq<Name>): seq<Byte> {
    if names == [] then EmptyList() else Join(Canonical(OpaqueNames(names)))
  }

  lemma NoNames()
    ensures OpaqueNames([]) == []
  {
  }

  lemma SameSetReflexive(names: seq<Name>)
    ensures SameSet(names, names)
  {
  }

  lemma NotSameAsNone(names: seq<Name>)
    requires names != []
    ensures !SameSet(names, []) && !SameSet([], names)
  {
    assert names[0] in names;
  }

  lemma NotEmptyList(names: seq<Name>)
    requires OpaqueNames(names) != [] && AllNoBar(OpaqueNames(names))
    ensures Join(Canonical(OpaqueNames(names))) != EmptyList()
  {
    hide Join, Canonical, EmptyList, IsWindowsOpaque;
    forall name | name in OpaqueNames(names) ensures IsWindowsOpaque(name) {
      KeepMembers(IsWindowsOpaque, names, name);
    }
    EmptyListIsNoName(OpaqueNames(names));
  }

  // ---------- bars in names ----------

  /** The classifier of the generic signature: nothing is plain text. */
  predicate NoPlainText(name: Name) {
    false
  }

  lemma ToPreserveAll(name: Name)
    ensures ToPreserve(NoPlainText)(name) <==> ShouldPreserve(name)
  {
    assert !NoPlainText(name);
  }

  lemma MentionsGrows(table: seq<string>, name: Name, more: Name)
    requires Mentions(table, name)
    ensures Mentions(table, name + more)
  {
    hide EqIgnoreAsciiCase, Utf8.Encode;
    var i :| 0 <= i < |table| && ContainsIgnoreAsciiCase(name, Utf8.Encode(table[i]));
    var needle := Utf8.Encode(table[i]);
    var k: nat :| k <= |name| && MatchesAt(name, k, needle);
    assert (name + more)[k..k + |needle|] == name[k..k + |needle|];
    assert MatchesAt(name + more, k, needle);
  }

  /** ASCII without a bar. */
  predicate IsBarFree(t: string) {
    forall k :: 0 <= k < |t| ==> t[k] as int < 128 && t[k] != '|'
  }

  lemma BarFreeDiffers(t: string, name: Name)
    requires IsBarFree(t) && BAR in name
    ensures !EqIgnoreAsciiCase(Utf8.Encode(t), name)
  {
    Utf8.EncodeAscii(t);
    hide Utf8.Encode;
    var k :| 0 <= k < |name| && name[k] == BAR;
    OnlyBarIsBar(if k < |t| then t[k] as int else 0);
    assert |t| == |name| ==> Utf8.Encode(t)[k] == t[k] as int;
  }

  lemma OnlyBarIsBar(b: Byte)
    ensures LowerByte(b) == LowerByte(BAR) <==> b == BAR
  {
  }

  predicate AllBarFree(table: seq<string>) {
    forall i :: 0 <= i < |table| ==> IsBarFree(table[i])
  }

  /** The character fact, entry by entry. */
  lemma TableBarFree(table: seq<string>)
    requires forall i, k :: 0 <= i < |table| && 0 <= k < |table[i]| ==> table[i][k] as int < 128 && table[i][k] != '|'
    ensures AllBarFree(table)
  {
  }

  lemma TextTablesBarFree()
    ensures AllBarFree(X11_ATOMS) && AllBarFree(TEXT_TYPES) && AllBarFree(IMAGE_TYPES)
  {
    hide IsBarFree;
    TableBarFree(X11_ATOMS);
    TableBarFree(TEXT_TYPES);
    TableBarFree(IMAGE_TYPES);
  }

  lemma AppleTablesBarFree()
    ensures AllBarFree(APPLE_TYPES) && AllBarFree(PASTEBOARD_TYPES)
  {
    hide IsBarFree;
    TableBarFree(APPLE_TYPES);
    TableBarFree(PASTEBOARD_TYPES);
  }

  lemma BrowserTablesBarFree()
    ensures AllBarFree(BROWSER_TYPES) && AllBarFree(OWN_FORMATS)
  {
    hide IsBarFree;
    TableBarFree(BROWSER_TYPES);
    TableBarFree(OWN_FORMATS);
  }

  lemma FlagTablesBarFree()
    ensures AllBarFree(HISTORY_FLAGS) && AllBarFree(MONITOR_FLAGS)
  {
    hide IsBarFree;
    TableBarFree(HISTORY_FLAGS);
    TableBarFree(MONITOR_FLAGS);
  }

  lemma NotListedWithBar(table: seq<string>, name: Name)
    requires AllBarFree(table) && BAR in name
    ensures !Listed(table, name)
  {
    hide IsBarFree, EqIgnoreAsciiCase, Utf8.Encode;
    forall i | 0 <= i < |table| ensures !EqIgnoreAsciiCase(Utf8.Encode(table[i]), name) {
      BarFreeDiffers(table[i], name);
    }
  }

  lemma BarFreeConcat(s: seq<string>, t: seq<string>)
    requires AllBarFree(s) && AllBarFree(t)
    ensures AllBarFree(s + t)
  {
    hide IsBarFree;
  }

  lemma SafeBarFree()
    ensures AllBarFree(SAFE_FORMATS)
  {
    hide AllBarFree;
    TextTablesBarFree();
    AppleTablesBarFree();
    BrowserTablesBarFree();
    FlagTablesBarFree();
    var types := X11_ATOMS + TEXT_TYPES + IMAGE_TYPES;
    BarFreeConcat(X11_ATOMS, TEXT_TYPES);
    BarFreeConcat(X11_ATOMS + TEXT_TYPES, IMAGE_TYPES);
    BarFreeConcat(types, APPLE_TYPES);
    var more := types + APPLE_TYPES + PASTEBOARD_TYPES;
    BarFreeConcat(types + APPLE_TYPES, PASTEBOARD_TYPES);
    BarFreeConcat(more, BROWSER_TYPES);
    var most := more + BROWSER_TYPES + HISTORY_FLAGS;
    BarFreeConcat(more + BROWSER_TYPES, HISTORY_FLAGS);
    BarFreeConcat(most, MONITOR_FLAGS);
    BarFreeConcat(most + MONITOR_FLAGS, OWN_FORMATS);
  }

  lemma NotSafeWithBar(name: Name)
    requires BAR in name
    ensures !Listed(SAFE_FORMATS, name)
  {
    hide AllBarFree, Listed;
    SafeBarFree();
    NotListedWithBar(SAFE_FORMATS, name);
  }

  lemma NotOwnerWithBar(name: Name)
    requires BAR in name
    ensures !IsOwnerName(name)
  {
    var k :| 0 <= k < |name| && name[k] == BAR;
    assert BAR !in OwnerFormat();
    assert k < |OwnerFormat()| ==> OwnerFormat()[k] in OwnerFormat();
    OnlyBarIsBar(if k < |OwnerFormat()| then OwnerFormat()[k] else 0);
    hide OwnerFormat;
  }

  /** A preserved name with anything behind a bar is preserved. */
  lemma PreservedGrows(name: Name, more: Name)
    requires ShouldPreserve(name)
    ensures ShouldPreserve(name + ([BAR] + more)) && !IsOwnerName(name + ([BAR] + more))
  {
    hide Mentions, Listed, IsOwnerName;
    var all := name + ([BAR] + more);
    assert all[|name|] == BAR;
    NotOwnerWithBar(all);
    NotSafeWithBar(all);
    if IsOpaqueNative(name) {
      MentionsGrows(OPAQUE_PATTERNS, name, [BAR] + more);
    } else {
      MentionsGrows(RISKY_PATTERNS, name, [BAR] + more);
    }
  }

  lemma OneName(name: Name)
    requires ShouldPreserve(name) && !IsOwnerName(name)
    ensures Preserved([name], NoPlainText) == [name] && GenericSignature([name], NoPlainText) == Some(name)
  {
    hide ShouldPreserve, IsOwnerName;
    ToPreserveAll(name);
    KeepAll(ToPreserve(NoPlainText), [name]);
    assert Sort([name]) == [name] by { assert [name][1..] == []; }
  }

  predicate TwoNames(names: seq<Name>) {
    exists i, j :: 0 <= i < |names| && 0 <= j < |names| && names[i] != names[j]
  }

  lemma TwoNamesIff(names: seq<Name>)
    requires names != []
    ensures Canonical(names) != [] && (|Canonical(names)| >= 2 <==> TwoNames(names))
  {
    hide Canonical, Before, Sort, Dedup;
    var c := Canonical(names);
    CanonicalIff(names, names);
    SameSetEmpty(c, names);
    if |c| >= 2 {
      CanonicalDistinct(names);
      var i :| 0 <= i < |names| && names[i] == c[0];
      var j :| 0 <= j < |names| && names[j] == c[1];
    } else {
      forall i | 0 <= i < |names| ensures names[i] == c[0] {
        assert names[i] in names;
      }
    }
  }

  lemma CanonicalDistinct(names: seq<Name>)
    requires |Canonical(names)| >= 2
    ensures Canonical(names)[0] in names && Canonical(names)[1] in names && Canonical(names)[0] != Canonical(names)[1]
  {
    hide Before, Sort, Dedup;
    SortSorts(names);
    DedupStrict(Sort(names));
    var c := Canonical(names);
    assert c[1] in c[1..];
    BeforeIsStrictOrder(c[0], c[0], c[0]);
    assert c[0] in c && c[1] in c;
  }

  lemma JoinHasBar(names: seq<Name>)
    requires |names| >= 2
    ensures Join(names) == names[0] + ([BAR] + Join(names[1..])) && BAR in Join(names)
  {
    Assoc(names[0], [BAR], Join(names[1..]));
    assert Join(names)[|names[0]|] == BAR;
  }

  /** Whatever counts as plain text, a single name without a bar shares its signature with its own set of names only. */
  lemma SingleNameIsUnique(a: seq<Name>, b: seq<Name>, isPlainText: Name -> bool)
    requires GenericSignature(a, isPlainText).Some? && GenericSignature(a, isPlainText) == GenericSignature(b, isPlainText)
    requires AllNoBar(Preserved(a, isPlainText)) && !TwoNames(Preserved(a, isPlainText))
    ensures SameSet(Preserved(a, isPlainText), Preserved(b, isPlainText))
  {
    hide Canonical, Preserved, Any, TwoNames, SameSet;
    var x, y := Preserved(a, isPlainText), Preserved(b, isPlainText);
    TwoNamesIff(x);
    TwoNamesIff(y);
    CanonicalIff(x, y);
    CanonicalNoBar(x);
    BarIff(Canonical(x));
    if |Canonical(y)| >= 2 {
      JoinHasBar(Canonical(y));
    }
  }

  lemma CanonicalNoBar(names: seq<Name>)
    requires AllNoBar(names)
    ensures AllNoBar(Canonical(names))
  {
    hide Canonical, NoBar;
    CanonicalIff(names, names);
  }

  /** Some list with another set of preserved names has the same signature. */
  ghost predicate Collides(a: seq<Name>) {
    exists b :: GenericSignature(b, NoPlainText) == GenericSignature(a, NoPlainText) &&
                !SameSet(Preserved(a, NoPlainText), Preserved(b, NoPlainText))
  }

  /** The text reads as two names in order, each preserved and neither the owner's. */
  predicate SplitsAt(x: Name, k: nat) {
    && k < |x| && x[k] == BAR
    && ShouldPreserve(x[..k]) && ShouldPreserve(x[k + 1..])
    && !IsOwnerName(x[..k]) && !IsOwnerName(x[k + 1..])
    && Before(x[..k], x[k + 1..])
  }

  /** For every list with a signature: it collides exactly if it preserves two names, or one that splits in two at a bar. */
  lemma CollidesIff(a: seq<Name>)
    requires GenericSignature(a, NoPlainText).Some?
    ensures Collides(a) <==>
            TwoNames(Preserved(a, NoPlainText)) || exists k :: SplitsAt(GenericSignature(a, NoPlainText).value, k)
  {
    hide Canonical, Preserved, Any, TwoNames, SameSet, Join, GenericSignature, SplitsAt;
    if TwoNames(Preserved(a, NoPlainText)) {
      JoinedCollides(a);
    } else {
      var x := GenericSignature(a, NoPlainText).value;
      if k: nat :| SplitsAt(x, k) {
        SplitCollides(a, k);
      }
      if Collides(a) {
        var b :| GenericSignature(b, NoPlainText) == GenericSignature(a, NoPlainText) &&
                 !SameSet(Preserved(a, NoPlainText), Preserved(b, NoPlainText));
        var k := OtherSplits(a, b);
      }
    }
  }

  /** Among names without a bar that leaves the first case only. */
  lemma CollidesIffTwoNames(a: seq<Name>)
    requires GenericSignature(a, NoPlainText).Some? && AllNoBar(Preserved(a, NoPlainText))
    ensures Collides(a) <==> TwoNames(Preserved(a, NoPlainText))
  {
    hide Canonical, Preserved, Any, TwoNames, SameSet, Join, GenericSignature;
    if TwoNames(Preserved(a, NoPlainText)) {
      JoinedCollides(a);
    } else if Collides(a) {
      var b :| GenericSignature(b, NoPlainText) == GenericSignature(a, NoPlainText) &&
               !SameSet(Preserved(a, NoPlainText), Preserved(b, NoPlainText));
      SingleNameIsUnique(a, b, NoPlainText);
    }
  }

  /** Two names or more: the joined name is preserved itself, and reads as the names it joins. */
  lemma JoinedCollides(a: seq<Name>)
    requires GenericSignature(a, NoPlainText).Some? && TwoNames(Preserved(a, NoPlainText))
    ensures Collides(a)
  {
    hide Canonical, Preserved, Any, TwoNames, ShouldPreserve, IsOwnerName;
    var x := Preserved(a, NoPlainText);
    var c := Canonical(x);
    TwoNamesIff(x);
    CanonicalIff(x, x);
    assert c[0] in x;
    PreservedShould(a, c[0]);
    JoinHasBar(c);
    PreservedGrows(c[0], Join(c[1..]));
    var joined := Join(c);
    OneName(joined);
    OtherSet(x, joined);
    assert GenericSignature([joined], NoPlainText) == GenericSignature(a, NoPlainText);
    assert !SameSet(x, Preserved([joined], NoPlainText));
  }

  /** One name that splits: the list of its two parts has the same signature. */
  lemma SplitCollides(a: seq<Name>, k: nat)
    requires GenericSignature(a, NoPlainText).Some? && !TwoNames(Preserved(a, NoPlainText))
    requires SplitsAt(GenericSignature(a, NoPlainText).value, k)
    ensures Collides(a)
  {
    hide Canonical, Preserved, Any, ShouldPreserve, IsOwnerName, Before, Join;
    var x := GenericSignature(a, NoPlainText).value;
    var u, v := x[..k], x[k + 1..];
    BeforeIsStrictOrder(u, v, u);
    TwoPreserved(u, v);
    JoinPair(u, v);
    assert u + ([BAR] + v) == x;
    assert GenericSignature([u, v], NoPlainText) == Some(x);
    TwoDiffer(u, v);
    SameSetTwoNames(Preserved(a, NoPlainText), [u, v]);
  }

  lemma TwoDiffer(u: Name, v: Name)
    requires u != v
    ensures TwoNames([u, v])
  {
    assert [u, v][0] != [u, v][1];
  }

  lemma SameSetTwoNames(a: seq<Name>, b: seq<Name>)
    ensures SameSet(a, b) && TwoNames(b) ==> TwoNames(a)
  {
    if SameSet(a, b) && TwoNames(b) {
      var i, j :| 0 <= i < |b| && 0 <= j < |b| && b[i] != b[j];
      assert b[i] in b && b[j] in b;
      var m :| 0 <= m < |a| && a[m] == b[i];
      var n :| 0 <= n < |a| && a[n] == b[j];
    }
  }

  lemma {:induction false} BeforeGrows(a: Name, b: Name, more: Name)
    requires Before(a, b)
    ensures Before(a, b + more)
  {
    if a != [] && a[0] == b[0] {
      BeforeGrows(a[1..], b[1..], more);
      assert (b + more)[1..] == b[1..] + more;
    }
  }

  /** A list of another set with the signature of a single name reads that name as two parts. */
  lemma OtherSplits(a: seq<Name>, b: seq<Name>) returns (k: nat)
    requires GenericSignature(a, NoPlainText).Some? && GenericSignature(a, NoPlainText) == GenericSignature(b, NoPlainText)
    requires !TwoNames(Preserved(a, NoPlainText)) && !SameSet(Preserved(a, NoPlainText), Preserved(b, NoPlainText))
    ensures SplitsAt(GenericSignature(a, NoPlainText).value, k)
  {
    hide Canonical, Preserved, Any, TwoNames, SameSet, ShouldPreserve, IsOwnerName, Before;
    var y := Preserved(b, NoPlainText);
    var c, x := Canonical(y), GenericSignature(a, NoPlainText).value;
    TwoNamesIff(Preserved(a, NoPlainText));
    TwoNamesIff(y);
    CanonicalIff(Preserved(a, NoPlainText), y);
    JoinHasBar(c);
    k := |c[0]|;
    var rest := Join(c[1..]);
    assert x[..k] == c[0] && x[k + 1..] == rest && x[k] == BAR;
    NamesOf(b, c[0]);
    NamesOf(b, c[1]);
    CanonicalOrdered(y);
    if |c| == 2 {
      assert c[1..] == [c[1]];
    } else {
      JoinHasBar(c[1..]);
      PreservedGrows(c[1], Join(c[1..][1..]));
      BeforeGrows(c[0], c[1], [BAR] + Join(c[1..][1..]));
    }
  }

  lemma NamesOf(b: seq<Name>, name: Name)
    requires GenericSignature(b, NoPlainText).Some? && name in Canonical(Preserved(b, NoPlainText))
    ensures ShouldPreserve(name) && !IsOwnerName(name)
  {
    hide Canonical, ShouldPreserve, IsOwnerName, Join;
    CanonicalIff(Preserved(b, NoPlainText), []);
    PreservedShould(b, name);
    KeepMembers(ToPreserve(NoPlainText), b, name);
    var i :| 0 <= i < |b| && b[i] == name;
    assert IsOwnerName(b[i]) ==> Any(IsOwnerName, b);
  }

  lemma CanonicalOrdered(names: seq<Name>)
    ensures |Canonical(names)| >= 2 ==> Before(Canonical(names)[0], Canonical(names)[1])
  {
    hide Before, Sort, Dedup;
    SortSorts(names);
    DedupStrict(Sort(names));
    var c := Canonical(names);
    if |c| >= 2 {
      assert c[1] in c[1..];
    }
  }

  lemma PreservedShould(a: seq<Name>, name: Name)
    requires name in Preserved(a, NoPlainText)
    ensures ShouldPreserve(name)
  {
    KeepMembers(ToPreserve(NoPlainText), a, name);
    ToPreserveAll(name);
  }

  lemma OtherSet(names: seq<Name>, joined: Name)
    requires TwoNames(names)
    ensures !SameSet(names, [joined])
  {
    if SameSet(names, [joined]) {
      SameSetTwoNames([joined], names);
    }
  }

  /** The smallest case: two opaque names, and the one that joins them. */
  lemma BarsCollide(x: Name, y: Name)
    requires IsOpaqueNative(x) && IsOpaqueNative(y) && Before(x, y) && !IsOwnerName(x) && !IsOwnerName(y)
    ensures GenericSignature([x, y], NoPlainText) == Some(x + ([BAR] + y))
    ensures GenericSignature([x + ([BAR] + y)], NoPlainText) == Some(x + ([BAR] + y))
  {
    hide IsOpaqueNative, Before, IsOwnerName, IsRisky;
    PreservedGrows(x, y);
    OneName(x + ([BAR] + y));
    hide ShouldPreserve;
    TwoPreserved(x, y);
    JoinPair(x, y);
  }

  lemma TwoPreserved(x: Name, y: Name)
    requires ShouldPreserve(x) && ShouldPreserve(y) && !IsOwnerName(x) && !IsOwnerName(y)
    ensures Preserved([x, y], NoPlainText) == [x, y] && !Any(IsOwnerName, [x, y])
  {
    hide ShouldPreserve, IsOwnerName;
    ToPreserveAll(x);
    ToPreserveAll(y);
    KeepAll(ToPreserve(NoPlainText), [x, y]);
  }

  lemma JoinPair(x: Name, y: Name)
    requires Before(x, y)
    ensures Join(Canonical([x, y])) == x + ([BAR] + y)
  {
    hide Before;
    BeforeIsStrictOrder(x, y, x);
    assert [x, y][1..] == [y];
    assert Sort([y]) == [y] && Sort([x, y]) == [x, y];
    assert Dedup([x, y]) == [x, y];
    JoinHasBar([x, y]);
  }
}
