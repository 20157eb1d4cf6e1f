/**
 Signatures of clipboard format-name lists (src/clipboard.rs:696-724, 777-798).

 Filter, sort and dedup give a normal form: the signature depends on the set of names alone.
 */
module FormatSignatures {
  import opened Prelude
  import opened Lists
  import opened ClipboardItems
  import opened FormatNames
  import Utf8

  /** Byte-wise order, as Rust compares strings. */
  predicate Before(a: Name, b: Name) {
    b != [] && (a == [] || a[0] < b[0] || (a[0] == b[0] && Before(a[1..], b[1..])))
  }

  lemma {:induction false} BeforeIsStrictOrder(a: Name, b: Name, c: Name)
    ensures !Before(a, a)
    ensures a == b || Before(a, b) || Before(b, a)
    ensures Before(a, b) && Before(b, c) ==> Before(a, c)
  {
    if a != [] && b != [] && c != [] {
      BeforeIsStrictOrder(a[1..], b[1..], c[1..]);
      assert a == [a[0]] + a[1..] && b == [b[0]] + b[1..];
    } else if a != [] && b != [] {
      BeforeIsStrictOrder(a[1..], b[1..], []);
      assert a == [a[0]] + a[1..] && b == [b[0]] + b[1..];
    } else if a != [] {
      BeforeIsStrictOrder(a[1..], [], []);
    }
  }

  function Insert(x: Name, s: seq<Name>): seq<Name> {
    if s == [] || !Before(s[0], x) then [x] + s else [s[0]] + Insert(x, s[1..])
  }

  function Sort(s: seq<Name>): seq<Name> {
    if s == [] then [] else Insert(s[0], Sort(s[1..]))
  }

  /** Drops each name equal to the one before it. */
  function Dedup(s: seq<Name>): seq<Name> {
    if |s| <= 1 then s
    else if s[0] == s[1] then Dedup(s[1..])
    else [s[0]] + Dedup(s[1..])
  }

  ghost predicate Ascending(s: seq<Name>) {
    s == [] || ((forall x :: x in s[1..] ==> x == s[0] || Before(s[0], x)) && Ascending(s[1..]))
  }

  ghost predicate Strict(s: seq<Name>) {
    s == [] || ((forall x :: x in s[1..] ==> Before(s[0], x)) && Strict(s[1..]))
  }

  ghost predicate SameSet(a: seq<Name>, b: seq<Name>) {
    forall x :: x in a <==> x in b
  }

  lemma {:induction false} InsertSorts(x: Name, s: seq<Name>)
    requires Ascending(s)
    ensures Ascending(Insert(x, s)) && SameSet(Insert(x, s), [x] + s)
  {
    hide Before;
    if s != [] {
      assert s == [s[0]] + s[1..];
      if Before(s[0], x) {
        InsertSorts(x, s[1..]);
        assert Insert(x, s)[1..] == Insert(x, s[1..]);
      } else {
        BeforeIsStrictOrder(s[0], x, x);
        assert ([x] + s)[1..] == s;
        forall y | y in s ensures y == x || Before(x, y) {
          BeforeIsStrictOrder(x, s[0], y);
        }
      }
    }
  }

  lemma {:induction false} SortSorts(s: seq<Name>)
    ensures Ascending(Sort(s)) && SameSet(Sort(s), s)
  {
    hide Insert;
    if s != [] {
      SortSorts(s[1..]);
      InsertSorts(s[0], Sort(s[1..]));
      assert s == [s[0]] + s[1..];
    }
  }

  lemma {:induction false} DedupStrict(s: seq<Name>)
    requires Ascending(s)
    ensures Strict(Dedup(s)) && SameSet(Dedup(s), s)
  {
    hide Before;
    if |s| > 1 {
      DedupStrict(s[1..]);
      assert s == [s[0]] + s[1..];
      if s[0] != s[1] {
        var rest := Dedup(s[1..]);
        assert ([s[0]] + rest)[1..] == rest;
        forall x | x in rest ensures Before(s[0], x) {
          assert x in s[1..] && s[1..] == [s[1]] + s[2..];
          BeforeIsStrictOrder(s[0], s[1], x);
          BeforeIsStrictOrder(s[1], s[0], x);
        }
      }
    }
  }

  lemma SameSetEmpty(a: seq<Name>, b: seq<Name>)
    requires SameSet(a, b)
    ensures a == [] <==> b == []
  {
    if a != [] {
      assert a[0] in b;
    }
    if b != [] {
      assert b[0] in a;
    }
  }

  /** A strictly ascending list is determined by its set of names. */
  lemma {:induction false} StrictUnique(a: seq<Name>, b: seq<Name>)
    requires Strict(a) && Strict(b) && SameSet(a, b)
    ensures a == b
  {
    hide Before;
    SameSetEmpty(a, b);
    if a != [] {
      var x, y := a[0], b[0];
      assert a == [x] + a[1..] && b == [y] + b[1..];
      assert x in b && y in a;
      BeforeIsStrictOrder(x, y, x);
      assert x == y;
      forall z ensures z in a[1..] <==> z in b[1..] {
        BeforeIsStrictOrder(x, z, z);
        assert z in a[1..] ==> z != x && z in a;
        assert z in b[1..] ==> z != x && z in b;
        assert z in a <==> z in b;
      }
      StrictUnique(a[1..], b[1..]);
    }
  }

  function Canonical(names: seq<Name>): seq<Name> {
    Dedup(Sort(names))
  }

  lemma CanonicalIff(a: seq<Name>, b: seq<Name>)
    ensures Canonical(a) == Canonical(b) <==> SameSet(a, b)
    ensures SameSet(Canonical(a), a)
  {
    hide Dedup, Sort, Ascending, Strict;
    SortSorts(a);
    SortSorts(b);
    DedupStrict(Sort(a));
    DedupStrict(Sort(b));
    if SameSet(a, b) {
      StrictUnique(Canonical(a), Canonical(b));
    } else {
      var x :| !(x in a <==> x in b);
      assert x in a <==> x in Canonical(a);
      assert x in b <==> x in Canonical(b);
    }
  }

  // ---------- signatures ----------

  const BAR: Byte := 124
  const COLON: Byte := 58

  function Join(names: seq<Name>): seq<Byte> {
    if names == [] then []
    else if |names| == 1 then names[0]
    else names[0] + [BAR] + Join(names[1..])
  }

  function Decimal(n: nat): seq<Byte> {
    if n < 10 then [48 + n] else Decimal(n / 10) + [48 + n % 10]
  }

  function WindowsText(sequence: nat, rest: seq<Byte>): seq<Byte> {
    Utf8.Encode("windows:") + (Decimal(sequence) + [COLON] + rest)
  }

  function OpaqueNames(names: seq<Name>): seq<Name> {
    Keep(IsWindowsOpaque, names)
  }

  predicate Any(p: Name -> bool, names: seq<Name>) {
    exists i :: 0 <= i < |names| && p(names[i])
  }

  predicate IsWindowsText(name: Name) {
    Listed(WINDOWS_TEXT, name)
  }

  predicate IsWrapper(name: Name) {
    Listed(TEXT_WRAPPERS, name)
  }

  predicate OnlyWrappers(names: seq<Name>) {
    names != [] && forall i :: 0 <= i < |names| ==> IsWrapper(names[i])
  }

  function WindowsSignature(sequence: nat, hasOwner: bool, names: seq<Name>): Option<seq<Byte>> {
    if hasOwner then None
    else if names == [] then Some(WindowsText(sequence, Utf8.Encode("empty-format-list")))
    else
      var formats := OpaqueNames(names);
      if formats == [] then None
      else
        var canonical := Canonical(formats);
        if Any(IsWindowsText, names) && OnlyWrappers(canonical) then None
        else Some(WindowsText(sequence, Join(canonical)))
  }

  predicate IsOwnerName(name: Name) {
    EqIgnoreAsciiCase(name, OwnerFormat())
  }

  function ToPreserve(isPlainText: Name -> bool): Name -> bool {
    name => ShouldPreserve(name) && !isPlainText(name)
  }

  function Preserved(names: seq<Name>, isPlainText: Name -> bool): seq<Name> {
    Keep(ToPreserve(isPlainText), names)
  }

  function GenericSignature(names: seq<Name>, isPlainText: Name -> bool): Option<seq<Byte>> {
    if Any(IsOwnerName, names) then None
    else
      var formats := Preserved(names, isPlainText);
      if formats == [] then None else Some(Join(Canonical(formats)))
  }

  lemma AnySameSet(p: Name -> bool, a: seq<Name>, b: seq<Name>)
    requires SameSet(a, b)
    ensures Any(p, a) <==> Any(p, b)
  {
    forall i | 0 <= i < |a| && p(a[i]) ensures Any(p, b) {
      assert a[i] in b;
    }
    forall i | 0 <= i < |b| && p(b[i]) ensures Any(p, a) {
      assert b[i] in a;
    }
  }

  lemma KeepSameSet(p: Name -> bool, a: seq<Name>, b: seq<Name>)
    requires SameSet(a, b)
    ensures SameSet(Keep(p, a), Keep(p, b)) && (Keep(p, a) == [] <==> Keep(p, b) == [])
  {
    forall x ensures x in Keep(p, a) <==> x in Keep(p, b) {
      KeepMembers(p, a, x);
      KeepMembers(p, b, x);
    }
    SameSetEmpty(Keep(p, a), Keep(p, b));
  }

  /** Order and repetition do not matter. */
  lemma WindowsCanonical(sequence: nat, hasOwner: bool, a: seq<Name>, b: seq<Name>)
    requires SameSet(a, b)
    ensures WindowsSignature(sequence, hasOwner, a) == WindowsSignature(sequence, hasOwner, b)
  {
    hide SameSet, Any, Keep, OnlyWrappers, WindowsText, Join, Canonical;
    SameSetEmpty(a, b);
    AnySameSet(IsWindowsText, a, b);
    KeepSameSet(IsWindowsOpaque, a, b);
    CanonicalIff(OpaqueNames(a), OpaqueNames(b));
  }

  lemma GenericCanonical(a: seq<Name>, b: seq<Name>, isPlainText: Name -> bool)
    requires SameSet(a, b)
    ensures GenericSignature(a, isPlainText) == GenericSignature(b, isPlainText)
  {
    hide SameSet, Any, Keep, Join, Canonical;
    AnySameSet(IsOwnerName, a, b);
    KeepSameSet(ToPreserve(isPlainText), a, b);
    CanonicalIff(Preserved(a, isPlainText), Preserved(b, isPlainText));
  }

  // ---------- the signature names the set ----------

  predicate NoBar(name: Name) {
    BAR !in name
  }

  predicate AllNoBar(names: seq<Name>) {
    forall name :: name in names ==> NoBar(name)
  }

  lemma SeparatorInside(x: Name, u: Name, y: Name, v: Name, separator: Byte)
    requires x + [separator] + u == y + [separator] + v
    ensures |x| < |y| ==> y[|x|] == separator
  {
    assert (x + [separator] + u)[|x|] == separator;
    assert |x| < |y| ==> (y + [separator] + v)[|x|] == y[|x|];
  }

  /** Text in front of the first separator is determined. */
  lemma SeparatorUnique(x: Name, u: Name, y: Name, v: Name, separator: Byte)
    requires separator !in x && separator !in y
    requires x + [separator] + u == y + [separator] + v
    ensures x == y && u == v
  {
    var s, t := x + [separator] + u, y + [separator] + v;
    SeparatorInside(x, u, y, v, separator);
    SeparatorInside(y, v, x, u, separator);
    assert s[..|x|] == x && t[..|y|] == y;
    assert s[|x| + 1..] == u && t[|y| + 1..] == v;
  }

  lemma {:induction false} JoinInjective(a: seq<Name>, b: seq<Name>)
    requires a != [] && b != [] && AllNoBar(a) && AllNoBar(b)
    requires Join(a) == Join(b)
    ensures a == b
  {
    BarIff(a);
    BarIff(b);
    assert a == [a[0]] + a[1..] && b == [b[0]] + b[1..];
    assert NoBar(a[0]) && NoBar(b[0]);
    if |a| > 1 {
      SeparatorUnique(a[0], Join(a[1..]), b[0], Join(b[1..]), BAR);
      JoinInjective(a[1..], b[1..]);
    }
  }

  lemma BarIff(names: seq<Name>)
    requires names != [] && AllNoBar(names)
    ensures BAR in Join(names) <==> |names| > 1
  {
    assert NoBar(names[0]);
  }

  lemma {:induction false} DecimalDigits(n: nat)
    ensures Decimal(n) != [] && forall d :: d in Decimal(n) ==> 48 <= d < 58
  {
    if n >= 10 {
      DecimalDigits(n / 10);
    }
  }

  lemma {:induction false} DecimalInjective(m: nat, n: nat)
    requires Decimal(m) == Decimal(n)
    ensures m == n
  {
    DecimalDigits(m / 10);
    DecimalDigits(n / 10);
    if m >= 10 && n >= 10 {
      var p, q := Decimal(m / 10), Decimal(n / 10);
      assert Decimal(m)[..|p|] == p && Decimal(n)[..|q|] == q;
      assert Decimal(m)[|p|] == 48 + m % 10 && Decimal(n)[|q|] == 48 + n % 10;
      DecimalInjective(m / 10, n / 10);
    }
  }

  lemma WindowsTextInjective(m: nat, u: seq<Byte>, n: nat, v: seq<Byte>)
    ensures WindowsText(m, u) == WindowsText(n, v) <==> m == n && u == v
  {
    hide Utf8.Encode, Decimal;
    if WindowsText(m, u) == WindowsText(n, v) {
      var k := |Utf8.Encode("windows:")|;
      assert WindowsText(m, u)[k..] == Decimal(m) + [COLON] + u;
      assert WindowsText(n, v)[k..] == Decimal(n) + [COLON] + v;
      DecimalDigits(m);
      DecimalDigits(n);
      SeparatorUnique(Decimal(m), u, Decimal(n), v, COLON);
      DecimalInjective(m, n);
    }
  }

  lemma JoinCanonicalIff(a: seq<Name>, b: seq<Name>)
    requires a != [] && b != [] && AllNoBar(a) && AllNoBar(b)
    ensures Join(Canonical(a)) == Join(Canonical(b)) <==> SameSet(a, b)
  {
    hide Canonical, Join, NoBar;
    CanonicalIff(a, b);
    CanonicalIff(b, a);
    SameSetEmpty(Canonical(a), a);
    SameSetEmpty(Canonical(b), b);
    if Join(Canonical(a)) == Join(Canonical(b)) {
      JoinInjective(Canonical(a), Canonical(b));
    }
  }

  // ---------- which lists have a signature ----------

  function Number(digits: seq<Byte>): int {
    if digits == [] then 0 else 10 * Number(digits[..|digits| - 1]) + digits[|digits| - 1] as int - '0' as int
  }

  /** The sequence number is written in decimal, without zeros in front. */
  lemma {:induction false} DecimalReads(n: nat)
    ensures var d := Decimal(n); d != [] && Number(d) == n && (|d| > 1 ==> d[0] != '0' as int)
  {
    if n >= 10 {
      DecimalReads(n / 10);
      assert Decimal(n)[..|Decimal(n)| - 1] == Decimal(n / 10);
    }
  }

  lemma AnyIff(p: Name -> bool, names: seq<Name>)
    ensures Any(p, names) <==> exists name :: name in names && p(name)
  {
    if i :| 0 <= i < |names| && p(names[i]) {
      assert names[i] in names;
    }
  }

  /** `k` is the first place where the names differ, or one of them ends. */
  predicate DifferAt(a: Name, b: Name, k: nat) {
    k <= |a| && k <= |b| && a[..k] == b[..k] && (k < |a| && k < |b| ==> a[k] != b[k])
  }

  /** The order of the signatures is that of dictionaries, by bytes. */
  lemma {:induction false} BeforeIsLexical(a: Name, b: Name, k: nat)
    requires DifferAt(a, b, k)
    ensures Before(a, b) <==> k < |b| && (k == |a| || a[k] < b[k])
  {
    if k > 0 {
      assert a[..k][0] == b[..k][0];
      assert a[1..][..k - 1] == a[..k][1..] && b[1..][..k - 1] == b[..k][1..];
      BeforeIsLexical(a[1..], b[1..], k - 1);
    }
  }

  /** The names of a list with a property, each once, in order. */
  ghost predicate ListsInOrder(list: seq<Name>, p: Name -> bool, names: seq<Name>) {
    Strict(list) && forall name :: name in list <==> name in names && p(name)
  }

  lemma CanonicalLists(p: Name -> bool, names: seq<Name>)
    ensures ListsInOrder(Canonical(Keep(p, names)), p, names)
    ensures Keep(p, names) == [] <==> forall name :: name in names ==> !p(name)
  {
    hide Dedup, Sort, Ascending, Strict;
    var kept := Keep(p, names);
    SortSorts(kept);
    DedupStrict(Sort(kept));
    forall name ensures name in kept <==> name in names && p(name) {
      KeepMembers(p, names, name);
    }
    if kept != [] {
      assert kept[0] in names && p(kept[0]);
    }
  }

  predicate IsTextName(name: Name) {
    Spelled(WINDOWS_TEXT, name)
  }

  /** Names of opaque formats that say nothing when there is a text beside them. */
  predicate IsTextWrapper(name: Name) {
    Spelled(TEXT_WRAPPERS, name)
  }

  /** The clipboard is RustDesk's own, has nothing opaque, or has a text and only wrappers beside it. */
  ghost predicate IsOrdinary(hasOwner: bool, names: seq<Name>) {
    || hasOwner
    || (names != [] && forall name :: name in names ==> !IsWindowsOpaque(name))
    || ((exists name :: name in names && IsTextName(name))
        && forall name :: name in names && IsWindowsOpaque(name) ==> IsTextWrapper(name))
  }

  lemma OnlyWrappersIff(list: seq<Name>)
    requires list != []
    ensures OnlyWrappers(list) <==> forall name :: name in list ==> IsTextWrapper(name)
  {
    hide Spelled, Listed;
    forall name { ListedIff(TEXT_WRAPPERS, name); }
    if OnlyWrappers(list) {
      forall name | name in list ensures IsTextWrapper(name) {
        var i :| 0 <= i < |list| && list[i] == name;
        assert IsWrapper(list[i]);
      }
    } else {
      var i :| 0 <= i < |list| && !IsWrapper(list[i]);
      assert list[i] in list;
    }
  }

  lemma TextListedIff(names: seq<Name>)
    ensures Any(IsWindowsText, names) <==> exists name :: name in names && IsTextName(name)
  {
    hide Spelled, Listed;
    AnyIff(IsWindowsText, names);
    forall name { ListedIff(WINDOWS_TEXT, name); }
  }

  /** The Windows signature: nothing for an ordinary clipboard, else the number and the opaque names, each once, in order. */
  lemma WindowsSignatureIs(sequence: nat, hasOwner: bool, names: seq<Name>)
    ensures var r := WindowsSignature(sequence, hasOwner, names);
            && (r.None? <==> IsOrdinary(hasOwner, names))
            && (r.Some? && names == [] ==> r.value == WindowsText(sequence, Utf8.Encode("empty-format-list")))
            && (r.Some? && names != [] ==>
                  exists list :: ListsInOrder(list, IsWindowsOpaque, names) && r.value == WindowsText(sequence, Join(list)))
  {
    hide Spelled, Listed, Utf8.Encode, IsWindowsOpaque, Join, WindowsText, Canonical, Keep, OnlyWrappers, IsWindowsText, IsTextWrapper;
    hide IsTextName, Any;
    TextListedIff(names);
    CanonicalLists(IsWindowsOpaque, names);
    var list := Canonical(OpaqueNames(names));
    if names != [] && OpaqueNames(names) != [] {
      var first := OpaqueNames(names)[0];
      KeepMembers(IsWindowsOpaque, names, first);
      assert first in list;
      OnlyWrappersIff(list);
    }
  }

  /** The generic signature: nothing for RustDesk's own clipboard or where nothing is preserved, else those names in order. */
  lemma GenericSignatureIs(names: seq<Name>, isPlainText: Name -> bool)
    ensures var r, kept := GenericSignature(names, isPlainText), name => ShouldPreserve(name) && !isPlainText(name);
            && (r.None? <==>
                  || (exists name :: name in names && Spells(name, OwnerFormat()))
                  || forall name :: name in names ==> !kept(name))
            && (r.Some? ==> exists list :: ListsInOrder(list, kept, names) && r.value == Join(list))
  {
    hide Spells, OwnerFormat, ShouldPreserve, Join, Canonical, Keep, Any;
    var kept := name => ShouldPreserve(name) && !isPlainText(name);
    CanonicalLists(kept, names);
    AnyIff(IsOwnerName, names);
    OwnerNamesIff(names);
    KeepSame(ToPreserve(isPlainText), kept, names);
    assert Preserved(names, isPlainText) == Keep(kept, names);
    var list := Canonical(Keep(kept, names));
    assert ListsInOrder(list, kept, names);
  }

  lemma OwnerNamesIff(names: seq<Name>)
    ensures Any(IsOwnerName, names) <==> exists name :: name in names && Spells(name, OwnerFormat())
  {
    hide Spells, OwnerFormat, EqIgnoreAsciiCase;
    AnyIff(IsOwnerName, names);
    forall name { SpellsIff(name, OwnerFormat()); }
  }
}
