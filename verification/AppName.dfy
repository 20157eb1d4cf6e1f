/**
 Substitution of the product name in translated text (the `replace` closure of
 `translate_locale`, src/lang.rs:194-221).

 When the application name itself contains "RustDesk", three chained replacements through a
 placeholder are meant to act as one replacement that leaves the application name alone.
 `Intended` says what that one replacement is; the main result is exactly when the chain is it.
 */
module AppName {
  import opened Prelude
  import opened Text

  const RUSTDESK := "RustDesk"
  const PLACEHOLDER := "#A-P-P-N-A-M-E#"
  const STUB := "#A-P-P-N-A-M-E"

  /** Application names are made of letters, digits and hyphens; this kind contains "RustDesk". */
  predicate IsBrandedName(a: string) {
    Contains(a, RUSTDESK) && forall i :: 0 <= i < |a| ==> IsNameChar(a[i])
  }

  predicate IsNameChar(c: char) {
    'a' <= c <= 'z' || 'A' <= c <= 'Z' || '0' <= c <= '9' || c == '-'
  }

  function Chain(s: string, a: string): string
    requires a != ""
  {
    Replace(Replace(Replace(s, a, PLACEHOLDER), RUSTDESK, a), PLACEHOLDER, a)
  }

  function Substituted(s: string, a: string): string {
    if !Contains(a, RUSTDESK) then Replace(s, RUSTDESK, a)
    else if a == "" || Contains(s, PLACEHOLDER) then s
    else Chain(s, a)
  }

  /** The whole closure: fill in `{}`, then substitute the name unless this build or this text is exempt. */
  function Translated(s: string, value: Option<string>, isRustDesk: bool, exempt: bool, a: string): string {
    var filled := if value.Some? then Replace(s, "{}", value.value) else s;
    if !isRustDesk && Contains(filled, RUSTDESK) && !exempt then Substituted(filled, a) else filled
  }

  method ReplaceInTranslation(text: string, value: Option<string>, isRustDesk: bool, name: string, a: string)
    returns (s: string)
    ensures s == Translated(text, value, isRustDesk, "upgrade_rustdesk_server_pro" <= name, a)
    // a build under its own name, or a text that never says RustDesk, only has its `{}` filled in
    ensures isRustDesk && value.None? ==> s == text
  {
    s := text;
    match value {
      case Some(v) => s := Replace(s, "{}", v);
      case None =>
    }
    if !isRustDesk {
      if Contains(s, RUSTDESK) && !("upgrade_rustdesk_server_pro" <= name) {
        if !Contains(a, RUSTDESK) {
          s := Replace(s, RUSTDESK, a);
        } else if a != "" && !Contains(s, PLACEHOLDER) {
          s := Replace(s, a, PLACEHOLDER);
          s := Replace(s, RUSTDESK, a);
          s := Replace(s, PLACEHOLDER, a);
        }
      }
    }
  }

  // ---------- what the chain is for ----------

  function ReplaceEach(parts: seq<string>, a: string): (r: seq<string>)
    ensures |r| == |parts| && forall i :: 0 <= i < |parts| ==> r[i] == Replace(parts[i], RUSTDESK, a)
  {
    if parts == [] then [] else [Replace(parts[0], RUSTDESK, a)] + ReplaceEach(parts[1..], a)
  }

  /** Cut at the application name, replace inside each piece only, put the application name back. */
  function Intended(s: string, a: string): string
    requires a != ""
  {
    Join(ReplaceEach(Split(s, a), a), a)
  }

  /** No piece before an application name ends like the placeholder without its last character. */
  predicate NoStub(parts: seq<string>) {
    forall i :: 0 <= i < |parts| - 1 ==> !EndsWith(parts[i], STUB)
  }

  /**
   For every text without the placeholder (the closure's own guard), the chain does what it is for
   exactly when no application name in the text directly follows "#A-P-P-N-A-M-E".
   */
  lemma ChainIsIntendedIff(s: string, a: string)
    requires IsBrandedName(a) && !Contains(s, PLACEHOLDER)
    ensures a != "" && (Chain(s, a) == Intended(s, a) <==> NoStub(Split(s, a)))
  {
    BrandedChars(a);
    var parts := Split(s, a);
    var pieces := ReplaceEach(parts, a);
    ReplaceIsJoinSplit(s, a, PLACEHOLDER);
    ReplaceBetweenPlaceholders(parts, a);
    forall i | 0 <= i < |parts|
      ensures !Contains(pieces[i], PLACEHOLDER)
      ensures EndsWith(pieces[i], STUB) <==> EndsWith(parts[i], STUB)
    {
      SplitPartContained(s, a, i);
      if Contains(parts[i], PLACEHOLDER) {
        ContainsTrans(s, parts[i], PLACEHOLDER);
      }
      ReplaceKeepsPlaceholderOut(parts[i], a);
      ReplaceKeepsStub(parts[i], a);
    }
    PlaceholdersComeBackIff(pieces, a);
  }

  /** In particular for every text without a `#`. */
  lemma ChainIsIntendedWithoutHash(s: string, a: string)
    requires IsBrandedName(a) && '#' !in s
    ensures a != "" && Substituted(s, a) == Intended(s, a)
  {
    BrandedChars(a);
    if Contains(s, PLACEHOLDER) {
      ContainsChar(s, PLACEHOLDER, PLACEHOLDER[0]);
    }
    ChainIsIntendedIff(s, a);
    var parts := Split(s, a);
    forall i | 0 <= i < |parts| - 1 ensures !EndsWith(parts[i], STUB) {
      SplitPartContained(s, a, i);
      if EndsWith(parts[i], STUB) {
        assert parts[i][|parts[i]| - |STUB|] == STUB[0];
        ContainsChar(s, parts[i], '#');
      }
    }
  }

  /** A text on which the chain goes wrong: the stub in front of the application name. */
  lemma StubBreaksChain(a: string)
    requires IsBrandedName(a)
    ensures a != "" && !Contains(STUB + a, PLACEHOLDER) && Chain(STUB + a, a) != Intended(STUB + a, a)
  {
    BrandedChars(a);
    var s := STUB + a;
    assert s == STUB + (a + "");
    NoNameBeforeItself(a);
    SplitFirst(STUB, a, "");
    assert Split(s, a)[0] == STUB && |Split(s, a)| == 2;
    assert EndsWith(STUB, STUB);
    NoPlaceholderInStubName(a);
    ChainIsIntendedIff(s, a);
  }

  lemma NoPlaceholderInStubName(a: string)
    requires IsForeign(a)
    ensures !Contains(STUB + a, PLACEHOLDER)
  {
    if Contains(STUB + a, PLACEHOLDER) {
      var i := WhereContained(STUB + a, PLACEHOLDER);
      AtChar(STUB + a, PLACEHOLDER, i, 14);
    }
  }

  /** The application name is first found behind the stub: the stub lacks its first `u`. */
  lemma NoNameBeforeItself(a: string)
    requires IsForeign(a)
    ensures NoneStarts(STUB, a + "", a)
  {
    var u := FirstIndex(a, 'u');
    var s := STUB + (a + "");
    forall k | 0 <= k < |STUB| ensures !At(s, a, k) {
      assert k + u < |STUB| ==> s[k + u] == STUB[k + u];
      assert k + u >= |STUB| ==> s[k + u] == a[..u][k + u - |STUB|];
      NotAt(s, a, k, u);
    }
  }

  // ---------- lemmas ----------

  lemma BrandedChars(a: string)
    requires IsBrandedName(a)
    ensures 'u' in a && '#' !in a && a != ""
  {
    assert RUSTDESK[1] == 'u';
    ContainsChar(a, RUSTDESK, 'u');
  }

  /** The middle replacement never sees a placeholder: it acts inside the pieces only. */
  lemma {:induction false} ReplaceBetweenPlaceholders(parts: seq<string>, a: string)
    requires |parts| >= 1
    ensures Replace(Join(parts, PLACEHOLDER), RUSTDESK, a) == Join(ReplaceEach(parts, a), PLACEHOLDER)
  {
    if |parts| > 1 {
      var u, w := parts[0], Join(parts[1..], PLACEHOLDER);
      var v := PLACEHOLDER + w;
      ReplaceBetweenPlaceholders(parts[1..], a);
      NoNameAcross(u, w);
      ReplaceConcat(u, v, RUSTDESK, a);
      NoNameInPlaceholder(w);
      ReplaceSkips(PLACEHOLDER, w, RUSTDESK, a);
      assert u + PLACEHOLDER + w == u + v;
      assert ReplaceEach(parts, a)[1..] == ReplaceEach(parts[1..], a);
    }
  }

  lemma NoNameAcross(u: string, w: string)
    ensures NoStraddle(u, PLACEHOLDER + w, RUSTDESK)
  {
    var s := u + (PLACEHOLDER + w);
    assert s[|u|] == '#';
    forall k | 0 <= k < |u| < k + |RUSTDESK| ensures !At(s, RUSTDESK, k) {
      NotAt(s, RUSTDESK, k, |u| - k);
    }
  }

  lemma NoNameInPlaceholder(w: string)
    ensures NoneStarts(PLACEHOLDER, w, RUSTDESK)
  {
    forall k | 0 <= k < |PLACEHOLDER| ensures !At(PLACEHOLDER + w, RUSTDESK, k) {
      NotAt(PLACEHOLDER + w, RUSTDESK, k, 0);
    }
  }

  /** No '#' of ours and a `u` that the placeholder lacks: what a replacement inserts never overlaps a placeholder. */
  predicate IsForeign(x: string) {
    '#' !in x && 'u' in x
  }

  lemma RustDeskIsForeign()
    ensures IsForeign(RUSTDESK)
  {
    assert RUSTDESK[1] == 'u';
  }

  /** A tail of the placeholder that begins a replaced text begins the text itself. */
  lemma {:induction false} PlaceholderTailSurvives(s: string, a: string, n: nat)
    requires IsForeign(a) && n < |PLACEHOLDER| && PLACEHOLDER[n..] <= Replace(s, RUSTDESK, a)
    ensures PLACEHOLDER[n..] <= s
    decreases |s|
  {
    var y, x := PLACEHOLDER[n..], Replace(s, RUSTDESK, a);
    if s == "" {
    } else if RUSTDESK <= s {
      ForeignHeadIsNoTail(a, Replace(s[|RUSTDESK|..], RUSTDESK, a), n);
    } else if n + 1 < |PLACEHOLDER| {
      assert y[1..] == PLACEHOLDER[n + 1..] && x[1..] == Replace(s[1..], RUSTDESK, a);
      PlaceholderTailSurvives(s[1..], a, n + 1);
      assert y[0] == x[0] == s[0];
    }
  }

  lemma ForeignHeadIsNoTail(x: string, rest: string, n: nat)
    requires IsForeign(x) && n < |PLACEHOLDER|
    ensures !(PLACEHOLDER[n..] <= x + rest)
  {
    var y := PLACEHOLDER[n..];
    if |y| <= |x| {
      assert y[|y| - 1] == '#' && (x + rest)[|y| - 1] == x[|y| - 1];
    } else {
      var u := FirstIndex(x, 'u');
      assert y[u] == PLACEHOLDER[n + u] && (x + rest)[u] == 'u';
    }
  }

  lemma {:induction false} ReplaceKeepsPlaceholderOut(s: string, a: string)
    requires IsForeign(a) && !Contains(s, PLACEHOLDER)
    ensures !Contains(Replace(s, RUSTDESK, a), PLACEHOLDER)
    decreases |s|
  {
    if s == "" {
    } else if RUSTDESK <= s {
      if Contains(s[|RUSTDESK|..], PLACEHOLDER) {
        ContainsTail(s, |RUSTDESK|, PLACEHOLDER);
      }
      ReplaceKeepsPlaceholderOut(s[|RUSTDESK|..], a);
      ForeignHeadHidesNothing(a, Replace(s[|RUSTDESK|..], RUSTDESK, a));
    } else {
      if PLACEHOLDER <= Replace(s, RUSTDESK, a) {
        assert PLACEHOLDER[0..] == PLACEHOLDER;
        PlaceholderTailSurvives(s, a, 0);
      }
      ReplaceKeepsPlaceholderOut(s[1..], a);
      assert Replace(s, RUSTDESK, a)[1..] == Replace(s[1..], RUSTDESK, a);
    }
  }

  lemma ForeignHeadHidesNothing(x: string, rest: string)
    requires IsForeign(x) && !Contains(rest, PLACEHOLDER)
    ensures !Contains(x + rest, PLACEHOLDER)
  {
    if Contains(x + rest, PLACEHOLDER) {
      var i := WhereContained(x + rest, PLACEHOLDER);
      AtChar(x + rest, PLACEHOLDER, i, 0);
      assert (x + rest)[i..] == rest[i - |x|..];
      ContainsAt(rest, PLACEHOLDER, i - |x|);
    }
  }

  lemma ForeignHeadKeepsStub(x: string, rest: string)
    requires IsForeign(x)
    ensures EndsWith(x + rest, STUB) <==> EndsWith(rest, STUB)
  {
    var s := x + rest;
    if |rest| >= |STUB| {
      assert s[|s| - |STUB|..] == rest[|rest| - |STUB|..];
    } else if |s| >= |STUB| {
      assert s[|s| - |STUB|..][0] == x[|s| - |STUB|];
    }
  }

  /** A tail of the stub is the result of replacing only in itself. */
  lemma {:induction false} StubTailSurvives(s: string, a: string, n: nat)
    requires IsForeign(a) && n <= |STUB|
    ensures Replace(s, RUSTDESK, a) == STUB[n..] <==> s == STUB[n..]
    decreases |s|
  {
    var x := Replace(s, RUSTDESK, a);
    if s == "" {
    } else if RUSTDESK <= s {
      var u := FirstIndex(a, 'u');
      assert x[u] == 'u' && s[1] == 'u';
      NoUInStub(x, n, u);
      NoUInStub(s, n, 1);
    } else {
      assert x[1..] == Replace(s[1..], RUSTDESK, a) && x[0] == s[0];
      if n < |STUB| {
        StubTailSurvives(s[1..], a, n + 1);
        ByHeadAndTail(x, n);
        ByHeadAndTail(s, n);
      }
    }
  }

  lemma NoUInStub(s: string, n: nat, i: nat)
    requires n <= |STUB| && i < |s| && s[i] == 'u'
    ensures s != STUB[n..]
  {
    assert forall k :: 0 <= k < |STUB| ==> STUB[k] != 'u';
    assert i < |STUB| - n ==> STUB[n..][i] == STUB[n + i];
  }

  lemma ByHeadAndTail(s: string, n: nat)
    requires s != "" && n < |STUB|
    ensures s == STUB[n..] <==> s[0] == STUB[n] && s[1..] == STUB[n + 1..]
  {
    assert s == s[..1] + s[1..];
    assert STUB[n..] == [STUB[n]] + STUB[n + 1..];
  }

  lemma {:induction false} ReplaceKeepsStub(s: string, a: string)
    requires IsForeign(a)
    ensures EndsWith(Replace(s, RUSTDESK, a), STUB) <==> EndsWith(s, STUB)
    decreases |s|
  {
    if s == "" {
    } else if RUSTDESK <= s {
      var rest := s[|RUSTDESK|..];
      ReplaceKeepsStub(rest, a);
      RustDeskIsForeign();
      ForeignHeadKeepsStub(a, Replace(rest, RUSTDESK, a));
      ForeignHeadKeepsStub(RUSTDESK, rest);
      assert s == RUSTDESK + rest;
    } else {
      ReplaceKeepsStub(s[1..], a);
      StubTailSurvives(s, a, 0);
      assert STUB[0..] == STUB;
      EndsWithTail(s);
      EndsWithTail(Replace(s, RUSTDESK, a));
      assert Replace(s, RUSTDESK, a)[1..] == Replace(s[1..], RUSTDESK, a);
    }
  }

  lemma EndsWithTail(s: string)
    requires s != ""
    ensures EndsWith(s, STUB) <==> s == STUB || EndsWith(s[1..], STUB)
  {
    if |s| > |STUB| {
      assert s[1..][|s| - 1 - |STUB|..] == s[|s| - |STUB|..];
    }
  }

  /** The last replacement finds exactly the placeholders the first one put, unless a stub precedes one. */
  lemma {:induction false} PlaceholdersComeBackIff(q: seq<string>, a: string)
    requires |q| >= 1 && IsForeign(a)
    requires forall i :: 0 <= i < |q| ==> !Contains(q[i], PLACEHOLDER)
    ensures Replace(Join(q, PLACEHOLDER), PLACEHOLDER, a) == Join(q, a) <==> NoStub(q)
  {
    if |q| == 1 {
      ReplaceNothing(q[0], PLACEHOLDER, a);
    } else {
      var w := Join(q[1..], PLACEHOLDER);
      assert q[0] + PLACEHOLDER + w == q[0] + (PLACEHOLDER + w);
      if EndsWith(q[0], STUB) {
        StubIsMisread(q[0], w, a, Join(q[1..], a));
      } else {
        NoneStartsBefore(q[0], w);
        ReplaceSkips(q[0], PLACEHOLDER + w, PLACEHOLDER, a);
        ReplaceHere(PLACEHOLDER, w, a);
        PlaceholdersComeBackIff(q[1..], a);
        NoStubTail(q);
        SameHead(q[0] + a, Replace(w, PLACEHOLDER, a), Join(q[1..], a));
        assert q[0] + (a + Replace(w, PLACEHOLDER, a)) == q[0] + a + Replace(w, PLACEHOLDER, a);
      }
    }
  }

  lemma NoStubTail(q: seq<string>)
    requires |q| > 1 && !EndsWith(q[0], STUB)
    ensures NoStub(q) <==> NoStub(q[1..])
  {
    if NoStub(q[1..]) {
      forall i | 0 <= i < |q| - 1 ensures !EndsWith(q[i], STUB) {
        assert i > 0 ==> q[i] == q[1..][i - 1];
      }
    }
  }

  lemma SameHead(h: string, x: string, y: string)
    ensures h + x == h + y <==> x == y
  {
    assert (h + x)[|h|..] == x && (h + y)[|h|..] == y;
  }

  lemma {:induction false} ReplaceNothing(s: string, p: string, r: string)
    requires p != "" && !Contains(s, p)
    ensures Replace(s, p, r) == s
  {
    if s != "" {
      ReplaceNothing(s[1..], p, r);
    }
  }

  /** `p` can overlap a copy of itself only by its last character, leaving `stub` in front. */
  predicate OverlapsByStub(p: string, stub: string) {
    p != "" && forall d :: 0 < d < |p| && p[d] == p[0] ==> d == |stub| && p[..d] == stub
  }

  lemma PlaceholderOverlap()
    ensures OverlapsByStub(PLACEHOLDER, STUB)
  {
  }

  lemma NoneStartsBefore(q: string, w: string)
    requires !Contains(q, PLACEHOLDER) && !EndsWith(q, STUB)
    ensures NoneStarts(q, PLACEHOLDER + w, PLACEHOLDER)
  {
    var s := q + (PLACEHOLDER + w);
    PlaceholderOverlap();
    forall k | 0 <= k < |q| ensures !At(s, PLACEHOLDER, k) {
      if At(s, PLACEHOLDER, k) {
        OverlapInPiece(q, PLACEHOLDER, STUB, w, k);
      }
    }
  }

  /** An occurrence that starts inside a piece can only begin with a stub that ends the piece. */
  lemma OverlapInPiece(q: string, p: string, stub: string, w: string, k: nat)
    requires OverlapsByStub(p, stub) && !Contains(q, p) && k < |q| && At(q + (p + w), p, k)
    ensures k == |q| - |stub| && EndsWith(q, stub)
  {
    Overlap(q, p, w, k);
  }

  /** After a stub the last replacement begins too early, and its result differs where the stub began. */
  lemma StubIsMisread(q: string, w: string, a: string, more: string)
    requires !Contains(q, PLACEHOLDER) && EndsWith(q, STUB) && IsForeign(a)
    ensures Replace(q + (PLACEHOLDER + w), PLACEHOLDER, a) != q + a + more
  {
    var h := q[..|q| - |STUB|];
    var v := PLACEHOLDER[1..] + w;
    assert q == h + STUB;
    assert PLACEHOLDER == STUB + PLACEHOLDER[..1];
    Misread(h, STUB, PLACEHOLDER, w);
    PlaceholderOverlap();
    forall k | 0 <= k < |h| ensures !At(h + (PLACEHOLDER + v), PLACEHOLDER, k) {
      if At(h + (PLACEHOLDER + v), PLACEHOLDER, k) {
        OverlapInPiece(q, PLACEHOLDER, STUB, w, k);
      }
    }
    ReplaceSkips(h, PLACEHOLDER + v, PLACEHOLDER, a);
    ReplaceHere(PLACEHOLDER, v, a);
    DiffersAt(h, STUB, a, Replace(v, PLACEHOLDER, a), a + more);
    assert q + a + more == (h + STUB) + (a + more);
  }

  lemma DiffersAt(h: string, stub: string, a: string, x: string, y: string)
    requires stub != "" && a != "" && stub[0] != a[0]
    ensures h + (a + x) != (h + stub) + y
  {
    assert (h + (a + x))[|h|] == a[0] && ((h + stub) + y)[|h|] == stub[0];
  }

  // ---------- the whole closure ----------

  /** Text between the occurrences of a pattern, put together again around something else. */
  function Exchanged(s: string, p: string, r: string): string
    requires p != ""
  {
    Join(Split(s, p), r)
  }

  /** An application name without "RustDesk" takes its place everywhere. */
  lemma OtherNamesReplaceAll(s: string, a: string)
    requires !Contains(a, RUSTDESK)
    ensures Substituted(s, a) == Exchanged(s, RUSTDESK, a)
  {
    ReplaceIsJoinSplit(s, RUSTDESK, a);
  }

  /** What becomes of every text, for every value, name and kind of build. */
  lemma TranslatedIs(s: string, value: Option<string>, isRustDesk: bool, exempt: bool, a: string)
    ensures var filled := if value.Some? then Exchanged(s, "{}", value.value) else s;
            var t := Translated(s, value, isRustDesk, exempt, a);
            && (isRustDesk || exempt ==> t == filled)
            && (!isRustDesk && !exempt && !Contains(a, RUSTDESK) ==> t == Exchanged(filled, RUSTDESK, a))
            && (!isRustDesk && !exempt && Contains(a, RUSTDESK) && Contains(filled, PLACEHOLDER) ==> t == filled)
            && (!isRustDesk && !exempt && IsBrandedName(a) && !Contains(filled, PLACEHOLDER) ==>
                  a != "" && (NoStub(Split(filled, a)) <==> t == Intended(filled, a)))
  {
    hide Replace, Join, Split, NoStub, Intended, Chain, Contains;
    var filled := if value.Some? then Exchanged(s, "{}", value.value) else s;
    if value.Some? {
      ReplaceIsJoinSplit(s, "{}", value.value);
    }
    if !Contains(a, RUSTDESK) {
      OtherNamesReplaceAll(filled, a);
      if !Contains(filled, RUSTDESK) {
        UncutTextStays(filled, RUSTDESK, a);
      }
    } else if IsBrandedName(a) && !Contains(filled, PLACEHOLDER) {
      ChainIsIntendedIff(filled, a);
      if !Contains(filled, RUSTDESK) {
        NameNotInside(filled, a);
        UncutTextStays(filled, a, a);
        UncutTextStays(filled, RUSTDESK, a);
        OnePiece(filled, a);
        assert NoStub([filled]) by { SingleHasNoStub(filled); }
      }
    }
  }

  lemma UncutTextStays(s: string, p: string, r: string)
    requires p != "" && !Contains(s, p)
    ensures Exchanged(s, p, r) == s && Replace(s, p, r) == s
  {
    ReplaceNothing(s, p, r);
    ReplaceIsJoinSplit(s, p, r);
  }

  lemma NameNotInside(s: string, a: string)
    requires !Contains(s, RUSTDESK) && Contains(a, RUSTDESK)
    ensures !Contains(s, a)
  {
    if Contains(s, a) {
      ContainsTrans(s, a, RUSTDESK);
    }
  }

  lemma {:induction false} OnePiece(s: string, a: string)
    requires a != "" && !Contains(s, a) && !Contains(s, RUSTDESK)
    ensures Split(s, a) == [s] && Intended(s, a) == s
  {
    SplitNothing(s, a);
    ReplaceNothing(s, RUSTDESK, a);
    assert [s][1..] == [];
  }

  lemma SingleHasNoStub(s: string)
    ensures NoStub([s])
  {
  }

  lemma {:induction false} SplitNothing(s: string, p: string)
    requires p != "" && !Contains(s, p)
    ensures Split(s, p) == [s]
  {
    if s != "" {
      SplitNothing(s[1..], p);
      assert s[..1] + s[1..] == s;
    }
  }
}
