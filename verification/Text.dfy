/** Searching, splitting and replacing in strings, leftmost and non-overlapping as Rust's `str` does. */
module Text {
  import opened Prelude
  import opened Lists

  predicate Contains(s: string, p: string) {
    p <= s || (s != "" && Contains(s[1..], p))
  }

  /** Position of the leftmost occurrence. */
  function Find(s: string, p: string): (i: Option<nat>)
    ensures i.Some? ==> i.value + |p| <= |s|
  {
    if p <= s then Some(0)
    else if s == "" then None
    else match Find(s[1..], p)
      case None => None
      case Some(i) => Some(i + 1)
  }

  predicate EndsWith(s: string, p: string) {
    |p| <= |s| && s[|s| - |p|..] == p
  }

  function Split(s: string, p: string): (parts: seq<string>)
    requires p != ""
    ensures |parts| >= 1
    decreases |s|
  {
    if s == "" then [""]
    else if p <= s then [""] + Split(s[|p|..], p)
    else Prepend(s[..1], Split(s[1..], p))
  }

  function Prepend(u: string, parts: seq<string>): (r: seq<string>)
    requires |parts| >= 1
    ensures |r| == |parts|
  {
    [u + parts[0]] + parts[1..]
  }

  function Join(parts: seq<string>, sep: string): string
    requires |parts| >= 1
  {
    if |parts| == 1 then parts[0] else parts[0] + sep + Join(parts[1..], sep)
  }

  function Replace(s: string, p: string, r: string): string
    requires p != ""
    decreases |s|
  {
    if s == "" then ""
    else if p <= s then r + Replace(s[|p|..], p, r)
    else s[..1] + Replace(s[1..], p, r)
  }

  function ToLowerChar(c: char): char {
    if 'A' <= c <= 'Z' then (c as int + 32) as char else c
  }

  /** ASCII lower-casing; other characters are left alone. */
  function ToLower(s: string): (r: string)
    ensures |r| == |s| && forall i :: 0 <= i < |s| ==> r[i] == ToLowerChar(s[i])
  {
    if s == "" then "" else [ToLowerChar(s[0])] + ToLower(s[1..])
  }

  function Reverse(s: string): (r: string)
    ensures |r| == |s| && forall i :: 0 <= i < |s| ==> r[i] == s[|s| - 1 - i]
  {
    if s == "" then "" else Reverse(s[1..]) + [s[0]]
  }

  function FirstIndex(s: string, c: char): (i: nat)
    requires c in s
    ensures i < |s| && s[i] == c && c !in s[..i]
  {
    if s[0] == c then 0 else FirstIndex(s[1..], c) + 1
  }

  // ---------- occurrences ----------

  /** `p` occurs in `s` at position `i`. */
  predicate At(s: string, p: string, i: int) {
    0 <= i <= |s| && p <= s[i..]
  }

  lemma AtChar(s: string, p: string, i: int, k: nat)
    requires At(s, p, i) && k < |p|
    ensures i + k < |s| && s[i + k] == p[k]
  {
    assert s[i..][k] == p[k];
  }

  /** One different character rules an occurrence out. */
  lemma NotAt(s: string, p: string, i: nat, k: nat)
    requires k < |p| && i + k < |s| && s[i + k] != p[k]
    ensures !At(s, p, i)
  {
    assert s[i..][k] != p[k];
  }

  lemma AtLeft(u: string, v: string, p: string, i: nat)
    requires i + |p| <= |u|
    ensures At(u + v, p, i) <==> At(u, p, i)
  {
    assert (u + v)[i..][..|p|] == u[i..][..|p|];
  }

  lemma ContainsAt(s: string, p: string, i: int)
    requires At(s, p, i)
    ensures Contains(s, p)
  {
    if i > 0 {
      assert s[1..][i - 1..] == s[i..];
      ContainsAt(s[1..], p, i - 1);
    }
  }

  lemma WhereContained(s: string, p: string) returns (i: nat)
    requires Contains(s, p)
    ensures At(s, p, i)
  {
    if p <= s {
      i := 0;
    } else {
      i := WhereContained(s[1..], p);
      i := i + 1;
      assert s[1..][i - 1..] == s[i..];
    }
  }

  /** No occurrence of `p` in `u + v` starts inside `u`. */
  ghost predicate NoneStarts(u: string, v: string, p: string) {
    forall k :: 0 <= k < |u| ==> !At(u + v, p, k)
  }

  /** No occurrence of `p` lies across the seam of `u` and `v`. */
  ghost predicate NoStraddle(u: string, v: string, p: string) {
    forall k :: 0 <= k < |u| < k + |p| ==> !At(u + v, p, k)
  }

  lemma NoneStartsTail(u: string, v: string, p: string)
    requires u != "" && NoneStarts(u, v, p)
    ensures NoneStarts(u[1..], v, p) && !(p <= u + v)
  {
    assert !At(u + v, p, 0);
    forall k | 0 <= k < |u| - 1 ensures !At(u[1..] + v, p, k) {
      assert (u[1..] + v)[k..] == (u + v)[k + 1..];
      assert !At(u + v, p, k + 1);
    }
  }

  lemma NoStraddleTail(u: string, v: string, p: string, n: nat)
    requires n <= |u| && NoStraddle(u, v, p)
    ensures NoStraddle(u[n..], v, p)
  {
    forall k | 0 <= k < |u[n..]| < k + |p| ensures !At(u[n..] + v, p, k) {
      assert (u[n..] + v)[k..] == (u + v)[k + n..];
      assert !At(u + v, p, k + n);
    }
  }

  lemma {:induction false} SplitSkips(u: string, v: string, p: string)
    requires p != "" && NoneStarts(u, v, p)
    ensures Split(u + v, p) == Prepend(u, Split(v, p))
  {
    if u == "" {
      assert u + v == v && "" + Split(v, p)[0] == Split(v, p)[0];
      assert Prepend(u, Split(v, p)) == Split(v, p);
    } else {
      NoneStartsTail(u, v, p);
      SplitSkips(u[1..], v, p);
      assert (u + v)[1..] == u[1..] + v && (u + v)[..1] == u[..1];
      assert u[..1] + (u[1..] + Split(v, p)[0]) == u + Split(v, p)[0];
    }
  }

  lemma {:induction false} ReplaceSkips(u: string, v: string, p: string, r: string)
    requires p != "" && NoneStarts(u, v, p)
    ensures Replace(u + v, p, r) == u + Replace(v, p, r)
  {
    if u == "" {
      assert u + v == v;
    } else {
      NoneStartsTail(u, v, p);
      ReplaceSkips(u[1..], v, p, r);
      assert (u + v)[1..] == u[1..] + v && (u + v)[..1] == u[..1];
      assert u[..1] + (u[1..] + Replace(v, p, r)) == u + Replace(v, p, r);
    }
  }

  lemma ReplaceHere(p: string, v: string, r: string)
    requires p != ""
    ensures Replace(p + v, p, r) == r + Replace(v, p, r)
  {
    assert (p + v)[|p|..] == v;
  }

  /** A part followed by the separator, where the separator is first found, is split off. */
  lemma SplitFirst(u: string, p: string, v: string)
    requires p != "" && NoneStarts(u, p + v, p)
    ensures Split(u + (p + v), p) == [u] + Split(v, p)
  {
    SplitSkips(u, p + v, p);
    assert (p + v)[|p|..] == v;
    assert Split(p + v, p) == [""] + Split(v, p);
    assert u + "" == u;
  }

  lemma {:induction false} ReplaceConcat(u: string, v: string, p: string, r: string)
    requires p != "" && NoStraddle(u, v, p)
    ensures Replace(u + v, p, r) == Replace(u, p, r) + Replace(v, p, r)
    decreases |u|
  {
    if u == "" {
      assert u + v == v;
    } else {
      assert p <= u + v ==> At(u + v, p, 0);
      assert p <= u + v <==> p <= u;
      var (n, out) := if p <= u then (|p|, r) else (1, u[..1]);
      NoStraddleTail(u, v, p, n);
      ReplaceConcat(u[n..], v, p, r);
      assert (u + v)[n..] == u[n..] + v && (u + v)[..1] == u[..1];
      Assoc(out, Replace(u[n..], p, r), Replace(v, p, r));
    }
  }

  lemma {:induction false} ReplaceIsJoinSplit(s: string, p: string, r: string)
    requires p != ""
    ensures Replace(s, p, r) == Join(Split(s, p), r)
    decreases |s|
  {
    if s == "" {
    } else if p <= s {
      ReplaceIsJoinSplit(s[|p|..], p, r);
      assert Split(s, p)[1..] == Split(s[|p|..], p);
    } else {
      ReplaceIsJoinSplit(s[1..], p, r);
      JoinPrepend(s[..1], Split(s[1..], p), r);
    }
  }

  lemma JoinPrepend(u: string, parts: seq<string>, sep: string)
    requires |parts| >= 1
    ensures Join(Prepend(u, parts), sep) == u + Join(parts, sep)
  {
    if |parts| > 1 {
      assert Prepend(u, parts)[1..] == parts[1..];
      assert u + parts[0] + sep + Join(parts[1..], sep) == u + (parts[0] + sep + Join(parts[1..], sep));
    }
  }

  /** An occurrence that starts inside `q`, which has none, overlaps the separator behind `q`. */
  lemma Overlap(q: string, p: string, w: string, k: nat)
    requires p != "" && !Contains(q, p) && k < |q| && At(q + (p + w), p, k)
    ensures |q| < k + |p| && p[|q| - k] == p[0] && q[k..] == p[..|q| - k]
  {
    var s := q + (p + w);
    if k + |p| <= |q| {
      AtLeft(q, p + w, p, k);
      ContainsAt(q, p, k);
    } else {
      AtChar(s, p, k, |q| - k);
      assert s[k..][..|q| - k] == q[k..];
    }
  }

  /** A separator whose last character is its first one, behind all of it but that last character. */
  lemma Misread(h: string, stub: string, p: string, w: string)
    requires p != "" && p == stub + p[..1]
    ensures (h + stub) + (p + w) == h + (p + (p[1..] + w))
  {
    assert p + w == p[..1] + (p[1..] + w);
    Assoc(h + stub, p[..1], p[1..] + w);
    assert (h + stub) + p[..1] == h + p;
    Assoc(h, p, p[1..] + w);
  }

  // ---------- stretches of a text ----------

  lemma ContainsTrans(s: string, x: string, p: string)
    requires Contains(s, x) && Contains(x, p)
    ensures Contains(s, p)
  {
    var i := WhereContained(s, x);
    var j := WhereContained(x, p);
    assert x[j..] <= s[i + j..];
    ContainsAt(s, p, i + j);
  }

  lemma ContainsChar(s: string, x: string, c: char)
    requires Contains(s, x) && c in x
    ensures c in s
  {
    var i := WhereContained(s, x);
    var j :| 0 <= j < |x| && x[j] == c;
    assert s[i..][j] == c;
  }

  /** Every part of a split is a stretch of the text. */
  lemma {:induction false} SplitPartContained(s: string, p: string, k: nat)
    requires p != "" && k < |Split(s, p)|
    ensures Contains(s, Split(s, p)[k])
    decreases |s|
  {
    SplitHead(s, p);
    if k == 0 {
    } else if p <= s {
      SplitPartContained(s[|p|..], p, k - 1);
      ContainsTail(s, |p|, Split(s, p)[k]);
    } else {
      SplitPartContained(s[1..], p, k);
      ContainsTail(s, 1, Split(s, p)[k]);
    }
  }

  lemma {:induction false} SplitHead(s: string, p: string)
    requires p != ""
    ensures Split(s, p)[0] <= s
    decreases |s|
  {
    if s != "" && !(p <= s) {
      SplitHead(s[1..], p);
    }
  }

  lemma ContainsTail(s: string, n: nat, x: string)
    requires n <= |s| && Contains(s[n..], x)
    ensures Contains(s, x)
  {
    var i := WhereContained(s[n..], x);
    assert s[n..][i..] == s[n + i..];
    ContainsAt(s, x, n + i);
  }
}
