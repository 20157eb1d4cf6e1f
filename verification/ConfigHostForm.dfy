/**
 Reading the `host=` form back (src/custom_server.rs:47-87).

 The position of `host=` is taken from the lowered name and used in the name itself, as a byte index. Where lowering
 changes the byte length of what comes before, the slice starts too early or too late.
 */
module ConfigHostForm {
  import opened Prelude
  import opened Text
  import opened ConfigName
  import opened ConfigLowering
  import opened ConfigRoundTrip
  import opened Lists
  import Utf8

  predicate IsCommaFree(c: CustomServer) {
    forall f :: 0 <= f < 4 ==> ',' !in Field(c, f)
  }

  /** The fields in the order of the form. */
  function Field(c: CustomServer, f: nat): string {
    if f == 0 then c.host else if f == 1 then c.key else if f == 2 then c.api else if f == 3 then c.relay else ""
  }

  function Label(f: nat): string {
    if f == 0 then "host=" else if f == 1 then "key=" else if f == 2 then "api=" else if f == 3 then "relay=" else ""
  }

  function Element(c: CustomServer, f: nat): string {
    Label(f) + Field(c, f)
  }

  /** A final comma keeps whatever follows out of the last field. */
  function Elements(c: CustomServer): (els: seq<string>)
    ensures |els| == 5 && forall f :: 0 <= f < 5 ==> els[f] == Element(c, f)
  {
    [Element(c, 0), Element(c, 1), Element(c, 2), Element(c, 3), Element(c, 4)]
  }

  function List(c: CustomServer): string {
    Join(Elements(c), ",")
  }

  function HostForm(prefix: string, c: CustomServer): string {
    prefix + List(c)
  }

  lemma SameFields(c: CustomServer, d: CustomServer)
    ensures c == d <==> forall f :: 0 <= f < 4 ==> Field(c, f) == Field(d, f)
  {
    assert Field(c, 0) == c.host && Field(c, 1) == c.key && Field(c, 2) == c.api && Field(c, 3) == c.relay;
    assert Field(d, 0) == d.host && Field(d, 1) == d.key && Field(d, 2) == d.api && Field(d, 3) == d.relay;
  }

  lemma FieldRead(lower: Lowering, els: seq<string>, f: nat)
    requires f < 4
    ensures Field(FromElements(lower, els), f) == LastField(lower, els, Label(f))
  {
  }

  // ---------- splitting at commas ----------

  lemma NoCommaStart(u: string, v: string)
    requires ',' !in u
    ensures NoneStarts(u, v, ",")
  {
    forall k | 0 <= k < |u| ensures !At(u + v, ",", k) {
      NotAt(u + v, ",", k, 0);
    }
  }

  lemma {:induction false} SplitJoined(parts: seq<string>)
    requires |parts| >= 1 && forall i :: 0 <= i < |parts| ==> ',' !in parts[i]
    ensures Split(Join(parts, ","), ",") == parts
  {
    if |parts| == 1 {
      NoCommaStart(parts[0], "");
      SplitSkips(parts[0], "", ",");
      assert parts[0] + "" == parts[0];
    } else {
      var rest := Join(parts[1..], ",");
      SplitJoined(parts[1..]);
      NoCommaStart(parts[0], "," + rest);
      SplitFirst(parts[0], ",", rest);
      Assoc(parts[0], ",", rest);
      assert parts == [parts[0]] + parts[1..];
    }
  }

  /** Where the first `n` parts end in the joined text. */
  function Offset(parts: seq<string>, n: nat): nat
    requires n <= |parts|
  {
    if n == 0 then 0 else |parts[0]| + 1 + Offset(parts[1..], n - 1)
  }

  /** A later start cuts into one part and keeps those behind it. */
  lemma {:induction false} CutJoined(parts: seq<string>, o: nat) returns (m: nat, k: nat)
    requires |parts| >= 1 && (forall i :: 0 <= i < |parts| ==> ',' !in parts[i]) && o <= |Join(parts, ",")|
    ensures m < |parts| && k <= |parts[m]| && o == Offset(parts, m) + k
    ensures Split(Join(parts, ",")[o..], ",") == [parts[m][k..]] + parts[m + 1..]
  {
    var head := parts[0];
    if o <= |head| {
      m, k := 0, o;
      var cut := [head[o..]] + parts[1..];
      SplitJoined(cut);
      assert cut[1..] == parts[1..];
      assert Join(parts, ",")[o..] == Join(cut, ",");
    } else {
      m, k := CutJoined(parts[1..], o - |head| - 1);
      assert Join(parts, ",")[o..] == Join(parts[1..], ",")[o - |head| - 1..];
      m := m + 1;
    }
  }

  lemma {:induction false} OffsetGrows(parts: seq<string>, m: nat, n: nat)
    requires m < n <= |parts|
    ensures Offset(parts, m) + |parts[m]| < Offset(parts, n)
  {
    if m > 0 {
      OffsetGrows(parts[1..], m - 1, n - 1);
    } else if n > 1 {
      OffsetGrows(parts[1..], 0, n - 1);
    }
  }

  // ---------- reading elements ----------

  lemma LabelShape(f: nat)
    requires f < 4
    ensures Utf8.IsAscii(Label(f)) && ToLower(Label(f)) == Label(f) && |Label(f)| >= 4
    ensures Label(f)[|Label(f)| - 1] == '=' && '=' !in Label(f)[..|Label(f)| - 1]
  {
    hide ToLower;
    var l := Label(f);
    assert l in ["host=", "key=", "api=", "relay="];
    assert forall i :: 0 <= i < |l| ==> ToLower(l)[i] == l[i];
  }

  lemma LabelsDiffer(f: nat, g: nat)
    requires f < 4 && g < 4 && f != g
    ensures Label(f)[0] != Label(g)[0]
  {
  }

  lemma LowerElement(lower: Lowering, c: CustomServer, f: nat)
    requires IsLowering(lower) && f < 4
    ensures Lower(lower, Element(c, f)) == Label(f) + Lower(lower, Field(c, f))
  {
    hide Label, Field;
    LabelShape(f);
    LowerAscii(lower, Label(f));
    LowerConcat(lower, Label(f), Field(c, f));
  }

  /** An element is taken for its own field only. */
  lemma ElementMatches(lower: Lowering, c: CustomServer, f: nat, g: nat)
    requires IsLowering(lower) && f < 4 && g <= 4
    ensures Label(f) <= Lower(lower, Element(c, g)) <==> f == g
  {
    hide Label, Lower, Field, IsLowering;
    LabelShape(f);
    if g < 4 {
      LowerElement(lower, c, g);
      LabelShape(g);
      if f != g {
        LabelsDiffer(f, g);
      }
    } else {
      EmptyElement(lower, c);
    }
  }

  lemma EmptyElement(lower: Lowering, c: CustomServer)
    ensures Element(c, 4) == "" && Lower(lower, Element(c, 4)) == ""
  {
  }

  lemma {:induction false} FieldFound(lower: Lowering, els: seq<string>, i: nat, prefix: string)
    requires i < |els| && prefix <= Lower(lower, els[i])
    requires forall j :: i < j < |els| ==> !(prefix <= Lower(lower, els[j]))
    ensures LastField(lower, els, prefix) == Skip(els[i], |prefix|)
    decreases |els|
  {
    hide Lower, Skip;
    if i < |els| - 1 {
      FieldFound(lower, els[..|els| - 1], i, prefix);
    }
  }

  lemma {:induction false} FieldMissing(lower: Lowering, els: seq<string>, prefix: string)
    requires forall j :: 0 <= j < |els| ==> !(prefix <= Lower(lower, els[j]))
    ensures LastField(lower, els, prefix) == ""
  {
    hide Lower, Skip;
    if els != [] {
      FieldMissing(lower, els[..|els| - 1], prefix);
    }
  }

  /** Elements in front, and then the form's own from `m` on. */
  ghost predicate EndsInElements(els: seq<string>, front: seq<string>, c: CustomServer, m: nat) {
    m <= 5 && els == front + Elements(c)[m..]
  }

  /** A field whose element is there is read; another is read from the front. */
  lemma FieldsOf(lower: Lowering, els: seq<string>, front: seq<string>, c: CustomServer, m: nat, f: nat)
    requires IsLowering(lower) && EndsInElements(els, front, c, m) && f < 4
    ensures LastField(lower, els, Label(f)) == if f >= m then Field(c, f) else LastField(lower, front, Label(f))
  {
    hide Label, Lower, Field, IsLowering, LastField, Element;
    forall j | |front| <= j < |els| ensures Label(f) <= Lower(lower, els[j]) <==> j == |front| + (f - m) {
      var g := m + (j - |front|);
      assert els[j] == Elements(c)[g] == Element(c, g);
      ElementMatches(lower, c, f, g);
    }
    if f >= m {
      var i := |front| + (f - m);
      assert els[i] == Elements(c)[f];
      FieldFound(lower, els, i, Label(f));
      ElementValue(c, f);
    } else {
      FrontOnly(lower, els, front, Label(f));
    }
  }

  lemma ElementValue(c: CustomServer, f: nat)
    ensures Skip(Element(c, f), |Label(f)|) == Field(c, f)
  {
    hide Label, Field;
  }

  lemma {:induction false} FrontOnly(lower: Lowering, els: seq<string>, front: seq<string>, prefix: string)
    requires front <= els && forall j :: |front| <= j < |els| ==> !(prefix <= Lower(lower, els[j]))
    ensures LastField(lower, els, prefix) == LastField(lower, front, prefix)
    decreases |els|
  {
    hide Lower, Skip;
    if |els| > |front| {
      FrontOnly(lower, els[..|els| - 1], front, prefix);
    } else {
      assert els == front;
    }
  }

  // ---------- a slice that starts late ----------

  /** The first field that is not empty; 4 when all are. */
  function FirstFull(c: CustomServer): (j: nat)
    ensures j <= 4 && (j < 4 ==> Field(c, j) != "") && forall f :: 0 <= f < j ==> Field(c, f) == ""
  {
    if c.host != "" then 0 else if c.key != "" then 1 else if c.api != "" then 2 else if c.relay != "" then 3 else 4
  }

  /** Length of the leading elements whose fields are empty, with their commas. */
  function EmptyHead(c: CustomServer): nat {
    if c.host != "" then 0 else if c.key != "" then 6 else if c.api != "" then 11 else if c.relay != "" then 16 else 23
  }

  lemma EmptyHeadIsOffset(c: CustomServer)
    ensures EmptyHead(c) == Offset(Elements(c), FirstFull(c))
    ensures EmptyHead(c) <= |List(c)| && Utf8.IsAscii(List(c)[..EmptyHead(c)])
  {
    var els, j := Elements(c), FirstFull(c);
    OffsetsOfEmpty(c);
    forall f | 0 <= f < j ensures Utf8.IsAscii(els[f]) {
      EmptyElementIsLabel(c, f);
    }
    hide Offset, Element, EmptyHead, FirstFull, Join;
    ListHead(els, j);
  }

  lemma EmptyElementIsLabel(c: CustomServer, f: nat)
    requires f < 4 && Field(c, f) == ""
    ensures Element(c, f) == Label(f) && Utf8.IsAscii(Element(c, f))
  {
    hide Field, Label;
    LabelShape(f);
  }

  lemma OffsetsOfEmpty(c: CustomServer)
    ensures EmptyHead(c) == Offset(Elements(c), FirstFull(c))
  {
    var els, j := Elements(c), FirstFull(c);
    assert Offset(els, 0) == 0;
    hide Offset, Element;
    if j > 0 { OffsetNext(els, 0); EmptyElementIsLabel(c, 0); }
    if j > 1 { OffsetNext(els, 1); EmptyElementIsLabel(c, 1); }
    if j > 2 { OffsetNext(els, 2); EmptyElementIsLabel(c, 2); }
    if j > 3 { OffsetNext(els, 3); EmptyElementIsLabel(c, 3); }
  }

  lemma {:induction false} OffsetNext(parts: seq<string>, n: nat)
    requires n < |parts|
    ensures Offset(parts, n + 1) == Offset(parts, n) + |parts[n]| + 1
  {
    if n > 0 {
      OffsetNext(parts[1..], n - 1);
    }
  }

  /** Leading elements with empty fields are labels. */
  lemma {:induction false} ListHead(els: seq<string>, n: nat)
    requires n < |els| && forall f :: 0 <= f < n ==> Utf8.IsAscii(els[f])
    ensures Offset(els, n) <= |Join(els, ",")| && Utf8.IsAscii(Join(els, ",")[..Offset(els, n)])
  {
    if n > 0 {
      ListHead(els[1..], n - 1);
      var o := Offset(els[1..], n - 1);
      assert Join(els, ",")[..Offset(els, n)] == els[0] + "," + Join(els[1..], ",")[..o];
    }
  }

  lemma LabelPart(m: nat, k: nat, f: nat)
    requires m < 4 && f < 4 && 0 < k <= |Label(m)|
    ensures !(Label(f) <= Label(m)[k..])
  {
    var l, x := Label(m)[k..], Label(f);
    if |x| <= |l| {
      assert l[0] == Label(m)[k] && l[1] == Label(m)[k + 1] && l[3] == Label(m)[k + 3];
    }
  }

  /** What is left of a label is no label. */
  lemma PartialLabel(lower: Lowering, m: nat, k: nat, f: nat)
    requires IsLowering(lower) && m < 4 && f < 4 && 0 < k <= |Label(m)|
    ensures !(Label(f) <= Lower(lower, Label(m)[k..]))
  {
    hide Label, Lower, ToLower, IsLowering;
    var l := Label(m)[k..];
    LabelShape(m);
    LowerAscii(lower, l);
    LowerEnd(Label(m), k);
    LabelPart(m, k, f);
  }

  lemma LowerEnd(s: string, k: nat)
    requires ToLower(s) == s && k <= |s|
    ensures ToLower(s[k..]) == s[k..]
  {
    hide ToLower;
    forall i | 0 <= i < |s| - k ensures ToLower(s[k..])[i] == s[k..][i] {
      assert ToLower(s)[i + k] == s[i + k];
    }
  }

  /** From an element that has lost its beginning, its own field is never read in full. */
  lemma PartialElement(lower: Lowering, c: CustomServer, m: nat, k: nat)
    requires m < 4 && 0 < k <= |Element(c, m)| && Field(c, m) != ""
    ensures LastField(lower, [Element(c, m)[k..]], Label(m)) != Field(c, m)
  {
    hide Lower, Label, Field;
    assert [Element(c, m)[k..]][..0] == [];
  }

  lemma {:induction false} OffsetMonotone(parts: seq<string>, m: nat, n: nat)
    requires m <= |parts| && n <= |parts|
    ensures m < n ==> Offset(parts, m) < Offset(parts, n)
    ensures n < m ==> Offset(parts, n) < Offset(parts, m)
  {
    if m < n {
      OffsetGrows(parts, m, n);
    } else if n < m {
      OffsetGrows(parts, n, m);
    }
  }

  /** A slice at the start of an element reads back exactly if only empty fields lie before it. */
  lemma WholeElements(lower: Lowering, c: CustomServer, m: nat)
    requires IsLowering(lower) && m <= 4
    ensures FromElements(lower, Elements(c)[m..]) == c <==> m <= FirstFull(c)
  {
    hide Label, Field, LastField, FromElements;
    var els := Elements(c)[m..];
    assert EndsInElements(els, [], c, m);
    forall f | 0 <= f < 4 ensures Field(FromElements(lower, els), f) == if f >= m then Field(c, f) else "" {
      FieldRead(lower, els, f);
      FieldsOf(lower, els, [], c, m, f);
      NothingRead(lower, Label(f));
    }
    SameFields(FromElements(lower, els), c);
  }

  lemma NothingRead(lower: Lowering, prefix: string)
    ensures LastField(lower, [], prefix) == ""
  {
  }

  /** A slice inside an element reads back exactly if that element's field and those before it are empty. */
  lemma PartOfElements(lower: Lowering, c: CustomServer, m: nat, k: nat)
    requires IsLowering(lower) && m < 4 && 0 < k <= |Element(c, m)|
    ensures FromElements(lower, [Element(c, m)[k..]] + Elements(c)[m + 1..]) == c <==> m < FirstFull(c)
  {
    hide Label, Field, LastField, FromElements, Element;
    var front := [Element(c, m)[k..]];
    var els := front + Elements(c)[m + 1..];
    assert EndsInElements(els, front, c, m + 1);
    forall f | 0 <= f < 4
      ensures Field(FromElements(lower, els), f) == if f > m then Field(c, f) else LastField(lower, front, Label(f))
    {
      FieldRead(lower, els, f);
      FieldsOf(lower, els, front, c, m + 1, f);
    }
    SameFields(FromElements(lower, els), c);
    if Field(c, m) != "" {
      PartialElement(lower, c, m, k);
    } else {
      forall f | 0 <= f < 4 ensures LastField(lower, front, Label(f)) == "" {
        EmptyPartial(lower, c, m, k, f);
      }
    }
  }

  lemma EmptyPartial(lower: Lowering, c: CustomServer, m: nat, k: nat, f: nat)
    requires IsLowering(lower) && m < 4 && f < 4 && 0 < k <= |Element(c, m)| && Field(c, m) == ""
    ensures LastField(lower, [Element(c, m)[k..]], Label(f)) == ""
  {
    hide Label, Field, LastField, Lower;
    assert Element(c, m) == Label(m);
    PartialLabel(lower, m, k, f);
    FieldMissing(lower, [Element(c, m)[k..]], Label(f));
  }

  /** The list cut at character `o` reads back exactly if only empty elements are touched. */
  lemma LateRead(lower: Lowering, c: CustomServer, o: nat)
    requires IsLowering(lower) && IsCommaFree(c) && o <= |List(c)|
    ensures FromElements(lower, Split(List(c)[o..], ",")) == c <==> o <= EmptyHead(c)
  {
    hide Label, Field, LastField, FromElements, Split, IsLowering, EmptyHead, FirstFull, Join, Offset;
    var els, j := Elements(c), FirstFull(c);
    EmptyHeadIsOffset(c);
    forall i | 0 <= i < 5 ensures ',' !in els[i] {
      ElementCommaFree(c, i);
    }
    var m, k := CutJoined(els, o);
    OffsetMonotone(els, m, j);
    if k == 0 {
      assert [els[m][0..]] + els[m + 1..] == els[m..];
      WholeElements(lower, c, m);
    } else {
      LastElementEmpty(c);
      PartOfElements(lower, c, m, k);
      if m < j {
        OffsetGrows(els, m, j);
      }
    }
  }

  lemma LastElementEmpty(c: CustomServer)
    ensures Element(c, 4) == ""
  {
  }

  lemma ElementCommaFree(c: CustomServer, f: nat)
    requires IsCommaFree(c) && f <= 4
    ensures ',' !in Element(c, f)
  {
    hide Field;
    assert ',' !in Label(f);
    if f == 4 {
      LastElementEmpty(c);
    } else {
      assert ',' !in Field(c, f);
    }
  }

  // ---------- a slice that starts early ----------

  lemma SplitStep(u: string)
    requires u != ""
    ensures Split(u, ",") == if u[0] == ',' then [""] + Split(u[1..], ",") else Prepend(u[..1], Split(u[1..], ","))
  {
    assert "," <= u <==> u[0] == ',';
  }

  lemma {:induction false} SplitConcat(u: string, v: string)
    ensures var a, b := Split(u, ","), Split(v, ",");
            Split(u + v, ",") == a[..|a| - 1] + ([a[|a| - 1] + b[0]] + b[1..])
  {
    var b := Split(v, ",");
    if u == "" {
      assert u + v == v && "" + b[0] == b[0];
      assert Split(u, ",") == [""];
      assert b == [b[0]] + b[1..];
    } else {
      SplitConcat(u[1..], v);
      assert (u + v)[1..] == u[1..] + v;
      var a := Split(u[1..], ",");
      SplitStep(u);
      SplitStep(u + v);
      hide Split;
      if u[0] == ',' {
        assert ([""] + a)[..|a|] == [""] + a[..|a| - 1];
        Assoc([""], a[..|a| - 1], [a[|a| - 1] + b[0]] + b[1..]);
      } else {
        assert (u + v)[..1] == u[..1];
        PrependFront(u[..1], a, b);
      }
    }
  }

  lemma PrependFront(x: string, a: seq<string>, b: seq<string>)
    requires |a| >= 1 && |b| >= 1
    ensures var p := Prepend(x, a);
            Prepend(x, a[..|a| - 1] + ([a[|a| - 1] + b[0]] + b[1..])) == p[..|a| - 1] + ([p[|a| - 1] + b[0]] + b[1..])
  {
    var p := Prepend(x, a);
    if |a| == 1 {
      Assoc(x, a[0], b[0]);
    } else {
      assert p[|a| - 1] == a[|a| - 1];
    }
  }

  lemma {:induction false} LastPart(t: string)
    ensures var a := Split(t, ","); a[|a| - 1] == "" <==> t == "" || t[|t| - 1] == ','
  {
    if t != "" {
      LastPart(t[1..]);
      var a := Split(t[1..], ",");
      if t[0] == ',' {
        assert "," <= t;
        assert Split(t, ",") == [""] + a;
      } else {
        assert !("," <= t);
        if t[1..] == "" {
          assert a == [""];
        }
      }
    }
  }

  lemma NoEquals(lower: Lowering, p: string)
    requires IsLowering(lower) && '=' !in p
    ensures '=' !in Lower(lower, p)
  {
    if '=' in Lower(lower, p) {
      LowerHas(lower, p, '=');
      var i :| 0 <= i < |p| && ToLower(p)[i] == '=';
      LowerKeeps(p, i);
    }
  }

  /** With anything in front that is not a host element itself, the first element is none. */
  lemma HostSpoilt(lower: Lowering, x: string, c: CustomServer)
    requires IsLowering(lower) && x != ""
    ensures "host=" <= Lower(lower, x + Element(c, 0)) <==> "host=" <= Lower(lower, x)
  {
    hide Lower, Field, IsLowering;
    LowerConcat(lower, x, Element(c, 0));
    LowerElement(lower, c, 0);
    LowerNotEmpty(lower, x);
    var low, u := Lower(lower, x + Element(c, 0)), Lower(lower, x);
    assert low == u + ("host=" + Lower(lower, Field(c, 0)));
    if |u| < 5 {
      assert low[|u|] == 'h';
      NotAt(low, "host=", 0, |u|);
      assert low[0..] == low;
    } else {
      assert low[..5] == u[..5];
    }
  }

  lemma LowerNotEmpty(lower: Lowering, x: string)
    requires IsLowering(lower) && x != ""
    ensures Lower(lower, x) != ""
  {
    assert LowersWell(lower, x[0]);
  }

  /** The last part of a text cut at commas. */
  function LastOf(t: string): string {
    var parts := Split(t, ",");
    parts[|parts| - 1]
  }

  /** The host read from a text and the list behind it is the list's own. */
  predicate HostSurvives(lower: Lowering, t: string, host: string) {
    || EndsWith(t, ",")
    || (!("host=" <= Lower(lower, LastOf(t))) && LastField(lower, Split(t, ","), "host=") == host)
  }

  /** Text in front of the list can cost the host and nothing else. */
  lemma EarlyRead(lower: Lowering, c: CustomServer, t: string)
    requires IsLowering(lower) && IsCommaFree(c) && t != ""
    ensures FromElements(lower, Split(t + List(c), ",")) == c <==> HostSurvives(lower, t, c.host)
  {
    hide Lower, Split, IsLowering, Join, LastField, FromElements, Element;
    var a, els := Split(t, ","), Elements(c);
    forall i | 0 <= i < 5 ensures ',' !in els[i] {
      ElementCommaFree(c, i);
    }
    SplitJoined(els);
    SplitConcat(t, List(c));
    LastPart(t);
    var n := |a| - 1;
    var x, read := a[n], Split(t + List(c), ",");
    if x == "" {
      assert "" + els[0] == els[0];
      EarlyFields(lower, c, read, a[..n], 0);
    } else {
      EarlyFields(lower, c, read, a[..n] + [x + els[0]], 1);
      SpoiltHost(lower, c, a[..n], x);
      assert a == a[..n] + [x];
    }
    assert EndsWith(t, ",") <==> t[|t| - 1] == ',';
  }

  lemma SpoiltHost(lower: Lowering, c: CustomServer, front: seq<string>, x: string)
    requires IsLowering(lower) && x != ""
    ensures LastField(lower, front + [x + Element(c, 0)], "host=") == c.host <==>
            !("host=" <= Lower(lower, x)) && LastField(lower, front + [x], "host=") == c.host
  {
    hide Lower, IsLowering, Element;
    HostSpoilt(lower, x, c);
    LastFieldSnoc(lower, front, x + Element(c, 0), "host=");
    LastFieldSnoc(lower, front, x, "host=");
    ElementLength(c);
    hide LastField;
  }

  lemma ElementLength(c: CustomServer)
    ensures |Element(c, 0)| == 5 + |c.host|
  {
  }

  lemma LastFieldSnoc(lower: Lowering, front: seq<string>, el: string, prefix: string)
    ensures LastField(lower, front + [el], prefix) ==
            if prefix <= Lower(lower, el) then Skip(el, |prefix|) else LastField(lower, front, prefix)
  {
    hide Lower, Skip;
    assert (front + [el])[..|front|] == front;
  }

  lemma EarlyFields(lower: Lowering, c: CustomServer, els: seq<string>, front: seq<string>, m: nat)
    requires IsLowering(lower) && m <= 1 && EndsInElements(els, front, c, m)
    ensures FromElements(lower, els) == c.(host := if m == 0 then c.host else LastField(lower, front, "host="))
  {
    hide Lower, IsLowering, LastField;
    FieldsOf(lower, els, front, c, m, 0);
    FieldsOf(lower, els, front, c, m, 1);
    FieldsOf(lower, els, front, c, m, 2);
    FieldsOf(lower, els, front, c, m, 3);
  }

  // ---------- the whole form ----------

  lemma StemKeepsComma(s: string, ext: string)
    requires s != "" && s[|s| - 1] == ',' && IsExtension(ext)
    ensures Stem(s + ext) == s
  {
    var low := ToLower(s + ext);
    ExtensionGoes(s, ext);
    assert low[|s| - 1] == ',';
    assert low[|s|..] == ToLower(ext);
    assert |ext| < 8 <= |low| ==> low[|low| - 8..][7 - |ext|] == ',';
    assert |ext| < 4 <= |low| ==> low[|low| - 4..][3 - |ext|] == ',';
  }

  lemma {:induction false} JoinEndsWithComma(parts: seq<string>)
    requires |parts| >= 2 && parts[|parts| - 1] == ""
    ensures var s := Join(parts, ","); s != "" && s[|s| - 1] == ','
  {
    if |parts| > 2 {
      JoinEndsWithComma(parts[1..]);
    }
  }

  lemma ListEnds(c: CustomServer) returns (rest: string)
    ensures List(c) != "" && List(c)[|List(c)| - 1] == ',' && List(c) == "host=" + rest
  {
    LastElementEmpty(c);
    JoinEndsWithComma(Elements(c));
    rest := List(c)[5..];
    assert Elements(c)[0] == "host=" + Field(c, 0);
  }

  lemma {:induction false} FindIsFirst(s: string, p: string, k: nat)
    requires At(s, p, k) && forall j :: 0 <= j < k ==> !At(s, p, j)
    ensures Find(s, p) == Some(k)
  {
    if k > 0 {
      assert !At(s, p, 0);
      assert s[1..][k - 1..] == s[k..];
      forall j | 0 <= j < k - 1 ensures !At(s[1..], p, j) {
        assert s[1..][j..] == s[j + 1..];
        assert !At(s, p, j + 1);
      }
      FindIsFirst(s[1..], p, k - 1);
    }
  }

  lemma {:induction false} FindIsLeftmost(s: string, p: string)
    ensures match Find(s, p)
            case Some(i) => At(s, p, i) && forall j :: 0 <= j < i ==> !At(s, p, j)
            case None => !Contains(s, p)
  {
    if p <= s {
      assert s[0..] == s;
    } else if s != "" {
      FindIsLeftmost(s[1..], p);
      if Find(s[1..], p).Some? {
        var i := Find(s[1..], p).value;
        assert s[1..][i..] == s[i + 1..];
        forall j | 0 <= j < i + 1 ensures !At(s, p, j) {
          if j > 0 {
            assert s[1..][j - 1..] == s[j..];
            assert !At(s[1..], p, j - 1);
          } else {
            assert s[0..] == s;
          }
        }
      }
    }
  }

  /** Where `host=` starts, or the end. */
  function HostIndex(low: string): (i: nat)
    ensures i <= |low|
  {
    match Find(low, "host=") case Some(i) => i case None => |low|
  }

  /** No `host=` lies across the beginning of another. */
  lemma HostFound(u: string, v: string)
    ensures Find(u + ("host=" + v), "host=") == Some(HostIndex(u))
  {
    hide Find, Contains;
    var s, i := u + ("host=" + v), HostIndex(u);
    FindIsLeftmost(u, "host=");
    if i < |u| {
      AtLeft(u, "host=" + v, "host=", i);
    } else {
      assert s[|u|..] == "host=" + v;
    }
    forall k | 0 <= k < i ensures !At(s, "host=", k) {
      if k + 5 <= |u| {
        AtLeft(u, "host=" + v, "host=", k);
        if At(u, "host=", k) {
          ContainsAt(u, "host=", k);
        }
      } else {
        assert s[|u|] == 'h';
        NotAt(s, "host=", k, |u| - k);
      }
    }
    FindIsFirst(s, "host=", i);
  }

  /** The byte position in the lowered prefix at which the form is sliced. */
  function SliceAt(lower: Lowering, prefix: string): nat {
    var low := Lower(lower, prefix);
    ByteLen(low[..HostIndex(low)])
  }

  lemma PlainPrefix(lower: Lowering, prefix: string)
    requires IsLowering(lower) && '=' !in prefix
    ensures SliceAt(lower, prefix) == ByteLen(Lower(lower, prefix))
  {
    hide Lower, IsLowering, Find, Contains;
    var low := Lower(lower, prefix);
    NoEquals(lower, prefix);
    FindIsLeftmost(low, "host=");
    if HostIndex(low) < |low| {
      AtChar(low, "host=", HostIndex(low), 4);
    }
    assert low[..|low|] == low;
  }

  /** The form is sliced at that position. */
  lemma FormIsSliced(libs: Libraries, lower: Lowering, prefix: string, c: CustomServer, ext: string)
    requires IsLowering(lower) && IsExtension(ext)
    ensures Parse(libs, lower, HostForm(prefix, c) + ext) ==
            match FromByte(HostForm(prefix, c), SliceAt(lower, prefix))
            case None => Panicked
            case Some(sliced) => Parsed(FromElements(lower, Split(sliced, ",")))
  {
    hide Stem, StripExe, IsExtension, Split, Lower, Find, FromElements, Join, TryPieces, Unlicensed, FromByte, ByteLen;
    hide IsLowering, List, HostIndex;
    var s := HostForm(prefix, c);
    var rest := ListEnds(c);
    StemKeepsComma(s, ext);
    StripIsStem(lower, s + ext);
    LowerConcat(lower, prefix, List(c));
    LowerConcat(lower, "host=", rest);
    assert Lower(lower, "host=") == "host=" by {
      LowerAscii(lower, "host=");
      LabelShape(0);
    }
    var u := Lower(lower, prefix);
    HostFound(u, Lower(lower, rest));
    assert Lower(lower, s)[..HostIndex(u)] == u[..HostIndex(u)];
  }

  /**
   Whether the form is read back, told from the prefix. A slice that starts at or behind the end of the prefix may lose
   no more than leading empty fields. One that starts in the prefix must start at a character, and the host must survive
   what is left of the prefix.
   */
  predicate HostReadable(lower: Lowering, prefix: string, c: CustomServer) {
    var at, length := SliceAt(lower, prefix), ByteLen(prefix);
    if at >= length then at - length <= EmptyHead(c)
    else
      var early := FromByte(prefix, at);
      early.Some? && HostSurvives(lower, early.value, c.host)
  }

  /** For every prefix and configuration: the form is read back exactly if no field has a comma and the host is readable. */
  lemma HostFormReadsBackIff(libs: Libraries, lower: Lowering, prefix: string, c: CustomServer, ext: string)
    requires IsLowering(lower) && IsExtension(ext)
    ensures Parse(libs, lower, HostForm(prefix, c) + ext) == Parsed(c) <==>
            IsCommaFree(c) && HostReadable(lower, prefix, c)
  {
    hide IsExtension, Split, Lower, FromElements, TryPieces, FromByte, ByteLen, EmptyHead, List, Parse;
    hide IsLowering, IsCommaFree, HostSurvives, SliceAt;
    FormIsSliced(libs, lower, prefix, c, ext);
    var at, length := SliceAt(lower, prefix), ByteLen(prefix);
    var sliced := FromByte(HostForm(prefix, c), at);
    if sliced.Some? {
      FieldsCommaFree(lower, sliced.value);
    }
    if IsCommaFree(c) {
      if at >= length {
        FromByteSkips(prefix, List(c), at - length);
        LateSlice(lower, c, at - length);
      } else {
        FromByteInside(prefix, List(c), at);
        if FromByte(prefix, at).Some? {
          var o := FromByteCuts(prefix, at);
          assert prefix[..|prefix|] == prefix;
          EarlyRead(lower, c, prefix[o..]);
        }
      }
    }
  }

  // ---------- commas ----------

  lemma {:induction false} PartsCommaFree(s: string, i: nat)
    requires i < |Split(s, ",")|
    ensures ',' !in Split(s, ",")[i]
  {
    if s != "" {
      SplitStep(s);
      hide Split;
      if s[0] == ',' {
        if i > 0 {
          PartsCommaFree(s[1..], i - 1);
        }
      } else {
        PartsCommaFree(s[1..], i);
        assert s[..1] == [s[0]];
      }
    }
  }

  lemma {:induction false} FieldCommaFree(lower: Lowering, els: seq<string>, prefix: string)
    requires forall i :: 0 <= i < |els| ==> ',' !in els[i]
    ensures ',' !in LastField(lower, els, prefix)
  {
    hide Lower;
    if els != [] {
      assert ',' !in els[|els| - 1];
      FieldCommaFree(lower, els[..|els| - 1], prefix);
    }
  }

  /** Whatever is read, no field of it has a comma. */
  lemma FieldsCommaFree(lower: Lowering, s: string)
    ensures IsCommaFree(FromElements(lower, Split(s, ",")))
  {
    hide Split, LastField, FromElements, Label, Field;
    var els := Split(s, ",");
    forall i | 0 <= i < |els| ensures ',' !in els[i] {
      PartsCommaFree(s, i);
    }
    forall f | 0 <= f < 4 ensures ',' !in Field(FromElements(lower, els), f) {
      FieldRead(lower, els, f);
      FieldCommaFree(lower, els, Label(f));
    }
  }

  lemma LateSlice(lower: Lowering, c: CustomServer, b: nat)
    requires IsLowering(lower) && IsCommaFree(c)
    ensures b <= EmptyHead(c) ==>
              FromByte(List(c), b).Some? && FromElements(lower, Split(FromByte(List(c), b).value, ",")) == c
    ensures b > EmptyHead(c) && FromByte(List(c), b).Some? ==>
              FromElements(lower, Split(FromByte(List(c), b).value, ",")) != c
  {
    hide Split, Lower, FromElements, FromByte, EmptyHead, List, IsLowering, IsCommaFree;
    EmptyHeadIsOffset(c);
    if FromByte(List(c), b).Some? || b <= EmptyHead(c) {
      var o := AsciiHeadSlice(List(c), EmptyHead(c), b);
      LateRead(lower, c, o);
    }
  }

  /** In a text that starts with ASCII a slice starts behind that part exactly if its byte position is behind it. */
  lemma AsciiHeadSlice(s: string, e: nat, b: nat) returns (o: nat)
    requires e <= |s| && Utf8.IsAscii(s[..e]) && (b <= e || FromByte(s, b).Some?)
    ensures o <= |s| && FromByte(s, b) == Some(s[o..]) && (o <= e <==> b <= e)
  {
    hide FromByte, ByteLen;
    if b <= e {
      o := b;
      var head := s[..b];
      assert head == s[..e][..b] && s == head + s[b..];
      AsciiByteLen(head);
      FromByteSkips(head, s[b..], 0);
      FromByteZero(s[b..]);
    } else {
      o := FromByteCuts(s, b);
      if o <= e {
        assert s[..o] == s[..e][..o];
        AsciiByteLen(s[..o]);
      }
    }
  }

  lemma FromByteZero(s: string)
    ensures FromByte(s, 0) == Some(s)
  {
  }

  /** Where lowering keeps the byte length of the prefix, as it does for ASCII, every such configuration is read back. */
  lemma SameLengthReadsBack(libs: Libraries, lower: Lowering, prefix: string, c: CustomServer, ext: string)
    requires IsLowering(lower) && '=' !in prefix && IsCommaFree(c) && IsExtension(ext)
    requires ByteLen(Lower(lower, prefix)) == ByteLen(prefix)
    ensures Parse(libs, lower, HostForm(prefix, c) + ext) == Parsed(c)
  {
    hide Parse, Lower, ByteLen, IsLowering, IsExtension, IsCommaFree, HostForm, SliceAt;
    PlainPrefix(lower, prefix);
    HostFormReadsBackIff(libs, lower, prefix, c, ext);
  }

  lemma NoCommaAtEnd(s: string, o: nat)
    requires ',' !in s && o <= |s|
    ensures !EndsWith(s[o..], ",")
  {
    if o < |s| {
      assert s[|s| - 1] in s;
      LastDiffers(s[o..], ",");
    }
  }

  lemma NoHostIn(lower: Lowering, t: string)
    requires IsLowering(lower) && '=' !in t
    ensures LastField(lower, Split(t, ","), "host=") == ""
  {
    hide Lower, IsLowering, Split;
    var a := Split(t, ",");
    forall i | 0 <= i < |a| ensures !("host=" <= Lower(lower, a[i])) {
      SplitPartContained(t, ",", i);
      if '=' in a[i] {
        ContainsChar(t, a[i], '=');
      }
      NoHostStart(lower, a[i]);
    }
    FieldMissing(lower, a, "host=");
  }

  lemma NoHostStart(lower: Lowering, p: string)
    requires IsLowering(lower) && '=' !in p
    ensures !("host=" <= Lower(lower, p))
  {
    hide Lower, IsLowering;
    NoEquals(lower, p);
    var low := Lower(lower, p);
    if |low| >= 5 {
      assert low[4] in low;
      NotAt(low, "host=", 0, 4);
      assert low[0..] == low;
    }
  }

  /** With a host and no comma in the prefix nothing else will do. */
  lemma ReadsBackIffSameLength(libs: Libraries, lower: Lowering, prefix: string, c: CustomServer, ext: string)
    requires IsLowering(lower) && '=' !in prefix && IsCommaFree(c) && IsExtension(ext)
    requires c.host != "" && ',' !in prefix
    ensures Parse(libs, lower, HostForm(prefix, c) + ext) == Parsed(c) <==>
            ByteLen(Lower(lower, prefix)) == ByteLen(prefix)
  {
    hide Parse, Lower, ByteLen, IsLowering, IsExtension, IsCommaFree, HostForm, FromByte, SliceAt, LastField, EndsWith;
    PlainPrefix(lower, prefix);
    HostFormReadsBackIff(libs, lower, prefix, c, ext);
    var b := ByteLen(Lower(lower, prefix));
    if b < ByteLen(prefix) && FromByte(prefix, b).Some? {
      var o := FromByteCuts(prefix, b);
      NoCommaAtEnd(prefix, o);
      NoHostIn(lower, prefix[o..]);
    }
  }

  // ---------- prefixes that do not work ----------

  /** Three characters that change length: U+0130 (2 bytes to 3), U+023A (2 to 3) and U+212A (3 to 1). */
  function SampleLower(c: char): string {
    if c == '\U{0130}' then "i\U{0307}"
    else if c == '\U{023A}' then "\U{2C65}"
    else if c == '\U{212A}' then "k"
    else [ToLowerChar(c)]
  }

  lemma SampleIsLowering()
    ensures IsLowering(SampleLower)
  {
    forall c: char ensures LowersWell(SampleLower, c) {
    }
  }

  lemma OffsetPastFirst(parts: seq<string>, m: nat)
    requires m <= |parts|
    ensures m > 0 ==> Offset(parts, m) > |parts[0]|
  {
    if m > 0 {
      OffsetGrows(parts, 0, m);
    }
  }

  /** One byte too late, and only the host is lost. */
  lemma OneByteLate(lower: Lowering, c: CustomServer)
    requires IsLowering(lower) && IsCommaFree(c)
    ensures FromByte(List(c), 1).Some? && FromElements(lower, Split(FromByte(List(c), 1).value, ",")) == c.(host := "")
  {
    hide Lower, Split, FromElements, LastField, Join;
    var els, list := Elements(c), List(c);
    forall i | 0 <= i < 5 ensures ',' !in els[i] {
      ElementCommaFree(c, i);
    }
    var rest := ListEnds(c);
    assert list == "h" + list[1..] && Utf8.IsAscii("h");
    AsciiByteLen("h");
    FromByteSkips("h", list[1..], 0);
    var m, k := CutJoined(els, 1);
    OffsetPastFirst(els, m);
    hide Element, FromByte, ByteLen;
    var front := [els[0][1..]];
    EarlyFields(lower, c, front + els[1..], front, 1);
    LostHost(lower, c);
  }

  lemma LostHost(lower: Lowering, c: CustomServer)
    requires IsLowering(lower)
    ensures LastField(lower, [Element(c, 0)[1..]], "host=") == ""
  {
    hide LastField;
    var part := Element(c, 0)[1..];
    assert part[0] == 'o' && LowersWell(lower, 'o');
    assert Lower(lower, part)[0] == 'o';
    FieldMissing(lower, [part], "host=");
  }

  lemma DottedPrefix()
    ensures ByteLen(Lower(SampleLower, "\U{0130}ndir-")) == ByteLen("\U{0130}ndir-") + 1
  {
    LowerAscii(SampleLower, "ndir-") by {
      SampleIsLowering();
    }
    assert "\U{0130}ndir-"[1..] == "ndir-" && ToLower("ndir-") == "ndir-";
    assert Lower(SampleLower, "\U{0130}ndir-") == "i\U{0307}" + "ndir-";
    hide Lower;
    ByteLenConcat("\U{0130}", "ndir-");
    ByteLenConcat("i\U{0307}", "ndir-");
    assert ByteLen("\U{0130}") == 2 && ByteLen("i\U{0307}") == 3;
    hide ByteLen;
    assert "\U{0130}" + "ndir-" == "\U{0130}ndir-";
  }

  lemma DottedPrefixLosesHost(libs: Libraries, c: CustomServer, ext: string)
    requires IsCommaFree(c) && IsExtension(ext)
    ensures Parse(libs, SampleLower, HostForm("\U{0130}ndir-", c) + ext) == Parsed(c.(host := ""))
  {
    hide Parse, IsExtension, IsCommaFree, List, Lower, ByteLen, FromByte, FromElements, Split;
    SampleIsLowering();
    PlainPrefix(SampleLower, "\U{0130}ndir-");
    hide IsLowering, SliceAt;
    DottedPrefix();
    FormIsSliced(libs, SampleLower, "\U{0130}ndir-", c, ext);
    FromByteSkips("\U{0130}ndir-", List(c), 1);
    OneByteLate(SampleLower, c);
  }

  lemma KelvinPrefixPanics(libs: Libraries, c: CustomServer, ext: string)
    requires IsExtension(ext)
    ensures Parse(libs, SampleLower, HostForm("\U{212A}", c) + ext) == Panicked
  {
    hide Parse, IsExtension, List;
    SampleIsLowering();
    PlainPrefix(SampleLower, "\U{212A}");
    hide IsLowering, SliceAt;
    var prefix := "\U{212A}";
    FormIsSliced(libs, SampleLower, prefix, c, ext);
    assert Lower(SampleLower, prefix) == "k" + "" == "k";
    assert ByteLen("k") == 1 && ByteLen(prefix) == 3;
    assert FromByte(prefix, 1) == None;
    FromByteInside(prefix, List(c), 1);
    assert HostForm(prefix, c) == prefix + List(c);
  }
}
