/** The bounded queue of clipboard debug lines (src/clipboard.rs:29-31, 843-895). */
module DebugLog {
  import opened Prelude
  import Utf8

  const MAX_LINE: nat := 1200
  const MAX_EVENTS: nat := 64
  const DOTS: seq<Byte> := [46, 46, 46]

  type Line = seq<Byte>

  /** The position is an end of the text or does not hold a continuation byte. */
  predicate IsCharBoundary(line: Line, k: nat) {
    k == 0 || k == |line| || (k < |line| && !(0x80 <= line[k] < 0xC0))
  }

  /** The last boundary at or before `k`. */
  function Cut(line: Line, k: nat): (end: nat)
    ensures end <= k && IsCharBoundary(line, end)
  {
    if IsCharBoundary(line, k) then k else Cut(line, k - 1)
  }

  function Truncated(line: Line): Line {
    if |line| <= MAX_LINE then line else line[..Cut(line, MAX_LINE)] + DOTS
  }

  method TruncateLine(line: Line) returns (r: Line)
    ensures r == Truncated(line)
  {
    if |line| <= MAX_LINE {
      return line;
    }
    var end: nat := MAX_LINE;
    while !IsCharBoundary(line, end)
      invariant end <= MAX_LINE && Cut(line, end) == Cut(line, MAX_LINE)
      decreases end
    {
      end := end - 1;
    }
    r := line[..end] + DOTS;
  }

  // ---------- UTF-8 boundaries ----------

  /** In valid text the boundaries are exactly the positions that end a valid prefix. */
  lemma {:induction false} BoundaryIffValidPrefix(s: string, k: nat)
    requires k <= |Utf8.Encode(s)|
    ensures IsCharBoundary(Utf8.Encode(s), k) <==> Utf8.Valid(Utf8.Encode(s)[..k])
  {
    hide Utf8.EncodeChar, Utf8.LengthFrom;
    var line := Utf8.Encode(s);
    if k == 0 {
      assert Utf8.Encode("") == line[..0];
    } else {
      Utf8.EncodeStep(s);
      Utf8.CharShape(s[0]);
      var n := |Utf8.EncodeChar(s[0])|;
      if k >= n {
        BoundaryIffValidPrefix(s[1..], k - n);
        PrefixIffRestPrefix(s, k);
        BoundaryShift(s, k);
      } else {
        PrefixCutsNoChar(s, k);
      }
    }
  }

  lemma BoundaryShift(s: string, k: nat)
    requires s != "" && |Utf8.EncodeChar(s[0])| <= k <= |Utf8.Encode(s)|
    ensures var n, rest := |Utf8.EncodeChar(s[0])|, Utf8.Encode(s[1..]);
            k - n <= |rest| && (IsCharBoundary(Utf8.Encode(s), k) <==> IsCharBoundary(rest, k - n))
  {
    hide Utf8.EncodeChar, Utf8.LengthFrom;
    Utf8.EncodeStep(s);
    Utf8.CharShape(s[0]);
    if |s| > 1 {
      Utf8.EncodeStep(s[1..]);
      Utf8.CharShape(s[1]);
    }
  }

  /** A valid prefix takes whole characters. */
  lemma PrefixCutsNoChar(s: string, k: nat)
    requires s != "" && 0 < k < |Utf8.EncodeChar(s[0])|
    ensures Utf8.EncodeChar(s[0]) <= Utf8.Encode(s)
    ensures !Utf8.Valid(Utf8.Encode(s)[..k])
  {
    hide Utf8.EncodeChar, Utf8.LengthFrom;
    Utf8.EncodeStep(s);
    Utf8.CharShape(s[0]);
    if t :| Utf8.Encode(t) == Utf8.Encode(s)[..k] {
      Utf8.EncodeStep(t);
      Utf8.CharShape(t[0]);
    }
  }

  lemma PrefixIffRestPrefix(s: string, k: nat)
    requires s != "" && |Utf8.EncodeChar(s[0])| <= k <= |Utf8.Encode(s)|
    ensures var n, rest := |Utf8.EncodeChar(s[0])|, Utf8.Encode(s[1..]);
            k - n <= |rest| && (Utf8.Valid(Utf8.Encode(s)[..k]) <==> Utf8.Valid(rest[..k - n]))
  {
    hide Utf8.EncodeChar, Utf8.LengthFrom;
    Utf8.EncodeStep(s);
    Utf8.CharShape(s[0]);
    var c, rest := Utf8.EncodeChar(s[0]), Utf8.Encode(s[1..]);
    assert Utf8.Encode(s)[..k] == c + rest[..k - |c|];
    if t :| Utf8.Encode(t) == Utf8.Encode(s)[..k] {
      Utf8.EncodeStep(t);
      Utf8.CharShape(t[0]);
      assert Utf8.Encode(t)[0] == c[0];
      assert Utf8.Encode(t)[|c|..] == rest[..k - |c|];
      assert Utf8.Encode(t[1..]) == rest[..k - |c|];
    }
    if u :| Utf8.Encode(u) == rest[..k - |c|] {
      assert ([s[0]] + u)[1..] == u;
      assert Utf8.Encode([s[0]] + u) == c + Utf8.Encode(u);
    }
  }

  /** Every position is at most three bytes past a boundary. */
  lemma {:induction false} BoundaryNearby(s: string, k: nat) returns (b: nat)
    requires k <= |Utf8.Encode(s)|
    ensures b <= k <= b + 3 && IsCharBoundary(Utf8.Encode(s), b)
  {
    hide Utf8.EncodeChar, Utf8.LengthFrom;
    if k == 0 {
      b := 0;
    } else {
      Utf8.EncodeStep(s);
      Utf8.CharShape(s[0]);
      var n := |Utf8.EncodeChar(s[0])|;
      if k < n {
        b := 0;
      } else {
        b := BoundaryNearby(s[1..], k - n);
        b := b + n;
        BoundaryShift(s, b);
      }
    }
  }

  lemma {:induction false} CutIsLast(line: Line, k: nat, b: nat)
    requires b <= k && IsCharBoundary(line, b)
    ensures b <= Cut(line, k)
    ensures forall j :: Cut(line, k) < j <= k ==> !IsCharBoundary(line, j)
  {
    if !IsCharBoundary(line, k) {
      CutIsLast(line, k - 1, b);
    }
  }

  lemma DotsValid(b: seq<Byte>)
    requires Utf8.Valid(b)
    ensures Utf8.Valid(b + DOTS)
  {
    var s :| Utf8.Encode(s) == b;
    Utf8.EncodeConcat(s, "...");
    assert Utf8.IsAscii("...");
    Utf8.EncodeAscii("...");
    assert Utf8.Encode("...") == DOTS;
    assert Utf8.Encode(s + "...") == b + DOTS;
  }

  /** A long line becomes its longest valid prefix within 1200 bytes, at most three bytes shorter, and three dots. */
  lemma TruncationKeepsText(line: Line)
    requires Utf8.Valid(line)
    ensures var r := Truncated(line);
            && Utf8.Valid(r) && |r| <= 1203
            && (|line| <= 1200 ==> r == line)
            && (|line| > 1200 ==>
                  var end := |r| - 3;
                  && 1197 <= end <= 1200 && r == line[..end] + DOTS && Utf8.Valid(line[..end])
                  && forall j :: end < j <= 1200 ==> !Utf8.Valid(line[..j]))
  {
    hide Utf8.Encode, IsCharBoundary, Cut;
    if |line| > MAX_LINE {
      var s :| Utf8.Encode(s) == line;
      var b := BoundaryNearby(s, MAX_LINE);
      CutIsLast(line, MAX_LINE, b);
      var end := Cut(line, MAX_LINE);
      BoundaryIffValidPrefix(s, end);
      forall j | end < j <= MAX_LINE ensures !Utf8.Valid(line[..j]) {
        BoundaryIffValidPrefix(s, j);
      }
      DotsValid(line[..end]);
    }
  }

  // ---------- the queue ----------

  function Pushed(queue: seq<Line>, line: Line): seq<Line> {
    (if |queue| == MAX_EVENTS then queue[1..] else queue) + [line]
  }

  function PushedAll(queue: seq<Line>, lines: seq<Line>): seq<Line>
    decreases |lines|
  {
    if lines == [] then queue else PushedAll(Pushed(queue, Truncated(lines[0])), lines[1..])
  }

  class DebugQueue {
    var events: seq<Line>

    constructor ()
      ensures events == []
    {
      events := [];
    }

    method Push(line: Line, exchangeEnabled: bool)
      modifies this
      ensures events == if exchangeEnabled then Pushed(old(events), line) else old(events)
    {
      if !exchangeEnabled {
        return;
      }
      if |events| == MAX_EVENTS {
        events := events[1..];
      }
      events := events + [line];
    }

    method Emit(line: Line, envEnabled: bool, exchangeEnabled: bool)
      modifies this
      ensures events == if exchangeEnabled then Pushed(old(events), Truncated(line)) else old(events)
    {
      if !(envEnabled || exchangeEnabled) {
        return;
      }
      var short := TruncateLine(line);
      Push(short, exchangeEnabled);
    }

    method QueueLines(lines: seq<Line>, exchangeEnabled: bool)
      modifies this
      ensures events == if exchangeEnabled then PushedAll(old(events), lines) else old(events)
    {
      if !exchangeEnabled {
        return;
      }
      for i := 0 to |lines|
        invariant PushedAll(events, lines[i..]) == PushedAll(old(events), lines)
      {
        assert lines[i..][1..] == lines[i + 1..];
        var short := TruncateLine(lines[i]);
        Push(short, exchangeEnabled);
      }
    }

    method Take(exchangeEnabled: bool) returns (lines: seq<Line>)
      modifies this
      ensures events == []
      ensures lines == if exchangeEnabled then old(events) else []
    {
      lines := if exchangeEnabled then events else [];
      events := [];
    }
  }

  datatype Op =
    | Emit(line: Line, exchangeEnabled: bool)
    | Queue(lines: seq<Line>, exchangeEnabled: bool)
    | Take(exchangeEnabled: bool)

  function Apply(queue: seq<Line>, op: Op): seq<Line> {
    match op
    case Emit(line, on) => if on then Pushed(queue, Truncated(line)) else queue
    case Queue(lines, on) => if on then PushedAll(queue, lines) else queue
    case Take(_) => []
  }

  function After(ops: seq<Op>): seq<Line> {
    if ops == [] then [] else Apply(After(ops[..|ops| - 1]), ops[|ops| - 1])
  }

  function TruncatedAll(lines: seq<Line>): seq<Line> {
    seq(|lines|, i requires 0 <= i < |lines| => Truncated(lines[i]))
  }

  /** Everything accepted since the last drain, however much. */
  function Accepted(ops: seq<Op>): seq<Line> {
    if ops == [] then []
    else
      var before := Accepted(ops[..|ops| - 1]);
      match ops[|ops| - 1]
      case Emit(line, on) => if on then before + [Truncated(line)] else before
      case Queue(lines, on) => if on then before + TruncatedAll(lines) else before
      case Take(_) => []
  }

  function Last(lines: seq<Line>): seq<Line> {
    if |lines| <= 64 then lines else lines[|lines| - 64..]
  }

  lemma PushKeepsLast(lines: seq<Line>, line: Line)
    ensures Pushed(Last(lines), line) == Last(lines + [line])
  {
  }

  lemma {:induction false} PushAllKeepsLast(lines: seq<Line>, more: seq<Line>)
    ensures PushedAll(Last(lines), more) == Last(lines + TruncatedAll(more))
    decreases |more|
  {
    hide Truncated, Last, Pushed;
    if more == [] {
      assert lines + TruncatedAll(more) == lines;
    } else {
      var line := Truncated(more[0]);
      PushKeepsLast(lines, line);
      PushAllKeepsLast(lines + [line], more[1..]);
      assert TruncatedAll(more) == [line] + TruncatedAll(more[1..]);
      assert lines + [line] + TruncatedAll(more[1..]) == lines + ([line] + TruncatedAll(more[1..]));
    }
  }

  /** Over any run the queue holds exactly the last 64 truncated lines accepted since the last drain, in order. */
  lemma {:induction false} QueueHoldsLast(ops: seq<Op>)
    ensures After(ops) == Last(Accepted(ops))
  {
    hide Truncated, Pushed, PushedAll, TruncatedAll;
    if ops != [] {
      var before := ops[..|ops| - 1];
      QueueHoldsLast(before);
      match ops[|ops| - 1]
      case Emit(line, on) => PushKeepsLast(Accepted(before), Truncated(line));
      case Queue(lines, on) => PushAllKeepsLast(Accepted(before), lines);
      case Take(_) =>
    }
  }
}
