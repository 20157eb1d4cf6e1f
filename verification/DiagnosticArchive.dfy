/**
 The byte budget of a diagnostic archive (src/diagnostics.rs:17-22, 384-433, 460-478).

 Opening a file may fail, so a file is its bytes or nothing. Redaction is a function applied to what was read.
 */
module DiagnosticArchive {
  import opened Prelude
  import opened Lists

  const MAX_FILE_BYTES: nat := 2 * 1024 * 1024
  const MAX_TOTAL_BYTES: nat := 16 * 1024 * 1024
  const NEWLINE: Byte := 10

  datatype DiagnosticFile = DiagnosticFile(entryName: string, modified: int, content: Option<seq<Byte>>)

  // ---------- the tail of one file ----------

  /** Position of the first newline, or the length when there is none. */
  function NewlineAt(bytes: seq<Byte>): (k: nat)
    ensures k <= |bytes| && (k < |bytes| ==> bytes[k] == NEWLINE)
    ensures forall j :: 0 <= j < k ==> bytes[j] != NEWLINE
  {
    if bytes == [] || bytes[0] == NEWLINE then 0 else 1 + NewlineAt(bytes[1..])
  }

  datatype Tail = Tail(bytes: seq<Byte>, truncated: bool)

  /** The window is the last `limit` bytes; a cut window loses everything through its first newline. */
  function TailOf(content: seq<Byte>, limit: nat): Tail {
    if |content| <= limit then Tail(content, false)
    else
      var window := content[|content| - limit..];
      var k := NewlineAt(window);
      Tail(if k < |window| then window[k + 1..] else window, true)
  }

  lemma FirstNewline(bytes: seq<Byte>, k: nat)
    requires k <= |bytes| && (k < |bytes| ==> bytes[k] == NEWLINE) && forall j :: 0 <= j < k ==> bytes[j] != NEWLINE
    ensures k == NewlineAt(bytes)
  {
    hide NewlineAt;
  }

  method ReadTail(content: Option<seq<Byte>>, limit: nat) returns (r: Result<Tail>)
    ensures r == if limit == 0 then Ok(Tail([], true))
                 else if content.Some? then Ok(TailOf(content.value, limit))
                 else Failed
  {
    hide NewlineAt;
    if limit == 0 {
      return Ok(Tail([], true));
    }
    if content == None {
      return Failed;
    }
    var file := content.value;
    var truncated := |file| > limit;
    var bytes := if truncated then file[|file| - limit..] else file;
    if truncated {
      var k := 0;
      while k < |bytes| && bytes[k] != NEWLINE
        invariant k <= |bytes| && forall j :: 0 <= j < k ==> bytes[j] != NEWLINE
      {
        k := k + 1;
      }
      FirstNewline(bytes, k);
      if k < |bytes| {
        bytes := bytes[k + 1..];
      }
    }
    return Ok(Tail(bytes, truncated));
  }

  /** `bytes` ends the content and starts at its beginning or just behind a newline. */
  predicate LineSuffix(bytes: seq<Byte>, content: seq<Byte>) {
    && |bytes| <= |content|
    && content[|content| - |bytes|..] == bytes
    && (|bytes| < |content| ==> content[|content| - |bytes| - 1] == NEWLINE)
  }

  function LastBytes(content: seq<Byte>, n: nat): seq<Byte>
    requires n <= |content|
  {
    content[|content| - n..]
  }

  /**
   A cut file keeps the longest suffix of whole lines that leaves room for the newline in front of it,
   or the whole window when the window has no newline.
   */
  lemma TailIsWholeLines(content: seq<Byte>, limit: nat)
    ensures var t := TailOf(content, limit);
            && t.truncated == (|content| > limit) && |t.bytes| <= limit
            && (!t.truncated ==> t.bytes == content)
            && (t.truncated && NEWLINE in content[|content| - limit..] ==>
                  && LineSuffix(t.bytes, content) && |t.bytes| < limit
                  && forall n :: |t.bytes| < n < limit ==> !LineSuffix(LastBytes(content, n), content))
            && (t.truncated && NEWLINE !in content[|content| - limit..] ==> t.bytes == content[|content| - limit..])
  {
    if |content| > limit {
      var start := |content| - limit;
      var window := content[start..];
      var k := NewlineAt(window);
      if NEWLINE in window {
        var bytes := window[k + 1..];
        assert bytes == content[start + k + 1..];
        assert content[start + k] == window[k];
        forall n | |bytes| < n < limit ensures !LineSuffix(LastBytes(content, n), content) {
          assert content[|content| - n - 1] == window[limit - n - 1];
        }
      } else {
        assert k == |window|;
      }
    }
  }

  // ---------- the archive ----------

  /** What went into the archive for one file, before redaction. */
  datatype Packed = Packed(file: DiagnosticFile, source: seq<Byte>, truncated: bool)

  datatype Archive = Archive(entries: seq<Packed>, sourceBytes: nat, truncatedFiles: nat)

  /** One file offered to an archive in progress. */
  function Offer(a: Archive, file: DiagnosticFile): Archive {
    if a.sourceBytes >= MAX_TOTAL_BYTES || file.content == None then a
    else
      var t := TailOf(file.content.value, Min(MAX_FILE_BYTES, MAX_TOTAL_BYTES - a.sourceBytes));
      Archive(a.entries + [Packed(file, t.bytes, t.truncated)], a.sourceBytes + |t.bytes|,
              a.truncatedFiles + if t.truncated then 1 else 0)
  }

  function OfferAll(a: Archive, files: seq<DiagnosticFile>): Archive
    decreases |files|
  {
    if files == [] then a else OfferAll(Offer(a, files[0]), files[1..])
  }

  const EMPTY_ARCHIVE := Archive([], 0, 0)

  lemma {:induction false} FullStaysFull(a: Archive, files: seq<DiagnosticFile>)
    requires a.sourceBytes >= MAX_TOTAL_BYTES
    ensures OfferAll(a, files) == a
    decreases |files|
  {
    if files != [] {
      FullStaysFull(a, files[1..]);
    }
  }

  /** The zip entries between the manifest and the summary, and the three counters of the summary. */
  method WriteArchive(files: seq<DiagnosticFile>, redact: seq<Byte> -> seq<Byte>)
    returns (bodies: seq<(string, seq<Byte>)>, included: nat, sourceBytes: nat, truncatedFiles: nat)
    ensures var a := OfferAll(EMPTY_ARCHIVE, files);
            && |bodies| == |a.entries| == included && sourceBytes == a.sourceBytes && truncatedFiles == a.truncatedFiles
            && forall i :: 0 <= i < |bodies| ==> bodies[i] == (a.entries[i].file.entryName, redact(a.entries[i].source))
  {
    bodies, included, sourceBytes, truncatedFiles := [], 0, 0, 0;
    ghost var a := EMPTY_ARCHIVE;
    for i := 0 to |files|
      invariant OfferAll(a, files[i..]) == OfferAll(EMPTY_ARCHIVE, files)
      invariant |bodies| == |a.entries| == included && sourceBytes == a.sourceBytes && truncatedFiles == a.truncatedFiles
      invariant forall j :: 0 <= j < |bodies| ==> bodies[j] == (a.entries[j].file.entryName, redact(a.entries[j].source))
    {
      if sourceBytes >= MAX_TOTAL_BYTES {
        FullStaysFull(a, files[i..]);
        break;
      }
      assert files[i..][1..] == files[i + 1..];
      var remaining := MAX_TOTAL_BYTES - sourceBytes;
      var limit := Min(MAX_FILE_BYTES, remaining);
      var r := ReadTail(files[i].content, limit);
      a := Offer(a, files[i]);
      match r {
        case Failed => continue;
        case Ok(tail) =>
          bodies := bodies + [(files[i].entryName, redact(tail.bytes))];
          sourceBytes := sourceBytes + |tail.bytes|;
          included := included + 1;
          if tail.truncated {
            truncatedFiles := truncatedFiles + 1;
          }
      }
    }
  }

  function SourceSum(entries: seq<Packed>): nat {
    if entries == [] then 0 else SourceSum(entries[..|entries| - 1]) + |entries[|entries| - 1].source|
  }

  function TruncatedCount(entries: seq<Packed>): nat {
    if entries == [] then 0
    else TruncatedCount(entries[..|entries| - 1]) + if entries[|entries| - 1].truncated then 1 else 0
  }

  /** An entry holds its file whole, or a tail of it cut as `TailOf` cuts at some limit within the budget. */
  ghost predicate Honest(e: Packed) {
    && e.file.content.Some?
    && exists limit: nat :: limit <= MAX_FILE_BYTES && Tail(e.source, e.truncated) == TailOf(e.file.content.value, limit)
  }

  ghost predicate Balanced(a: Archive) {
    && a.sourceBytes == SourceSum(a.entries) <= MAX_TOTAL_BYTES
    && a.truncatedFiles == TruncatedCount(a.entries)
    && forall i :: 0 <= i < |a.entries| ==> Honest(a.entries[i])
  }

  lemma OfferKeepsBalance(a: Archive, file: DiagnosticFile)
    requires Balanced(a)
    ensures Balanced(Offer(a, file))
  {
    hide TailOf;
    if a.sourceBytes < MAX_TOTAL_BYTES && file.content.Some? {
      var limit := Min(MAX_FILE_BYTES, MAX_TOTAL_BYTES - a.sourceBytes);
      TailIsWholeLines(file.content.value, limit);
      var b := Offer(a, file);
      assert b.entries[..|b.entries| - 1] == a.entries;
      assert Honest(b.entries[|a.entries|]);
    }
  }

  /** Counters equal what was written, the total stays within 16 MiB and each file within 2 MiB. */
  lemma {:induction false} ArchiveStaysInBudget(a: Archive, files: seq<DiagnosticFile>)
    requires Balanced(a)
    ensures var r := OfferAll(a, files);
            Balanced(r) && forall i :: 0 <= i < |r.entries| ==> |r.entries[i].source| <= MAX_FILE_BYTES
    decreases |files|
  {
    hide Offer, TailOf;
    if files != [] {
      OfferKeepsBalance(a, files[0]);
      ArchiveStaysInBudget(Offer(a, files[0]), files[1..]);
    } else {
      forall i | 0 <= i < |a.entries| ensures |a.entries[i].source| <= MAX_FILE_BYTES {
        var e := a.entries[i];
        assert Honest(e);
        var limit: nat :| limit <= MAX_FILE_BYTES && Tail(e.source, e.truncated) == TailOf(e.file.content.value, limit);
        TailIsWholeLines(e.file.content.value, limit);
      }
    }
  }

  // ---------- when nothing is lost ----------

  predicate IsReadable(file: DiagnosticFile) {
    file.content.Some?
  }

  function Readable(files: seq<DiagnosticFile>): seq<DiagnosticFile> {
    Keep(IsReadable, files)
  }

  function Size(file: DiagnosticFile): nat {
    if file.content.Some? then |file.content.value| else 0
  }

  function Total(files: seq<DiagnosticFile>): nat {
    if files == [] then 0 else Size(files[0]) + Total(files[1..])
  }

  function Whole(files: seq<DiagnosticFile>): seq<Packed> {
    seq(|files|, i requires 0 <= i < |files| =>
      Packed(files[i], if files[i].content.Some? then files[i].content.value else [], false))
  }

  predicate AllSmall(files: seq<DiagnosticFile>) {
    forall i :: 0 <= i < |files| ==> Size(files[i]) <= MAX_FILE_BYTES
  }

  lemma AllSmallStep(file: DiagnosticFile, rest: seq<DiagnosticFile>)
    ensures AllSmall([file] + rest) <==> Size(file) <= MAX_FILE_BYTES && AllSmall(rest)
  {
    hide Size;
    var files := [file] + rest;
    assert files[0] == file && forall i :: 0 <= i < |rest| ==> files[i + 1] == rest[i];
    if AllSmall(files) {
      forall i | 0 <= i < |rest| ensures Size(rest[i]) <= MAX_FILE_BYTES {
        assert Size(files[i + 1]) <= MAX_FILE_BYTES;
      }
    }
  }

  /** Each file is within its limit, all together are within the total, and the budget is not used up before the last one. */
  predicate FitsBudget(used: nat, files: seq<DiagnosticFile>) {
    && AllSmall(files)
    && used + Total(files) <= MAX_TOTAL_BYTES
    && (files != [] ==> used + Total(files[..|files| - 1]) < MAX_TOTAL_BYTES)
  }

  /** Every readable file went in whole, in order, and none is marked truncated. */
  predicate AllWhole(a: Archive, r: Archive, files: seq<DiagnosticFile>) {
    r.entries == a.entries + Whole(Readable(files))
  }

  lemma {:induction false} OfferAllExtends(a: Archive, files: seq<DiagnosticFile>)
    ensures a.entries <= OfferAll(a, files).entries
    decreases |files|
  {
    hide TailOf;
    if files != [] {
      OfferAllExtends(Offer(a, files[0]), files[1..]);
    }
  }

  lemma FitsStep(used: nat, file: DiagnosticFile, rest: seq<DiagnosticFile>)
    ensures FitsBudget(used, [file] + rest) <==>
            used < MAX_TOTAL_BYTES && Size(file) <= Min(MAX_FILE_BYTES, MAX_TOTAL_BYTES - used) && FitsBudget(used + Size(file), rest)
  {
    hide Size, AllSmall;
    var files := [file] + rest;
    assert files[1..] == rest;
    AllSmallStep(file, rest);
    var before := files[..|files| - 1];
    if rest == [] {
      assert before == [];
    } else {
      assert before == [file] + rest[..|rest| - 1];
      assert before[1..] == rest[..|rest| - 1];
    }
  }

  function WholeEntry(file: DiagnosticFile): Packed {
    Packed(file, if file.content.Some? then file.content.value else [], false)
  }

  lemma WholeCons(file: DiagnosticFile, rest: seq<DiagnosticFile>)
    ensures Whole([]) == [] && Whole([file] + rest) == [WholeEntry(file)] + Whole(rest)
  {
  }

  /** Offering a readable file to an archive that is not full adds it whole exactly when it fits. */
  lemma OfferWholeIff(a: Archive, file: DiagnosticFile)
    requires a.sourceBytes < MAX_TOTAL_BYTES && file.content.Some?
    ensures var b := Offer(a, file);
            && |b.entries| == |a.entries| + 1 && b.entries[..|a.entries|] == a.entries
            && (b.entries[|a.entries|] == WholeEntry(file) <==>
                  Size(file) <= Min(MAX_FILE_BYTES, MAX_TOTAL_BYTES - a.sourceBytes))
            && (b.entries[|a.entries|] == WholeEntry(file) ==> b.sourceBytes == a.sourceBytes + Size(file))
  {
    hide TailOf;
    TailIsWholeLines(file.content.value, Min(MAX_FILE_BYTES, MAX_TOTAL_BYTES - a.sourceBytes));
  }

  lemma ExtendedIff<T>(r: seq<T>, a: seq<T>, x: T, y: T, rest: seq<T>)
    requires a + [x] <= r
    ensures r == a + ([y] + rest) <==> x == y && r == a + [x] + rest
  {
    assert r[|a|] == x;
    assert (a + ([y] + rest))[|a|] == y;
    Assoc(a, [y], rest);
  }

  /**
   Nothing is cut and nothing readable is left out exactly when each readable file is within 2 MiB, they sum to at
   most 16 MiB, and all but the last sum to less.
   */
  lemma {:induction false} WholeIffFits(a: Archive, files: seq<DiagnosticFile>)
    requires a.sourceBytes <= MAX_TOTAL_BYTES
    ensures AllWhole(a, OfferAll(a, files), files) <==> FitsBudget(a.sourceBytes, Readable(files))
    decreases |files|
  {
    if files == [] {
      WholeCons(DiagnosticFile("", 0, None), []);
    } else if files[0].content == None {
      WholeIffFits(a, files[1..]);
      assert Readable(files) == Readable(files[1..]);
    } else {
      hide Offer, FitsBudget, TailOf, Whole, WholeEntry, Size;
      var file, rest := files[0], Readable(files[1..]);
      assert Readable(files) == [file] + rest;
      FitsStep(a.sourceBytes, file, rest);
      WholeCons(file, rest);
      if a.sourceBytes == MAX_TOTAL_BYTES {
        FullStaysFull(a, files);
      } else {
        var b := Offer(a, file);
        OfferWholeIff(a, file);
        OfferAllExtends(b, files[1..]);
        var r := OfferAll(a, files);
        assert b.entries == a.entries + [b.entries[|a.entries|]];
        ExtendedIff(r.entries, a.entries, b.entries[|a.entries|], WholeEntry(file), Whole(rest));
        if b.entries[|a.entries|] == WholeEntry(file) {
          WholeIffFits(b, files[1..]);
        }
      }
    }
  }
}
