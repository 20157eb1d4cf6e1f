/**
 Which files a diagnostic export looks at (src/diagnostics.rs:17-22, 179-241, 302-345).

 A directory tree stands for the file system as read once; entries that are skipped (links, other kinds, other
 extensions, unreadable metadata, names that cannot be archived) are `Ignored`.
 */
module DiagnosticFiles {
  import opened Prelude
  import opened Lists
  import opened DiagnosticArchive

  const MAX_FILES: nat := 160
  const MAX_FILES_PER_ROOT: nat := 32
  const MAX_DEPTH: nat := 4
  const CAP: nat := MAX_FILES * 4

  datatype Entry =
    | Candidate(file: DiagnosticFile)
    | Directory(listing: Option<seq<Entry>>)
    | Ignored

  // ---------- collecting ----------

  /** What a visit of a directory adds to `found`. */
  function Collected(directory: Entry, depth: nat, found: seq<DiagnosticFile>): seq<DiagnosticFile>
    decreases if depth > MAX_DEPTH then 0 else MAX_DEPTH + 1 - depth, 1, 0
  {
    if depth > MAX_DEPTH || |found| >= CAP || !directory.Directory? || directory.listing == None then found
    else CollectedFrom(directory.listing.value, depth, found)
  }

  function CollectedFrom(entries: seq<Entry>, depth: nat, found: seq<DiagnosticFile>): seq<DiagnosticFile>
    requires depth <= MAX_DEPTH
    decreases MAX_DEPTH + 1 - depth, 0, |entries|
  {
    if entries == [] then found
    else
      match entries[0]
      case Ignored => CollectedFrom(entries[1..], depth, found)
      case Directory(_) => CollectedFrom(entries[1..], depth, Collected(entries[0], depth + 1, found))
      case Candidate(file) =>
        if |found| + 1 >= CAP then found + [file] else CollectedFrom(entries[1..], depth, found + [file])
  }

  method CollectFiles(directory: Entry, depth: nat, found: seq<DiagnosticFile>) returns (output: seq<DiagnosticFile>)
    ensures output == Collected(directory, depth, found)
    decreases if depth > MAX_DEPTH then 0 else MAX_DEPTH + 1 - depth
  {
    output := found;
    if depth > MAX_DEPTH || |output| >= CAP || !directory.Directory? || directory.listing == None {
      return;
    }
    var entries := directory.listing.value;
    for i := 0 to |entries|
      invariant CollectedFrom(entries[i..], depth, output) == Collected(directory, depth, found)
    {
      assert entries[i..][1..] == entries[i + 1..];
      match entries[i] {
        case Ignored => continue;
        case Directory(_) => output := CollectFiles(entries[i], depth + 1, output);
        case Candidate(file) =>
          output := output + [file];
          if |output| >= CAP {
            return;
          }
      }
    }
  }

  /** Every candidate within the depth limit, in visiting order, as if there were no cap. */
  function All(directory: Entry, depth: nat): seq<DiagnosticFile>
    decreases if depth > MAX_DEPTH then 0 else MAX_DEPTH + 1 - depth, 1, 0
  {
    if depth > MAX_DEPTH || !directory.Directory? || directory.listing == None then []
    else AllFrom(directory.listing.value, depth)
  }

  function AllFrom(entries: seq<Entry>, depth: nat): seq<DiagnosticFile>
    requires depth <= MAX_DEPTH
    decreases MAX_DEPTH + 1 - depth, 0, |entries|
  {
    if entries == [] then []
    else
      (match entries[0]
       case Ignored => []
       case Directory(_) => All(entries[0], depth + 1)
       case Candidate(file) => [file]) + AllFrom(entries[1..], depth)
  }

  /** The first file directly in the listing, if any. */
  function FirstDirect(entries: seq<Entry>): (r: seq<DiagnosticFile>)
    ensures |r| <= 1
  {
    if entries == [] then [] else if entries[0].Candidate? then [entries[0].file] else FirstDirect(entries[1..])
  }

  /**
   Files taken beyond the cap: when the cap is reached inside a folder, each folder around it still takes the first file
   that is directly in it behind the branch. `room` is what is left under the cap on arrival.
   */
  function Overrun(directory: Entry, depth: nat, room: nat): (r: seq<DiagnosticFile>)
    requires room > 0
    ensures |r| <= MAX_DEPTH - Min(depth, MAX_DEPTH)
    decreases if depth > MAX_DEPTH then 0 else MAX_DEPTH + 1 - depth, 1, 0
  {
    if depth > MAX_DEPTH || !directory.Directory? || directory.listing == None then []
    else OverrunFrom(directory.listing.value, depth, room)
  }

  function OverrunFrom(entries: seq<Entry>, depth: nat, room: nat): (r: seq<DiagnosticFile>)
    requires depth <= MAX_DEPTH && room > 0
    ensures |r| <= MAX_DEPTH - depth
    decreases MAX_DEPTH + 1 - depth, 0, |entries|
  {
    if entries == [] then []
    else
      match entries[0]
      case Ignored => OverrunFrom(entries[1..], depth, room)
      case Directory(_) =>
        var inside := |All(entries[0], depth + 1)|;
        if inside < room then OverrunFrom(entries[1..], depth, room - inside)
        else Overrun(entries[0], depth + 1, room) + FirstDirect(entries[1..])
      case Candidate(_) => if room <= 1 then [] else OverrunFrom(entries[1..], depth, room - 1)
  }

  lemma {:induction false} FullTakesOneMore(entries: seq<Entry>, depth: nat, found: seq<DiagnosticFile>)
    requires depth <= MAX_DEPTH && |found| >= CAP
    ensures CollectedFrom(entries, depth, found) == found + FirstDirect(entries)
    decreases |entries|
  {
    if entries != [] && !entries[0].Candidate? {
      FullTakesOneMore(entries[1..], depth, found);
    }
  }

  /** With `room` files left under the cap: the first `room` files, and then the overrun. */
  function Capped(found: seq<DiagnosticFile>, files: seq<DiagnosticFile>, over: seq<DiagnosticFile>): seq<DiagnosticFile>
    requires |found| < CAP
  {
    var room := CAP - |found|;
    if |files| < room then found + files else found + files[..room] + over
  }

  /** Exactly what a visit collects. */
  lemma {:induction false} CollectedExactly(directory: Entry, depth: nat, found: seq<DiagnosticFile>)
    requires |found| < CAP
    ensures Collected(directory, depth, found) ==
            Capped(found, All(directory, depth), Overrun(directory, depth, CAP - |found|))
    decreases if depth > MAX_DEPTH then 0 else MAX_DEPTH + 1 - depth, 1, 0
  {
    if depth <= MAX_DEPTH && directory.Directory? && directory.listing.Some? {
      CollectedFromExactly(directory.listing.value, depth, found);
    }
  }

  lemma {:induction false} CollectedFromExactly(entries: seq<Entry>, depth: nat, found: seq<DiagnosticFile>)
    requires depth <= MAX_DEPTH && |found| < CAP
    ensures CollectedFrom(entries, depth, found) ==
            Capped(found, AllFrom(entries, depth), OverrunFrom(entries, depth, CAP - |found|))
    decreases MAX_DEPTH + 1 - depth, 0, |entries|
  {
    hide Capped;
    if entries == [] {
      CappedLength(found, [], []);
      assert found + [] == found;
    } else {
      var rest := entries[1..];
      match entries[0]
      case Ignored =>
        CollectedFromExactly(rest, depth, found);
        assert AllFrom(entries, depth) == AllFrom(rest, depth);
      case Directory(_) =>
        CollectedExactly(entries[0], depth + 1, found);
        var inside := All(entries[0], depth + 1);
        var now := Collected(entries[0], depth + 1, found);
        CappedLength(found, inside, Overrun(entries[0], depth + 1, CAP - |found|));
        if |inside| < CAP - |found| {
          CollectedFromExactly(rest, depth, now);
          CappedMoves(found, inside, AllFrom(rest, depth), OverrunFrom(rest, depth, CAP - |now|));
        } else {
          FullTakesOneMore(rest, depth, now);
          CappedInside(found, inside, Overrun(entries[0], depth + 1, CAP - |found|), AllFrom(rest, depth), FirstDirect(rest));
        }
      case Candidate(file) =>
        if |found| + 1 < CAP {
          CollectedFromExactly(rest, depth, found + [file]);
          CappedMoves(found, [file], AllFrom(rest, depth), OverrunFrom(rest, depth, CAP - |found| - 1));
        } else {
          CappedLast(found, file, AllFrom(rest, depth));
        }
    }
  }

  lemma CappedMoves(found: seq<DiagnosticFile>, a: seq<DiagnosticFile>, b: seq<DiagnosticFile>, over: seq<DiagnosticFile>)
    requires |found| + |a| < CAP
    ensures Capped(found + a, b, over) == Capped(found, a + b, over)
  {
    var room := CAP - |found|;
    if |a + b| < room {
      Assoc(found, a, b);
    } else {
      assert (a + b)[..room] == a + b[..room - |a|];
      Assoc(found, a, b[..room - |a|]);
    }
  }

  lemma CappedLast(found: seq<DiagnosticFile>, last: DiagnosticFile, rest: seq<DiagnosticFile>)
    requires |found| + 1 == CAP
    ensures Capped(found, [last] + rest, []) == found + [last]
  {
    assert ([last] + rest)[..1] == [last];
  }

  lemma CappedLength(found: seq<DiagnosticFile>, files: seq<DiagnosticFile>, over: seq<DiagnosticFile>)
    requires |found| < CAP
    ensures |found| + |files| < CAP ==> Capped(found, files, over) == found + files
    ensures |found| + |files| >= CAP ==> |Capped(found, files, over)| >= CAP
  {
  }

  lemma CappedInside(found: seq<DiagnosticFile>, inside: seq<DiagnosticFile>, over: seq<DiagnosticFile>,
                     rest: seq<DiagnosticFile>, next: seq<DiagnosticFile>)
    requires |found| < CAP <= |found| + |inside|
    ensures Capped(found, inside, over) + next == Capped(found, inside + rest, over + next)
  {
    var room := CAP - |found|;
    assert (inside + rest)[..room] == inside[..room];
    Assoc(found + inside[..room], over, next);
  }

  /** A root gives at most 644 files, and at most 640 exactly when the cap is not reached or nothing runs over it. */
  lemma RootBound(root: Entry)
    ensures var files := Collected(root, 0, []);
            && |files| <= 644
            && (|files| <= 640 <==> |All(root, 0)| < CAP || Overrun(root, 0, CAP) == [])
            && All(root, 0)[..Min(CAP, |All(root, 0)|)] <= files
  {
    hide All, Overrun;
    CollectedExactly(root, 0, []);
  }

  // ---------- the bound is reached ----------

  function Flat(file: DiagnosticFile, n: nat): seq<Entry> {
    if n == 0 then [] else [Candidate(file)] + Flat(file, n - 1)
  }

  /** A folder inside a folder, with one file behind it. */
  function Around(inner: Entry, file: DiagnosticFile): Entry {
    Directory(Some([inner, Candidate(file)]))
  }

  lemma {:induction false} FlatHasAll(file: DiagnosticFile, n: nat)
    ensures |AllFrom(Flat(file, n), MAX_DEPTH)| == n
  {
    if n > 0 {
      FlatHasAll(file, n - 1);
      assert Flat(file, n)[1..] == Flat(file, n - 1);
    }
  }

  lemma AroundOverruns(inner: Entry, file: DiagnosticFile, depth: nat)
    requires depth < MAX_DEPTH && inner.Directory? && |All(inner, depth + 1)| >= CAP
    ensures |All(Around(inner, file), depth)| >= CAP
    ensures |Overrun(Around(inner, file), depth, CAP)| == |Overrun(inner, depth + 1, CAP)| + 1
  {
    var entries := Around(inner, file).listing.value;
    assert entries[0] == inner && entries[1..] == [Candidate(file)];
  }

  /** Four nested folders around 640 files, each with one more file behind the inner folder, give 644 files. */
  lemma BoundIsReached(file: DiagnosticFile)
    ensures var full := Directory(Some(Flat(file, CAP)));
            |Collected(Around(Around(Around(Around(full, file), file), file), file), 0, [])| == 644
  {
    hide Flat, All, Overrun, Around;
    var full := Directory(Some(Flat(file, CAP)));
    FlatHasAll(file, CAP);
    FullFolder(full);
    AroundOverruns(full, file, 3);
    var a := Around(full, file);
    AroundIsDirectory(full, file);
    AroundOverruns(a, file, 2);
    var b := Around(a, file);
    AroundIsDirectory(a, file);
    AroundOverruns(b, file, 1);
    var c := Around(b, file);
    AroundIsDirectory(b, file);
    AroundOverruns(c, file, 0);
    CollectedExactly(Around(c, file), 0, []);
  }

  lemma AroundIsDirectory(inner: Entry, file: DiagnosticFile)
    ensures Around(inner, file).Directory?
  {
  }

  lemma FullFolder(folder: Entry)
    requires folder.Directory? && folder.listing.Some?
    ensures All(folder, MAX_DEPTH) == AllFrom(folder.listing.value, MAX_DEPTH)
  {
  }

  // ---------- keeping the newest ----------

  function InsertNewest(file: DiagnosticFile, sorted: seq<DiagnosticFile>): seq<DiagnosticFile> {
    if sorted == [] || sorted[0].modified <= file.modified then [file] + sorted
    else [sorted[0]] + InsertNewest(file, sorted[1..])
  }

  /** Newest first; files of one age keep their order. */
  function NewestFirst(files: seq<DiagnosticFile>): seq<DiagnosticFile> {
    if files == [] then [] else InsertNewest(files[0], NewestFirst(files[1..]))
  }

  predicate Descending(files: seq<DiagnosticFile>) {
    forall i, j :: 0 <= i <= j < |files| ==> files[i].modified >= files[j].modified
  }

  lemma {:induction false} InsertSorts(file: DiagnosticFile, sorted: seq<DiagnosticFile>)
    requires Descending(sorted)
    ensures Descending(InsertNewest(file, sorted)) && |InsertNewest(file, sorted)| == |sorted| + 1
    ensures multiset(InsertNewest(file, sorted)) == multiset(sorted) + multiset{file}
    ensures InsertNewest(file, sorted)[0].modified >= file.modified
    ensures sorted != [] ==> InsertNewest(file, sorted)[0] in [file, sorted[0]]
  {
    if sorted != [] && sorted[0].modified > file.modified {
      InsertSorts(file, sorted[1..]);
      assert sorted == [sorted[0]] + sorted[1..];
    }
  }

  lemma {:induction false} NewestFirstSorts(files: seq<DiagnosticFile>)
    ensures Descending(NewestFirst(files)) && |NewestFirst(files)| == |files|
    ensures multiset(NewestFirst(files)) == multiset(files)
  {
    if files != [] {
      NewestFirstSorts(files[1..]);
      InsertSorts(files[0], NewestFirst(files[1..]));
      assert files == [files[0]] + files[1..];
    }
  }

  function First(files: seq<DiagnosticFile>, n: nat): seq<DiagnosticFile> {
    files[..Min(n, |files|)]
  }

  function Newest(root: Entry): seq<DiagnosticFile> {
    First(NewestFirst(Collected(root, 0, [])), MAX_FILES_PER_ROOT)
  }

  /** A root keeps the newest 32 of what it collected, and every file it drops is no newer than any it keeps. */
  lemma NewestAreKept(root: Entry) returns (dropped: seq<DiagnosticFile>)
    ensures var files, kept := Collected(root, 0, []), Newest(root);
            && |kept| == Min(32, |files|)
            && multiset(kept) + multiset(dropped) == multiset(files)
            && forall k, d :: k in kept && d in dropped ==> k.modified >= d.modified
  {
    var sorted := NewestFirst(Collected(root, 0, []));
    NewestFirstSorts(Collected(root, 0, []));
    var n := Min(MAX_FILES_PER_ROOT, |sorted|);
    dropped := sorted[n..];
    assert sorted == sorted[..n] + dropped;
  }

  predicate OfAge(modified: int, file: DiagnosticFile) {
    file.modified == modified
  }

  lemma {:induction false} InsertIsStable(file: DiagnosticFile, sorted: seq<DiagnosticFile>, modified: int)
    ensures var aged := f => OfAge(modified, f);
            Keep(aged, InsertNewest(file, sorted)) == Keep(aged, [file] + sorted)
  {
    var aged := f => OfAge(modified, f);
    assert ([file] + sorted)[1..] == sorted;
    if sorted != [] && sorted[0].modified > file.modified {
      InsertIsStable(file, sorted[1..], modified);
      assert ([file] + sorted[1..])[1..] == sorted[1..];
      assert InsertNewest(file, sorted)[1..] == InsertNewest(file, sorted[1..]);
    }
  }

  /** Files with one time stamp stay in the order they were collected in. */
  lemma {:induction false} NewestFirstIsStable(files: seq<DiagnosticFile>, modified: int)
    ensures var aged := f => OfAge(modified, f);
            Keep(aged, NewestFirst(files)) == Keep(aged, files)
  {
    if files != [] {
      NewestFirstIsStable(files[1..], modified);
      InsertIsStable(files[0], NewestFirst(files[1..]), modified);
      assert ([files[0]] + NewestFirst(files[1..]))[1..] == NewestFirst(files[1..]);
    }
  }

  // ---------- all roots ----------

  datatype Root = Root(name: string, tree: Entry)

  const SERVICE_LABEL := "service-localservice"

  /** Labels of the roots that are looked at. */
  function RootLabels(hasAppDir: bool, windows: bool): seq<string> {
    ["logs"] + (if hasAppDir then ["flutter"] else [])
    + (if windows then [SERVICE_LABEL, "service-systemprofile", "service-programdata"] else [])
  }

  function Gathered(roots: seq<Root>): seq<DiagnosticFile> {
    if roots == [] then [] else Gathered(roots[..|roots| - 1]) + Newest(roots[|roots| - 1].tree)
  }

  predicate MissingService(root: Root, installed: bool) {
    root.name == SERVICE_LABEL && installed && Newest(root.tree) == []
  }

  method SelectFiles(roots: seq<Root>, installed: bool) returns (r: Result<seq<DiagnosticFile>>)
    ensures r.Failed? <==> exists i :: 0 <= i < |roots| && MissingService(roots[i], installed)
    ensures r.Ok? ==> r.value == First(NewestFirst(Gathered(roots)), MAX_FILES)
  {
    var files := [];
    for i := 0 to |roots|
      invariant files == Gathered(roots[..i])
      invariant forall j :: 0 <= j < i ==> !MissingService(roots[j], installed)
    {
      var collected := CollectFiles(roots[i].tree, 0, []);
      var kept := First(NewestFirst(collected), MAX_FILES_PER_ROOT);
      if roots[i].name == SERVICE_LABEL && installed && kept == [] {
        assert MissingService(roots[i], installed);
        return Failed;
      }
      assert roots[..i + 1][..i] == roots[..i];
      files := files + kept;
    }
    assert roots[..|roots|] == roots;
    return Ok(First(NewestFirst(files), MAX_FILES));
  }

  lemma {:induction false} GatheredHolds(roots: seq<Root>, i: nat)
    requires i < |roots|
    ensures |Gathered(roots)| <= MAX_FILES_PER_ROOT * |roots|
    ensures multiset(Newest(roots[i].tree)) <= multiset(Gathered(roots))
  {
    hide Newest;
    var n := |roots| - 1;
    NewestAtMost(roots[n].tree);
    if i < n {
      GatheredHolds(roots[..n], i);
    } else if n > 0 {
      GatheredHolds(roots[..n], 0);
    }
  }

  lemma NewestAtMost(root: Entry)
    ensures |Newest(root)| <= MAX_FILES_PER_ROOT
  {
  }

  /** The roots that exist are at most five, so the last cut of the selection drops nothing, of whichever root. */
  lemma NoRootStarves(roots: seq<Root>, hasAppDir: bool, windows: bool, i: nat)
    requires |roots| == |RootLabels(hasAppDir, windows)| && i < |roots|
    ensures var files := First(NewestFirst(Gathered(roots)), MAX_FILES);
            && multiset(files) == multiset(Gathered(roots)) && Descending(files)
            && multiset(Newest(roots[i].tree)) <= multiset(files)
  {
    hide NewestFirst, Newest;
    GatheredHolds(roots, i);
    NewestFirstSorts(Gathered(roots));
    var sorted := NewestFirst(Gathered(roots));
    assert |sorted| <= MAX_FILES && sorted[..|sorted|] == sorted;
  }

  /** An installed service without a single file to show fails the export. */
  lemma MissingServiceIff(root: Root, installed: bool)
    ensures MissingService(root, installed) <==>
            installed && root.name == "service-localservice" && All(root.tree, 0) == []
  {
    hide All, Overrun, NewestFirst;
    NewestFirstSorts(Collected(root.tree, 0, []));
    CollectedExactly(root.tree, 0, []);
  }

  /** The application's own folder is looked at where there is one, the service's three on Windows. */
  lemma RootsAre(hasAppDir: bool, windows: bool)
    ensures var labels := RootLabels(hasAppDir, windows);
            && |labels| == 1 + (if hasAppDir then 1 else 0) + (if windows then 3 else 0)
            && "logs" in labels && ("flutter" in labels <==> hasAppDir)
            && forall name | name in ["service-localservice", "service-systemprofile", "service-programdata"] ::
                 name in labels <==> windows
  {
    var labels := RootLabels(hasAppDir, windows);
    if windows {
      assert labels[|labels| - 3] == "service-localservice" && labels[|labels| - 2] == "service-systemprofile";
      assert labels[|labels| - 1] == "service-programdata";
    }
    if hasAppDir {
      assert labels[1] == "flutter";
    }
  }
}
