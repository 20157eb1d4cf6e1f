/** Selection and archive together (src/diagnostics.rs:219-251, 373-434): which selected files are exported. */
module DiagnosticExport {
  import opened Prelude
  import opened DiagnosticArchive
  import opened DiagnosticFiles

  /** The files handed to the archive, newest first. */
  function Selected(roots: seq<Root>): seq<DiagnosticFile> {
    First(NewestFirst(Gathered(roots)), MAX_FILES)
  }

  datatype Report = Report(files: nat, sourceBytes: nat, truncatedFiles: nat)

  method ExportFromRoots(roots: seq<Root>, installed: bool, redact: seq<Byte> -> seq<Byte>) returns (r: Result<Report>)
    ensures r.Failed? <==> exists i :: 0 <= i < |roots| && MissingService(roots[i], installed)
    ensures r.Ok? ==> var a := OfferAll(EMPTY_ARCHIVE, Selected(roots));
                      r.value == Report(|a.entries|, a.sourceBytes, a.truncatedFiles)
  {
    var selected := SelectFiles(roots, installed);
    match selected {
      case Failed => return Failed;
      case Ok(files) =>
        var bodies, included, sourceBytes, truncatedFiles := WriteArchive(files, redact);
        return Ok(Report(included, sourceBytes, truncatedFiles));
    }
  }

  /** The archive when the first `i` files have been offered. */
  function ArchiveAt(files: seq<DiagnosticFile>, i: nat): Archive
    requires i <= |files|
  {
    OfferAll(EMPTY_ARCHIVE, files[..i])
  }

  lemma {:induction false} OfferAllSplit(a: Archive, files: seq<DiagnosticFile>, i: nat)
    requires i <= |files|
    ensures OfferAll(a, files) == OfferAll(OfferAll(a, files[..i]), files[i..])
    decreases |files|
  {
    hide Offer;
    if i > 0 {
      OfferAllSplit(Offer(a, files[0]), files[1..], i - 1);
      assert files[..i][1..] == files[1..][..i - 1] && files[1..][i - 1..] == files[i..];
    } else {
      assert files[..0] == [] && files[0..] == files;
    }
  }

  lemma NextOffer(files: seq<DiagnosticFile>, i: nat)
    requires i < |files|
    ensures ArchiveAt(files, i + 1) == Offer(ArchiveAt(files, i), files[i])
  {
    hide Offer;
    var front := files[..i + 1];
    OfferAllSplit(EMPTY_ARCHIVE, front, i);
    assert front[..i] == files[..i] && front[i..] == [files[i]];
    OneOffer(ArchiveAt(files, i), files[i]);
  }

  lemma OneOffer(a: Archive, file: DiagnosticFile)
    ensures OfferAll(a, [file]) == Offer(a, file)
  {
    hide Offer;
    assert [file][1..] == [];
  }

  /** File `i` adds an entry of its own when it is offered, and entries are never taken out again. */
  predicate IsExported(files: seq<DiagnosticFile>, i: nat)
    requires i < |files|
  {
    var before, after := ArchiveAt(files, i).entries, ArchiveAt(files, i + 1).entries;
    |after| == |before| + 1 && after[..|before|] == before && after[|before|].file == files[i]
  }

  lemma EntriesStay(files: seq<DiagnosticFile>, i: nat)
    requires i <= |files|
    ensures ArchiveAt(files, i).entries <= OfferAll(EMPTY_ARCHIVE, files).entries
  {
    OfferAllSplit(EMPTY_ARCHIVE, files, i);
    OfferAllExtends(ArchiveAt(files, i), files[i..]);
  }

  /** A selected file is exported exactly if it can be read and less than 16 MiB were taken from the files before it. */
  lemma ExportedIffBudgetLeft(roots: seq<Root>, i: nat)
    requires i < |Selected(roots)|
    ensures var files := Selected(roots);
            && (IsExported(files, i) <==> files[i].content.Some? && ArchiveAt(files, i).sourceBytes < MAX_TOTAL_BYTES)
            && (!IsExported(files, i) ==> ArchiveAt(files, i + 1) == ArchiveAt(files, i))
            && ArchiveAt(files, i + 1).entries <= OfferAll(EMPTY_ARCHIVE, files).entries
  {
    hide Selected, TailOf;
    var files := Selected(roots);
    NextOffer(files, i);
    EntriesStay(files, i + 1);
    hide ArchiveAt;
  }

  /** While the budget lasts, files of exactly 2 MiB are taken whole. */
  lemma {:induction false} FullFiles(files: seq<DiagnosticFile>, k: nat)
    requires k <= 8 && k <= |files| && forall i :: 0 <= i < k ==> IsReadable(files[i]) && Size(files[i]) == MAX_FILE_BYTES
    ensures ArchiveAt(files, k).sourceBytes == k * MAX_FILE_BYTES && |ArchiveAt(files, k).entries| == k
  {
    hide TailOf;
    if k > 0 {
      FullFiles(files, k - 1);
      NextOffer(files, k - 1);
      hide ArchiveAt;
      assert IsReadable(files[k - 1]) && Size(files[k - 1]) == MAX_FILE_BYTES;
      TailIsWholeLines(files[k - 1].content.value, MAX_FILE_BYTES);
    } else {
      assert files[..0] == [];
    }
  }

  /** So eight newest files of 2 MiB leave all others out, whichever roots they come from. */
  lemma EightFullFilesTakeAll(files: seq<DiagnosticFile>)
    requires |files| >= 8 && forall i :: 0 <= i < 8 ==> IsReadable(files[i]) && Size(files[i]) == MAX_FILE_BYTES
    ensures OfferAll(EMPTY_ARCHIVE, files) == ArchiveAt(files, 8) && |ArchiveAt(files, 8).entries| == 8
  {
    hide Offer, TailOf;
    FullFiles(files, 8);
    OfferAllSplit(EMPTY_ARCHIVE, files, 8);
    FullStaysFull(ArchiveAt(files, 8), files[8..]);
  }

  // ---------- one root takes the whole budget ----------

  function Copies(file: DiagnosticFile, n: nat): (r: seq<DiagnosticFile>)
    ensures |r| == n && forall i :: 0 <= i < n ==> r[i] == file
  {
    if n == 0 then [] else [file] + Copies(file, n - 1)
  }

  lemma {:induction false} FlatIsCopies(file: DiagnosticFile, n: nat, found: seq<DiagnosticFile>)
    requires |found| + n < CAP
    ensures CollectedFrom(Flat(file, n), 0, found) == found + Copies(file, n)
    decreases n
  {
    if n > 0 {
      FlatIsCopies(file, n - 1, found + [file]);
      assert Flat(file, n)[1..] == Flat(file, n - 1);
      assert found + Copies(file, n) == found + [file] + Copies(file, n - 1);
    } else {
      assert found + [] == found;
    }
  }

  lemma NewestInFront(file: DiagnosticFile, rest: seq<DiagnosticFile>)
    requires NewestFirst(rest) == rest && (rest != [] ==> rest[0].modified <= file.modified)
    ensures NewestFirst([file] + rest) == [file] + rest
  {
    assert ([file] + rest)[1..] == rest;
  }

  /** Equal files in front, and then older ones, are in order already. */
  lemma {:induction false} CopiesSorted(file: DiagnosticFile, n: nat, older: seq<DiagnosticFile>)
    requires NewestFirst(older) == older && (older != [] ==> older[0].modified <= file.modified)
    ensures NewestFirst(Copies(file, n) + older) == Copies(file, n) + older
    decreases n
  {
    hide NewestFirst;
    if n > 0 {
      var before := Copies(file, n - 1);
      var rest := before + older;
      CopiesSorted(file, n - 1, older);
      assert rest != [] ==> rest[0].modified <= file.modified;
      NewestInFront(file, rest);
      assert Copies(file, n) == [file] + before;
      assert ([file] + before) + older == [file] + rest;
    } else {
      assert [] + older == older;
    }
  }

  /** Two roots: one with eight files of 2 MiB, the other with one older file. */
  function CrowdedRoots(f: DiagnosticFile, g: DiagnosticFile): seq<Root> {
    [Root("logs", Directory(Some(Flat(f, 8)))), Root("flutter", Directory(Some([Candidate(g)])))]
  }

  lemma KeptWhole(root: Entry, files: seq<DiagnosticFile>)
    requires Collected(root, 0, []) == files && NewestFirst(files) == files && |files| <= MAX_FILES_PER_ROOT
    ensures Newest(root) == files
  {
    assert files[..|files|] == files;
  }

  lemma FullRoot(f: DiagnosticFile)
    ensures Newest(Directory(Some(Flat(f, 8)))) == Copies(f, 8)
  {
    FlatIsCopies(f, 8, []);
    CopiesSorted(f, 8, []);
    hide Flat, Copies, CollectedFrom, Newest;
    assert [] + Copies(f, 8) == Copies(f, 8) && Copies(f, 8) + [] == Copies(f, 8);
    KeptWhole(Directory(Some(Flat(f, 8))), Copies(f, 8));
  }

  lemma SingleSorted(g: DiagnosticFile)
    ensures NewestFirst([g]) == [g]
  {
    assert [g][1..] == [];
  }

  lemma SingleRoot(g: DiagnosticFile)
    ensures Newest(Directory(Some([Candidate(g)]))) == [g]
  {
    assert [Candidate(g)][1..] == [];
    assert CollectedFrom([Candidate(g)], 0, []) == [] + [g];
    SingleSorted(g);
    hide CollectedFrom, Newest;
    KeptWhole(Directory(Some([Candidate(g)])), [g]);
  }

  lemma TwoGathered(a: Root, b: Root)
    ensures Gathered([a, b]) == Newest(a.tree) + Newest(b.tree)
  {
    hide Newest;
    assert [a, b][..1] == [a] && [a][..0] == [];
    assert Gathered([a]) == [] + Newest(a.tree);
  }

  lemma CrowdedSelected(f: DiagnosticFile, g: DiagnosticFile)
    requires g.modified < f.modified
    ensures Newest(CrowdedRoots(f, g)[0].tree) == Copies(f, 8) && Newest(CrowdedRoots(f, g)[1].tree) == [g]
    ensures Selected(CrowdedRoots(f, g)) == Copies(f, 8) + [g]
  {
    hide Copies, Newest, Gathered, NewestFirst, Flat;
    FullRoot(f);
    SingleRoot(g);
    TwoGathered(CrowdedRoots(f, g)[0], CrowdedRoots(f, g)[1]);
    SingleSorted(g);
    CopiesSorted(f, 8, [g]);
    assert (Copies(f, 8) + [g])[..9] == Copies(f, 8) + [g];
  }

  /** The older root's newest file is selected, can be read, and is left out of the archive. */
  lemma OneRootTakesAll(f: DiagnosticFile, g: DiagnosticFile)
    requires IsReadable(f) && Size(f) == MAX_FILE_BYTES && IsReadable(g) && g.modified < f.modified
    ensures var roots, files := CrowdedRoots(f, g), Selected(CrowdedRoots(f, g));
            && Newest(roots[1].tree) == [g]
            && files == Copies(f, 8) + [g] && |OfferAll(EMPTY_ARCHIVE, files).entries| == 8
            && !IsExported(files, 8)
  {
    var roots, files := CrowdedRoots(f, g), Selected(CrowdedRoots(f, g));
    CrowdedSelected(f, g);
    hide Selected, CrowdedRoots, Offer, TailOf, Newest;
    EightFullFilesTakeAll(files);
    FullFiles(files, 8);
    ExportedIffBudgetLeft(roots, 8);
  }

  /** The 160 newest of what the roots keep are selected, in that order, and none left out is newer. */
  lemma SelectedAreNewest(roots: seq<Root>) returns (left: seq<DiagnosticFile>)
    ensures var files := Selected(roots);
            && |files| == Min(160, |Gathered(roots)|) && Descending(files)
            && multiset(files) + multiset(left) == multiset(Gathered(roots))
            && forall f, g :: f in files && g in left ==> f.modified >= g.modified
  {
    hide NewestFirst, Gathered;
    NewestFirstSorts(Gathered(roots));
    var sorted := NewestFirst(Gathered(roots));
    var n := Min(MAX_FILES, |sorted|);
    left := sorted[n..];
    assert sorted == sorted[..n] + left;
  }
}
