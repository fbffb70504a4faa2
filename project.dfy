/** The command-line editor of project.py: module-level functions that write
    into the fixed directories "output/reverse", "output/split" and
    "output/marge" under the working directory. */
module Project {
  import opened Text
  import opened Documents
  import opened Pages

  const ReverseDir := "output/reverse"
  const SplitDir := "output/split"
  const MergeDir := "output/marge"

  // ---------------------------------------------------------------------
  // check_pdf_exstention

  /** `file.split(".")[1] in ["pdf", "PDF"]`, for a name that has a dot. */
  predicate ExtensionAccepted(file: string) {
    var parts := Split(file, '.');
    |parts| >= 2 && (parts[1] == "pdf" || parts[1] == "PDF")
  }

  const MimeMessage := "Erorr: mime_type wrong"

  /** project.check_pdf_exstention: a name without a dot makes the index
      `[1]` raise IndexError; a wrong second piece raises ValueError. */
  function CheckPdfExtension(files: seq<string>): (r: Outcome<bool>)
    ensures r.Returned? <==> forall i :: 0 <= i < |files| ==> ExtensionAccepted(files[i])
    ensures r.Returned? ==> r.value
    ensures !r.Returned? ==> r == Crashed(IndexError) || r == RaisedValueError(MimeMessage)
    decreases |files|
  {
    if files == [] then Returned(true)
    else
      var parts := Split(files[0], '.');
      if |parts| < 2 then Crashed(IndexError)
      else if !(parts[1] == "pdf" || parts[1] == "PDF") then RaisedValueError(MimeMessage)
      else
        assert forall i :: 0 <= i < |files| - 1 ==> files[1..][i] == files[i + 1];
        CheckPdfExtension(files[1..])
  }

  /** The first rejected name decides the exception: IndexError exactly when
      it has no dot. */
  lemma {:induction false} CheckReportsFirstFailure(files: seq<string>, i: nat)
    requires i < |files|
    requires forall j :: 0 <= j < i ==> ExtensionAccepted(files[j])
    requires !ExtensionAccepted(files[i])
    ensures CheckPdfExtension(files) ==
      if '.' !in files[i] then Crashed(IndexError) else RaisedValueError(MimeMessage)
    decreases i
  {
    if i > 0 {
      assert ExtensionAccepted(files[0]);
      assert forall j :: 0 <= j < i - 1 ==> files[1..][j] == files[j + 1];
      CheckReportsFirstFailure(files[1..], i - 1);
    } else {
      SplitHasSecond(files[0], '.');
    }
  }

  /** The test looks only at the text between the first dot and the next
      one (or the end): "a.pdf.txt" passes, "a.tar.pdf" and "a.Pdf" do not. */
  lemma ExtensionAcceptedIff(a: string, ext: string, b: string)
    requires '.' !in a && '.' !in ext && (b == "" || b[0] == '.')
    ensures ExtensionAccepted(a + "." + ext + b) <==> ext == "pdf" || ext == "PDF"
  {
    assert a + "." + ext + b == a + ['.'] + (ext + b);
    SplitAfterFirst(a, '.', ext + b);
    SplitFirstPiece(ext, '.', b);
  }

  // ---------------------------------------------------------------------
  // pdf_reverse

  function ReverseOutPath(file: string): string {
    JoinPath(ReverseDir, "reverse-" + file)
  }

  /** Two inputs share their output file only when they are the same path. */
  lemma ReverseOutPathInjective(f: string, g: string)
    requires ReverseOutPath(f) == ReverseOutPath(g)
    ensures f == g
  {
    JoinPathInjective(ReverseDir, "reverse-" + f, "reverse-" + g);
    assert f == ("reverse-" + f)[8..] && g == ("reverse-" + g)[8..];
  }

  /** The file opens and its outline can be reversed. */
  predicate Reversible(disk: Disk, file: string) {
    Open(disk, file).Opened? && ReverseDocument(Open(disk, file).doc).Returned?
  }

  function Reversed(disk: Disk, file: string): Document
    requires Reversible(disk, file)
  {
    ReverseDocument(Open(disk, file).doc).value
  }

  /** The loop's result on a file it cannot reverse: SystemExit for a
      missing file, the reader's exception for an unreadable one, and the
      reversal's IndexError otherwise. */
  function Stopped(disk: Disk, file: string): Outcome<Document>
    requires !Reversible(disk, file)
  {
    match Open(disk, file)
    case NotFound => Exited("Not found the file " + file)
    case Unreadable => Crashed(ReadError(file))
    case Opened(doc) => Forward(ReverseDocument(doc))
  }

  /** The disk after the first file of the loop has been reversed and saved. */
  function AfterFirst(disk: Disk, files: seq<string>): Disk
    requires files != [] && Reversible(disk, files[0])
  {
    Store(disk, ReverseDir, "reverse-" + files[0], Reversed(disk, files[0]))
  }

  /** The loop of pdf_reverse from a given index on; `writer` is the writer
      of the previous iteration, if there was one. Each file is opened and
      reversed; a reversal is stored as "reverse-<file>" before the next file,
      and a file that cannot be reversed ends the loop. */
  function ReverseRun(disk: Disk, files: seq<string>, writer: Option<Document>): (Outcome<Document>, Disk)
    decreases |files|
  {
    if files == [] then
      (if writer.Some? then Returned(writer.value) else Crashed(UnboundLocal), disk)
    else if !Reversible(disk, files[0]) then (Stopped(disk, files[0]), disk)
    else ReverseRun(AfterFirst(disk, files), files[1..], Some(Reversed(disk, files[0])))
  }

  function PdfReverseOutcome(disk: Disk, files: seq<string>): (Outcome<Document>, Disk) {
    var check := CheckPdfExtension(files);
    if !check.Returned? then (Forward(check), disk) else ReverseRun(disk, files, None)
  }

  /** One pass of the file loop's body: read the file (exiting when it is
      missing), then reverse its pages and bookmarks. */
  method ReverseOne(disk: Disk, file: string) returns (r: Outcome<Document>)
    ensures Reversible(disk, file) ==> r == Returned(Reversed(disk, file))
    ensures !Reversible(disk, file) ==> r == Stopped(disk, file)
  {
    match Open(disk, file)
    case NotFound =>
      return Exited("Not found the file " + file);
    case Unreadable =>
      return Crashed(ReadError(file));
    case Opened(doc) =>
      r := ReverseWriter(doc);
      if !r.Returned? {
        return Forward(r);
      }
  }

  /** project.pdf_reverse: check the names, then reverse every file into
      "output/reverse/reverse-<file>" and return the last writer. */
  method PdfReverse(disk: Disk, files: seq<string>) returns (o: Outcome<Document>, d: Disk)
    ensures (o, d) == PdfReverseOutcome(disk, files)
  {
    var check := CheckPdfExtension(files);
    if !check.Returned? {
      return Forward(check), disk;
    }
    var writer: Option<Document> := None;
    d := disk;
    var index := 0;
    while index < |files|
      invariant 0 <= index <= |files|
      invariant ReverseRun(d, files[index..], writer) == ReverseRun(disk, files, None)
    {
      var file := files[index];
      assert files[index..][0] == file && files[index..][1..] == files[index + 1..];
      var out := ReverseOne(d, file);
      if !out.Returned? {
        ReverseRunStopsWith(d, files[index..], writer);
        return out, d;
      }
      ReverseRunContinues(d, files[index..], writer);
      d := Store(d, ReverseDir, "reverse-" + file, out.value);
      writer := Some(out.value);
      index := index + 1;
    }
    assert files[index..] == [];
    if writer.None? {
      return Crashed(UnboundLocal), d;
    }
    return Returned(writer.value), d;
  }

  /** No input is the output file of an input. */
  predicate InputsNotOutputs(files: seq<string>) {
    forall j :: 0 <= j < |files| ==> ReverseOutPath(files[j]) !in files
  }

  lemma InputsNotOutputsTail(files: seq<string>)
    requires InputsNotOutputs(files) && files != []
    ensures InputsNotOutputs(files[1..])
  {
    forall j | 0 <= j < |files| - 1
      ensures ReverseOutPath(files[1..][j]) !in files[1..]
    {
      assert files[1..][j] == files[j + 1];
    }
  }

  /** A file that reads the same on two disks reverses the same on both. */
  lemma SameInput(disk: Disk, other: Disk, file: string)
    requires Open(other, file) == Open(disk, file)
    ensures Reversible(other, file) == Reversible(disk, file)
    ensures Reversible(disk, file) ==> Reversed(other, file) == Reversed(disk, file)
  {
  }

  /** A first file that reverses is saved and the loop goes on. */
  lemma ReverseRunContinues(disk: Disk, files: seq<string>, writer: Option<Document>)
    requires files != [] && Reversible(disk, files[0])
    ensures ReverseRun(disk, files, writer) ==
      ReverseRun(AfterFirst(disk, files), files[1..], Some(Reversed(disk, files[0])))
  {
  }

  /** A first file that does not reverse ends the loop with that file's result. */
  lemma ReverseRunStopsWith(disk: Disk, files: seq<string>, writer: Option<Document>)
    requires files != [] && !Reversible(disk, files[0])
    ensures ReverseRun(disk, files, writer) == (Stopped(disk, files[0]), disk)
  {
  }

  /** A first file that does not reverse ends the loop with nothing written. */
  lemma ReverseRunStops(disk: Disk, files: seq<string>, writer: Option<Document>)
    requires files != [] && !Reversible(disk, files[0])
    ensures var (o, d) := ReverseRun(disk, files, writer);
      d == disk && (o.Exited? || o.Crashed?) && (o.Exited? ==> !Exists(disk, files[0]))
  {
    if Open(disk, files[0]).Opened? {
      ReverseDocumentSpec(Open(disk, files[0]).doc);
    }
  }

  /** Saving the first file's reversal leaves what the loop reads of the
      other inputs as it was. */
  lemma ReverseFirstStep(disk: Disk, files: seq<string>, writer: Option<Document>)
    requires InputsNotOutputs(files) && files != [] && Reversible(disk, files[0])
    ensures var next := AfterFirst(disk, files);
      && InputsNotOutputs(files[1..])
      && (forall i :: 0 <= i < |files| - 1 ==> files[1..][i] == files[i + 1])
      && (forall i :: 0 <= i < |files| ==> Open(next, files[i]) == Open(disk, files[i]))
      && ReverseRun(disk, files, writer) == ReverseRun(next, files[1..], Some(Reversed(disk, files[0])))
  {
    var next := AfterFirst(disk, files);
    ReverseRunContinues(disk, files, writer);
    forall i | 0 <= i < |files|
      ensures Open(next, files[i]) == Open(disk, files[i])
    {
      assert files[i] != ReverseOutPath(files[0]);
    }
  }

  /** The loop succeeds when it runs at least once and every file reverses. */
  lemma {:induction false} ReverseRunSucceeds(disk: Disk, files: seq<string>, writer: Option<Document>)
    requires InputsNotOutputs(files)
    requires files != [] || writer.Some?
    requires forall i :: 0 <= i < |files| ==> Reversible(disk, files[i])
    ensures ReverseRun(disk, files, writer).0.Returned?
    decreases |files|
  {
    if files != [] {
      var next := AfterFirst(disk, files);
      var rest := files[1..];
      ReverseFirstStep(disk, files, writer);
      forall i | 0 <= i < |rest|
        ensures Reversible(next, rest[i])
      {
        assert rest[i] == files[i + 1];
        assert Open(next, files[i + 1]) == Open(disk, files[i + 1]);
      }
      ReverseRunSucceeds(next, rest, Some(Reversed(disk, files[0])));
    }
  }

  /** A loop that succeeded ran at least once and reversed every file. */
  lemma {:induction false} ReverseRunSucceeded(disk: Disk, files: seq<string>, writer: Option<Document>)
    requires InputsNotOutputs(files)
    requires ReverseRun(disk, files, writer).0.Returned?
    ensures files != [] || writer.Some?
    ensures forall i :: 0 <= i < |files| ==> Reversible(disk, files[i])
    decreases |files|
  {
    if files != [] {
      if !Reversible(disk, files[0]) {
        ReverseRunStops(disk, files, writer);
      }
      var next := AfterFirst(disk, files);
      var rest := files[1..];
      ReverseFirstStep(disk, files, writer);
      ReverseRunSucceeded(next, rest, Some(Reversed(disk, files[0])));
      forall i | 0 <= i < |files|
        ensures Reversible(disk, files[i])
      {
        if i > 0 {
          assert rest[i - 1] == files[i];
          assert Open(next, files[i]) == Open(disk, files[i]);
        }
      }
    }
  }

  /** The loop succeeds exactly when it runs at least once and every file
      reverses. */
  lemma ReverseRunSucceedsIff(disk: Disk, files: seq<string>, writer: Option<Document>)
    requires InputsNotOutputs(files)
    ensures ReverseRun(disk, files, writer).0.Returned? <==>
      (files != [] || writer.Some?) && forall i :: 0 <= i < |files| ==> Reversible(disk, files[i])
  {
    if (files != [] || writer.Some?) && forall i :: 0 <= i < |files| ==> Reversible(disk, files[i]) {
      ReverseRunSucceeds(disk, files, writer);
    }
    if ReverseRun(disk, files, writer).0.Returned? {
      ReverseRunSucceeded(disk, files, writer);
    }
  }

  /** The loop exits only on a file missing from the starting disk: a save
      only adds files, so a later input cannot go missing. */
  lemma {:induction false} ReverseRunExitsOnMissing(disk: Disk, files: seq<string>, writer: Option<Document>)
    ensures ReverseRun(disk, files, writer).0.Exited? ==> exists i :: 0 <= i < |files| && !Exists(disk, files[i])
    decreases |files|
  {
    if files != [] {
      if Reversible(disk, files[0]) {
        var next := AfterFirst(disk, files);
        var rest := files[1..];
        ReverseRunContinues(disk, files, writer);
        StoreSpec(disk, ReverseDir, "reverse-" + files[0], Reversed(disk, files[0]));
        ReverseRunExitsOnMissing(next, rest, Some(Reversed(disk, files[0])));
        if ReverseRun(next, rest, Some(Reversed(disk, files[0]))).0.Exited? {
          var i :| 0 <= i < |rest| && !Exists(next, rest[i]);
          assert files[i + 1] == rest[i] && !Exists(disk, files[i + 1]);
        }
      } else {
        ReverseRunStops(disk, files, writer);
      }
    }
  }

  /** After a successful loop the returned writer is the last file's. */
  lemma {:induction false} ReverseRunReturnsLast(disk: Disk, files: seq<string>, writer: Option<Document>)
    requires InputsNotOutputs(files) && files != []
    requires ReverseRun(disk, files, writer).0.Returned?
    ensures Reversible(disk, files[|files| - 1])
    ensures ReverseRun(disk, files, writer).0.value == Reversed(disk, files[|files| - 1])
    decreases |files|
  {
    if !Reversible(disk, files[0]) {
      ReverseRunStops(disk, files, writer);
    }
    var next := AfterFirst(disk, files);
    ReverseFirstStep(disk, files, writer);
    if |files| > 1 {
      ReverseRunReturnsLast(next, files[1..], Some(Reversed(disk, files[0])));
      assert files[1..][|files| - 2] == files[|files| - 1];
    } else {
      assert files[1..] == [];
    }
  }

  /** The loop writes nothing but output files. */
  lemma {:induction false} ReverseRunFrame(disk: Disk, files: seq<string>, writer: Option<Document>, p: string)
    requires forall j :: 0 <= j < |files| ==> p != ReverseOutPath(files[j])
    ensures Open(ReverseRun(disk, files, writer).1, p) == Open(disk, p)
    decreases |files|
  {
    if files != [] {
      if Reversible(disk, files[0]) {
        var next := AfterFirst(disk, files);
        ReverseRunContinues(disk, files, writer);
        assert p != ReverseOutPath(files[0]);
        assert Open(next, p) == Open(disk, p);
        assert forall j :: 0 <= j < |files| - 1 ==> files[1..][j] == files[j + 1];
        ReverseRunFrame(next, files[1..], Some(Reversed(disk, files[0])), p);
      } else {
        ReverseRunStops(disk, files, writer);
      }
    }
  }

  /** After a successful loop each input's reversal is in its output file. */
  lemma {:induction false} ReverseRunWrites(disk: Disk, files: seq<string>, writer: Option<Document>, i: nat)
    requires InputsNotOutputs(files) && i < |files|
    requires ReverseRun(disk, files, writer).0.Returned?
    ensures Reversible(disk, files[i])
    ensures Open(ReverseRun(disk, files, writer).1, ReverseOutPath(files[i])) == Opened(Reversed(disk, files[i]))
    decreases |files|, 1
  {
    if i == 0 {
      ReverseRunWritesFirst(disk, files, writer);
    } else {
      if !Reversible(disk, files[0]) {
        ReverseRunStops(disk, files, writer);
      }
      var next := AfterFirst(disk, files);
      var rest := files[1..];
      ReverseRunContinues(disk, files, writer);
      InputsNotOutputsTail(files);
      ReverseRunWrites(next, rest, Some(Reversed(disk, files[0])), i - 1);
      assert files[i] == rest[i - 1];
      assert files[i] != ReverseOutPath(files[0]);
      SameInput(disk, next, files[i]);
    }
  }

  /** The first input's reversal survives the rest of a successful loop: a
      later copy of the same name writes the same document again, and no
      other input has that output file. */
  lemma {:induction false} ReverseRunWritesFirst(disk: Disk, files: seq<string>, writer: Option<Document>)
    requires InputsNotOutputs(files) && files != []
    requires ReverseRun(disk, files, writer).0.Returned?
    ensures Reversible(disk, files[0])
    ensures Open(ReverseRun(disk, files, writer).1, ReverseOutPath(files[0])) == Opened(Reversed(disk, files[0]))
    decreases |files|, 0
  {
    if !Reversible(disk, files[0]) {
      ReverseRunStops(disk, files, writer);
    }
    var f := files[0];
    var next := AfterFirst(disk, files);
    var rest := files[1..];
    ReverseFirstStep(disk, files, writer);
    if f in rest {
      var k :| 0 <= k < |rest| && rest[k] == f;
      ReverseRunWrites(next, rest, Some(Reversed(disk, f)), k);
      assert Open(next, f) == Open(disk, f);
    } else {
      ReverseOutputsDistinct(f, rest);
      ReverseRunFrame(next, rest, Some(Reversed(disk, f)), ReverseOutPath(f));
    }
  }

  lemma ReverseOutputsDistinct(f: string, rest: seq<string>)
    requires f !in rest
    ensures forall j :: 0 <= j < |rest| ==> ReverseOutPath(f) != ReverseOutPath(rest[j])
  {
    forall j | 0 <= j < |rest|
      ensures ReverseOutPath(f) != ReverseOutPath(rest[j])
    {
      if ReverseOutPath(f) == ReverseOutPath(rest[j]) {
        ReverseOutPathInjective(f, rest[j]);
      }
    }
  }

  /** The loop only ever returns, exits or lets an exception escape; it
      raises no ValueError of its own. */
  lemma {:induction false} ReverseRunEnds(disk: Disk, files: seq<string>, writer: Option<Document>)
    ensures var o := ReverseRun(disk, files, writer).0;
      o.Returned? || o.Exited? || o.Crashed?
    decreases |files|
  {
    if files != [] {
      if Open(disk, files[0]).Opened? {
        ReverseDocumentSpec(Open(disk, files[0]).doc);
      }
      if Reversible(disk, files[0]) {
        var out := Reversed(disk, files[0]);
        ReverseRunEnds(Store(disk, ReverseDir, "reverse-" + files[0], out), files[1..], Some(out));
      }
    }
  }

  /** pdf_reverse: a rejected name raises the check's exception with nothing
      written, a ValueError comes only from the check, an empty list ends in
      UnboundLocalError, and accepted names go through the loop. */
  lemma PdfReverseSpec(disk: Disk, files: seq<string>)
    ensures var (o, d) := PdfReverseOutcome(disk, files);
      && ((exists i :: 0 <= i < |files| && !ExtensionAccepted(files[i])) ==>
            (o == Crashed(IndexError) || o == RaisedValueError(MimeMessage)) && d == disk)
      && (o.RaisedValueError? ==> exists i :: 0 <= i < |files| && !ExtensionAccepted(files[i]))
      && (files == [] ==> o == Crashed(UnboundLocal) && d == disk)
      && ((forall i :: 0 <= i < |files| ==> ExtensionAccepted(files[i])) ==> (o, d) == ReverseRun(disk, files, None))
  {
    ReverseRunEnds(disk, files, None);
  }

  // ---------------------------------------------------------------------
  // pdf_split

  /** `reader.pages[i]`: a negative index counts from the end. */
  function PageAt(pages: seq<Page>, i: int): (r: Option<Page>)
    ensures r.Some? <==> -|pages| <= i < |pages|
  {
    if 0 <= i < |pages| then Some(pages[i])
    else if -|pages| <= i < 0 then Some(pages[|pages| + i])
    else None
  }

  /** The `for i in range(i, hi)` page loop from index `i` on, with the pages
      added so far; None when an index is out of range. */
  function CopyPages(pages: seq<Page>, i: int, hi: int, added: seq<Page>): Option<seq<Page>>
    decreases hi - i
  {
    if i >= hi then Some(added)
    else match PageAt(pages, i)
      case None => None
      case Some(page) => CopyPages(pages, i + 1, hi, added + [page])
  }

  /** The page loop succeeds exactly when both ends of the range are inside
      [-N, N]; it then adds the pages the indices name, in order. */
  lemma {:induction false} CopyPagesSpec(pages: seq<Page>, i: int, hi: int, added: seq<Page>)
    ensures var r := CopyPages(pages, i, hi, added);
      && (r.Some? <==> i >= hi || (-|pages| <= i && hi <= |pages|))
      && (r.Some? ==>
            && |r.value| == |added| + (if i < hi then hi - i else 0)
            && r.value[..|added|] == added
            && forall j :: i <= j < hi ==> PageAt(pages, j).Some? && r.value[|added| + (j - i)] == PageAt(pages, j).value)
    decreases hi - i
  {
    if i < hi && PageAt(pages, i).Some? {
      var page := PageAt(pages, i).value;
      CopyPagesSpec(pages, i + 1, hi, added + [page]);
      var r := CopyPages(pages, i + 1, hi, added + [page]);
      if r.Some? {
        assert r.value[..|added|] == r.value[..|added| + 1][..|added|];
        forall j | i <= j < hi
          ensures PageAt(pages, j).Some? && r.value[|added| + (j - i)] == PageAt(pages, j).value
        {
          if j == i {
            assert r.value[|added|] == r.value[..|added| + 1][|added|];
          } else {
            assert r.value[|added + [page]| + (j - (i + 1))] == PageAt(pages, j).value;
          }
        }
      }
    }
  }

  /** The range asked for with a 1-based `from_` >= 1: the pages from_..to. */
  lemma CopyPagesFromOne(pages: seq<Page>, from: int, to: int)
    requires 1 <= from <= to
    ensures CopyPages(pages, from - 1, to, []).Some? <==> to <= |pages|
    ensures to <= |pages| ==> CopyPages(pages, from - 1, to, []) == Some(pages[from - 1..to])
  {
    CopyPagesSpec(pages, from - 1, to, []);
    if to <= |pages| {
      var r := CopyPages(pages, from - 1, to, []).value;
      forall k | 0 <= k < to - from + 1
        ensures r[k] == pages[from - 1 + k]
      {
        assert r[0 + (from - 1 + k - (from - 1))] == PageAt(pages, from - 1 + k).value;
      }
      assert r == pages[from - 1..to];
    }
  }

  method AddPages(pages: seq<Page>, lo: int, hi: int) returns (r: Option<seq<Page>>)
    ensures r == CopyPages(pages, lo, hi, [])
  {
    var added: seq<Page> := [];
    var i := lo;
    while i < hi
      invariant lo <= i || hi <= lo
      invariant CopyPages(pages, i, hi, added) == CopyPages(pages, lo, hi, [])
      decreases hi - i
    {
      var page := PageAt(pages, i);
      if page.None? {
        return None;
      }
      added := added + [page.value];
      i := i + 1;
    }
    return Some(added);
  }

  function SplitName(from: int, to: int): string {
    "split-" + IntToString(from) + "-" + IntToString(to) + ".pdf"
  }

  function PdfSplitOutcome(disk: Disk, file: string, from: int, to: int): (Outcome<Document>, Disk) {
    var check := CheckPdfExtension([file]);
    if !check.Returned? then (Forward(check), disk)
    else if from > to then (RaisedValueError("'from_' must be less than 'to'"), disk)
    else match Open(disk, file)
      case NotFound => (Exited("Not found the file " + file), disk)
      case Unreadable => (Crashed(ReadError(file)), disk)
      case Opened(doc) =>
        var copied := CopyPages(doc.pages, from - 1, to, []);
        if copied.None? then (Exited("Your pdf pages mixmum equal " + Dec(|doc.pages|)), disk)
        else if |copied.value| == |doc.pages| then (Exited("This equal"), disk)
        else
          var out := Document(copied.value, [], FreshMetadata);
          (Returned(out), Store(disk, SplitDir, SplitName(from, to), out))
  }

  /** project.pdf_split: check the name and the range, copy pages
      from_..to into a fresh writer, refuse a copy of the whole file, save
      "output/split/split-{from_}-{to}.pdf". */
  method PdfSplit(disk: Disk, file: string, from: int, to: int) returns (o: Outcome<Document>, d: Disk)
    ensures (o, d) == PdfSplitOutcome(disk, file, from, to)
  {
    var check := CheckPdfExtension([file]);
    if !check.Returned? {
      return Forward(check), disk;
    }
    if from > to {
      return RaisedValueError("'from_' must be less than 'to'"), disk;
    }
    match Open(disk, file)
    case NotFound =>
      return Exited("Not found the file " + file), disk;
    case Unreadable =>
      return Crashed(ReadError(file)), disk;
    case Opened(doc) =>
      var copied := AddPages(doc.pages, from - 1, to);
      if copied.None? {
        return Exited("Your pdf pages mixmum equal " + Dec(|doc.pages|)), disk;
      }
      if |copied.value| == |doc.pages| {
        return Exited("This equal"), disk;
      }
      var out := Document(copied.value, [], FreshMetadata);
      d := Store(disk, SplitDir, SplitName(from, to), out);
      o := Returned(out);
  }

  /** pdf_split for a readable file of N pages and 1 <= from_ <= to: it exits
      when `to` passes N or when the range is the whole file, and otherwise
      saves exactly pages from_..to. */
  lemma PdfSplitSpec(disk: Disk, file: string, from: int, to: int)
    requires ExtensionAccepted(file) && Open(disk, file).Opened?
    requires 1 <= from <= to
    ensures var doc := Open(disk, file).doc;
      var (o, d) := PdfSplitOutcome(disk, file, from, to);
      && (to > |doc.pages| ==> o == Exited("Your pdf pages mixmum equal " + Dec(|doc.pages|)) && d == disk)
      && (to <= |doc.pages| && from == 1 && to == |doc.pages| ==> o == Exited("This equal") && d == disk)
      && (o.Returned? <==> to <= |doc.pages| && !(from == 1 && to == |doc.pages|))
      && (o.Returned? ==>
            && o.value.pages == doc.pages[from - 1..to]
            && Open(d, JoinPath(SplitDir, SplitName(from, to))) == Opened(o.value)
            && forall p :: p != JoinPath(SplitDir, SplitName(from, to)) ==> Open(d, p) == Open(disk, p))
  {
    assert CheckPdfExtension([file]).Returned?;
    CopyPagesFromOne(Open(disk, file).doc.pages, from, to);
    var (o, d) := PdfSplitOutcome(disk, file, from, to);
    if o.Returned? {
      StoreSpec(disk, SplitDir, SplitName(from, to), o.value);
    }
  }

  /** The name checks come first, then the range test; both write nothing. */
  lemma PdfSplitChecksFirst(disk: Disk, file: string, from: int, to: int)
    ensures var (o, d) := PdfSplitOutcome(disk, file, from, to);
      && (!ExtensionAccepted(file) ==> (o == Crashed(IndexError) || o == RaisedValueError(MimeMessage)) && d == disk)
      && (ExtensionAccepted(file) && from > to ==> o == RaisedValueError("'from_' must be less than 'to'") && d == disk)
      && (ExtensionAccepted(file) && from <= to && !Exists(disk, file) ==> o == Exited("Not found the file " + file) && d == disk)
  {
    assert ExtensionAccepted(file) ==> CheckPdfExtension([file]).Returned?;
  }

  // ---------------------------------------------------------------------
  // pdf_marge

  const MergeOutput := "output.pdf"

  function PdfMargeOutcome(disk: Disk, pdfs: seq<string>): (Outcome<Document>, Disk) {
    var check := CheckPdfExtension(pdfs);
    if !check.Returned? then (Forward(check), disk)
    else if |pdfs| < 2 then (RaisedValueError("less than two file"), disk)
    else
      var merged := MergedPages(disk, pdfs);
      if !merged.Returned? then (Forward(merged), disk)
      else
        var out := Document(merged.value, [], FreshMetadata);
        (Returned(out), Store(disk, MergeDir, MergeOutput, out))
  }

  /** project.pdf_marge: check, refuse fewer than two files, append every
      file, write "output/marge/output.pdf" whatever was there before. */
  method PdfMarge(disk: Disk, pdfs: seq<string>) returns (o: Outcome<Document>, d: Disk)
    ensures (o, d) == PdfMargeOutcome(disk, pdfs)
  {
    var check := CheckPdfExtension(pdfs);
    if !check.Returned? {
      return Forward(check), disk;
    }
    if |pdfs| < 2 {
      return RaisedValueError("less than two file"), disk;
    }
    var merged := AppendAll(disk, pdfs);
    if !merged.Returned? {
      return Forward(merged), disk;
    }
    var out := Document(merged.value, [], FreshMetadata);
    d := Store(disk, MergeDir, MergeOutput, out);
    o := Returned(out);
  }

  /** The failures of pdf_marge: the check's exceptions, the ValueError for
      fewer than two names, nothing written, and an exit only on a missing file. */
  lemma PdfMargeFailures(disk: Disk, pdfs: seq<string>)
    ensures var (o, d) := PdfMargeOutcome(disk, pdfs);
      && ((exists i :: 0 <= i < |pdfs| && !ExtensionAccepted(pdfs[i])) ==>
            (o == Crashed(IndexError) || o == RaisedValueError(MimeMessage)))
      && ((forall i :: 0 <= i < |pdfs| ==> ExtensionAccepted(pdfs[i])) && |pdfs| < 2 ==> o == RaisedValueError("less than two file"))
      && (!o.Returned? ==> d == disk)
      && (o.Exited? ==> exists i :: 0 <= i < |pdfs| && !Exists(disk, pdfs[i]))
  {
    if !(exists i :: 0 <= i < |pdfs| && !Exists(disk, pdfs[i])) {
      MergedPagesNeverExitsOnExistingFiles(disk, pdfs);
    }
  }

  /** When pdf_marge succeeds: exactly when every name passes, there are at
      least two and all open; the output holds their pages in order and is
      the only file written. */
  lemma PdfMargeResult(disk: Disk, pdfs: seq<string>)
    ensures var (o, d) := PdfMargeOutcome(disk, pdfs);
      && (o.Returned? <==> (forall i :: 0 <= i < |pdfs| ==> ExtensionAccepted(pdfs[i])) && |pdfs| >= 2 && AllOpen(disk, pdfs))
      && (o.Returned? ==>
            && o.value.pages == Flatten(PagesOf(disk, pdfs))
            && |o.value.pages| == SumOfLengths(PagesOf(disk, pdfs))
            && Open(d, "output/marge/output.pdf") == Opened(o.value)
            && forall p :: p != "output/marge/output.pdf" ==> Open(d, p) == Open(disk, p))
  {
    MergedPagesSpec(disk, pdfs);
    var o := PdfMargeOutcome(disk, pdfs).0;
    if o.Returned? {
      assert JoinPath(MergeDir, MergeOutput) == "output/marge/output.pdf";
      StoreSpec(disk, MergeDir, MergeOutput, o.value);
    }
  }

  /** Summary of PdfMargeFailures and PdfMargeResult in one statement.
      pdf_marge: nothing is written unless every name passes, there are at
      least two and every file parses; then the in-order concatenation of
      their pages replaces "output/marge/output.pdf" and nothing else. */
  lemma PdfMargeSpec(disk: Disk, pdfs: seq<string>)
    ensures var (o, d) := PdfMargeOutcome(disk, pdfs);
      && ((exists i :: 0 <= i < |pdfs| && !ExtensionAccepted(pdfs[i])) ==>
            (o == Crashed(IndexError) || o == RaisedValueError(MimeMessage)))
      && ((forall i :: 0 <= i < |pdfs| ==> ExtensionAccepted(pdfs[i])) && |pdfs| < 2 ==> o == RaisedValueError("less than two file"))
      && (!o.Returned? ==> d == disk)
      && (o.Exited? ==> exists i :: 0 <= i < |pdfs| && !Exists(disk, pdfs[i]))
      && (o.Returned? <==> (forall i :: 0 <= i < |pdfs| ==> ExtensionAccepted(pdfs[i])) && |pdfs| >= 2 && AllOpen(disk, pdfs))
      && (o.Returned? ==>
            && o.value.pages == Flatten(PagesOf(disk, pdfs))
            && |o.value.pages| == SumOfLengths(PagesOf(disk, pdfs))
            && Open(d, "output/marge/output.pdf") == Opened(o.value)
            && forall p :: p != "output/marge/output.pdf" ==> Open(d, p) == Open(disk, p))
  {
    PdfMargeFailures(disk, pdfs);
    PdfMargeResult(disk, pdfs);
  }

}
