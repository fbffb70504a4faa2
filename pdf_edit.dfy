/** The operations layer of pdf_edit.py (class PDFEdit). The class's one field,
    the output directory, is the `root` parameter of the operations here; the
    file system is passed in and handed back as a `Disk` value. */
module PdfEdit {
  import opened Text
  import opened Documents
  import opened Pages

  // ---------------------------------------------------------------------
  // check_pdf_extension

  /** `os.path.splitext(path)[1].lower() == ".pdf"`. */
  predicate HasPdfExtension(path: string) {
    Lower(Extension(path)) == ".pdf"
  }

  /** A base name ending in ".pdf" in any case, with something other than
      dots before those four characters. */
  predicate IsPdfBasename(b: string) {
    && |b| >= 5
    && Lower(b[|b| - 4..]) == ".pdf"
    && exists j :: 0 <= j < |b| - 4 && b[j] != '.'
  }

  /** Four characters that lower-case to ".pdf": a dot, then no dot. */
  lemma LowerIsPdf(t: string)
    requires Lower(t) == ".pdf"
    ensures |t| == 4 && t[0] == '.' && t[1] != '.' && t[2] != '.' && t[3] != '.'
  {
    LowerAt(t);
    var l := Lower(t);
    assert l[0] == LowerChar(t[0]) && l[1] == LowerChar(t[1]);
    assert l[2] == LowerChar(t[2]) && l[3] == LowerChar(t[3]);
    assert l[0] == '.' && l[1] == 'p' && l[2] == 'd' && l[3] == 'f';
  }

  lemma BasenameFromParts(path: string, j: int)
    requires |path| >= 4 && Lower(path[|path| - 4..]) == ".pdf"
    requires LastIndexOf(path, '/') < j < |path| - 4 && path[j] != '.'
    ensures IsPdfBasename(Basename(path))
  {
    var x := LastIndexOf(path, '/') + 1;
    var b := path[x..];
    SuffixOfSuffix(path, x, 4);
    assert b[j - x] == path[j];
    PdfBasenameOf(b, path[|path| - 4..], j - x);
  }

  /** A name of at least five characters whose last four lower-case to
      ".pdf" and which has a non-dot before them is a PDF base name. */
  lemma PdfBasenameOf(b: string, tail: string, k: int)
    requires |b| >= 5 && b[|b| - 4..] == tail && Lower(tail) == ".pdf"
    requires 0 <= k < |b| - 4 && b[k] != '.'
    ensures IsPdfBasename(b)
  {
  }

  lemma ExtensionToBasename(path: string)
    requires HasPdfExtension(path)
    ensures IsPdfBasename(Basename(path))
  {
    var ext := Extension(path);
    LowerIsPdf(ext);
    var j := ExtensionWitness(path);
    assert path[|path| - 4..] == ext;
    BasenameFromParts(path, j);
  }

  lemma ExtensionFromParts(path: string, j: int)
    requires |path| >= 4 && Lower(path[|path| - 4..]) == ".pdf"
    requires LastIndexOf(path, '/') < j < |path| - 4 && path[j] != '.'
    ensures HasPdfExtension(path)
  {
    var n := |path|;
    var t := path[n - 4..];
    LowerIsPdf(t);
    assert t[0] == path[n - 4] && t[1] == path[n - 3] && t[2] == path[n - 2] && t[3] == path[n - 1];
    forall k | n - 4 < k < n
      ensures path[k] != '.'
    {
      assert k == n - 3 || k == n - 2 || k == n - 1;
    }
    LastIndexOfIs(path, '.', n - 4);
    ExtensionAt(path, n - 4, j);
  }

  lemma BasenameToExtension(path: string)
    requires IsPdfBasename(Basename(path))
    ensures HasPdfExtension(path)
  {
    var sep := LastIndexOf(path, '/');
    var b := Basename(path);
    assert b == path[sep + 1..];
    var n := |path|;
    assert path[n - 4..] == b[|b| - 4..];
    var j0 :| 0 <= j0 < |b| - 4 && b[j0] != '.';
    assert path[sep + 1 + j0] == b[j0];
    ExtensionFromParts(path, sep + 1 + j0);
  }

  /** The extension test, stated on the file's base name. */
  lemma HasPdfExtensionIff(path: string)
    ensures HasPdfExtension(path) <==> IsPdfBasename(Basename(path))
  {
    if HasPdfExtension(path) {
      ExtensionToBasename(path);
    }
    if IsPdfBasename(Basename(path)) {
      BasenameToExtension(path);
    }
  }

  /** What check_pdf_extension demands of one path. */
  predicate ValidInput(disk: Disk, file: string) {
    HasPdfExtension(file) && Exists(disk, file)
  }

  function ExtensionMessage(file: string): string {
    "The file '" + file + "' does not have a .pdf extension."
  }

  function MissingMessage(file: string): string {
    "The file '" + file + "' does not exist."
  }

  /** The message for a path that fails the check: the extension is tested first. */
  function FailureMessage(file: string): string {
    if !HasPdfExtension(file) then ExtensionMessage(file) else MissingMessage(file)
  }

  /** PDFEdit.check_pdf_extension: the paths are tested in order, the
      extension before existence, and the first failure is reported. */
  function CheckPdfExtension(files: seq<string>, disk: Disk): (bool, string)
    decreases |files|
  {
    if files == [] then (true, "")
    else if !HasPdfExtension(files[0]) then (false, ExtensionMessage(files[0]))
    else if !Exists(disk, files[0]) then (false, MissingMessage(files[0]))
    else CheckPdfExtension(files[1..], disk)
  }

  /** The check passes, with an empty message, exactly when every path has a
      .pdf extension and exists. */
  lemma {:induction false} CheckPdfExtensionSpec(files: seq<string>, disk: Disk)
    ensures var r := CheckPdfExtension(files, disk);
      && (r.0 <==> forall i :: 0 <= i < |files| ==> ValidInput(disk, files[i]))
      && (r.0 ==> r.1 == "")
    decreases |files|
  {
    if files != [] && ValidInput(disk, files[0]) {
      var rest := files[1..];
      CheckPdfExtensionSpec(rest, disk);
      assert forall i :: 0 <= i < |files| - 1 ==> rest[i] == files[i + 1];
    }
  }

  /** A failed check names the first failing path, with the extension
      failure taking precedence over the missing file. */
  lemma {:induction false} CheckReportsFirstFailure(files: seq<string>, disk: Disk, i: nat)
    requires i < |files|
    requires forall j :: 0 <= j < i ==> ValidInput(disk, files[j])
    requires !ValidInput(disk, files[i])
    ensures CheckPdfExtension(files, disk) ==
      (false, FailureMessage(files[i]))
    decreases i
  {
    if i == 0 {
      CheckStops(files, disk);
    } else {
      var rest := files[1..];
      CheckGoesOn(files, disk);
      forall j | 0 <= j < i - 1
        ensures ValidInput(disk, rest[j])
      {
        assert rest[j] == files[j + 1];
      }
      assert rest[i - 1] == files[i];
      CheckReportsFirstFailure(rest, disk, i - 1);
    }
  }

  /** A first path that passes sends the check on to the rest. */
  lemma CheckGoesOn(files: seq<string>, disk: Disk)
    requires files != [] && ValidInput(disk, files[0])
    ensures CheckPdfExtension(files, disk) == CheckPdfExtension(files[1..], disk)
  {
  }

  /** A first path that fails is the one the check reports. */
  lemma CheckStops(files: seq<string>, disk: Disk)
    requires files != [] && !ValidInput(disk, files[0])
    ensures CheckPdfExtension(files, disk) == (false, FailureMessage(files[0]))
  {
  }

  // ---------------------------------------------------------------------
  // __search_is_name_valid

  /** `name.replace(".pdf", f"copy-{count}.pdf")`. */
  function CopyName(name: string, count: nat): string {
    Replace(name, ".pdf", "copy-" + Dec(count) + ".pdf")
  }

  /** The test the scan applies to one listing entry with the counter so far. */
  predicate Matches(name: string, entry: string, count: nat) {
    name == entry || CopyName(name, count) == entry
  }

  /** The counter at the end of the scan: an entry bumps it when it is the
      name or the copy name for the counter's value at that point. */
  function MatchCount(name: string, listing: seq<string>): (count: nat)
    ensures count <= |listing|
    decreases |listing|
  {
    if listing == [] then 0
    else
      var before := MatchCount(name, listing[..|listing| - 1]);
      if Matches(name, listing[|listing| - 1], before) then before + 1 else before
  }

  /** The name __search_is_name_valid returns for a directory listing. */
  function ResolvedName(name: string, listing: seq<string>): string {
    var count := MatchCount(name, listing);
    if count == 0 then name else CopyName(name, count)
  }

  /** PDFEdit.__search_is_name_valid over a snapshot of `os.listdir`. */
  method SearchIsNameValid(name: string, listing: seq<string>) returns (r: string)
    ensures r == ResolvedName(name, listing)
  {
    var count := 0;
    var i := 0;
    while i < |listing|
      invariant 0 <= i <= |listing|
      invariant count == MatchCount(name, listing[..i])
    {
      assert listing[..i + 1][..i] == listing[..i];
      if name == listing[i] || CopyName(name, count) == listing[i] {
        count := count + 1;
      }
      i := i + 1;
    }
    assert listing[..i] == listing;
    if count == 0 {
      return name;
    }
    return CopyName(name, count);
  }

  /** Every entry equal to the name bumps the counter. */
  lemma {:induction false} MatchCountAtLeastOccurrences(name: string, listing: seq<string>)
    ensures MatchCount(name, listing) >= multiset(listing)[name]
    decreases |listing|
  {
    if listing != [] {
      var n := |listing| - 1;
      MatchCountAtLeastOccurrences(name, listing[..n]);
      assert listing == listing[..n] + [listing[n]];
      assert multiset(listing) == multiset(listing[..n]) + multiset{listing[n]};
    }
  }

  /** For a name containing ".pdf", the name comes back unchanged exactly
      when no listing entry matched during the scan. */
  lemma ResolvedNameUnchangedIff(name: string, listing: seq<string>)
    requires Contains(name, ".pdf")
    ensures ResolvedName(name, listing) == name <==> MatchCount(name, listing) == 0
  {
    var count := MatchCount(name, listing);
    if count > 0 {
      ReplaceLength(name, ".pdf", "copy-" + Dec(count) + ".pdf");
    }
  }

  /** A name that comes back unchanged is not in the listing. */
  lemma UnchangedNameIsFree(name: string, listing: seq<string>)
    requires Contains(name, ".pdf") && ResolvedName(name, listing) == name
    ensures name !in listing
  {
    ResolvedNameUnchangedIff(name, listing);
    MatchCountAtLeastOccurrences(name, listing);
  }

  /** A name already in the listing comes back different, with "copy-" in it. */
  lemma ExistingNameGetsCopy(name: string, listing: seq<string>)
    requires name in listing && Contains(name, ".pdf")
    ensures ResolvedName(name, listing) != name
    ensures Contains(ResolvedName(name, listing), "copy-")
  {
    MatchCountAtLeastOccurrences(name, listing);
    var count := MatchCount(name, listing);
    ResolvedNameUnchangedIff(name, listing);
    var rep := "copy-" + Dec(count) + ".pdf";
    ReplaceIntroduces(name, ".pdf", rep);
    ContainsPrefixOf(ResolvedName(name, listing), rep, "copy-");
  }

  /** A name without a lower-case ".pdf" (such as "reverse-A.PDF") is
      returned as it is even when the listing holds it. */
  lemma NameWithoutPdfIsKept(name: string, listing: seq<string>)
    requires !Contains(name, ".pdf")
    ensures ResolvedName(name, listing) == name
  {
    var count := MatchCount(name, listing);
    if count > 0 {
      ReplaceAbsent(name, ".pdf", "copy-" + Dec(count) + ".pdf");
    }
  }

  /** The first copy name differs from the name and from the zeroth copy name. */
  lemma FirstCopyNameIsNew(name: string)
    requires Contains(name, ".pdf")
    ensures CopyName(name, 1) != name && CopyName(name, 1) != CopyName(name, 0)
  {
    assert Dec(0) == "0" && Dec(1) == "1";
    var r0, r1 := "copy-" + Dec(0) + ".pdf", "copy-" + Dec(1) + ".pdf";
    assert r0[5] != r1[5];
    ReplaceDistinct(name, ".pdf", r0, r1);
    ReplaceLength(name, ".pdf", r1);
  }

  /** One scan does not always find a free name: if "<x>copy-1.pdf" is
      listed before "<x>.pdf", the scan returns "<x>copy-1.pdf", a name
      already in the directory (so saving overwrites that file). */
  lemma ResolvedNameCanCollide(name: string)
    requires Contains(name, ".pdf")
    ensures var listing := [CopyName(name, 1), name];
      ResolvedName(name, listing) == listing[0]
  {
    var listing := [CopyName(name, 1), name];
    FirstCopyNameIsNew(name);
    assert !Matches(name, listing[0], 0);
    assert listing[..1][..0] == [];
    assert MatchCount(name, listing[..1]) == 0;
    assert listing[..2][..1] == listing[..1] && listing[..2] == listing;
    assert MatchCount(name, listing) == 1;
  }

  // ---------------------------------------------------------------------
  // __save_file_as_pdf

  /** The `match process` of __save_file_as_pdf. */
  function Subdirectory(process: string): string {
    if process == "rev" then "reverse"
    else if process == "split" then "split"
    else if process == "marge" then "marge"
    else ""
  }

  function SaveDirectory(root: string, process: string): string {
    JoinPath(root, Subdirectory(process))
  }

  predicate KnownProcess(process: string) {
    process == "rev" || process == "split" || process == "marge"
  }

  /** The three operations save into three different directories, each
      inside the output root. */
  lemma SaveDirectoriesDistinct(root: string, p: string, q: string)
    requires KnownProcess(p) && KnownProcess(q) && p != q
    ensures SaveDirectory(root, p) != SaveDirectory(root, q)
    ensures root <= SaveDirectory(root, p) && |root| < |SaveDirectory(root, p)|
  {
    if SaveDirectory(root, p) == SaveDirectory(root, q) {
      JoinPathInjective(root, Subdirectory(p), Subdirectory(q));
    }
  }

  /** Any other process tag saves into the output root itself. */
  lemma OtherProcessSavesInRoot(root: string, process: string)
    requires !KnownProcess(process)
    ensures SaveDirectory(root, process) == root || SaveDirectory(root, process) == root + "/"
  {
  }

  /** The name the document is saved under. */
  function SavedName(disk: Disk, root: string, process: string, name: string): string {
    ResolvedName(name, ListDir(disk, SaveDirectory(root, process)))
  }

  /** The disk after __save_file_as_pdf. */
  function Save(disk: Disk, root: string, process: string, name: string, doc: Document): Disk {
    Store(disk, SaveDirectory(root, process), SavedName(disk, root, process, name), doc)
  }

  /** PDFEdit.__save_file_as_pdf: pick the directory for the process, make
      the name unique against its listing, write the writer's document. */
  method SaveFileAsPdf(disk: Disk, root: string, process: string, name: string, doc: Document)
    returns (d: Disk)
    ensures d == Save(disk, root, process, name, doc)
  {
    var dir := SaveDirectory(root, process);
    var saved := SearchIsNameValid(name, ListDir(disk, dir));
    d := Store(disk, dir, saved, doc);
  }

  lemma ReplaceKeepsHead(s: string, pat: string, rep: string, c: char)
    requires |pat| > 0 && |s| > 0 && s[0] != c && |rep| > 0 && rep[0] != c
    ensures |Replace(s, pat, rep)| > 0 && Replace(s, pat, rep)[0] != c
  {
  }

  /** A name that does not start with '/' resolves to one that does not
      either, so it stays inside the directory it is joined to. */
  lemma SavedNameRelative(disk: Disk, root: string, process: string, name: string)
    requires |name| > 0 && name[0] != '/'
    ensures var saved := SavedName(disk, root, process, name);
      |saved| > 0 && saved[0] != '/'
  {
    var count := MatchCount(name, ListDir(disk, SaveDirectory(root, process)));
    if count > 0 {
      ReplaceKeepsHead(name, ".pdf", "copy-" + Dec(count) + ".pdf", '/');
    }
  }

  /** No path of the list lies under the directory. */
  predicate OutsideOf(dir: string, files: seq<string>) {
    forall i :: 0 <= i < |files| ==> !(dir <= files[i])
  }

  /** Saving a relative name writes the document at the resolved name in
      the save directory; every path outside that directory reads as before. */
  lemma SaveStaysInDirectory(disk: Disk, root: string, process: string, name: string, doc: Document)
    requires |name| > 0 && name[0] != '/'
    ensures var dir := SaveDirectory(root, process);
      var d := Save(disk, root, process, name, doc);
      && Open(d, JoinPath(dir, SavedName(disk, root, process, name))) == Opened(doc)
      && forall p :: !(dir <= p) ==> Open(d, p) == Open(disk, p)
  {
    var dir := SaveDirectory(root, process);
    var saved := SavedName(disk, root, process, name);
    SavedNameRelative(disk, root, process, name);
    JoinPathSpec(dir, saved);
    StoreSpec(disk, dir, saved, doc);
  }

  lemma SaveLeavesOutside(disk: Disk, root: string, process: string, name: string, doc: Document, p: string)
    requires |name| > 0 && name[0] != '/' && !(SaveDirectory(root, process) <= p)
    ensures Open(Save(disk, root, process, name, doc), p) == Open(disk, p)
  {
    SaveStaysInDirectory(disk, root, process, name, doc);
  }

  /** Saving under a name that is already listed in the directory (and
      contains ".pdf") leaves the file of that name as it was. */
  lemma SaveKeepsListedFile(disk: Disk, root: string, process: string, name: string, doc: Document)
    requires |name| > 0 && name[0] != '/' && Contains(name, ".pdf")
    requires name in ListDir(disk, SaveDirectory(root, process))
    ensures var path := JoinPath(SaveDirectory(root, process), name);
      Open(Save(disk, root, process, name, doc), path) == Open(disk, path)
  {
    var dir := SaveDirectory(root, process);
    var listing := ListDir(disk, dir);
    var saved := SavedName(disk, root, process, name);
    ExistingNameGetsCopy(name, listing);
    var count := MatchCount(name, listing);
    ReplaceKeepsHead(name, ".pdf", "copy-" + Dec(count) + ".pdf", '/');
    if JoinPath(dir, saved) == JoinPath(dir, name) {
      JoinPathInjective(dir, saved, name);
    }
    StoreSpec(disk, dir, saved, doc);
  }

  // ---------------------------------------------------------------------
  // pdf_reverse

  function ReverseName(file: string): string {
    "reverse-" + Basename(file)
  }

  lemma ReverseNameRelative(file: string)
    ensures |ReverseName(file)| > 0 && ReverseName(file)[0] != '/'
  {
  }

  /** The file loop of pdf_reverse, from a given file on. */
  function ReverseRun(disk: Disk, root: string, files: seq<string>): (Outcome<bool>, Disk)
    decreases |files|
  {
    if files == [] then (Returned(true), disk)
    else match Open(disk, files[0])
      case NotFound => (Exited("Not found the file " + files[0]), disk)
      case Unreadable => (Crashed(ReadError(files[0])), disk)
      case Opened(doc) =>
        var out := ReverseDocument(doc);
        if !out.Returned? then (Forward(out), disk)
        else ReverseRun(Save(disk, root, "rev", ReverseName(files[0]), out.value), root, files[1..])
  }

  /** A file that opens and reverses is saved, and the loop goes on. */
  lemma ReverseRunContinues(disk: Disk, root: string, files: seq<string>, doc: Document)
    requires files != [] && Open(disk, files[0]) == Opened(doc) && ReverseDocument(doc).Returned?
    ensures ReverseRun(disk, root, files)
      == ReverseRun(Save(disk, root, "rev", ReverseName(files[0]), ReverseDocument(doc).value), root, files[1..])
  {
  }

  function PdfReverseOutcome(disk: Disk, root: string, files: seq<string>): (Outcome<bool>, Disk) {
    var check := CheckPdfExtension(files, disk);
    if !check.0 then (Rejected(check.1), disk) else ReverseRun(disk, root, files)
  }

  /** PDFEdit.pdf_reverse: after the check, each file in turn is read,
      reversed and saved as "reverse-<basename>" under `reverse`. */
  method PdfReverse(disk: Disk, root: string, files: seq<string>) returns (o: Outcome<bool>, d: Disk)
    ensures (o, d) == PdfReverseOutcome(disk, root, files)
  {
    var check := CheckPdfExtension(files, disk);
    if !check.0 {
      return Rejected(check.1), disk;
    }
    d := disk;
    var index := 0;
    while index < |files|
      invariant 0 <= index <= |files|
      invariant ReverseRun(d, root, files[index..]) == ReverseRun(disk, root, files)
    {
      var file := files[index];
      assert files[index..][0] == file && files[index..][1..] == files[index + 1..];
      match Open(d, file)
      case NotFound =>
        return Exited("Not found the file " + file), d;
      case Unreadable =>
        return Crashed(ReadError(file)), d;
      case Opened(doc) =>
        var out := ReverseWriter(doc);
        if !out.Returned? {
          return Forward(out), d;
        }
        ReverseRunContinues(d, root, files[index..], doc);
        d := SaveFileAsPdf(d, root, "rev", ReverseName(file), out.value);
      index := index + 1;
    }
    assert files[index..] == [];
    return Returned(true), d;
  }

  /** The file loop ends in True, an exit or an uncaught exception, and
      when every remaining file exists it never exits. */
  lemma {:induction false} ReverseRunEnds(disk: Disk, root: string, files: seq<string>)
    ensures var (o, _) := ReverseRun(disk, root, files);
      o == Returned(true) || o.Exited? || o.Crashed?
    ensures (forall i :: 0 <= i < |files| ==> Exists(disk, files[i])) ==>
      !ReverseRun(disk, root, files).0.Exited?
    decreases |files|
  {
    if files != [] && Open(disk, files[0]).Opened? {
      var doc := Open(disk, files[0]).doc;
      var out := ReverseDocument(doc);
      if out.Returned? {
        var next := Save(disk, root, "rev", ReverseName(files[0]), out.value);
        ReverseRunContinues(disk, root, files, doc);
        ReverseRunEnds(next, root, files[1..]);
        if forall i :: 0 <= i < |files| ==> Exists(disk, files[i]) {
          forall i | 0 <= i < |files| - 1
            ensures Exists(next, files[1..][i])
          {
            assert files[1..][i] == files[i + 1];
          }
        }
      } else {
        assert out == Crashed(IndexError);
      }
    }
  }


  /** pdf_reverse returns the failure tuple exactly when the check fails,
      and then writes nothing; after a passed check it never exits. */
  lemma PdfReverseChecksFirst(disk: Disk, root: string, files: seq<string>)
    ensures var (o, d) := PdfReverseOutcome(disk, root, files);
      && (o.Rejected? <==> exists i :: 0 <= i < |files| && !ValidInput(disk, files[i]))
      && (o.Rejected? ==> d == disk)
      && !o.Exited?
  {
    CheckPdfExtensionSpec(files, disk);
    ReverseRunEnds(disk, root, files);
  }

  /** Reversing one valid file: it is saved under `reverse` as
      "reverse-<basename>" (made unique), or the outline is too short
      and IndexError escapes with nothing written. */
  lemma PdfReverseOneFile(disk: Disk, root: string, file: string)
    requires ValidInput(disk, file) && Open(disk, file).Opened?
    ensures var doc := Open(disk, file).doc;
      PdfReverseOutcome(disk, root, [file]) ==
        if ReverseDocument(doc).Returned?
        then (Returned(true), Save(disk, root, "rev", "reverse-" + Basename(file), ReverseDocument(doc).value))
        else (Crashed(IndexError), disk)
  {
    var doc := Open(disk, file).doc;
    ReverseDocumentSpec(doc);
    CheckPdfExtensionSpec([file], disk);
    assert [file][0] == file && [file][1..] == [];
    var out := ReverseDocument(doc);
    if out.Returned? {
      var next := Save(disk, root, "rev", ReverseName(file), out.value);
      assert ReverseRun(next, root, []) == (Returned(true), next);
    } else {
      assert Forward<Document, bool>(out) == Crashed(IndexError);
    }
  }

  /** A file the loop opens and reverses. */
  predicate Reversible(disk: Disk, file: string) {
    Open(disk, file).Opened? && ReverseDocument(Open(disk, file).doc).Returned?
  }

  function Reversal(disk: Disk, file: string): Document
    requires Reversible(disk, file)
  {
    ReverseDocument(Open(disk, file).doc).value
  }

  /** The reversals of the first k files, read from the starting disk and
      saved in turn (a file that does not reverse is passed over; the
      lemmas below use this only when every file reverses). */
  function ReversalsSaved(disk: Disk, root: string, files: seq<string>, k: nat): Disk
    requires k <= |files|
  {
    if k == 0 then disk
    else
      var before := ReversalsSaved(disk, root, files, k - 1);
      if Reversible(disk, files[k - 1])
      then Save(before, root, "rev", ReverseName(files[k - 1]), Reversal(disk, files[k - 1]))
      else before
  }

  /** Saving reversals changes nothing outside `reverse`. */
  lemma {:induction false} ReversalsSavedOutside(disk: Disk, root: string, files: seq<string>, k: nat, p: string)
    requires k <= |files|
    requires !(SaveDirectory(root, "rev") <= p)
    ensures Open(ReversalsSaved(disk, root, files, k), p) == Open(disk, p)
  {
    if k > 0 {
      ReversalsSavedOutside(disk, root, files, k - 1, p);
      ReversalSavedOutside(disk, root, files, k, p);
    }
  }

  /** One more saved reversal changes nothing outside `reverse`. */
  lemma ReversalSavedOutside(disk: Disk, root: string, files: seq<string>, k: nat, p: string)
    requires 0 < k <= |files|
    requires !(SaveDirectory(root, "rev") <= p)
    ensures Open(ReversalsSaved(disk, root, files, k), p) == Open(ReversalsSaved(disk, root, files, k - 1), p)
  {
    ReverseNameRelative(files[k - 1]);
    if Reversible(disk, files[k - 1]) {
      SaveLeavesOutside(ReversalsSaved(disk, root, files, k - 1), root, "rev", ReverseName(files[k - 1]),
                        Reversal(disk, files[k - 1]), p);
    }
  }

  /** The first k files all reverse. */
  predicate AllReversible(disk: Disk, files: seq<string>, k: nat)
    requires k <= |files|
  {
    k == 0 || (AllReversible(disk, files, k - 1) && Reversible(disk, files[k - 1]))
  }

  lemma {:induction false} AllReversibleHolds(disk: Disk, files: seq<string>, k: nat)
    requires k <= |files| && forall i :: 0 <= i < k ==> Reversible(disk, files[i])
    ensures AllReversible(disk, files, k)
  {
    if k > 0 {
      AllReversibleHolds(disk, files, k - 1);
    }
  }

  /** On inputs outside `reverse`, after the first k files have been saved
      the rest of the loop ends as the whole loop does. */
  lemma {:induction false} ReverseRunFrom(disk: Disk, root: string, files: seq<string>, k: nat)
    requires OutsideOf(SaveDirectory(root, "rev"), files)
    requires k <= |files| && AllReversible(disk, files, k)
    ensures ReverseRun(ReversalsSaved(disk, root, files, k), root, files[k..]) == ReverseRun(disk, root, files)
  {
    if k > 0 {
      ReverseRunFrom(disk, root, files, k - 1);
      ReverseRunSavedStep(disk, root, files, k);
    }
  }

  /** The k-th file, read as on the starting disk, is saved and the loop goes on. */
  lemma ReverseRunSavedStep(disk: Disk, root: string, files: seq<string>, k: nat)
    requires 0 < k <= |files| && Reversible(disk, files[k - 1])
    requires !(SaveDirectory(root, "rev") <= files[k - 1])
    ensures ReverseRun(ReversalsSaved(disk, root, files, k - 1), root, files[k - 1..])
      == ReverseRun(ReversalsSaved(disk, root, files, k), root, files[k..])
  {
    ReversalsSavedOutside(disk, root, files, k - 1, files[k - 1]);
    var before := ReversalsSaved(disk, root, files, k - 1);
    assert files[k - 1..][0] == files[k - 1] && files[k - 1..][1..] == files[k..];
    ReverseRunContinues(before, root, files[k - 1..], Open(disk, files[k - 1]).doc);
  }

  /** On inputs outside `reverse`, the loop returns True exactly when every
      file opens and reverses. */
  lemma {:induction false} ReverseRunSucceedsIff(disk: Disk, root: string, files: seq<string>)
    requires OutsideOf(SaveDirectory(root, "rev"), files)
    ensures ReverseRun(disk, root, files).0 == Returned(true) <==>
      forall i :: 0 <= i < |files| ==> Reversible(disk, files[i])
    decreases |files|
  {
    if files != [] && Reversible(disk, files[0]) {
      var next := Save(disk, root, "rev", ReverseName(files[0]), Reversal(disk, files[0]));
      ReverseRunContinues(disk, root, files, Open(disk, files[0]).doc);
      ReverseNameRelative(files[0]);
      forall i | 0 <= i < |files| - 1
        ensures files[1..][i] == files[i + 1] && Open(next, files[i + 1]) == Open(disk, files[i + 1])
      {
        SaveLeavesOutside(disk, root, "rev", ReverseName(files[0]), Reversal(disk, files[0]), files[i + 1]);
      }
      ReverseRunSucceedsIff(next, root, files[1..]);
      if forall i :: 0 <= i < |files[1..]| ==> Reversible(next, files[1..][i]) {
        forall i | 0 <= i < |files|
          ensures Reversible(disk, files[i])
        {
          if i > 0 {
            assert Reversible(next, files[1..][i - 1]);
          }
        }
      }
    }
  }

  /** When every file reverses, the loop returns True with the reversals
      saved in turn, and nothing outside `reverse` changes. */
  lemma ReverseRunWrites(disk: Disk, root: string, files: seq<string>)
    requires OutsideOf(SaveDirectory(root, "rev"), files)
    requires forall i :: 0 <= i < |files| ==> Reversible(disk, files[i])
    ensures ReverseRun(disk, root, files) == (Returned(true), ReversalsSaved(disk, root, files, |files|))
    ensures forall p :: !(SaveDirectory(root, "rev") <= p) ==>
      Open(ReverseRun(disk, root, files).1, p) == Open(disk, p)
  {
    AllReversibleHolds(disk, files, |files|);
    ReverseRunFrom(disk, root, files, |files|);
    assert files[|files|..] == [];
    forall p | !(SaveDirectory(root, "rev") <= p)
      ensures Open(ReversalsSaved(disk, root, files, |files|), p) == Open(disk, p)
    {
      ReversalsSavedOutside(disk, root, files, |files|, p);
    }
  }

  /** Step i of such a run writes the reversal of file i, read from the
      starting disk, to "reverse-<basename>" made unique against `reverse`
      as it stood after the files before it. */
  lemma ReverseStepWrites(disk: Disk, root: string, files: seq<string>, i: nat)
    requires i < |files| && Reversible(disk, files[i])
    ensures var before := ReversalsSaved(disk, root, files, i);
      var path := JoinPath(SaveDirectory(root, "rev"), SavedName(before, root, "rev", "reverse-" + Basename(files[i])));
      Open(ReversalsSaved(disk, root, files, i + 1), path) == Opened(Reversal(disk, files[i]))
  {
    var before := ReversalsSaved(disk, root, files, i);
    assert ReverseName(files[i])[0] == 'r';
    SaveStaysInDirectory(before, root, "rev", ReverseName(files[i]), Reversal(disk, files[i]));
  }

  /** pdf_reverse on inputs outside `reverse` returns True exactly when
      every input passes the check, opens and reverses; it then leaves the
      reversals saved in turn. */
  lemma PdfReverseSucceedsIff(disk: Disk, root: string, files: seq<string>)
    requires OutsideOf(SaveDirectory(root, "rev"), files)
    ensures PdfReverseOutcome(disk, root, files).0 == Returned(true) <==>
      forall i :: 0 <= i < |files| ==> ValidInput(disk, files[i]) && Reversible(disk, files[i])
    ensures (forall i :: 0 <= i < |files| ==> ValidInput(disk, files[i]) && Reversible(disk, files[i])) ==>
      PdfReverseOutcome(disk, root, files) == (Returned(true), ReversalsSaved(disk, root, files, |files|))
  {
    CheckPdfExtensionSpec(files, disk);
    ReverseRunSucceedsIff(disk, root, files);
    if forall i :: 0 <= i < |files| ==> ValidInput(disk, files[i]) && Reversible(disk, files[i]) {
      ReverseRunWrites(disk, root, files);
    }
  }

  // ---------------------------------------------------------------------
  // pdf_split

  /** What the split loop prints about one file. */
  datatype Note =
    | CannotOpen(file: string)
    | EmptyFile(file: string)
    | InvalidFrom(file: string, total: nat)
    | Saved(file: string, name: string)

  /** pdf_split's result: None after the range check failed, otherwise the
      last writer made (None if no file was saved) and the notes printed. */
  datatype SplitReport = InvalidRange | Processed(writer: Option<Document>, notes: seq<Note>)

  function SplitName(file: string, from: nat, to: nat): string {
    "split-" + Dec(from) + "-" + Dec(to) + "-" + Basename(file)
  }

  datatype SplitStep = SplitStep(note: Note, writer: Option<Document>, disk: Disk)

  /** What `for i in range(lo, hi): writer.add_page(pages[i])` leaves in a
      fresh writer when an IndexError ends the loop with `break`: the pages
      from lo on, up to hi or the last page. */
  function PageRange(pages: seq<Page>, lo: nat, hi: int): seq<Page>
    decreases hi - lo
  {
    if hi <= lo || lo >= |pages| then [] else [pages[lo]] + PageRange(pages, lo + 1, hi)
  }

  /** The copied pages are the slice from lo to min(hi, N), empty when that
      is not above lo. */
  lemma {:induction false} PageRangeSpec(pages: seq<Page>, lo: nat, hi: int)
    ensures var last := if hi < |pages| then hi else |pages|;
      PageRange(pages, lo, hi) == if lo < last then pages[lo..last] else []
    decreases hi - lo
  {
    var last := if hi < |pages| then hi else |pages|;
    if lo < last {
      PageRangeSpec(pages, lo + 1, hi);
      assert pages[lo..last] == [pages[lo]] + pages[lo + 1..last];
    }
  }

  /** The page loop of pdf_split, with its `except IndexError: break`. */
  method AddPages(pages: seq<Page>, lo: nat, hi: int) returns (added: seq<Page>)
    ensures added == PageRange(pages, lo, hi)
  {
    added := [];
    var i := lo;
    while i < hi
      invariant lo <= i
      invariant added + PageRange(pages, i, hi) == PageRange(pages, lo, hi)
      decreases hi - i
    {
      if i >= |pages| {
        break;
      }
      assert added + [pages[i]] + PageRange(pages, i + 1, hi) == added + PageRange(pages, i, hi);
      added := added + [pages[i]];
      i := i + 1;
    }
    assert PageRange(pages, i, hi) == [];
  }

  /** One iteration of the split loop. */
  function SplitFile(disk: Disk, root: string, file: string, from: int, to: int): SplitStep
    requires from <= to
  {
    match Open(disk, file)
    case NotFound => SplitStep(CannotOpen(file), None, disk)
    case Unreadable => SplitStep(CannotOpen(file), None, disk)
    case Opened(doc) =>
      var total := |doc.pages|;
      var actualTo := if to < total then to else total;
      if total == 0 then SplitStep(EmptyFile(file), None, disk)
      else if from < 1 || from > total then SplitStep(InvalidFrom(file, total), None, disk)
      else
        var out := Document(PageRange(doc.pages, from - 1, actualTo), [], FreshMetadata);
        var name := SplitName(file, from, actualTo);
        SplitStep(Saved(file, name), Some(out), Save(disk, root, "split", name, out))
  }

  /** The split loop from a given file on, with the writer and notes so far. */
  function SplitRun(disk: Disk, root: string, files: seq<string>, from: int, to: int,
                    writer: Option<Document>, notes: seq<Note>): (SplitReport, Disk)
    requires from <= to
    decreases |files|
  {
    if files == [] then (Processed(writer, notes), disk)
    else
      var step := SplitFile(disk, root, files[0], from, to);
      SplitRun(step.disk, root, files[1..], from, to,
               if step.writer.Some? then step.writer else writer, notes + [step.note])
  }

  /** One pass of the split loop's body, with its `continue` skips. */
  method SplitOne(disk: Disk, root: string, file: string, from: int, to: int) returns (step: SplitStep)
    requires from <= to
    ensures step == SplitFile(disk, root, file, from, to)
  {
    match Open(disk, file)
    case NotFound =>
      return SplitStep(CannotOpen(file), None, disk);
    case Unreadable =>
      return SplitStep(CannotOpen(file), None, disk);
    case Opened(doc) =>
      var total := |doc.pages|;
      if total == 0 {
        return SplitStep(EmptyFile(file), None, disk);
      }
      var actualTo := if to < total then to else total;
      if from < 1 || from > total {
        return SplitStep(InvalidFrom(file, total), None, disk);
      }
      var copied := AddPages(doc.pages, from - 1, actualTo);
      var out := Document(copied, [], FreshMetadata);
      var name := SplitName(file, from, actualTo);
      var saved := SaveFileAsPdf(disk, root, "split", name, out);
      return SplitStep(Saved(file, name), Some(out), saved);
  }

  function PdfSplitOutcome(disk: Disk, root: string, files: seq<string>, from: int, to: int)
    : (Outcome<SplitReport>, Disk)
  {
    var check := CheckPdfExtension(files, disk);
    if !check.0 then (Rejected(check.1), disk)
    else if from > to then (Returned(InvalidRange), disk)
    else
      var run := SplitRun(disk, root, files, from, to, None, []);
      (Returned(run.0), run.1)
  }

  /** PDFEdit.pdf_split: after the check and the range test, each file is
      handled on its own; unusable files are skipped with a note. */
  method PdfSplit(disk: Disk, root: string, files: seq<string>, from: int, to: int)
    returns (o: Outcome<SplitReport>, d: Disk)
    ensures (o, d) == PdfSplitOutcome(disk, root, files, from, to)
  {
    var check := CheckPdfExtension(files, disk);
    if !check.0 {
      return Rejected(check.1), disk;
    }
    if from > to {
      return Returned(InvalidRange), disk;
    }
    var writer: Option<Document> := None;
    var notes: seq<Note> := [];
    d := disk;
    var index := 0;
    while index < |files|
      invariant 0 <= index <= |files|
      invariant SplitRun(d, root, files[index..], from, to, writer, notes) ==
                SplitRun(disk, root, files, from, to, None, [])
    {
      assert files[index..][0] == files[index] && files[index..][1..] == files[index + 1..];
      var step := SplitOne(d, root, files[index], from, to);
      d := step.disk;
      if step.writer.Some? {
        writer := step.writer;
      }
      notes := notes + [step.note];
      index := index + 1;
    }
    assert files[index..] == [];
    return Returned(Processed(writer, notes)), d;
  }

  /** Which files the split loop skips, and that a skipped file writes nothing. */
  lemma SplitFileSkips(disk: Disk, root: string, file: string, from: int, to: int)
    requires from <= to
    ensures var step := SplitFile(disk, root, file, from, to);
      && step.note.file == file
      && (step.note.CannotOpen? <==> !Open(disk, file).Opened?)
      && (step.note.EmptyFile? <==> Open(disk, file).Opened? && |Open(disk, file).doc.pages| == 0)
      && (step.note.Saved? <==> Open(disk, file).Opened? && 1 <= from <= |Open(disk, file).doc.pages|)
      && (!step.note.Saved? ==> step.writer == None && step.disk == disk)
  {
  }

  /** What the split loop saves for a file it does not skip. */
  lemma SplitFileSaves(disk: Disk, root: string, file: string, from: int, to: int)
    requires from <= to
    requires Open(disk, file).Opened? && 1 <= from <= |Open(disk, file).doc.pages|
    ensures var step := SplitFile(disk, root, file, from, to);
      var doc := Open(disk, file).doc;
      var last := if to < |doc.pages| then to else |doc.pages|;
      && step.note == Saved(file, SplitName(file, from, last))
      && step.writer == Some(Document(doc.pages[from - 1..last], [], FreshMetadata))
      && |step.writer.value.pages| == last - from + 1
      && step.disk == Save(disk, root, "split", step.note.name, step.writer.value)
  {
    var doc := Open(disk, file).doc;
    var last := if to < |doc.pages| then to else |doc.pages|;
    PageRangeSpec(doc.pages, from - 1, last);
    var out := Document(doc.pages[from - 1..last], [], FreshMetadata);
    var name := SplitName(file, from, last);
    assert SplitFile(disk, root, file, from, to) == SplitStep(Saved(file, name), Some(out), Save(disk, root, "split", name, out));
  }

  /** The page loop of a file the split loop does not skip visits only
      indices of existing pages, so its IndexError branch is never taken and
      every index from from_ - 1 to min(to, N) - 1 contributes its page. */
  lemma SplitRangeNeverCut(pages: seq<Page>, from: int, to: int)
    requires 1 <= from <= |pages| && from <= to
    ensures var last := if to < |pages| then to else |pages|;
      && from - 1 < last <= |pages|
      && |PageRange(pages, from - 1, last)| == last - from + 1
      && forall i :: from - 1 <= i < last ==> PageRange(pages, from - 1, last)[i - (from - 1)] == pages[i]
  {
    var last := if to < |pages| then to else |pages|;
    PageRangeSpec(pages, from - 1, last);
  }

  /** Summary of SplitFileSkips and SplitFileSaves in one statement.
      One file of the split loop: it is saved exactly when it opens, has pages
      and `from` is one of them; the saved document holds pages
      from..min(to, N) in order under "split-{from}-{min(to, N)}-<basename>";
      a skipped file writes nothing. */
  lemma SplitFileSpec(disk: Disk, root: string, file: string, from: int, to: int)
    requires from <= to
    ensures var step := SplitFile(disk, root, file, from, to);
      && step.note.file == file
      && (step.note.CannotOpen? <==> !Open(disk, file).Opened?)
      && (step.note.EmptyFile? <==> Open(disk, file).Opened? && |Open(disk, file).doc.pages| == 0)
      && (step.note.Saved? <==> Open(disk, file).Opened? && 1 <= from <= |Open(disk, file).doc.pages|)
      && (!step.note.Saved? ==> step.writer == None && step.disk == disk)
      && (step.note.Saved? ==>
            var doc := Open(disk, file).doc;
            var last := if to < |doc.pages| then to else |doc.pages|;
            && step.writer == Some(Document(doc.pages[from - 1..last], [], FreshMetadata))
            && |step.writer.value.pages| == last - from + 1
            && step.note.name == SplitName(file, from, last)
            && step.disk == Save(disk, root, "split", step.note.name, step.writer.value))
  {
    SplitFileSkips(disk, root, file, from, to);
    if Open(disk, file).Opened? && 1 <= from <= |Open(disk, file).doc.pages| {
      SplitFileSaves(disk, root, file, from, to);
    }
  }

  lemma SplitFileNote(disk: Disk, root: string, file: string, from: int, to: int)
    requires from <= to
    ensures SplitFile(disk, root, file, from, to).note.file == file
  {
  }

  /** The split loop's first iteration, then the rest of the loop. */
  lemma SplitRunStep(disk: Disk, root: string, files: seq<string>, from: int, to: int,
                     writer: Option<Document>, notes: seq<Note>)
    requires from <= to && files != []
    ensures var step := SplitFile(disk, root, files[0], from, to);
      SplitRun(disk, root, files, from, to, writer, notes)
        == SplitRun(step.disk, root, files[1..], from, to,
                    if step.writer.Some? then step.writer else writer, notes + [step.note])
  {
  }

  /** The split loop prints one note per file, in the order of the files. */
  lemma {:induction false} SplitRunNotes(disk: Disk, root: string, files: seq<string>, from: int, to: int,
                                         writer: Option<Document>, notes: seq<Note>)
    requires from <= to
    ensures var rep := SplitRun(disk, root, files, from, to, writer, notes).0;
      && rep.Processed?
      && |rep.notes| == |notes| + |files|
      && (forall i :: 0 <= i < |notes| ==> rep.notes[i] == notes[i])
      && (forall i :: |notes| <= i < |rep.notes| ==> rep.notes[i].file == files[i - |notes|])
    decreases |files|
  {
    if files != [] {
      var step := SplitFile(disk, root, files[0], from, to);
      SplitFileNote(disk, root, files[0], from, to);
      SplitRunStep(disk, root, files, from, to, writer, notes);
      var w := if step.writer.Some? then step.writer else writer;
      var notes' := notes + [step.note];
      SplitRunNotes(step.disk, root, files[1..], from, to, w, notes');
      var rep := SplitRun(step.disk, root, files[1..], from, to, w, notes').0;
      forall i | 0 <= i < |notes|
        ensures rep.notes[i] == notes[i]
      {
        assert notes'[i] == notes[i];
      }
      forall i | |notes| <= i < |rep.notes|
        ensures rep.notes[i].file == files[i - |notes|]
      {
        if i == |notes| {
          assert rep.notes[i] == notes'[i] == step.note;
        } else {
          assert rep.notes[i].file == files[1..][i - |notes'|];
        }
      }
    }
  }

  /** The writer the split loop returns is None exactly when it started as
      None and no file was saved. */
  lemma {:induction false} SplitRunWriter(disk: Disk, root: string, files: seq<string>, from: int, to: int,
                                          writer: Option<Document>, notes: seq<Note>)
    requires from <= to
    ensures var rep := SplitRun(disk, root, files, from, to, writer, notes).0;
      && rep.Processed?
      && |rep.notes| == |notes| + |files|
      && (rep.writer == None <==> writer == None && forall i :: |notes| <= i < |rep.notes| ==> !rep.notes[i].Saved?)
    decreases |files|
  {
    SplitRunNotes(disk, root, files, from, to, writer, notes);
    if files != [] {
      var step := SplitFile(disk, root, files[0], from, to);
      SplitFileSkips(disk, root, files[0], from, to);
      SplitRunStep(disk, root, files, from, to, writer, notes);
      var w := if step.writer.Some? then step.writer else writer;
      var notes' := notes + [step.note];
      SplitRunWriter(step.disk, root, files[1..], from, to, w, notes');
      SplitRunNotes(step.disk, root, files[1..], from, to, w, notes');
      var rep := SplitRun(step.disk, root, files[1..], from, to, w, notes').0;
      assert rep.notes[|notes|] == notes'[|notes|] == step.note;
    }
  }

  /** pdf_split's checks: the failure tuple exactly when a name fails, and
      with from > to nothing is read or written. */
  lemma PdfSplitChecks(disk: Disk, root: string, files: seq<string>, from: int, to: int)
    ensures var (o, d) := PdfSplitOutcome(disk, root, files, from, to);
      && (o.Rejected? <==> exists i :: 0 <= i < |files| && !ValidInput(disk, files[i]))
      && (o.Rejected? ==> d == disk)
      && (!o.Rejected? && from > to ==> o == Returned(InvalidRange) && d == disk)
  {
    var check := CheckPdfExtension(files, disk);
    CheckPdfExtensionSpec(files, disk);
    if check.0 && from <= to {
      SplitRunNotes(disk, root, files, from, to, None, []);
      assert PdfSplitOutcome(disk, root, files, from, to).0.Returned?;
    }
  }

  /** After the checks pdf_split prints one note per file, in order. */
  lemma PdfSplitNotes(disk: Disk, root: string, files: seq<string>, from: int, to: int)
    requires CheckPdfExtension(files, disk).0 && from <= to
    ensures var o := PdfSplitOutcome(disk, root, files, from, to).0;
      && o.Returned? && o.value.Processed?
      && |o.value.notes| == |files|
      && forall i :: 0 <= i < |files| ==> o.value.notes[i].file == files[i]
  {
    SplitRunNotes(disk, root, files, from, to, None, []);
    var rep := SplitRun(disk, root, files, from, to, None, []).0;
    assert PdfSplitOutcome(disk, root, files, from, to).0 == Returned(rep);
  }

  /** What one file gives depends on the disk only through that file. */
  lemma SplitFileReads(d1: Disk, d2: Disk, root: string, file: string, from: int, to: int)
    requires from <= to && Open(d1, file) == Open(d2, file)
    ensures SplitFile(d1, root, file, from, to).note == SplitFile(d2, root, file, from, to).note
    ensures SplitFile(d1, root, file, from, to).writer == SplitFile(d2, root, file, from, to).writer
  {
  }

  /** One file of the split loop writes nothing outside `split`. */
  lemma SplitFileStaysInDirectory(disk: Disk, root: string, file: string, from: int, to: int)
    requires from <= to
    ensures forall p :: !(SaveDirectory(root, "split") <= p) ==>
      Open(SplitFile(disk, root, file, from, to).disk, p) == Open(disk, p)
  {
    var step := SplitFile(disk, root, file, from, to);
    if step.note.Saved? {
      assert step.note.name[0] == 's';
      SaveStaysInDirectory(disk, root, "split", step.note.name, step.writer.value);
    }
  }

  /** The disk after the first k files of the split loop, each handled
      against the disk the files before it left. */
  function SplitDisks(disk: Disk, root: string, files: seq<string>, from: int, to: int, k: nat): Disk
    requires from <= to && k <= |files|
  {
    if k == 0 then disk
    else SplitFile(SplitDisks(disk, root, files, from, to, k - 1), root, files[k - 1], from, to).disk
  }

  lemma {:induction false} SplitDisksOutside(disk: Disk, root: string, files: seq<string>, from: int, to: int, k: nat)
    requires from <= to && k <= |files|
    ensures forall p :: !(SaveDirectory(root, "split") <= p) ==>
      Open(SplitDisks(disk, root, files, from, to, k), p) == Open(disk, p)
  {
    if k > 0 {
      SplitDisksOutside(disk, root, files, from, to, k - 1);
      SplitFileStaysInDirectory(SplitDisks(disk, root, files, from, to, k - 1), root, files[k - 1], from, to);
    }
  }

  /** The disk the loop leaves does not depend on the writer and notes it carries. */
  lemma {:induction false} SplitRunDisk(disk: Disk, root: string, files: seq<string>, from: int, to: int,
                                        writer: Option<Document>, notes: seq<Note>)
    requires from <= to
    ensures SplitRun(disk, root, files, from, to, writer, notes).1 == SplitRun(disk, root, files, from, to, None, []).1
    decreases |files|
  {
    if files != [] {
      var step := SplitFile(disk, root, files[0], from, to);
      SplitRunStep(disk, root, files, from, to, writer, notes);
      SplitRunStep(disk, root, files, from, to, None, []);
      SplitRunDisk(step.disk, root, files[1..], from, to,
                   if step.writer.Some? then step.writer else writer, notes + [step.note]);
      SplitRunDisk(step.disk, root, files[1..], from, to,
                   if step.writer.Some? then step.writer else None, [] + [step.note]);
    }
  }

  /** After the first k files the rest of the loop leaves the disk the whole loop leaves. */
  lemma {:induction false} SplitRunFrom(disk: Disk, root: string, files: seq<string>, from: int, to: int, k: nat)
    requires from <= to && k <= |files|
    ensures SplitRun(SplitDisks(disk, root, files, from, to, k), root, files[k..], from, to, None, []).1
      == SplitRun(disk, root, files, from, to, None, []).1
  {
    if k > 0 {
      SplitRunFrom(disk, root, files, from, to, k - 1);
      var before := SplitDisks(disk, root, files, from, to, k - 1);
      assert files[k - 1..][0] == files[k - 1] && files[k - 1..][1..] == files[k..];
      SplitRunStep(before, root, files[k - 1..], from, to, None, []);
      var step := SplitFile(before, root, files[k - 1], from, to);
      SplitRunDisk(step.disk, root, files[k..], from, to,
                   if step.writer.Some? then step.writer else None, [] + [step.note]);
    }
  }

  /** On inputs outside `split` that read as on the starting disk, the notes
      after the ones carried in are what each file alone gives there. */
  lemma {:induction false} SplitRunReads(start: Disk, disk: Disk, root: string, files: seq<string>, from: int, to: int,
                                         writer: Option<Document>, notes: seq<Note>)
    requires from <= to && OutsideOf(SaveDirectory(root, "split"), files)
    requires forall i :: 0 <= i < |files| ==> Open(disk, files[i]) == Open(start, files[i])
    ensures var rep := SplitRun(disk, root, files, from, to, writer, notes).0;
      && rep.Processed? && |rep.notes| == |notes| + |files|
      && forall i :: 0 <= i < |files| ==> rep.notes[|notes| + i] == SplitFile(start, root, files[i], from, to).note
    decreases |files|
  {
    SplitRunNotes(disk, root, files, from, to, writer, notes);
    if files != [] {
      var step := SplitFile(disk, root, files[0], from, to);
      SplitFileReads(disk, start, root, files[0], from, to);
      SplitFileStaysInDirectory(disk, root, files[0], from, to);
      SplitRunStep(disk, root, files, from, to, writer, notes);
      var w := if step.writer.Some? then step.writer else writer;
      var notes' := notes + [step.note];
      forall i | 0 <= i < |files| - 1
        ensures files[1..][i] == files[i + 1] && Open(step.disk, files[i + 1]) == Open(start, files[i + 1])
      {
        assert !(SaveDirectory(root, "split") <= files[i + 1]);
      }
      SplitRunReads(start, step.disk, root, files[1..], from, to, w, notes');
      SplitRunNotes(step.disk, root, files[1..], from, to, w, notes');
      var rep := SplitRun(step.disk, root, files[1..], from, to, w, notes').0;
      forall i | 0 <= i < |files|
        ensures rep.notes[|notes| + i] == SplitFile(start, root, files[i], from, to).note
      {
        if i == 0 {
          assert rep.notes[|notes|] == notes'[|notes|];
        } else {
          assert rep.notes[|notes'| + (i - 1)] == SplitFile(start, root, files[1..][i - 1], from, to).note;
        }
      }
    }
  }

  /** After the checks, on inputs outside `split`: note i is what file i
      alone gives on the starting disk, the disk is the files handled in
      turn, and nothing outside `split` changes. */
  lemma PdfSplitFiles(disk: Disk, root: string, files: seq<string>, from: int, to: int)
    requires CheckPdfExtension(files, disk).0 && from <= to
    requires OutsideOf(SaveDirectory(root, "split"), files)
    ensures var (o, d) := PdfSplitOutcome(disk, root, files, from, to);
      && o.Returned? && o.value.Processed? && |o.value.notes| == |files|
      && (forall i :: 0 <= i < |files| ==> o.value.notes[i] == SplitFile(disk, root, files[i], from, to).note)
      && d == SplitDisks(disk, root, files, from, to, |files|)
      && forall p :: !(SaveDirectory(root, "split") <= p) ==> Open(d, p) == Open(disk, p)
  {
    SplitRunReads(disk, disk, root, files, from, to, None, []);
    SplitRunFrom(disk, root, files, from, to, |files|);
    assert files[|files|..] == [];
    SplitDisksOutside(disk, root, files, from, to, |files|);
    var run := SplitRun(disk, root, files, from, to, None, []);
    assert PdfSplitOutcome(disk, root, files, from, to) == (Returned(run.0), run.1);
  }

  /** Step i of the split loop, on inputs outside `split`, makes the note and
      writer file i alone gives on the starting disk; a saved file's
      document is written at its name made unique against `split` as it
      stood after the files before it, and a skipped file writes nothing. */
  lemma SplitStepWrites(disk: Disk, root: string, files: seq<string>, from: int, to: int, i: nat)
    requires from <= to && i < |files| && OutsideOf(SaveDirectory(root, "split"), files)
    ensures var before := SplitDisks(disk, root, files, from, to, i);
      var alone := SplitFile(disk, root, files[i], from, to);
      var step := SplitFile(before, root, files[i], from, to);
      && step.note == alone.note && step.writer == alone.writer
      && (alone.note.Saved? ==>
            Open(SplitDisks(disk, root, files, from, to, i + 1),
                 JoinPath(SaveDirectory(root, "split"), SavedName(before, root, "split", alone.note.name)))
              == Opened(alone.writer.value))
      && (!alone.note.Saved? ==> SplitDisks(disk, root, files, from, to, i + 1) == before)
  {
    var before := SplitDisks(disk, root, files, from, to, i);
    SplitDisksOutside(disk, root, files, from, to, i);
    SplitFileReads(before, disk, root, files[i], from, to);
    var step := SplitFile(before, root, files[i], from, to);
    SplitFileSkips(before, root, files[i], from, to);
    if step.note.Saved? {
      assert step.note.name[0] == 's';
      SaveStaysInDirectory(before, root, "split", step.note.name, step.writer.value);
    }
  }

  /** Summary of PdfSplitChecks and PdfSplitNotes in one statement.
      pdf_split: the failure tuple exactly when the check fails; with
      from > to nothing is read or written; otherwise one note per file. */
  lemma PdfSplitSpec(disk: Disk, root: string, files: seq<string>, from: int, to: int)
    ensures var (o, d) := PdfSplitOutcome(disk, root, files, from, to);
      && (o.Rejected? <==> exists i :: 0 <= i < |files| && !ValidInput(disk, files[i]))
      && (o.Rejected? ==> d == disk)
      && (!o.Rejected? && from > to ==> o == Returned(InvalidRange) && d == disk)
      && (!o.Rejected? && from <= to ==>
            && o.Returned? && o.value.Processed?
            && |o.value.notes| == |files|
            && forall i :: 0 <= i < |files| ==> o.value.notes[i].file == files[i])
  {
    PdfSplitChecks(disk, root, files, from, to);
    if CheckPdfExtension(files, disk).0 && from <= to {
      PdfSplitNotes(disk, root, files, from, to);
    }
  }


  // ---------------------------------------------------------------------
  // pdf_marge

  const MergeName := "merger-output.pdf"

  function PdfMargeOutcome(disk: Disk, root: string, pdfs: seq<string>): (Outcome<Document>, Disk) {
    var check := CheckPdfExtension(pdfs, disk);
    if !check.0 then (Rejected(check.1), disk)
    else if |pdfs| < 2 then (RaisedValueError("less than two file"), disk)
    else
      var merged := MergedPages(disk, pdfs);
      if !merged.Returned? then (Forward(merged), disk)
      else
        var out := Document(merged.value, [], FreshMetadata);
        (Returned(out), Save(disk, root, "marge", MergeName, out))
  }

  /** PDFEdit.pdf_marge: check, refuse fewer than two files, append every
      input to one writer, save it as "merger-output.pdf" under `marge`. */
  method PdfMarge(disk: Disk, root: string, pdfs: seq<string>) returns (o: Outcome<Document>, d: Disk)
    ensures (o, d) == PdfMargeOutcome(disk, root, pdfs)
  {
    var check := CheckPdfExtension(pdfs, disk);
    if !check.0 {
      return Rejected(check.1), disk;
    }
    if |pdfs| < 2 {
      return RaisedValueError("less than two file"), disk;
    }
    var merged := AppendAll(disk, pdfs);
    if !merged.Returned? {
      return Forward(merged), disk;
    }
    var out := Document(merged.value, [], FreshMetadata);
    d := SaveFileAsPdf(disk, root, "marge", MergeName, out);
    o := Returned(out);
  }

  /** Summary of PdfMargeFailures and PdfMargeResult in one statement.
      pdf_marge: the check comes first, then the two-file minimum, both
      before any write; after them it never exits, and when every input
      parses it saves the in-order concatenation of all their pages. */
  lemma PdfMargeSpec(disk: Disk, root: string, pdfs: seq<string>)
    ensures var (o, d) := PdfMargeOutcome(disk, root, pdfs);
      && (o.Rejected? <==> exists i :: 0 <= i < |pdfs| && !ValidInput(disk, pdfs[i]))
      && (o.RaisedValueError? <==> (forall i :: 0 <= i < |pdfs| ==> ValidInput(disk, pdfs[i])) && |pdfs| < 2)
      && (!o.Returned? ==> d == disk)
      && !o.Exited?
      && (o.Returned? <==> (forall i :: 0 <= i < |pdfs| ==> ValidInput(disk, pdfs[i])) && |pdfs| >= 2 && AllOpen(disk, pdfs))
      && (o.Returned? ==>
            && o.value.pages == Flatten(PagesOf(disk, pdfs))
            && |o.value.pages| == SumOfLengths(PagesOf(disk, pdfs))
            && d == Save(disk, root, "marge", MergeName, o.value))
  {
    PdfMargeFailures(disk, root, pdfs);
    PdfMargeResult(disk, root, pdfs);
  }

  /** The failures of pdf_marge: the tuple of a failed check, the ValueError
      for fewer than two files, nothing written, and never an exit. */
  lemma PdfMargeFailures(disk: Disk, root: string, pdfs: seq<string>)
    ensures var (o, d) := PdfMargeOutcome(disk, root, pdfs);
      && (o.Rejected? <==> exists i :: 0 <= i < |pdfs| && !ValidInput(disk, pdfs[i]))
      && (o.RaisedValueError? <==> (forall i :: 0 <= i < |pdfs| ==> ValidInput(disk, pdfs[i])) && |pdfs| < 2)
      && (!o.Returned? ==> d == disk)
      && !o.Exited?
  {
    CheckPdfExtensionSpec(pdfs, disk);
    if forall i :: 0 <= i < |pdfs| ==> ValidInput(disk, pdfs[i]) {
      MergedPagesNeverExitsOnExistingFiles(disk, pdfs);
    }
  }

  /** When pdf_marge succeeds, and what it saves. */
  lemma PdfMargeResult(disk: Disk, root: string, pdfs: seq<string>)
    ensures var (o, d) := PdfMargeOutcome(disk, root, pdfs);
      && (o.Returned? <==> (forall i :: 0 <= i < |pdfs| ==> ValidInput(disk, pdfs[i])) && |pdfs| >= 2 && AllOpen(disk, pdfs))
      && (o.Returned? ==>
            && o.value.pages == Flatten(PagesOf(disk, pdfs))
            && |o.value.pages| == SumOfLengths(PagesOf(disk, pdfs))
            && d == Save(disk, root, "marge", MergeName, o.value))
  {
    CheckPdfExtensionSpec(pdfs, disk);
    MergedPagesSpec(disk, pdfs);
  }
}
