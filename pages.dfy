/** The page-level work of pdf_edit.py that does not write to the disk:
    reversing a document with its outline (project.py's reverse loop is the
    same loop) and appending whole documents for a merge. The two files'
    page-range loops differ and are modelled in PdfEdit and Project. */
module Pages {
  import opened Text
  import opened Documents

  // ---------------------------------------------------------------------
  // Reversal

  function ReverseSeq<T>(s: seq<T>): seq<T> {
    if s == [] then [] else ReverseSeq(s[1..]) + [s[0]]
  }

  /** Position k of a reversed sequence holds element |s|-1-k. */
  lemma {:induction false} ReverseSeqAt<T>(s: seq<T>)
    ensures |ReverseSeq(s)| == |s|
    ensures forall k :: 0 <= k < |s| ==> ReverseSeq(s)[k] == s[|s| - 1 - k]
  {
    if s != [] {
      ReverseSeqAt(s[1..]);
    }
  }

  /** Reversing twice restores the order. */
  lemma ReverseSeqInvolution<T>(s: seq<T>)
    ensures ReverseSeq(ReverseSeq(s)) == s
  {
    ReverseSeqAt(s);
    ReverseSeqAt(ReverseSeq(s));
  }

  /** The outline a writer ends up with when `entries[k]`'s title is added at page k. */
  function Bookmarks(entries: seq<OutlineItem>): seq<OutlineItem> {
    seq(|entries|, k requires 0 <= k < |entries| => OutlineItem(entries[k].title, k))
  }

  /** What the reverse loop of pdf_reverse gives for one document:
      the pages last to first, and, when the document has an outline, one
      bookmark per new position k carrying the title of outline entry N-1-k.
      An outline shorter than the page count (but not empty) is indexed out
      of range on the very first iteration. */
  function ReverseDocument(doc: Document): Outcome<Document> {
    var n := |doc.pages|;
    if 0 < |doc.outline| < n then Crashed(IndexError)
    else
      Returned(Document(
        ReverseSeq(doc.pages),
        if |doc.outline| == 0 then [] else Bookmarks(ReverseSeq(doc.outline[..n])),
        doc.metadata))
  }

  /** The reversed document, position by position. */
  lemma ReverseDocumentSpec(doc: Document)
    ensures ReverseDocument(doc).Returned? <==> |doc.outline| == 0 || |doc.pages| <= |doc.outline|
    ensures !ReverseDocument(doc).Returned? ==> ReverseDocument(doc) == Crashed(IndexError)
    ensures ReverseDocument(doc).Returned? ==>
      var out, n := ReverseDocument(doc).value, |doc.pages|;
      && |out.pages| == n
      && (forall k :: 0 <= k < n ==> out.pages[k] == doc.pages[n - 1 - k])
      && out.metadata == doc.metadata
      && |out.outline| == (if |doc.outline| == 0 then 0 else n)
      && (forall k :: 0 <= k < |out.outline| ==> out.outline[k] == OutlineItem(doc.outline[n - 1 - k].title, k))
  {
    var n := |doc.pages|;
    if !(0 < |doc.outline| < n) {
      var out := ReverseDocument(doc).value;
      ReverseSeqAt(doc.pages);
      assert out.pages == ReverseSeq(doc.pages);
      if |doc.outline| != 0 {
        LastBookmarksAll(doc.outline, n);
        LastBookmarksAt(doc.outline, n, n);
      }
    }
  }

  /** The title at outline index j ends up on the new position of original
      page j, whatever page entry j pointed at before. */
  lemma BookmarksFollowPages(doc: Document, j: nat)
    requires ReverseDocument(doc).Returned? && |doc.outline| != 0 && j < |doc.pages|
    ensures var out, n := ReverseDocument(doc).value, |doc.pages|;
      && n - 1 - j < |out.outline|
      && out.outline[n - 1 - j].title == doc.outline[j].title
      && out.outline[n - 1 - j].page < |out.pages|
      && out.pages[out.outline[n - 1 - j].page] == doc.pages[j]
  {
    ReverseDocumentSpec(doc);
  }

  /** The destinations are not carried over: in a two-page document whose
      outline is "A" on page 1 then "B" on page 0, the reversed document's
      first bookmark is "B" on page 0, which now holds the old page 1, not
      the page "B" pointed at. */
  lemma BookmarksIgnoreDestinations(p0: Page, p1: Page)
    requires p0 != p1
    ensures var doc := Document([p0, p1], [OutlineItem("A", 1), OutlineItem("B", 0)], FreshMetadata);
      var out := ReverseDocument(doc).value;
      && ReverseDocument(doc).Returned?
      && out.outline[0] == OutlineItem("B", 0)
      && out.pages[0] == p1
      && doc.pages[doc.outline[1].page] == p0
      && out.pages[out.outline[0].page] != doc.pages[doc.outline[1].page]
  {
    var doc := Document([p0, p1], [OutlineItem("A", 1), OutlineItem("B", 0)], FreshMetadata);
    ReverseDocumentSpec(doc);
  }

  /** Reversing the reversed document gives back the pages and metadata; its
      outline is the original's first N titles, each at its own page. */
  lemma {:induction false} ReverseDocumentTwice(doc: Document)
    requires ReverseDocument(doc).Returned?
    ensures var n := |doc.pages|;
      ReverseDocument(ReverseDocument(doc).value) ==
        Returned(Document(doc.pages, if |doc.outline| == 0 then [] else Bookmarks(doc.outline[..n]), doc.metadata))
  {
    var n := |doc.pages|;
    var once := ReverseDocument(doc).value;
    ReverseDocumentSpec(doc);
    ReverseDocumentSpec(once);
    ReverseSeqInvolution(doc.pages);
    var twice := ReverseDocument(once).value;
    if |doc.outline| != 0 {
      assert |twice.outline| == n == |Bookmarks(doc.outline[..n])|;
      forall k | 0 <= k < n
        ensures twice.outline[k] == Bookmarks(doc.outline[..n])[k]
      {
        assert twice.outline[k] == OutlineItem(once.outline[n - 1 - k].title, k);
      }
      assert twice.outline == Bookmarks(doc.outline[..n]);
    }
    assert twice.pages == doc.pages;
  }

  /** The loop of pdf_reverse for one open document: pages are taken from the
      last to the first and appended to a fresh writer that has the source's
      metadata; when the document has an outline, entry `page` is added as a
      bookmark at the writer's running page number. */
  method ReverseWriter(doc: Document) returns (r: Outcome<Document>)
    ensures r == ReverseDocument(doc)
  {
    var n := |doc.pages|;
    var pages: seq<Page> := [];
    var items: seq<OutlineItem> := [];
    var pageNumber := 0;
    var page := n - 1;
    while page >= 0
      invariant -1 <= page < n
      invariant pages == ReverseSeq(doc.pages[page + 1..])
      invariant page < n - 1 && |doc.outline| != 0 ==> n <= |doc.outline|
      invariant |doc.outline| == 0 ==> items == [] && pageNumber == 0
      invariant |doc.outline| != 0 ==> pageNumber == n - 1 - page
      invariant |doc.outline| != 0 ==> items == LastBookmarks(doc.outline, n, n - 1 - page)
    {
      assert doc.pages[page..][1..] == doc.pages[page + 1..];
      pages := pages + [doc.pages[page]];
      if |doc.outline| != 0 {
        if page >= |doc.outline| {
          return Crashed(IndexError);
        }
        assert LastBookmarks(doc.outline, n, n - page) == items + [OutlineItem(doc.outline[page].title, pageNumber)];
        items := items + [OutlineItem(doc.outline[page].title, pageNumber)];
        pageNumber := pageNumber + 1;
      }
      page := page - 1;
    }
    assert doc.pages[0..] == doc.pages;
    if |doc.outline| != 0 {
      LastBookmarksAll(doc.outline, n);
    }
    r := Returned(Document(pages, items, doc.metadata));
  }

  /** The bookmarks the reverse loop has added after `count` iterations:
      the titles of outline entries n-1, n-2, ... at pages 0, 1, ... */
  function LastBookmarks(outline: seq<OutlineItem>, n: nat, count: nat): seq<OutlineItem>
    requires count <= n && (count == 0 || n <= |outline|)
  {
    if count == 0 then []
    else LastBookmarks(outline, n, count - 1) + [OutlineItem(outline[n - count].title, count - 1)]
  }

  /** Bookmark k of the loop's outline carries the title of entry n-1-k. */
  lemma {:induction false} LastBookmarksAt(outline: seq<OutlineItem>, n: nat, count: nat)
    requires count <= n <= |outline|
    ensures |LastBookmarks(outline, n, count)| == count
    ensures forall k :: 0 <= k < count ==>
      LastBookmarks(outline, n, count)[k] == OutlineItem(outline[n - 1 - k].title, k)
  {
    if count > 0 {
      LastBookmarksAt(outline, n, count - 1);
    }
  }

  /** After n iterations the loop's outline is the reversed outline head,
      renumbered from 0. */
  lemma LastBookmarksAll(outline: seq<OutlineItem>, n: nat)
    requires n <= |outline|
    ensures LastBookmarks(outline, n, n) == Bookmarks(ReverseSeq(outline[..n]))
  {
    var head := outline[..n];
    LastBookmarksAt(outline, n, n);
    ReverseSeqAt(head);
    forall k | 0 <= k < n
      ensures LastBookmarks(outline, n, n)[k] == Bookmarks(ReverseSeq(head))[k]
    {
      assert ReverseSeq(head)[k] == head[n - 1 - k];
    }
  }

  // ---------------------------------------------------------------------
  // Merging

  /** The pages of the documents `pdfs` names, appended in order, or how
      the append loop stops at the first path it cannot use: a missing file
      makes it `sys.exit`, a file the reader rejects raises. */
  function MergedPages(disk: Disk, pdfs: seq<string>): Outcome<seq<Page>>
    decreases |pdfs|
  {
    if pdfs == [] then Returned([])
    else
      var n := |pdfs| - 1;
      var before := MergedPages(disk, pdfs[..n]);
      if !before.Returned? then before
      else match Open(disk, pdfs[n])
        case NotFound => Exited("This is File Not found " + pdfs[n])
        case Unreadable => Crashed(ReadError(pdfs[n]))
        case Opened(d) => Returned(before.value + d.pages)
  }

  predicate AllOpen(disk: Disk, pdfs: seq<string>) {
    forall i :: 0 <= i < |pdfs| ==> Open(disk, pdfs[i]).Opened?
  }

  function Flatten(pss: seq<seq<Page>>): seq<Page> {
    if pss == [] then [] else pss[0] + Flatten(pss[1..])
  }

  lemma {:induction false} FlattenSnoc(pss: seq<seq<Page>>, ps: seq<Page>)
    ensures Flatten(pss + [ps]) == Flatten(pss) + ps
  {
    if pss == [] {
      assert [] + [ps] == [ps];
    } else {
      assert (pss + [ps])[1..] == pss[1..] + [ps];
      FlattenSnoc(pss[1..], ps);
    }
  }

  function SumOfLengths(pss: seq<seq<Page>>): nat {
    if pss == [] then 0 else |pss[0]| + SumOfLengths(pss[1..])
  }

  lemma {:induction false} FlattenLength(pss: seq<seq<Page>>)
    ensures |Flatten(pss)| == SumOfLengths(pss)
  {
    if pss != [] {
      FlattenLength(pss[1..]);
    }
  }

  /** The page sequences of documents that all open. */
  function PagesOf(disk: Disk, pdfs: seq<string>): (pss: seq<seq<Page>>)
    requires AllOpen(disk, pdfs)
    ensures |pss| == |pdfs|
  {
    seq(|pdfs|, i requires 0 <= i < |pdfs| && AllOpen(disk, pdfs) => Open(disk, pdfs[i]).doc.pages)
  }

  /** The merge succeeds exactly when every input opens as a PDF, and then it
      is the in-order concatenation of their pages, as long as all of them together. */
  lemma {:induction false} MergedPagesSpec(disk: Disk, pdfs: seq<string>)
    ensures MergedPages(disk, pdfs).Returned? <==> AllOpen(disk, pdfs)
    ensures AllOpen(disk, pdfs) ==>
      && MergedPages(disk, pdfs).value == Flatten(PagesOf(disk, pdfs))
      && |MergedPages(disk, pdfs).value| == SumOfLengths(PagesOf(disk, pdfs))
    decreases |pdfs|
  {
    if pdfs != [] {
      var n := |pdfs| - 1;
      MergedPagesSpec(disk, pdfs[..n]);
      assert forall i :: 0 <= i < n ==> pdfs[..n][i] == pdfs[i];
      if AllOpen(disk, pdfs) {
        assert AllOpen(disk, pdfs[..n]);
        assert PagesOf(disk, pdfs) == PagesOf(disk, pdfs[..n]) + [Open(disk, pdfs[n]).doc.pages];
        FlattenSnoc(PagesOf(disk, pdfs[..n]), Open(disk, pdfs[n]).doc.pages);
      } else if AllOpen(disk, pdfs[..n]) {
        assert !Open(disk, pdfs[n]).Opened?;
      }
    }
    if AllOpen(disk, pdfs) {
      FlattenLength(PagesOf(disk, pdfs));
    }
  }

  /** Merging two documents of a and b pages gives a+b pages: the first a are
      the first document's, the remaining b the second's, each in its order. */
  lemma MergeTwo(disk: Disk, first: string, second: string)
    requires Open(disk, first).Opened? && Open(disk, second).Opened?
    ensures var a, b := Open(disk, first).doc.pages, Open(disk, second).doc.pages;
      MergedPages(disk, [first, second]) == Returned(a + b)
  {
    var a, b := Open(disk, first).doc.pages, Open(disk, second).doc.pages;
    assert [first, second][..1] == [first];
    assert [first][..0] == [];
    assert MergedPages(disk, []) == Returned([]);
    assert MergedPages(disk, [first]) == Returned([] + a);
    assert [] + a == a;
  }

  /** The append loop of pdf_marge: each input is opened and its pages are
      appended to one writer, in the order given. */
  method AppendAll(disk: Disk, pdfs: seq<string>) returns (r: Outcome<seq<Page>>)
    ensures r == MergedPages(disk, pdfs)
  {
    var merged: seq<Page> := [];
    var i := 0;
    while i < |pdfs|
      invariant 0 <= i <= |pdfs|
      invariant MergedPages(disk, pdfs[..i]) == Returned(merged)
    {
      assert pdfs[..i + 1][..i] == pdfs[..i];
      match Open(disk, pdfs[i])
      case NotFound =>
        r := Exited("This is File Not found " + pdfs[i]);
        MergedPrefixStops(disk, pdfs, i + 1);
        return;
      case Unreadable =>
        r := Crashed(ReadError(pdfs[i]));
        MergedPrefixStops(disk, pdfs, i + 1);
        return;
      case Opened(d) =>
        merged := merged + d.pages;
      i := i + 1;
    }
    assert pdfs[..i] == pdfs;
    r := Returned(merged);
  }

  /** Once a prefix of the inputs has stopped the merge, the whole does too. */
  lemma {:induction false} MergedPrefixStops(disk: Disk, pdfs: seq<string>, i: nat)
    requires i <= |pdfs| && !MergedPages(disk, pdfs[..i]).Returned?
    ensures MergedPages(disk, pdfs) == MergedPages(disk, pdfs[..i])
    decreases |pdfs| - i
  {
    if i < |pdfs| {
      assert pdfs[..i + 1][..i] == pdfs[..i];
      MergedPrefixStops(disk, pdfs, i + 1);
    } else {
      assert pdfs[..i] == pdfs;
    }
  }

  /** When every input exists the merge never reaches the
      "This is File Not found" exit; it returns or a read error escapes. */
  lemma {:induction false} MergedPagesNeverExitsOnExistingFiles(disk: Disk, pdfs: seq<string>)
    requires forall i :: 0 <= i < |pdfs| ==> Exists(disk, pdfs[i])
    ensures MergedPages(disk, pdfs).Returned? || MergedPages(disk, pdfs).Crashed?
    decreases |pdfs|
  {
    if pdfs != [] {
      var n := |pdfs| - 1;
      assert forall i :: 0 <= i < n ==> pdfs[..n][i] == pdfs[i];
      MergedPagesNeverExitsOnExistingFiles(disk, pdfs[..n]);
    }
  }
}
