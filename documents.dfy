/** What the editor sees of a PDF and of the file system.

    A PDF is abstracted to the three things the editor touches through the
    PDF library: its page sequence (pages are opaque values, only their order
    matters), its outline (bookmarks: a title and the page it points at) and
    its document metadata. The file system is a map from paths to files plus,
    per directory, the listing `os.listdir` would return. */
module Documents {
  import opened Text

  datatype Option<T> = None | Some(value: T)

  datatype Page = Page(content: string)

  /** A bookmark: a title pointing at a page position (0-based). */
  datatype OutlineItem = OutlineItem(title: string, page: nat)

  datatype Metadata = Metadata(fields: map<string, string>)

  /** The metadata of a writer nobody has set any on. */
  const FreshMetadata := Metadata(map[])

  datatype Document = Document(pages: seq<Page>, outline: seq<OutlineItem>, metadata: Metadata)

  /** A file on disk either parses as a PDF or does not. */
  datatype File = PdfFile(doc: Document) | OtherFile

  datatype Disk = Disk(files: map<string, File>, listing: map<string, seq<string>>)

  /** `os.path.exists(path)`. */
  predicate Exists(disk: Disk, path: string) {
    path in disk.files
  }

  /** What opening a path with the PDF reader gives:
      the document, FileNotFoundError, or another read error. */
  datatype Opened = Opened(doc: Document) | NotFound | Unreadable

  function Open(disk: Disk, path: string): (r: Opened)
    ensures r.NotFound? <==> !Exists(disk, path)
  {
    if path !in disk.files then NotFound
    else match disk.files[path]
      case PdfFile(d) => Opened(d)
      case OtherFile => Unreadable
  }

  /** `os.listdir(dir)` of a directory `os.makedirs` has just made sure of. */
  function ListDir(disk: Disk, dir: string): seq<string> {
    if dir in disk.listing then disk.listing[dir] else []
  }

  /** Writing `doc` to `dir/name`; a new name joins the end of the listing. */
  function Store(disk: Disk, dir: string, name: string, doc: Document): Disk {
    var entries := ListDir(disk, dir);
    Disk(disk.files[JoinPath(dir, name) := PdfFile(doc)],
         disk.listing[dir := if name in entries then entries else entries + [name]])
  }

  /** After a store the path reads back the document, every other path reads
      as before, nothing disappears and the name is listed. */
  lemma StoreSpec(disk: Disk, dir: string, name: string, doc: Document)
    ensures var d := Store(disk, dir, name, doc);
      && Open(d, JoinPath(dir, name)) == Opened(doc)
      && (forall p :: p != JoinPath(dir, name) ==> Open(d, p) == Open(disk, p))
      && (forall p :: Exists(disk, p) ==> Exists(d, p))
      && name in ListDir(d, dir)
      && (forall e :: e in ListDir(disk, dir) ==> e in ListDir(d, dir))
  {
  }

  // ---------------------------------------------------------------------
  // How an operation ends

  /** An exception nobody catches. */
  datatype Fault =
    | IndexError              // a list index out of range
    | UnboundLocal            // a local variable read before assignment
    | ReadError(path: string) // the PDF reader rejected an existing file

  /** The ways an operation of the editor can end: a normal return, the
      `(False, message)` tuple of a failed check, a raised ValueError,
      `sys.exit(message)`, or an uncaught exception. */
  datatype Outcome<T> =
    | Returned(value: T)
    | Rejected(message: string)
    | RaisedValueError(message: string)
    | Exited(message: string)
    | Crashed(fault: Fault)

  /** An unsuccessful outcome, passed on by an operation with another result type. */
  function Forward<T, U>(o: Outcome<T>): (r: Outcome<U>)
    requires !o.Returned?
    ensures !r.Returned?
  {
    match o
    case Rejected(m) => Rejected(m)
    case RaisedValueError(m) => RaisedValueError(m)
    case Exited(m) => Exited(m)
    case Crashed(f) => Crashed(f)
  }
}
