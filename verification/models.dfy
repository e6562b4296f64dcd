/** The document models (`api/models.py`): the two record kinds, the shared state the
    upload and delete paths act on, and `BaseDocument.delete`. */
module Models {
  import opened Wrappers

  newtype byte = b: int | 0 <= b < 256

  type Bytes = seq<byte>

  /** A file-system path, as the `file_path` column stores it. */
  type Path = string

  /** Which model class (and which database table) a document belongs to. */
  datatype Kind = ImageKind | PdfKind

  /** One row of the `Image` or `PDF` table. The metadata columns are nullable: `None` is SQL NULL.
      The page dimensions are Python floats, taken here as reals and only ever copied. */
  datatype Document =
    | Image(title: string, filePath: Path, width: Option<int>, height: Option<int>, channels: Option<int>)
    | Pdf(title: string, filePath: Path, numPages: Option<int>, pageWidth: Option<real>, pageHeight: Option<real>)

  function KindOf(d: Document): Kind {
    if d.Image? then ImageKind else PdfKind
  }

  /** Every metadata column of the record holds a value. */
  predicate Populated(d: Document) {
    match d
    case Image(_, _, w, h, c) => w.Some? && h.Some? && c.Some?
    case Pdf(_, _, n, pw, ph) => n.Some? && pw.Some? && ph.Some?
  }

  /** `model_class(title=title, file_path=path)`: an unsaved instance whose metadata columns are all null. */
  function NewDocument(kind: Kind, title: string, path: Path): (d: Document)
    ensures KindOf(d) == kind && d.title == title && d.filePath == path
    ensures d.Image? ==> d.width.None? && d.height.None? && d.channels.None?
    ensures d.Pdf? ==> d.numPages.None? && d.pageWidth.None? && d.pageHeight.None?
  {
    match kind
    case ImageKind => Image(title, path, None, None, None)
    case PdfKind => Pdf(title, path, None, None, None)
  }

  /** The primary key of a row: the table it lives in and its auto-increment id. */
  datatype DocKey = DocKey(kind: Kind, id: nat)

  /** The two shared resources: the files under MEDIA_ROOT and the two document tables,
      together with each table's next auto-increment value. */
  datatype State = State(
    store: map<Path, Bytes>,
    index: map<DocKey, Document>,
    nextImageId: nat,
    nextPdfId: nat)

  /** The id the table of `kind` hands out on its next insert. */
  function NextId(s: State, kind: Kind): nat {
    match kind
    case ImageKind => s.nextImageId
    case PdfKind => s.nextPdfId
  }

  /** No files, no rows; auto-increment ids start at 1. */
  function Initial(): State {
    State(map[], map[], 1, 1)
  }

  /** The errors the core raises. */
  datatype Error =
    | InvalidBase64              // "Invalid base64 encoding", from `validate_file`
    | InvalidChoice(value: string) // `file_type` is neither "image" nor "pdf"
    | BlankField(field: string)  // "This field may not be blank.", for `file` or `title`
    | NullCharacters(field: string) // "Null characters are not allowed.", for `file` or `title`
    | DecodeFailed               // "Error decoding base64 data: ...", from `create`
    | ProcessingFailed           // "Error processing file: ...", after the rollback in `create`
    | DatabaseError              // the database refused an insert or a delete
    | FileNotFound               // `os.remove` on a path that does not exist

  /** The state after an operation together with its outcome: Python exceptions do not undo
      side effects that happened before they were raised, so a failure carries a state too. */
  datatype Step<T> = Step(state: State, outcome: Result<T, Error>)

  /** An error reported by `is_valid()`, before `create` runs. */
  predicate IsValidationError(e: Error) {
    e.InvalidBase64? || e.InvalidChoice? || e.BlankField? || e.NullCharacters?
  }

  /** Every stored id is below its table's counter, so the counter is a fresh id. */
  predicate IdsBelowCounters(s: State) {
    forall key | key in s.index :: key.id < NextId(s, key.kind)
  }

  /** The invariant the upload and delete paths keep: every row is fully populated, sits in the
      table of its kind, has an id below the counter and points at a file that exists; and no two
      rows share a file. */
  predicate Consistent(s: State) {
    && IdsBelowCounters(s)
    && (forall key | key in s.index ::
          Populated(s.index[key]) && KindOf(s.index[key]) == key.kind && s.index[key].filePath in s.store)
    && (forall k1, k2 | k1 in s.index && k2 in s.index && s.index[k1].filePath == s.index[k2].filePath :: k1 == k2)
  }

  /** The empty starting state satisfies the invariant. */
  lemma InitialIsConsistent()
    ensures Consistent(Initial())
    ensures NextId(Initial(), ImageKind) == 1 && NextId(Initial(), PdfKind) == 1
  {
  }

  /** `instance.save()` for an unsaved instance: an INSERT that takes the next id of the table.
      `dbFault` stands for the database raising instead. */
  function Save(s: State, doc: Document, dbFault: bool): (r: Step<DocKey>)
    ensures r.outcome.Success? <==> !dbFault
    ensures r.outcome.Failure? ==> r == Step(s, Failure(DatabaseError))
    ensures r.state.store == s.store
    ensures r.outcome.Success? ==>
      var key := r.outcome.value;
      && key == DocKey(KindOf(doc), NextId(s, KindOf(doc)))
      && r.state.index == s.index[key := doc]
      && NextId(r.state, key.kind) == key.id + 1
      && (forall k :: k != key.kind ==> NextId(r.state, k) == NextId(s, k))
      && (IdsBelowCounters(s) ==> key !in s.index && IdsBelowCounters(r.state))
  {
    if dbFault then Step(s, Failure(DatabaseError))
    else
      var kind := KindOf(doc);
      var key := DocKey(kind, NextId(s, kind));
      var bumped := match kind
        case ImageKind => s.(nextImageId := s.nextImageId + 1)
        case PdfKind => s.(nextPdfId := s.nextPdfId + 1);
      Step(bumped.(index := s.index[key := doc]), Success(key))
  }

  /** `os.remove`: raises `FileNotFoundError` when nothing is stored at `p`, and otherwise takes
      exactly that file away. */
  function RemoveFile(store: map<Path, Bytes>, p: Path): (r: Result<map<Path, Bytes>, Error>)
    ensures r.Failure? <==> p !in store
    ensures r.Failure? ==> r.error == FileNotFound
    ensures r.Success? ==> p !in r.value && r.value.Keys == store.Keys - {p}
    ensures r.Success? ==> forall q | q in r.value :: r.value[q] == store[q]
  {
    if p in store then Success(store - {p}) else Failure(FileNotFound)
  }

  /** `BaseDocument.delete` on the instance `doc` with primary key `id`: the file is removed first,
      and only if it exists, so the removal never raises; then the row is deleted. `dbFault` stands
      for the row deletion raising, which happens after the file is already gone. */
  function Delete(s: State, id: nat, doc: Document, dbFault: bool): (r: Step<()>)
    ensures doc.filePath !in r.state.store
    ensures forall p | p in s.store && p != doc.filePath :: p in r.state.store && r.state.store[p] == s.store[p]
    ensures r.state.store.Keys <= s.store.Keys
    ensures r.outcome.Success? <==> !dbFault
    ensures r.outcome.Failure? ==> r.outcome.error == DatabaseError && r.state.index == s.index
    ensures r.outcome.Success? ==>
      DocKey(KindOf(doc), id) !in r.state.index &&
      forall key | key in s.index && key != DocKey(KindOf(doc), id) ::
        key in r.state.index && r.state.index[key] == s.index[key]
    ensures r.state.index.Keys <= s.index.Keys
    ensures forall k :: NextId(r.state, k) == NextId(s, k)
  {
    var removal := if doc.filePath in s.store then RemoveFile(s.store, doc.filePath) else Success(s.store);
    match removal
    case Failure(e) => Step(s, Failure(e))
    case Success(store) =>
      var fileGone := s.(store := store);
      if dbFault then Step(fileGone, Failure(DatabaseError))
      else Step(fileGone.(index := fileGone.index - {DocKey(KindOf(doc), id)}), Success(()))
  }
}
