/** The all-or-nothing promise of the upload path (`FileUploadSerializer.create`): a failed
    extraction leaves the files and the tables as they were, a successful one adds exactly one
    fully populated row whose metadata is what the decoder reported, and the invariant
    `Models.Consistent` is kept. The fresh name is assumed fresh: no file is at the path it gives. */
module IngestProperties {
  import opened Wrappers
  import opened Models
  import opened Serializers

  /** The fresh-name oracle's promise: no file exists yet at either path `name` can give. */
  predicate FreshName(s: State, cfg: Settings, name: string) {
    StoragePath(cfg, ImageKind, name) !in s.store && StoragePath(cfg, PdfKind, name) !in s.store
  }

  /** Writing a file at a fresh path and removing it again restores the store. */
  lemma WriteThenRemove(store: map<Path, Bytes>, path: Path, content: Bytes)
    requires path !in store
    ensures store[path := content] - {path} == store
  {
    assert (store[path := content] - {path}).Keys == store.Keys;
  }

  /** A state that differs from `s` only by the removal of a path `s` never had is `s` itself. */
  lemma RemovingAbsentPathRestores(s: State, s': State, path: Path)
    requires path !in s.store && s'.store == s.store - {path}
    requires s'.index == s.index && s'.nextImageId == s.nextImageId && s'.nextPdfId == s.nextPdfId
    ensures s' == s
  {
    assert s'.store.Keys == s.store.Keys;
  }

  /** If extraction fails, the written file is removed and no row is saved: with a fresh name,
      the files and the tables end up exactly as before the call, and `ProcessingFailed` is raised. */
  lemma FailedExtractionLeavesNoTrace(s: State, cfg: Settings, codecs: Codecs, data: ValidatedData, name: string, dbFault: bool)
    requires StoragePath(cfg, data.kind, name) !in s.store
    requires codecs.b64decode(data.file).Some?
    requires Extract(codecs, NewDocument(data.kind, data.title, StoragePath(cfg, data.kind, name)),
                     codecs.b64decode(data.file).value).Failure?
    ensures Create(s, cfg, codecs, data, name, dbFault) == Step(s, Failure(ProcessingFailed))
  {
    var path := StoragePath(cfg, data.kind, name);
    var content := codecs.b64decode(data.file).value;
    WriteThenRemove(s.store, path, content);
    assert s.store[path := content][path] == content;
  }

  /** An image upload succeeds exactly when PIL opens the decoded bytes and the insert goes
      through; the row then holds PIL's width, height and band count, none of them null. */
  lemma ImageUploadRecordsDecoderMetadata(s: State, cfg: Settings, codecs: Codecs, file: string, title: string, name: string, dbFault: bool)
    requires codecs.b64decode(file).Some?
    ensures var r := Create(s, cfg, codecs, ValidatedData(file, title, ImageKind), name, dbFault);
      && (r.outcome.Success? <==> codecs.openImage(codecs.b64decode(file).value).Some? && !dbFault)
      && (r.outcome.Success? ==>
            DescribesRaster(r.state.index[r.outcome.value], codecs.openImage(codecs.b64decode(file).value).value))
  {
    var content := codecs.b64decode(file).value;
    var path := StoragePath(cfg, ImageKind, name);
    assert s.store[path := content][path] == content;
  }

  /** A PDF upload succeeds exactly when pypdf reads the decoded bytes into at least one page and
      the insert goes through; the row then holds the page count and the first page's media-box
      width and height. */
  lemma PdfUploadRecordsFirstPage(s: State, cfg: Settings, codecs: Codecs, file: string, title: string, name: string, dbFault: bool)
    requires codecs.b64decode(file).Some?
    ensures var r := Create(s, cfg, codecs, ValidatedData(file, title, PdfKind), name, dbFault);
      var pages := codecs.readPdf(codecs.b64decode(file).value);
      && (r.outcome.Success? <==> pages.Some? && pages.value != [] && !dbFault)
      && (r.outcome.Success? ==> DescribesPages(r.state.index[r.outcome.value], pages.value))
  {
    var content := codecs.b64decode(file).value;
    var path := StoragePath(cfg, PdfKind, name);
    assert s.store[path := content][path] == content;
  }

  /** A PDF without pages makes `pdf.pages[0]` raise inside the guarded block, so it goes down the
      rollback path: nothing is left behind and `ProcessingFailed` is raised. */
  lemma EmptyPdfIsRolledBack(s: State, cfg: Settings, codecs: Codecs, file: string, title: string, name: string, dbFault: bool)
    requires StoragePath(cfg, PdfKind, name) !in s.store
    requires codecs.b64decode(file).Some? && codecs.readPdf(codecs.b64decode(file).value) == Some([])
    ensures Create(s, cfg, codecs, ValidatedData(file, title, PdfKind), name, dbFault) == Step(s, Failure(ProcessingFailed))
  {
    var content := codecs.b64decode(file).value;
    var path := StoragePath(cfg, PdfKind, name);
    assert s.store[path := content][path] == content;
    FailedExtractionLeavesNoTrace(s, cfg, codecs, ValidatedData(file, title, PdfKind), name, dbFault);
  }

  /** The fresh-name promise covers both kinds. */
  lemma FreshPath(s: State, cfg: Settings, name: string, kind: Kind)
    requires FreshName(s, cfg, name)
    ensures StoragePath(cfg, kind, name) !in s.store
  {
  }

  /** What a committed ingest adds, spelled out on the two maps: one new row under an unused id,
      one new file at an unused path, everything else as it was. */
  predicate AddsExactlyOne(s: State, s': State, key: DocKey, content: Bytes) {
    && key !in s.index
    && key in s'.index
    && s'.index.Keys == s.index.Keys + {key}
    && |s'.index| == |s.index| + 1
    && (forall k | k in s.index :: s'.index[k] == s.index[k])
    && s'.index[key].filePath !in s.store
    && s'.store.Keys == s.store.Keys + {s'.index[key].filePath}
    && (forall p | p in s.store :: s'.store[p] == s.store[p])
    && s'.store[s'.index[key].filePath] == content
  }

  /** Adding a key a map does not have grows it by exactly that key. */
  lemma AddFreshKey<K, V>(m: map<K, V>, k: K, v: V)
    requires k !in m
    ensures m[k := v].Keys == m.Keys + {k}
    ensures |m[k := v]| == |m| + 1
    ensures forall j | j in m :: m[k := v][j] == m[j]
  {
    assert |m.Keys + {k}| == |m.Keys| + 1;
  }

  lemma IngestedAddsExactlyOne(s: State, s': State, key: DocKey, kind: Kind, title: string, path: Path, content: Bytes)
    requires IdsBelowCounters(s) && path !in s.store
    requires Ingested(s, s', key, kind, title, path, content)
    ensures AddsExactlyOne(s, s', key, content)
  {
    assert key !in s.index;
    AddFreshKey(s.index, key, s'.index[key]);
    AddFreshKey(s.store, path, content);
  }

  lemma IngestedKeepsConsistent(s: State, s': State, key: DocKey, kind: Kind, title: string, path: Path, content: Bytes)
    requires Consistent(s) && path !in s.store
    requires Ingested(s, s', key, kind, title, path, content)
    ensures Consistent(s')
  {
    assert key !in s.index;
    AddFreshKey(s.index, key, s'.index[key]);
    forall k | k in s'.index
      ensures k.id < NextId(s', k.kind)
      ensures Populated(s'.index[k]) && KindOf(s'.index[k]) == k.kind && s'.index[k].filePath in s'.store
      ensures k != key ==> s'.index[k].filePath != path
    {
      if k != key {
        assert s'.index[k] == s.index[k] && s.index[k].filePath in s.store;
      }
    }
    assert IdsBelowCounters(s');
  }

  /** A successful upload adds exactly one row, under an id no row had, and one file at a path no
      file had; every other row and every other file is unchanged. */
  lemma SuccessfulUploadChangesNothingElse(s: State, cfg: Settings, codecs: Codecs, data: UploadData, name: string, dbFault: bool)
    requires IdsBelowCounters(s) && FreshName(s, cfg, name)
    ensures var r := Upload(s, cfg, codecs, data, name, dbFault);
      r.outcome.Success? ==> AddsExactlyOne(s, r.state, r.outcome.value, codecs.b64decode(Strip(data.file)).value)
  {
    var r := Upload(s, cfg, codecs, data, name, dbFault);
    if r.outcome.Success? {
      var key := r.outcome.value;
      var content := codecs.b64decode(Strip(data.file)).value;
      var kind :| ChoiceName(kind) == data.fileType && codecs.b64decode(Strip(data.file)).Some? &&
        Ingested(s, r.state, key, kind, Strip(data.title), StoragePath(cfg, kind, name), content);
      FreshPath(s, cfg, name, kind);
      IngestedAddsExactlyOne(s, r.state, key, kind, Strip(data.title), StoragePath(cfg, kind, name), content);
    }
  }

  /** With a fresh name, `create` either commits exactly one document or leaves the tables as
      they were; only a failed insert leaves anything behind, and then only the written file. */
  lemma CreateIsAllOrNothing(s: State, cfg: Settings, codecs: Codecs, data: ValidatedData, name: string, dbFault: bool)
    requires FreshName(s, cfg, name)
    ensures var r := Create(s, cfg, codecs, data, name, dbFault);
      && (r.outcome.Failure? ==> r.state.index == s.index)
      && (r.outcome.Failure? && r.outcome.error != DatabaseError ==> r.state == s)
      && (r.outcome.Failure? && r.outcome.error == DatabaseError ==>
            r.state.store == s.store[StoragePath(cfg, data.kind, name) := codecs.b64decode(data.file).value])
  {
    var r := Create(s, cfg, codecs, data, name, dbFault);
    if r.outcome == Failure(ProcessingFailed) {
      FreshPath(s, cfg, name, data.kind);
      RemovingAbsentPathRestores(s, r.state, StoragePath(cfg, data.kind, name));
    }
  }

  /** With a fresh name, an upload either commits exactly one document or leaves the tables as
      they were; only a failed insert leaves anything behind, and then only the orphaned file. */
  lemma UploadIsAllOrNothing(s: State, cfg: Settings, codecs: Codecs, data: UploadData, name: string, dbFault: bool)
    requires FreshName(s, cfg, name)
    ensures var r := Upload(s, cfg, codecs, data, name, dbFault);
      && (r.outcome.Failure? ==> r.state.index == s.index)
      && (r.outcome.Failure? && r.outcome.error != DatabaseError ==> r.state == s)
      && (r.outcome.Failure? && r.outcome.error == DatabaseError ==>
            exists kind :: r.state.store == s.store[StoragePath(cfg, kind, name) := codecs.b64decode(Strip(data.file)).value])
  {
    match Validate(codecs, data)
    case Failure(_) =>
    case Success(valid) =>
      CreateIsAllOrNothing(s, cfg, codecs, valid, name, dbFault);
      var r := Create(s, cfg, codecs, valid, name, dbFault);
      if r.outcome == Failure(DatabaseError) {
        assert r.state.store == s.store[StoragePath(cfg, valid.kind, name) := codecs.b64decode(Strip(data.file)).value];
      }
  }

  /** An upload with a fresh name keeps the invariant: every row populated, in its table, with an
      id below the counter, pointing at an existing file that no other row points at. */
  lemma UploadPreservesConsistent(s: State, cfg: Settings, codecs: Codecs, data: UploadData, name: string, dbFault: bool)
    requires Consistent(s) && FreshName(s, cfg, name)
    ensures Consistent(Upload(s, cfg, codecs, data, name, dbFault).state)
  {
    var r := Upload(s, cfg, codecs, data, name, dbFault);
    UploadIsAllOrNothing(s, cfg, codecs, data, name, dbFault);
    if r.outcome.Success? {
      var key := r.outcome.value;
      var content := codecs.b64decode(Strip(data.file)).value;
      var kind :| ChoiceName(kind) == data.fileType && codecs.b64decode(Strip(data.file)).Some? &&
        Ingested(s, r.state, key, kind, Strip(data.title), StoragePath(cfg, kind, name), content);
      FreshPath(s, cfg, name, kind);
      IngestedKeepsConsistent(s, r.state, key, kind, Strip(data.title), StoragePath(cfg, kind, name), content);
    } else if r.outcome.error == DatabaseError {
      var kind :| r.state.store == s.store[StoragePath(cfg, kind, name) := codecs.b64decode(Strip(data.file)).value];
      OrphanFileKeepsConsistent(s, r.state);
    }
  }

  /** An extra file that no row points at (the orphan a failed insert leaves) does not break the
      invariant. */
  lemma OrphanFileKeepsConsistent(s: State, s': State)
    requires Consistent(s)
    requires s'.index == s.index && s'.nextImageId == s.nextImageId && s'.nextPdfId == s.nextPdfId
    requires s.store.Keys <= s'.store.Keys
    ensures Consistent(s')
  {
    assert forall k :: NextId(s', k) == NextId(s, k);
  }

  /** Reading the stored file back and extracting again gives the committed row: the metadata is
      consistent with the bytes on disk. */
  lemma ReExtractionAgrees(s: State, cfg: Settings, codecs: Codecs, data: ValidatedData, name: string, dbFault: bool)
    ensures var r := Create(s, cfg, codecs, data, name, dbFault);
      var path := StoragePath(cfg, data.kind, name);
      r.outcome.Success? ==>
        Extract(codecs, NewDocument(data.kind, data.title, path), r.state.store[path])
          == Success(r.state.index[r.outcome.value])
  {
    var r := Create(s, cfg, codecs, data, name, dbFault);
    if r.outcome.Success? {
      var content := codecs.b64decode(data.file).value;
      var path := StoragePath(cfg, data.kind, name);
      assert s.store[path := content][path] == content;
    }
  }
}
