/** The upload serializer (`FileUploadSerializer`) and the path-to-URL derivation shared by the
    list and detail serializers (`api/serializers.py`). The libraries the serializer calls are
    parameters: see `Codecs`. */
module Serializers {
  import opened Wrappers
  import opened Posix
  import opened Models

  /** The two Django settings the serializers read. */
  datatype Settings = Settings(mediaRoot: string, mediaUrl: string)

  /** What PIL reports about an opened image: its size and the names of its bands ("R", "G", "B", ...). */
  datatype Raster = Raster(width: nat, height: nat, bands: seq<string>)

  /** A PDF page as pypdf exposes it: the width and height of its media box, in PDF user-space units. */
  datatype Page = Page(mediaWidth: real, mediaHeight: real)

  /** The libraries the serializer calls, as partial functions; `None` stands for the call raising.
      `b64decode` is `base64.b64decode`, `openImage` is `PIL.Image.open` and `readPdf` is the page
      list of `pypdf.PdfReader`. */
  datatype Codecs = Codecs(
    b64decode: string -> Option<Bytes>,
    openImage: Bytes -> Option<Raster>,
    readPdf: Bytes -> Option<seq<Page>>)

  /** The request fields: `file` (base64 text), `title` and `file_type`. */
  datatype UploadData = UploadData(file: string, title: string, fileType: string)

  /** The fields after validation, with `file_type` resolved to a kind. */
  datatype ValidatedData = ValidatedData(file: string, title: string, kind: Kind)

  /** A name from the fresh-name oracle (`uuid.uuid4().hex`) with no path separator in it. */
  predicate IsPlainName(name: string) {
    forall i | 0 <= i < |name| :: name[i] != '/'
  }

  /** The shape of `uuid.uuid4().hex`: 32 lower-case hexadecimal digits. */
  predicate IsHexName(name: string) {
    |name| == 32 && forall i | 0 <= i < |name| :: name[i] in "0123456789abcdef"
  }

  lemma HexNamesArePlain()
    ensures forall name :: IsHexName(name) ==> IsPlainName(name)
  {
  }

  // ---------------------------------------------------------------- validation

  /** The value of the `file_type` choice field that selects `kind`. */
  function ChoiceName(kind: Kind): string {
    match kind
    case ImageKind => "image"
    case PdfKind => "pdf"
  }

  /** The `file_type` choice field: only "image" and "pdf" are accepted. */
  function ParseFileType(fileType: string): (r: Result<Kind, Error>)
    ensures r.Success? <==> fileType == "image" || fileType == "pdf"
    ensures r.Success? ==> ChoiceName(r.value) == fileType
    ensures r.Failure? ==> r.error == InvalidChoice(fileType)
  {
    if fileType == "image" then Success(ImageKind)
    else if fileType == "pdf" then Success(PdfKind)
    else Failure(InvalidChoice(fileType))
  }

  /** `validate_file`: the text is accepted unchanged exactly when it decodes as base64. */
  function ValidateFile(codecs: Codecs, value: string): (r: Result<string, Error>)
    ensures r.Success? <==> codecs.b64decode(value).Some?
    ensures r.Success? ==> r.value == value
    ensures r.Failure? ==> r.error == InvalidBase64
  {
    match codecs.b64decode(value)
    case Some(_) => Success(value)
    case None => Failure(InvalidBase64)
  }

  /** Python's `str.isspace` on one character: tab to carriage return, the four information
      separators, space, NEL, no-break space, ogham space mark, the spaces U+2000 to U+200A, the
      line and paragraph separators, narrow no-break space, medium mathematical space and
      ideographic space. NUL is not whitespace. */
  predicate IsSpace(c: char)
    ensures c == '\0' ==> !IsSpace(c)
  {
    || '\t' <= c <= '\r'
    || '\U{001C}' <= c <= ' '
    || c == '\U{0085}' || c == '\U{00A0}' || c == '\U{1680}'
    || '\U{2000}' <= c <= '\U{200A}'
    || c == '\U{2028}' || c == '\U{2029}' || c == '\U{202F}' || c == '\U{205F}' || c == '\U{3000}'
  }

  /** A `CharField` value that is empty once stripped of whitespace, which a field declared
      without `allow_blank=True` rejects. */
  predicate IsBlank(value: string) {
    forall i | 0 <= i < |value| :: IsSpace(value[i])
  }

  /** The number of whitespace characters at the start of `value`. */
  function LeadingSpaces(value: string): (n: nat)
    ensures n <= |value| && IsBlank(value[..n])
    ensures n < |value| ==> !IsSpace(value[n])
  {
    if value == [] || !IsSpace(value[0]) then 0
    else
      var n := 1 + LeadingSpaces(value[1..]);
      assert value[..n] == [value[0]] + value[1..][..n - 1];
      n
  }

  /** `str.strip()`: `value` with leading and trailing whitespace dropped. It is empty exactly
      when `value` is blank, and since only whitespace is dropped, a NUL character survives;
      `StripDropsOnlyEdgeWhitespace` states where the result sits in `value`. */
  function Strip(value: string): (r: string)
    ensures |r| <= |value|
    ensures r == [] <==> IsBlank(value)
    ensures '\0' in r <==> '\0' in value
    decreases |value|
  {
    if value == [] then []
    else if IsSpace(value[0]) then
      DropFirstSpace(value);
      Strip(value[1..])
    else if IsSpace(value[|value| - 1]) then
      DropLastSpace(value);
      Strip(value[..|value| - 1])
    else value
  }

  /** Dropping a leading whitespace character keeps blankness and the presence of NUL. */
  lemma DropFirstSpace(value: string)
    requires value != [] && IsSpace(value[0])
    ensures IsBlank(value) <==> IsBlank(value[1..])
    ensures '\0' in value <==> '\0' in value[1..]
  {
    assert value == [value[0]] + value[1..];
  }

  /** Dropping a trailing whitespace character keeps blankness and the presence of NUL. */
  lemma DropLastSpace(value: string)
    requires value != [] && IsSpace(value[|value| - 1])
    ensures IsBlank(value) <==> IsBlank(value[..|value| - 1])
    ensures '\0' in value <==> '\0' in value[..|value| - 1]
  {
    assert value == value[..|value| - 1] + [value[|value| - 1]];
  }

  /** `r` is `value` with exactly its edges dropped: the slice starting at `i`, preceded and
      followed only by whitespace, and neither starting nor ending with whitespace. */
  predicate IsEdgeStrip(value: string, r: string, i: nat) {
    && i + |r| <= |value|
    && r == value[i..i + |r|]
    && IsBlank(value[..i])
    && IsBlank(value[i + |r|..])
    && (r != [] ==> !IsSpace(r[0]) && !IsSpace(r[|r| - 1]))
  }

  /** The stripped text is `value` with exactly its whitespace edges dropped: it starts after the
      leading whitespace and is followed only by whitespace. */
  lemma {:induction false} StripDropsOnlyEdgeWhitespace(value: string)
    ensures IsEdgeStrip(value, Strip(value), LeadingSpaces(value))
    decreases |value|
  {
    if value == [] {
    } else if IsSpace(value[0]) {
      StripDropsOnlyEdgeWhitespace(value[1..]);
      EdgeStripAfterLeadingSpace(value, Strip(value[1..]), LeadingSpaces(value[1..]));
    } else if IsSpace(value[|value| - 1]) {
      var init := value[..|value| - 1];
      StripDropsOnlyEdgeWhitespace(init);
      assert init[0] == value[0];
      EdgeStripBeforeTrailingSpace(value, Strip(init));
    } else {
      assert value[0..|value|] == value;
    }
  }

  /** A leading whitespace character shifts the stripped slice by one. */
  lemma EdgeStripAfterLeadingSpace(value: string, r: string, i: nat)
    requires value != [] && IsSpace(value[0]) && IsEdgeStrip(value[1..], r, i)
    ensures IsEdgeStrip(value, r, i + 1)
  {
    var rest := value[1..];
    assert value[1 + i..1 + i + |r|] == rest[i..i + |r|];
    assert value[1 + i + |r|..] == rest[i + |r|..];
    assert value[..i + 1] == [value[0]] + rest[..i];
  }

  /** A trailing whitespace character extends the whitespace after the stripped slice. */
  lemma EdgeStripBeforeTrailingSpace(value: string, r: string)
    requires value != [] && IsSpace(value[|value| - 1]) && IsEdgeStrip(value[..|value| - 1], r, 0)
    ensures IsEdgeStrip(value, r, 0)
  {
    var init := value[..|value| - 1];
    assert value[0..|r|] == init[0..|r|];
    assert value[|r|..] == init[|r|..] + [value[|value| - 1]];
    BlankConcat(init[|r|..], [value[|value| - 1]]);
  }

  /** Two blank texts make a blank text. */
  lemma BlankConcat(a: string, b: string)
    requires IsBlank(a) && IsBlank(b)
    ensures IsBlank(a + b)
  {
    forall k | 0 <= k < |a + b|
      ensures IsSpace((a + b)[k])
    {
      if k < |a| {
        assert (a + b)[k] == a[k];
      } else {
        assert (a + b)[k] == b[k - |a|];
      }
    }
  }

  /** A text with no whitespace at either end is its own strip. */
  lemma StripKeepsTrimmed(value: string)
    requires value != [] && !IsSpace(value[0]) && !IsSpace(value[|value| - 1])
    ensures Strip(value) == value
  {
  }

  /** Stripping twice is stripping once: the stored `file` and `title` are already stripped. */
  lemma StripIsIdempotent(value: string)
    ensures Strip(Strip(value)) == Strip(value)
  {
    StripDropsOnlyEdgeWhitespace(value);
    if Strip(value) != [] {
      StripKeepsTrimmed(Strip(value));
    }
  }

  /** A `CharField` run (`trim_whitespace` on, `allow_blank` off): blank text is rejected first;
      otherwise the text is stripped and then rejected if it holds a NUL character (the field's
      `ProhibitNullCharactersValidator`). */
  function CheckCharField(field: string, value: string): (r: Result<string, Error>)
    ensures r.Success? <==> !IsBlank(value) && '\0' !in value
    ensures r.Success? ==> r.value == Strip(value) && r.value != [] && '\0' !in r.value
    ensures r.Failure? ==> r.error == (if IsBlank(value) then BlankField(field) else NullCharacters(field))
  {
    if IsBlank(value) then Failure(BlankField(field))
    else
      var text := Strip(value);
      if '\0' in text then Failure(NullCharacters(field))
      else Success(text)
  }

  /** `is_valid()`: the fields in declaration order, each run through its `CharField` checks
      before its own validator runs; `validate_file` sees the stripped text, and the validated
      data holds the stripped `file` and `title`. */
  function Validate(codecs: Codecs, data: UploadData): (r: Result<ValidatedData, Error>)
    ensures r.Success? <==>
      && !IsBlank(data.file) && '\0' !in data.file && codecs.b64decode(Strip(data.file)).Some?
      && !IsBlank(data.title) && '\0' !in data.title
      && (data.fileType == "image" || data.fileType == "pdf")
    ensures r.Success? ==>
      && r.value.file == Strip(data.file) && r.value.title == Strip(data.title)
      && ChoiceName(r.value.kind) == data.fileType
    ensures r.Failure? ==> IsValidationError(r.error)
    ensures IsBlank(data.file) ==> r == Failure(BlankField("file"))
    ensures !IsBlank(data.file) && '\0' in data.file ==> r == Failure(NullCharacters("file"))
    ensures !IsBlank(data.file) && '\0' !in data.file && codecs.b64decode(Strip(data.file)).None? ==>
      r == Failure(InvalidBase64)
    ensures r.Failure? && r.error.NullCharacters? ==>
      (r.error.field == "file" && '\0' in data.file) || (r.error.field == "title" && '\0' in data.title)
  {
    match CheckCharField("file", data.file)
    case Failure(e) => Failure(e)
    case Success(text) =>
      match ValidateFile(codecs, text)
      case Failure(e) => Failure(e)
      case Success(file) =>
        match CheckCharField("title", data.title)
        case Failure(e) => Failure(e)
        case Success(title) =>
          match ParseFileType(data.fileType)
          case Failure(e) => Failure(e)
          case Success(kind) => Success(ValidatedData(file, title, kind))
  }

  // ---------------------------------------------------------------- storage paths

  /** The directory under MEDIA_ROOT that holds files of `kind`. */
  function KindDir(kind: Kind): string {
    match kind
    case ImageKind => "images"
    case PdfKind => "pdfs"
  }

  /** The file-name extension given to files of `kind`. */
  function Extension(kind: Kind): string {
    match kind
    case ImageKind => ".jpg"
    case PdfKind => ".pdf"
  }

  /** `os.path.join(settings.MEDIA_ROOT, "images" | "pdfs", f"{filename}.jpg" | f"{filename}.pdf")`. */
  function StoragePath(cfg: Settings, kind: Kind, name: string): Path {
    Join(Join(cfg.mediaRoot, KindDir(kind)), name + Extension(kind))
  }

  /** The part of a storage path below MEDIA_ROOT: `images/<name>.jpg` or `pdfs/<name>.pdf`. */
  function MediaName(kind: Kind, name: string): string {
    KindDir(kind) + "/" + name + Extension(kind)
  }

  // ---------------------------------------------------------------- metadata extraction

  /** The image columns of `d` hold the size and band count PIL reported. */
  predicate DescribesRaster(d: Document, img: Raster) {
    d.Image? && d.width == Some(img.width) && d.height == Some(img.height) && d.channels == Some(|img.bands|)
  }

  /** The PDF columns of `d` hold the page count and the first page's media-box size. */
  predicate DescribesPages(d: Document, pages: seq<Page>) {
    && |pages| > 0
    && d.Pdf?
    && d.numPages == Some(|pages|)
    && d.pageWidth == Some(pages[0].mediaWidth)
    && d.pageHeight == Some(pages[0].mediaHeight)
  }

  /** The metadata block of `create`: the file's bytes are read back and decoded according to the
      instance's class, and its metadata columns are filled in. Any exception in the block, the
      `pages[0]` of a PDF without pages included, becomes `ProcessingFailed`. */
  function Extract(codecs: Codecs, instance: Document, content: Bytes): (r: Result<Document, Error>)
    ensures r.Failure? ==> r.error == ProcessingFailed
    ensures r.Success? ==>
      && Populated(r.value)
      && KindOf(r.value) == KindOf(instance)
      && r.value.title == instance.title
      && r.value.filePath == instance.filePath
    ensures instance.Image? ==> (r.Success? <==> codecs.openImage(content).Some?)
    ensures instance.Image? && r.Success? ==> DescribesRaster(r.value, codecs.openImage(content).value)
    ensures instance.Pdf? ==> (r.Success? <==> codecs.readPdf(content).Some? && codecs.readPdf(content).value != [])
    ensures instance.Pdf? && r.Success? ==> DescribesPages(r.value, codecs.readPdf(content).value)
  {
    match instance
    case Image(_, _, _, _, _) =>
      (match codecs.openImage(content)
       case None => Failure(ProcessingFailed)
       case Some(img) =>
         Success(instance.(width := Some(img.width), height := Some(img.height), channels := Some(|img.bands|))))
    case Pdf(_, _, _, _, _) =>
      (match codecs.readPdf(content)
       case None => Failure(ProcessingFailed)
       case Some(pages) =>
         var counted := instance.(numPages := Some(|pages|));
         if |pages| == 0 then Failure(ProcessingFailed)
         else Success(counted.(pageWidth := Some(pages[0].mediaWidth), pageHeight := Some(pages[0].mediaHeight))))
  }

  // ---------------------------------------------------------------- ingestion

  /** `s'` is `s` plus one committed document of `kind`: the decoded bytes at `path`, and a new
      populated row with the next id of its table carrying `title` and `path`; nothing else differs. */
  predicate Ingested(s: State, s': State, key: DocKey, kind: Kind, title: string, path: Path, content: Bytes) {
    && s'.store == s.store[path := content]
    && key == DocKey(kind, NextId(s, kind))
    && key in s'.index
    && s'.index == s.index[key := s'.index[key]]
    && KindOf(s'.index[key]) == kind
    && s'.index[key].title == title
    && s'.index[key].filePath == path
    && Populated(s'.index[key])
    && NextId(s', kind) == NextId(s, kind) + 1
    && (forall k :: k != kind ==> NextId(s', k) == NextId(s, k))
  }

  /** `create`: decode the text again, write the bytes to a fresh path in the directory of the
      kind, extract the metadata from the written file, and either remove the file (unguarded) and
      raise, or save the populated instance. `name` is the fresh name (`uuid4().hex`); `dbFault` stands for
      `instance.save()` raising. */
  function Create(s: State, cfg: Settings, codecs: Codecs, data: ValidatedData, name: string, dbFault: bool)
    : (r: Step<DocKey>)
    ensures codecs.b64decode(data.file).None? ==> r == Step(s, Failure(DecodeFailed))
    ensures r.outcome.Failure? ==>
      && r.outcome.error in {DecodeFailed, ProcessingFailed, DatabaseError}
      && r.state.index == s.index
      && r.state.nextImageId == s.nextImageId && r.state.nextPdfId == s.nextPdfId
    ensures r.outcome == Failure(ProcessingFailed) ==>
      r.state.store == s.store - {StoragePath(cfg, data.kind, name)}
    ensures r.outcome == Failure(DatabaseError) ==>
      r.state.store == s.store[StoragePath(cfg, data.kind, name) := codecs.b64decode(data.file).value]
    ensures r.outcome.Success? ==>
      && codecs.b64decode(data.file).Some?
      && Ingested(s, r.state, r.outcome.value, data.kind, data.title,
                  StoragePath(cfg, data.kind, name), codecs.b64decode(data.file).value)
  {
    match codecs.b64decode(data.file)
    case None => Step(s, Failure(DecodeFailed))
    case Some(content) =>
      var path := StoragePath(cfg, data.kind, name);
      var written := s.(store := s.store[path := content]);
      var instance := NewDocument(data.kind, data.title, path);
      match Extract(codecs, instance, written.store[path])
      case Success(doc) => Save(written, doc, dbFault)
      case Failure(e) => Rollback(s, path, content, e)
  }

  /** The rollback of `create` after `content` was written at `path`: the unguarded `os.remove`,
      which cannot raise because the file was just written, then the extraction error `e`. */
  function Rollback(s: State, path: Path, content: Bytes, e: Error): (r: Step<DocKey>)
    ensures r == Step(s.(store := s.store - {path}), Failure(e))
  {
    var written := s.(store := s.store[path := content]);
    match RemoveFile(written.store, path)
    case Failure(removeError) => Step(written, Failure(removeError))
    case Success(store) =>
      assert store == s.store - {path};
      Step(written.(store := store), Failure(e))
  }

  /** An upload request: `is_valid()` followed by `save()`, which calls `create`. A request that
      fails validation touches nothing; the second decode inside `create` cannot fail after the
      first one succeeded. */
  function Upload(s: State, cfg: Settings, codecs: Codecs, data: UploadData, name: string, dbFault: bool)
    : (r: Step<DocKey>)
    ensures codecs.b64decode(Strip(data.file)).None? ==> r.outcome.Failure? && r.state == s
    ensures !IsBlank(data.file) && '\0' !in data.file && codecs.b64decode(Strip(data.file)).None? ==>
      r == Step(s, Failure(InvalidBase64))
    ensures r.outcome.Failure? && IsValidationError(r.outcome.error) ==> r.state == s
    ensures r.outcome.Failure? ==> r.outcome.error != DecodeFailed
    ensures r.outcome.Failure? ==>
      r.state.index == s.index && r.state.nextImageId == s.nextImageId && r.state.nextPdfId == s.nextPdfId
    ensures r.outcome.Success? ==>
      !IsBlank(data.file) && !IsBlank(data.title) && '\0' !in data.file && '\0' !in data.title
    ensures r.outcome.Success? ==>
      exists kind :: ChoiceName(kind) == data.fileType && codecs.b64decode(Strip(data.file)).Some? &&
        Ingested(s, r.state, r.outcome.value, kind, Strip(data.title),
                 StoragePath(cfg, kind, name), codecs.b64decode(Strip(data.file)).value)
  {
    match Validate(codecs, data)
    case Failure(e) => Step(s, Failure(e))
    case Success(valid) => Create(s, cfg, codecs, valid, name, dbFault)
  }

  // ---------------------------------------------------------------- URLs

  /** `get_file_url`: the file path with MEDIA_ROOT replaced by MEDIA_URL, or `None` for an empty
      path. The path must lie inside MEDIA_ROOT (see `Posix.RelPath`). */
  function FileUrl(cfg: Settings, path: Path): (r: Option<string>)
    requires path == [] || Inside(path, cfg.mediaRoot)
    ensures r.None? <==> path == []
    ensures r.Some? ==>
      exists rel :: Join(cfg.mediaRoot, rel) == path && !IsAbsolute(rel) && r.value == Join(cfg.mediaUrl, rel)
  {
    if path == [] then None
    else
      var rel := RelPath(path, cfg.mediaRoot);
      Some(Join(cfg.mediaUrl, rel))
  }
}
