# Document upload and delete — a Dafny model

This project models the core of a small Django document API. Clients upload images and PDFs as
base64 text. The server writes each upload under MEDIA_ROOT, extracts its metadata, and keeps one
row per document in the `Image` or `PDF` table. It also derives the file's URL from its path, and
it deletes a document's file together with its row.

The model is a functional state machine over two shared resources (`Models.State`):

- the **content store**, a map from file path to bytes (the files under MEDIA_ROOT);
- the **document index**, a map from `(table, id)` to a row. Images and PDFs live in separate
  tables with separate auto-increment counters. A row is an `Image` (title, file_path, width,
  height, channels) or a `Pdf` (title, file_path, num_pages, page_width, page_height). Its
  metadata columns are nullable.

Operations are pure functions from a state to a `Step`: the new state together with a `Result`.
A Python exception does not undo side effects that happened before it, so a failure carries a
state too. The libraries the serializer calls are parameters, bundled in `Serializers.Codecs` as
partial functions (`None` means the call raised):

- `base64.b64decode`;
- `PIL.Image.open`, giving width, height and bands;
- `pypdf.PdfReader`, giving the page list with media boxes.

The name from `uuid.uuid4().hex` is a parameter, and so is the choice of whether the database
raises on an insert or a delete (`dbFault`).

Modules:

- `Posix`: `os.path.join` and the prefix-strip case of `os.path.relpath`.
- `Models`: the row types, the state, the `Consistent` invariant, `instance.save()` (`Save`) and
  `BaseDocument.delete` (`Delete`).
- `Serializers`: field validation, the storage path, metadata extraction, `create`, the upload
  request (`Upload` = `is_valid()` then `save()`) and `get_file_url` (`FileUrl`).
- `PathProperties`, `IngestProperties`, `DeleteProperties`, `History`: the lemmas.

`get_file_url` appears four times in `api/serializers.py`, at lines 100-109, 132-139, 166-170
and 214-218. The four copies are identical, and `Serializers.FileUrl` models all of them.

**Delete order.** `api/models.py:19-21` removes the file before the row. So a row delete that
raises leaves a row whose file is gone (`DeleteProperties.DeleteFaultLeavesDanglingRow`), and
such a state breaks the invariant `Models.Consistent`.

## Model

| member | source | states |
|---|---|---|
| Models.NewDocument | api/models.py:23-34 | an instance built from a kind, title and path has that kind, title and file_path, and every metadata column null |
| Models.Save | api/serializers.py:81-82 | an insert succeeds unless the database raises; the new row gets the next id of its table, which no row has when the ids are below the counter; the counter advances and the files are untouched; a failed insert changes nothing |
| Models.RemoveFile | api/models.py:20 | `os.remove` raises FileNotFoundError exactly when nothing is stored at the path; otherwise exactly that file goes and every other file keeps its bytes |
| Models.Delete | api/models.py:17-21 | after a delete the file is absent whether or not it existed; because `os.remove` runs only when the file exists, a missing file raises nothing, and the only possible error is the database's; no other file changes; the row goes only when the database does not raise, and no other row changes |
| Serializers.ParseFileType | api/serializers.py:19 | `file_type` is accepted exactly when it is "image" or "pdf", and the chosen kind's name is the given value |
| Serializers.ValidateFile | api/serializers.py:21-28 | the text is accepted unchanged exactly when it decodes as base64; otherwise "Invalid base64 encoding" is raised |
| Serializers.Strip | api/serializers.py:17-18 | `str.strip()`, which a `CharField` applies by default (`trim_whitespace`): the result is never longer than the text, is empty exactly when the text is blank, and holds a NUL character exactly when the text does |
| Serializers.StripDropsOnlyEdgeWhitespace | api/serializers.py:17-18 | the stripped text is the slice of the text after its leading whitespace, followed only by whitespace, and it neither starts nor ends with whitespace |
| Serializers.StripIsIdempotent | api/serializers.py:17-18 | stripping an already stripped text changes nothing |
| Serializers.CheckCharField | api/serializers.py:17-18 | a `CharField` accepts text exactly when it is not blank (all whitespace) and holds no NUL character, and returns it stripped; blankness is reported first, then the NUL character |
| Serializers.Validate | api/serializers.py:17-28 | validation succeeds exactly when `file` and `title` are not blank and hold no NUL character, the stripped file decodes and the file type is a valid choice; the validated `file` and `title` are the stripped texts; for `file`, blankness is reported first, then a NUL character, then a bad encoding as InvalidBase64; a NUL error names a field that holds one; every failure is a validation error |
| Serializers.Extract | api/serializers.py:62-79 | extraction succeeds for an image exactly when PIL opens the bytes, and for a PDF exactly when pypdf reads at least one page; on success the row is fully populated with the decoder's values and keeps title, path and kind; any failure is ProcessingFailed |
| Serializers.Create | api/serializers.py:30-82 | a decode failure raises before any write; a failed extraction leaves the tables as they were and the store without the path, and the unguarded `os.remove` of the rollback cannot raise because the file was just written; a failed insert leaves only the orphaned file; success commits one populated row carrying the title and the generated path, with the decoded bytes at that path |
| Serializers.Upload | api/serializers.py:21-82 | text that does not decode is rejected before any file or row is written, as InvalidBase64 when the field is neither blank nor holds a NUL character; a validation failure changes nothing; the second decode inside `create` never fails after validation; success needs a title and a file that are not blank and hold no NUL character, and is an ingest of the requested kind that stores the decoded stripped file under the stripped title |
| Serializers.FileUrl | api/serializers.py:100-109 | the URL is absent exactly for an empty path; for a path inside MEDIA_ROOT whose remainder is in normal form (no `.` or `..` segment among others), it is MEDIA_URL joined with the part of the path below MEDIA_ROOT |
| Posix.Join | api/serializers.py:45 | `os.path.join`: an absolute second part replaces the first; otherwise the result is the first part as a directory (a separator appended unless it is empty or already ends in one) followed by the second part |
| Posix.RelPath | api/serializers.py:107 | for a path inside the start directory (an empty start being the working directory) whose remainder has no leading, trailing or doubled separator and no `.` or `..` segment, the relative path is that remainder: non-empty, in normal form, and joined back onto the start it gives the original path |
| PathProperties.StoragePathLayout | api/serializers.py:42-49 | an image is stored at MEDIA_ROOT/images/<name>.jpg and a PDF at MEDIA_ROOT/pdfs/<name>.pdf |
| PathProperties.StoragePathInjective | api/serializers.py:44-49 | equal storage paths come from the same kind and the same fresh name: the two kinds never share a path |
| PathProperties.DistinctNamesDistinctPaths | api/serializers.py:42-56 | distinct fresh names give distinct paths, so the write cannot overwrite another document's file |
| PathProperties.HexNamesNeverCollide | api/serializers.py:42-49 | two distinct names of the shape of `uuid4().hex` never give the same storage path, whatever the kinds |
| PathProperties.MediaNameIsNormal | api/serializers.py:44-49 | the part of a storage path below MEDIA_ROOT, images/<name>.jpg or pdfs/<name>.pdf, has no leading, trailing or doubled separator and no `.` or `..` segment |
| PathProperties.DotSegmentIsNotInside | api/serializers.py:107 | an example of the excluded case: a remainder such as `a/../b`, which relpath would fold to `b`, is outside the prefix-strip case, while `a/b` is inside it and strips to `a/b` |
| PathProperties.FileUrlOfStoragePath | api/serializers.py:132-139 | for every MEDIA_ROOT, the empty one included, a path built by `create` lies inside MEDIA_ROOT, and its URL is MEDIA_URL joined with images/<name>.jpg or pdfs/<name>.pdf |
| IngestProperties.FailedExtractionLeavesNoTrace | api/serializers.py:76-79 | with a fresh name, failed extraction removes the written file, saves no row and raises ProcessingFailed; files and tables equal their state before the call |
| IngestProperties.ImageUploadRecordsDecoderMetadata | api/serializers.py:63-67 | an image ingest succeeds exactly when PIL opens the bytes and the insert goes through; the row's width, height and channels are PIL's width, height and band count |
| IngestProperties.PdfUploadRecordsFirstPage | api/serializers.py:68-75 | a PDF ingest succeeds exactly when pypdf reads at least one page and the insert goes through; num_pages is the page count and the dimensions are the first page's media box |
| IngestProperties.EmptyPdfIsRolledBack | api/serializers.py:71-79 | a PDF with zero pages fails at `pages[0]` inside the guarded block and is rolled back: nothing changes and ProcessingFailed is raised |
| IngestProperties.SuccessfulUploadChangesNothingElse | api/serializers.py:55-82 | a successful upload adds exactly one row under an unused id and one file at an unused path holding the decoded bytes; every other row and file is unchanged |
| IngestProperties.CreateIsAllOrNothing | api/serializers.py:30-82 | with a fresh name, a failed `create` leaves the tables unchanged; unless the insert failed it leaves the files unchanged too; a failed insert leaves exactly the written file |
| IngestProperties.UploadIsAllOrNothing | api/serializers.py:30-82 | with a fresh name, a failed upload leaves the tables unchanged; unless the insert failed it leaves the files unchanged too; a failed insert leaves only the written file |
| IngestProperties.UploadPreservesConsistent | api/serializers.py:55-82 | an upload with a fresh name keeps the invariant: rows populated, in their own table, with ids below the counter, pointing at existing files that no other row shares |
| IngestProperties.ReExtractionAgrees | api/serializers.py:62-75 | extracting again from the stored file gives exactly the committed row |
| DeleteProperties.DeletePreservesConsistent | api/models.py:17-21 | deleting a loaded document removes its row and its file, leaves no row pointing at that file, and keeps the invariant |
| DeleteProperties.DeleteIsIdempotent | api/models.py:19-21 | a second delete of the same row, by a request made after the first completed (through an instance loaded before it), succeeds and changes nothing: a bare `os.remove` would raise on the missing file, but the existence check skips it, and deleting the missing row affects nothing |
| DeleteProperties.DeleteFaultLeavesDanglingRow | api/models.py:19-21 | the file is removed before the row: if the row deletion raises, the row remains, its file is gone and the invariant is broken |
| History.RunKeepsOldRows | api/models.py:10-12 | over any sequence of uploads and deletes, counters never decrease, and a row whose id was already issued is either gone or exactly as committed: title, file_path and metadata are never edited |
| History.DeletedIdNeverReturns | api/migrations/0001_initial.py:17 | once a document is deleted, no later sequence of uploads and deletes brings back a row under its id |

## Left out

- The HTTP layer: `FileUploadView.post` and its status mapping (`api/views.py`), and the URL routing (`api/urls.py`).
- The image rotation and PDF-to-image views. Their source is not part of this model.
- The detail serializers' read-time fields `get_file_size`, `get_mime_type`, `get_author` and `get_creation_date`. They are file-system stat and library parsing with catch-all error handling.
- The internals of base64, PIL and pypdf. They are the partial functions of `Serializers.Codecs`.
- The randomness of `uuid.uuid4()`. Its name is a parameter. Freshness (no file at the resulting path) is a hypothesis of the lemmas (`IngestProperties.FreshName`), not something proved.
- I/O failures of `os.makedirs` and `open`/`write`, and failures of `os.remove` other than a missing file (permissions, a directory at the path). Only database failures and the missing-file case are modelled. `create` does not catch a failure at `api/serializers.py:52-56`, so it can leave a new directory and an empty or partially written file behind. Directories are not modelled, and a write is all-or-nothing in the model.
- `uploaded_at` timestamps, concurrency, and the `max_length` limits on title and file_path.
- The race between the existence check and `os.remove` in `api/models.py:19-20`. Two concurrent deletes of the same document can both see the file, and then the second `os.remove` raises FileNotFoundError. The model runs requests one after another.
- Floating point: page_width and page_height are reals, copied through unchanged.
- Serializers.Validate: DRF collects the errors of all fields, while `Validate` reports only the first. DRF's rejection of surrogate code points needs no model, because a Dafny character is never a surrogate.
- Error message text, including `str(e)`. Errors are constructors of `Models.Error`.
- Models.Delete: always receives an id. Django raises ValueError at `super().delete()` for an instance whose primary key is None, after the file has already been removed. This covers an instance that was never saved. It also covers an instance already deleted once, because `Model.delete()` resets the primary key to None. So a second `delete()` on the same instance object raises, and `DeleteProperties.DeleteIsIdempotent` describes a second instance of the row instead.
- Serializers.FileUrl: requires the path to be empty or to lie inside MEDIA_ROOT, with the remainder in normal form (no leading, trailing or doubled separator, and no `.` or `..` segment). Paths outside MEDIA_ROOT, where `os.path.relpath` yields `..` components, are excluded. So are remainders holding a `.` or `..` segment, which relpath would resolve (`PathProperties.DotSegmentIsNotInside`). An empty MEDIA_ROOT is the working directory and is modelled.
- Posix.RelPath: models `os.path.relpath` only as stripping the start-directory prefix from a path whose remainder is already normal. An empty start is the working directory, so the path must then be relative. The other cases of relpath are excluded by its precondition: leaving the start directory, and resolving `.` and `..` segments.
- The rest of the migration file. Apart from the auto-increment `id` column it repeats the schema of `api/models.py`.
