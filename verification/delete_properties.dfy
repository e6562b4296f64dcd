/** `BaseDocument.delete`: the file goes first (only if it exists), then the row. These lemmas
    relate a delete to the invariant `Models.Consistent` and to a second delete of the same row, made
    after the first completed through an instance loaded before it. */
module DeleteProperties {
  import opened Wrappers
  import opened Models

  /** `doc` is the row stored under `id` in its table, i.e. the instance a caller loaded. */
  predicate LoadedFrom(s: State, id: nat, doc: Document) {
    DocKey(KindOf(doc), id) in s.index && s.index[DocKey(KindOf(doc), id)] == doc
  }

  /** Deleting a loaded document removes its row and its file and keeps the invariant: no row
      left behind points at the removed file. */
  lemma DeletePreservesConsistent(s: State, id: nat, doc: Document)
    requires Consistent(s) && LoadedFrom(s, id, doc)
    ensures var r := Delete(s, id, doc, false);
      && r.outcome.Success?
      && DocKey(KindOf(doc), id) !in r.state.index
      && doc.filePath !in r.state.store
      && (forall key | key in r.state.index :: r.state.index[key].filePath != doc.filePath)
      && Consistent(r.state)
  {
    var r := Delete(s, id, doc, false);
    var gone := DocKey(KindOf(doc), id);
    forall key | key in r.state.index
      ensures r.state.index[key] == s.index[key]
      ensures r.state.index[key].filePath != doc.filePath
    {
      assert key in s.index && key != gone;
    }
  }

  /** A second delete of the same row, by a request made after the first delete completed (through
      an instance loaded before it), succeeds and changes nothing: the file is already absent, so a
      bare `os.remove` would raise `FileNotFoundError`, but the existence check skips it; and
      deleting the missing row affects nothing. */
  lemma DeleteIsIdempotent(s: State, id: nat, doc: Document)
    ensures var s1 := Delete(s, id, doc, false).state;
      && RemoveFile(s1.store, doc.filePath) == Failure(FileNotFound)
      && Delete(s1, id, doc, false) == Step(s1, Success(()))
  {
    var s1 := Delete(s, id, doc, false).state;
    var s2 := Delete(s1, id, doc, false).state;
    assert s2.store == s1.store;
    assert s2.index.Keys == s1.index.Keys;
  }

  /** The order is file first, then row: if the row deletion raises, the row is still there but
      its file is gone, so the state is no longer consistent — a dangling row. */
  lemma DeleteFaultLeavesDanglingRow(s: State, id: nat, doc: Document)
    requires Consistent(s) && LoadedFrom(s, id, doc)
    ensures var r := Delete(s, id, doc, true);
      && r.outcome == Failure(DatabaseError)
      && DocKey(KindOf(doc), id) in r.state.index
      && r.state.index[DocKey(KindOf(doc), id)].filePath !in r.state.store
      && !Consistent(r.state)
  {
  }
}
