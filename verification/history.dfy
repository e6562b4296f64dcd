/** Any sequence of uploads and deletes. Rows are never edited after they are saved (title,
    file_path and metadata stay as committed), and ids are never handed out twice: a row with an
    id that was already issued at the start is either gone or exactly as it was. */
module History {
  import opened Wrappers
  import opened Models
  import opened Serializers

  /** One request against the core: an upload with its fresh name, or a delete of an instance. */
  datatype Op =
    | UploadOp(data: UploadData, name: string, dbFault: bool)
    | DeleteOp(id: nat, doc: Document, dbFault: bool)

  function Apply(s: State, cfg: Settings, codecs: Codecs, op: Op): State {
    match op
    case UploadOp(data, name, fault) => Upload(s, cfg, codecs, data, name, fault).state
    case DeleteOp(id, doc, fault) => Delete(s, id, doc, fault).state
  }

  function Run(s: State, cfg: Settings, codecs: Codecs, ops: seq<Op>): State
    decreases |ops|
  {
    if ops == [] then s else Run(Apply(s, cfg, codecs, ops[0]), cfg, codecs, ops[1..])
  }

  /** From `s` to `s'` no counter went back, and every row of `s'` whose id had already been
      issued in `s` was in `s`, unchanged. */
  predicate KeepsOldRows(s: State, s': State) {
    && (forall k :: NextId(s, k) <= NextId(s', k))
    && (forall key | key in s'.index && key.id < NextId(s, key.kind) ::
          key in s.index && s'.index[key] == s.index[key])
  }

  /** A committed ingest keeps the old rows. */
  lemma IngestedKeepsOldRows(s: State, s': State, key: DocKey, kind: Kind, title: string, path: Path, content: Bytes)
    requires IdsBelowCounters(s)
    requires Ingested(s, s', key, kind, title, path, content)
    ensures IdsBelowCounters(s') && KeepsOldRows(s, s')
  {
    assert key !in s.index;
  }

  /** One upload keeps the old rows and the counters' bound on ids. */
  lemma UploadKeepsOldRows(s: State, cfg: Settings, codecs: Codecs, data: UploadData, name: string, fault: bool)
    requires IdsBelowCounters(s)
    ensures var s' := Upload(s, cfg, codecs, data, name, fault).state;
      IdsBelowCounters(s') && KeepsOldRows(s, s')
  {
    var r := Upload(s, cfg, codecs, data, name, fault);
    if r.outcome.Success? {
      var kind :| ChoiceName(kind) == data.fileType && codecs.b64decode(Strip(data.file)).Some? &&
        Ingested(s, r.state, r.outcome.value, kind, Strip(data.title), StoragePath(cfg, kind, name), codecs.b64decode(Strip(data.file)).value);
      IngestedKeepsOldRows(s, r.state, r.outcome.value, kind, Strip(data.title), StoragePath(cfg, kind, name), codecs.b64decode(Strip(data.file)).value);
    } else {
      assert r.state.index == s.index;
      assert forall k :: NextId(r.state, k) == NextId(s, k);
    }
  }

  /** One request keeps the old rows and the counters' bound on ids. */
  lemma ApplyKeepsOldRows(s: State, cfg: Settings, codecs: Codecs, op: Op)
    requires IdsBelowCounters(s)
    ensures IdsBelowCounters(Apply(s, cfg, codecs, op))
    ensures KeepsOldRows(s, Apply(s, cfg, codecs, op))
  {
    match op
    case UploadOp(data, name, fault) =>
      UploadKeepsOldRows(s, cfg, codecs, data, name, fault);
    case DeleteOp(id, doc, fault) =>
  }

  /** Over any history, a row whose id was issued before the history began is either gone or
      exactly as it was: no request edits a row, and no deleted id comes back. */
  lemma {:induction false} RunKeepsOldRows(s: State, cfg: Settings, codecs: Codecs, ops: seq<Op>)
    requires IdsBelowCounters(s)
    ensures IdsBelowCounters(Run(s, cfg, codecs, ops))
    ensures KeepsOldRows(s, Run(s, cfg, codecs, ops))
    decreases |ops|
  {
    if ops != [] {
      var s1 := Apply(s, cfg, codecs, ops[0]);
      ApplyKeepsOldRows(s, cfg, codecs, ops[0]);
      RunKeepsOldRows(s1, cfg, codecs, ops[1..]);
    }
  }

  /** A document deleted at some point never reappears under its id, whatever follows. */
  lemma DeletedIdNeverReturns(s: State, cfg: Settings, codecs: Codecs, id: nat, doc: Document, ops: seq<Op>)
    requires IdsBelowCounters(s) && DocKey(KindOf(doc), id) in s.index
    ensures DocKey(KindOf(doc), id) !in Run(Delete(s, id, doc, false).state, cfg, codecs, ops).index
  {
    var s1 := Delete(s, id, doc, false).state;
    RunKeepsOldRows(s1, cfg, codecs, ops);
  }
}
