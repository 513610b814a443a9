/** The per-document diagnostics cache. */
module DiagnosticsStore {
  import opened Common

  datatype Diagnostic = Diagnostic(startLine: int, startColumn: int, endLine: int, endColumn: int,
                                   severity: string, source: string, code: string, message: string)

  /** What the cache keeps for one document: the last report, when it came, its number. */
  datatype DocState = DocState(diags: seq<Diagnostic>, version: int, lastPub: int, seqNo: nat)

  type Docs = map<string, DocState>

  function PublishSeqOf(docs: Docs, uri: string): nat {
    if uri in docs then docs[uri].seqNo else 0
  }

  function Published(docs: Docs, uri: string, diags: seq<Diagnostic>, version: int, now: int): Docs {
    docs[uri := DocState(diags, version, now, PublishSeqOf(docs, uri) + 1)]
  }

  /** What one pass of the wait loop decides with the lock held. */
  datatype Verdict = GiveUp | Settled(diags: seq<Diagnostic>) | ParkFor(delay: int) | Park

  function VerdictOf(docs: Docs, uri: string, settle: int, baseline: nat, done: bool, now: int): Verdict {
    if done then GiveUp
    else if PublishSeqOf(docs, uri) > baseline then
      if now - docs[uri].lastPub >= settle then Settled(docs[uri].diags)
      else ParkFor(settle - (now - docs[uri].lastPub))
    else Park
  }

  class Store {
    var docs: Docs

    constructor ()
      ensures docs == map[]
    {
      docs := map[];
    }

    method Publish(uri: string, diags: seq<Diagnostic>, version: Option<int>, now: int)
      modifies this
      ensures docs == Published(old(docs), uri, diags, if version.Some? then version.value else 0, now)
    {
      var doc := DocState([], 0, 0, 0);
      if uri in docs { doc := docs[uri]; }
      doc := doc.(diags := diags);
      doc := doc.(version := match version case None => 0 case Some(v) => v);
      doc := doc.(lastPub := now);
      doc := doc.(seqNo := doc.seqNo + 1);
      docs := docs[uri := doc];
    }

    method Snapshot(uri: string) returns (diags: seq<Diagnostic>, seen: bool)
      ensures seen <==> uri in docs
      ensures diags == if uri in docs then docs[uri].diags else []
    {
      if uri !in docs { return [], false; }
      diags, seen := docs[uri].diags, true;
    }

    method PublishSeq(uri: string) returns (n: nat)
      ensures n == PublishSeqOf(docs, uri)
    {
      if uri !in docs { return 0; }
      n := docs[uri].seqNo;
    }

    /** One pass of `waitSettledAfter` under the lock, up to parking or returning. */
    method WaitPass(uri: string, settle: int, baseline: nat, done: bool, now: int) returns (v: Verdict)
      ensures v == VerdictOf(docs, uri, settle, baseline, done, now)
    {
      if done { return GiveUp; }
      if uri in docs && docs[uri].seqNo > baseline {
        var elapsed := now - docs[uri].lastPub;
        if elapsed >= settle { return Settled(docs[uri].diags); }
        return ParkFor(settle - elapsed);
      }
      v := Park;
    }
  }
}
