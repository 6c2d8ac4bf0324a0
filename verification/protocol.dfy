/**
 * The operation envelopes the client exchanges with the note server, and the
 * possible outcomes of one request/response round trip.
 */
module Protocol {
  import opened Wrappers

  /** `OperationType`. */
  datatype Kind = SyncRequest | SyncResponse | CreateFile | UpdateFile | DeleteFile | DeleteMultiple

  /** `FileData`: one note of a snapshot. */
  datatype FileData = FileData(fileName: string, content: string)

  /** An outgoing `FileOperation`; `None` stands for a Java `null` field. */
  datatype Op = Op(kind: Kind, username: string, fileName: string, content: Option<string>, fileNames: Option<seq<string>>)

  /** The fields of a reply `FileOperation` that the client reads. */
  datatype Reply = Reply(kind: Kind, content: Option<string>, data: Option<seq<FileData>>)

  /**
   * One round trip: the request could not be written, it was written but no
   * reply could be read, or it was answered.
   */
  datatype Exchange = WriteFailed | ReadFailed | Answered(reply: Reply)

  /** The payload each kind of request carries; a `None` field is sent as `null`. */
  predicate WellShaped(op: Op) {
    match op.kind
    case SyncRequest => op.fileName == "" && op.content.None? && op.fileNames.None?
    case CreateFile => op.content.Some? && op.fileNames.None?
    case UpdateFile => op.content.Some? && op.fileNames.None?
    case DeleteFile => op.content.None? && op.fileNames.None?
    case DeleteMultiple => op.fileName == "" && op.content.None? && op.fileNames.Some?
    case SyncResponse => false
  }

  const Success: string := "SUCCESS"

  /** `"SUCCESS".equals(response.getContent())`. */
  predicate Acknowledged(e: Exchange) {
    e.Answered? && e.reply.content == Some(Success)
  }

  /**
   * Whether a reply acknowledges depends on its content alone, read
   * null-safely: its kind and data are never looked at, a `null` content is
   * no acknowledgement, and neither is a failed round trip.
   */
  lemma AcknowledgementReadsContentOnly(k1: Kind, k2: Kind, content: Option<string>, d1: Option<seq<FileData>>, d2: Option<seq<FileData>>)
    ensures Acknowledged(Answered(Reply(k1, content, d1))) == Acknowledged(Answered(Reply(k2, content, d2)))
    ensures Acknowledged(Answered(Reply(k1, content, d1))) <==> content == Some(Success)
    ensures !Acknowledged(Answered(Reply(k1, None, d1)))
    ensures !Acknowledged(WriteFailed) && !Acknowledged(ReadFailed)
  {
  }

  /** The outgoing log after sending `op`: the op is recorded once it was written. */
  function Send(log: seq<Op>, op: Op, e: Exchange): (r: seq<Op>)
    ensures e.WriteFailed? ==> r == log
    ensures !e.WriteFailed? ==> |r| == |log| + 1 && r[..|log|] == log && r[|log|] == op
  {
    if e.WriteFailed? then log else log + [op]
  }
}
