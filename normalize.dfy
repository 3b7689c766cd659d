/**
 * The part of `GmailSource._fetch_message` that turns a fetched message into
 * an event: header extraction, the timestamp rule, the SENT classification,
 * the body and snippet fallback, the top-level attachment scan and the
 * metadata record.
 */
module Normalize {
  import opened Wrappers
  import opened Base64
  import opened Headers
  import opened Mime
  import opened Selection

  /** The fields of a message resource (`format="full"`) that the conversion reads; absent keys are `None` or empty. */
  datatype RawMessage = RawMessage(
    threadId: Option<string>,
    labelIds: seq<string>,
    snippet: string,
    historyId: Option<string>,
    internalDate: Option<string>,
    payload: Option<Part>)

  datatype EventType = EmailSent | EmailReceived

  /**
   * Where an event's timestamp comes from: the parsed Date header, the
   * message's `internalDate` in milliseconds since the epoch, or the
   * processing time (`datetime.now()`), which the model does not read.
   */
  datatype Timestamp = FromDateHeader(date: string) | FromInternalDate(millis: int) | ProcessingTime

  /**
   * The library calls the conversion relies on, taken as given:
   * UTF-8 decoding with replacement, whether `parsedate_to_datetime` accepts a
   * text, and `int(...)` followed by a successful `datetime.fromtimestamp`.
   */
  datatype Library = Library(
    utf8: Utf8Decoder,
    parsesAsDate: string -> bool,
    epochMillis: string -> Option<int>)

  datatype Metadata = Metadata(
    from: string,
    to: string,
    cc: string,
    toAddresses: seq<string>,
    ccAddresses: seq<string>,
    labels: seq<string>,
    snippet: string,
    hasAttachments: bool,
    attachmentIds: seq<string>,
    historyId: Option<string>)

  datatype Event = Event(
    source: string,
    sourceId: string,
    userId: string,
    timestamp: Timestamp,
    eventType: EventType,
    title: string,
    content: string,
    threadId: Option<string>,
    metadata: Metadata)

  const SourceName: string := "gmail"
  const NoSubject: string := "(no subject)"

  function PayloadHeaders(msg: RawMessage): seq<Header> {
    match msg.payload
    case None => []
    case Some(p) => p.headers
  }

  function PayloadParts(msg: RawMessage): seq<Part> {
    match msg.payload
    case None => []
    case Some(p) => p.parts
  }

  // ---------------------------------------------------------------------------
  // Timestamp

  /**
   * A non-empty Date header is parsed; only an empty one lets `internalDate`
   * be consulted; any failure falls back to the processing time.
   */
  function ResolveTimestamp(dateHeader: string, internalDate: Option<string>, lib: Library): (t: Timestamp)
    ensures dateHeader != "" ==> !t.FromInternalDate?
    ensures t.FromDateHeader? ==> t.date == dateHeader && dateHeader != "" && lib.parsesAsDate(dateHeader)
    ensures t.FromInternalDate? ==> dateHeader == "" && internalDate.Some? && lib.epochMillis(internalDate.value) == Some(t.millis)
    ensures t.ProcessingTime? <==>
              (dateHeader != "" && !lib.parsesAsDate(dateHeader)) ||
              (dateHeader == "" && (internalDate.None? || lib.epochMillis(internalDate.value).None?))
  {
    if dateHeader != "" then
      if lib.parsesAsDate(dateHeader) then FromDateHeader(dateHeader) else ProcessingTime
    else match internalDate
      case None => ProcessingTime
      case Some(s) =>
        match lib.epochMillis(s)
        case Some(ms) => FromInternalDate(ms)
        case None => ProcessingTime
  }

  // ---------------------------------------------------------------------------
  // Attachments

  /** `part.get("body", {}).get("attachmentId")` is truthy. */
  predicate HasAttachmentId(p: Part) {
    p.attachmentId.Some? && p.attachmentId.value != ""
  }

  /** A top-level part whose id goes into `attachment_ids`. */
  predicate Bears(p: Part) {
    p.filename != "" && HasAttachmentId(p)
  }

  predicate HasAttachment(parts: seq<Part>) {
    exists i :: 0 <= i < |parts| && parts[i].filename != ""
  }

  /** What the attachment loop appends for one part, if anything. */
  function AttachmentSlot(p: Part): Option<string> {
    if Bears(p) then Some(p.attachmentId.value) else None
  }

  function AttachmentSlots(parts: seq<Part>): (r: seq<Option<string>>)
    ensures |r| == |parts| && forall i :: 0 <= i < |parts| ==> r[i] == AttachmentSlot(parts[i])
  {
    seq(|parts|, i requires 0 <= i < |parts| => AttachmentSlot(parts[i]))
  }

  /** The ids the attachment loop collects. */
  function AttachmentIds(parts: seq<Part>): seq<string> {
    Present(AttachmentSlots(parts))
  }

  /**
   * The loop over the payload's top-level parts: any part with a filename sets
   * the flag, and such a part with an attachment id has it appended.
   */
  method ScanAttachments(parts: seq<Part>) returns (hasAttachments: bool, attachmentIds: seq<string>)
    ensures hasAttachments == HasAttachment(parts)
    ensures attachmentIds == AttachmentIds(parts)
  {
    hasAttachments := false;
    attachmentIds := [];
    var i := 0;
    while i < |parts|
      invariant 0 <= i <= |parts|
      invariant hasAttachments == HasAttachment(parts[..i])
      invariant attachmentIds == AttachmentIds(parts[..i])
    {
      var part := parts[i];
      assert AttachmentSlots(parts[..i + 1]) == AttachmentSlots(parts[..i]) + [AttachmentSlot(part)];
      PresentSnoc(AttachmentSlots(parts[..i]), AttachmentSlot(part));
      if part.filename != "" {
        hasAttachments := true;
        if HasAttachmentId(part) {
          attachmentIds := attachmentIds + [part.attachmentId.value];
        }
      }
      assert HasAttachment(parts[..i + 1]) <==> HasAttachment(parts[..i]) || part.filename != "" by {
        assert parts[..i + 1][i] == part;
        assert forall j :: 0 <= j < i ==> parts[..i + 1][j] == parts[..i][j];
      }
      i := i + 1;
    }
    assert parts[..i] == parts;
  }

  /**
   * `idx` is the strictly increasing list of the positions of all the parts
   * that bear an id, and `ids` holds their ids in that order.
   */
  ghost predicate ListsBearers(parts: seq<Part>, ids: seq<string>, idx: seq<int>) {
    |idx| == |ids| &&
    (forall k :: 0 <= k < |idx| ==> 0 <= idx[k] < |parts| && Bears(parts[idx[k]]) && ids[k] == parts[idx[k]].attachmentId.value) &&
    Increasing(idx) &&
    (forall j :: 0 <= j < |parts| && Bears(parts[j]) ==> j in idx)
  }

  /** `attachment_ids` lists, in part order, the ids of exactly the parts with a filename and an attachment id. */
  lemma AttachmentIdsInOrder(parts: seq<Part>)
    ensures exists idx :: ListsBearers(parts, AttachmentIds(parts), idx)
  {
    var slots := AttachmentSlots(parts);
    PresentInOrder(slots);
    var idx :| ListsPresent(slots, Present(slots), idx);
    assert ListsBearers(parts, AttachmentIds(parts), idx);
  }

  /** There are at most as many ids as top-level parts, and any id means the flag is set. */
  lemma AttachmentIdsBounded(parts: seq<Part>)
    ensures |AttachmentIds(parts)| <= |parts|
    ensures AttachmentIds(parts) != [] ==> HasAttachment(parts)
  {
    var slots := AttachmentSlots(parts);
    PresentBounds(slots);
    if AttachmentIds(parts) != [] {
      var j :| 0 <= j < |slots| && slots[j].Some?;
      assert parts[j].filename != "";
    }
  }

  /** A file without an attachment id still marks the message as having attachments. */
  lemma NamedPartWithoutId(p: Part)
    requires p.filename != "" && p.attachmentId.None?
    ensures HasAttachment([p]) && AttachmentIds([p]) == []
  {
    assert [p][0].filename != "";
    assert AttachmentSlots([p]) == [] + [None];
    PresentSnoc([], AttachmentSlot(p));
  }

  /** Only the top-level parts are scanned: the children of those parts never matter. */
  lemma AttachmentsIgnoreNested(a: seq<Part>, b: seq<Part>)
    requires |a| == |b|
    requires forall i :: 0 <= i < |a| ==> a[i].(parts := []) == b[i].(parts := [])
    ensures HasAttachment(a) == HasAttachment(b)
    ensures AttachmentIds(a) == AttachmentIds(b)
  {
    forall i | 0 <= i < |a|
      ensures a[i].filename == b[i].filename && a[i].attachmentId == b[i].attachmentId
    {
      assert a[i].(parts := []).filename == a[i].filename && b[i].(parts := []).filename == b[i].filename;
      assert a[i].(parts := []).attachmentId == a[i].attachmentId && b[i].(parts := []).attachmentId == b[i].attachmentId;
    }
    assert AttachmentSlots(a) == AttachmentSlots(b);
    assert HasAttachment(a) ==> HasAttachment(b);
    assert HasAttachment(b) ==> HasAttachment(a);
  }

  // ---------------------------------------------------------------------------
  // The event

  /** `get_header(headers, "Subject") or "(no subject)"`: the title is never empty. */
  function Subject(headers: seq<Header>): (r: string)
    ensures r != ""
    ensures GetHeader(headers, "Subject") != "" ==> r == GetHeader(headers, "Subject")
    ensures GetHeader(headers, "Subject") == "" ==> r == "(no subject)"
  {
    var s := GetHeader(headers, "Subject");
    if s != "" then s else NoSubject
  }

  /** A message is sent exactly when it carries the `SENT` label, and received otherwise. */
  function Classify(labels: seq<string>): (r: EventType)
    ensures r == EmailSent <==> "SENT" in labels
    ensures r == EmailReceived <==> "SENT" !in labels
  {
    if "SENT" in labels then EmailSent else EmailReceived
  }

  /** The event `_fetch_message` builds from the message fetched for `messageId`. */
  function ToEvent(messageId: string, userId: string, msg: RawMessage, lib: Library): (e: Event)
    ensures e.sourceId == messageId && e.userId == userId && e.title != ""
    ensures e.content == "" ==> msg.snippet == ""
  {
    var headers := PayloadHeaders(msg);
    var parts := PayloadParts(msg);
    var fromAddr := GetHeader(headers, "From");
    var toAddr := GetHeader(headers, "To");
    var ccAddr := GetHeader(headers, "Cc");
    var body := GetBodyText(msg.payload, lib.utf8);
    Event(
      SourceName, messageId, userId,
      ResolveTimestamp(GetHeader(headers, "Date"), msg.internalDate, lib),
      Classify(msg.labelIds),
      Subject(headers),
      if body != "" then body else msg.snippet,
      msg.threadId,
      Metadata(
        fromAddr, toAddr, ccAddr,
        ParseEmailAddresses(toAddr), ParseEmailAddresses(ccAddr),
        msg.labelIds, msg.snippet,
        HasAttachment(parts), AttachmentIds(parts),
        msg.historyId))
  }

  /** The conversion, computed as the source does it, with the attachment loop run in place. */
  method Convert(messageId: string, userId: string, msg: RawMessage, lib: Library) returns (e: Event)
    ensures e == ToEvent(messageId, userId, msg, lib)
  {
    var headers := PayloadHeaders(msg);
    var subject := Subject(headers);
    var fromAddr := GetHeader(headers, "From");
    var toAddr := GetHeader(headers, "To");
    var ccAddr := GetHeader(headers, "Cc");
    var timestamp := ResolveTimestamp(GetHeader(headers, "Date"), msg.internalDate, lib);
    var eventType := Classify(msg.labelIds);
    var bodyText := GetBodyText(msg.payload, lib.utf8);
    var hasAttachments, attachmentIds := ScanAttachments(PayloadParts(msg));
    e := Event(
      SourceName, messageId, userId, timestamp, eventType, subject,
      if bodyText != "" then bodyText else msg.snippet,
      msg.threadId,
      Metadata(
        fromAddr, toAddr, ccAddr,
        ParseEmailAddresses(toAddr), ParseEmailAddresses(ccAddr),
        msg.labelIds, msg.snippet, hasAttachments, attachmentIds, msg.historyId));
  }

  /** What every event the conversion builds satisfies. */
  lemma ToEventSpec(messageId: string, userId: string, msg: RawMessage, lib: Library)
    ensures var e := ToEvent(messageId, userId, msg, lib);
      e.source == "gmail" && e.sourceId == messageId && e.userId == userId &&
      (e.eventType == EmailSent <==> "SENT" in msg.labelIds) &&
      (e.eventType == EmailReceived <==> "SENT" !in msg.labelIds) &&
      e.title != "" &&
      (GetHeader(PayloadHeaders(msg), "Subject") != "" ==> e.title == GetHeader(PayloadHeaders(msg), "Subject")) &&
      (GetHeader(PayloadHeaders(msg), "Subject") == "" ==> e.title == "(no subject)") &&
      (GetBodyText(msg.payload, lib.utf8) != "" ==> e.content == GetBodyText(msg.payload, lib.utf8)) &&
      (GetBodyText(msg.payload, lib.utf8) == "" ==> e.content == msg.snippet) &&
      e.threadId == msg.threadId &&
      e.metadata.labels == msg.labelIds && e.metadata.snippet == msg.snippet &&
      e.metadata.historyId == msg.historyId &&
      e.metadata.toAddresses == ParseEmailAddresses(e.metadata.to) &&
      e.metadata.ccAddresses == ParseEmailAddresses(e.metadata.cc) &&
      e.metadata.from == GetHeader(PayloadHeaders(msg), "From") &&
      e.metadata.to == GetHeader(PayloadHeaders(msg), "To") &&
      e.metadata.cc == GetHeader(PayloadHeaders(msg), "Cc") &&
      (e.metadata.hasAttachments <==> exists i :: 0 <= i < |PayloadParts(msg)| && PayloadParts(msg)[i].filename != "") &&
      e.metadata.attachmentIds == AttachmentIds(PayloadParts(msg)) &&
      |e.metadata.attachmentIds| <= |PayloadParts(msg)| &&
      e.timestamp == ResolveTimestamp(GetHeader(PayloadHeaders(msg), "Date"), msg.internalDate, lib) &&
      (GetHeader(PayloadHeaders(msg), "Date") != "" ==> !e.timestamp.FromInternalDate?)
  {
    AttachmentIdsBounded(PayloadParts(msg));
  }

  /** A message without a payload, labels or `internalDate` becomes a received event titled "(no subject)" carrying its snippet. */
  lemma EmptyMessageEvent(messageId: string, userId: string, snippet: string, lib: Library)
    ensures var e := ToEvent(messageId, userId, RawMessage(None, [], snippet, None, None, None), lib);
      e.title == "(no subject)" && e.content == snippet && e.eventType == EmailReceived &&
      e.timestamp == ProcessingTime && !e.metadata.hasAttachments && e.metadata.attachmentIds == []
  {
  }
}
