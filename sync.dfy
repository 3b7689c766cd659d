/**
 * `GmailSource`: the per-user service cache, the query built from `since`,
 * the full listing with its per-message skip rule, and the incremental sync
 * from the history listing with its 404 mapping. The mailbox API is a value
 * of function fields: each call's outcome is fixed by its arguments.
 */
module Sync {
  import opened Wrappers
  import opened Text
  import opened Selection
  import opened Normalize

  // ---------------------------------------------------------------------------
  // The query

  /** `since` begins with four digits, `-`, two digits, `-`, two digits (the regex is anchored at the start only). */
  predicate IsDatePrefix(s: string) {
    |s| >= 10 &&
    IsDigit(s[0]) && IsDigit(s[1]) && IsDigit(s[2]) && IsDigit(s[3]) && s[4] == '-' &&
    IsDigit(s[5]) && IsDigit(s[6]) && s[7] == '-' && IsDigit(s[8]) && IsDigit(s[9])
  }

  /**
   * The search query of `fetch_events`: `after:` and the date with its `-`
   * written as `/` when `since` looks like a date, and "" otherwise (no
   * `since`, an empty one, or a history id).
   */
  function BuildQuery(since: Option<string>): (q: string)
    ensures q != "" <==> since.Some? && IsDatePrefix(since.value)
    ensures q != "" ==> q == "after:" + ReplaceChar(since.value, '-', '/')
  {
    match since
    case Some(s) => if IsDatePrefix(s) then "after:" + ReplaceChar(s, '-', '/') else ""
    case None => ""
  }

  /** The date is carried over unchanged apart from its separators: replacing `/` back by `-` recovers `since`. */
  lemma QueryKeepsDate(since: string)
    requires IsDatePrefix(since) && '/' !in since
    ensures BuildQuery(Some(since))[..6] == "after:"
    ensures ReplaceChar(BuildQuery(Some(since))[6..], '/', '-') == since
    ensures '-' !in BuildQuery(Some(since))[6..]
  {
    var q := BuildQuery(Some(since));
    var d := ReplaceChar(since, '-', '/');
    assert q[6..] == d;
    var back := ReplaceChar(d, '/', '-');
    assert forall i :: 0 <= i < |since| ==> back[i] == since[i] by {
      forall i | 0 <= i < |since| ensures back[i] == since[i] {
        assert since[i] != '/' by { assert since[i] in since; }
      }
    }
    forall c | c in d ensures c != '-' {
      var i :| 0 <= i < |d| && d[i] == c;
    }
  }

  // ---------------------------------------------------------------------------
  // The mailbox API

  /** One entry of the history listing; only the ids of the added and deleted messages are kept. */
  datatype HistoryRecord = HistoryRecord(messagesAdded: seq<string>, messagesDeleted: seq<string>)

  /**
   * The calls the source makes on a service handle, as fixed outcomes: the
   * message listing for a query and `maxResults`, the fetch of one message
   * and the history listing from a history id; `Err` carries the HTTP status
   * of the `HttpError` raised.
   */
  datatype Mailbox = Mailbox(
    listMessages: (string, int) -> Result<seq<string>, int>,
    getMessage: string -> Result<RawMessage, int>,
    listHistory: string -> Result<seq<HistoryRecord>, int>)

  /** What escapes the sync generators: an `HttpError` with its status, or the `ValueError` for an expired history id. */
  datatype SyncError = HttpStatus(status: int) | HistoryIdExpired

  /** The `except HttpError` of `sync_incremental`: a 404 becomes the expiry error, any other status is raised again. */
  function HistoryError(status: int): (e: SyncError)
    ensures e == HistoryIdExpired <==> status == 404
    ensures e.HttpStatus? ==> e.status == status
  {
    if status == 404 then HistoryIdExpired else HttpStatus(status)
  }

  // ---------------------------------------------------------------------------
  // Fetching one message

  predicate Fetchable(mb: Mailbox, id: string) {
    mb.getMessage(id).Ok?
  }

  /** The event for `id`, or `None` when its fetch fails. */
  function EventFor(mb: Mailbox, userId: string, id: string, lib: Library): (r: Option<Event>)
    ensures r.Some? <==> Fetchable(mb, id)
    ensures r.Some? ==> r.value.sourceId == id
  {
    match mb.getMessage(id)
    case Ok(msg) => Some(ToEvent(id, userId, msg, lib))
    case Err(_) => None
  }

  /** `_fetch_message`: the API call, then the conversion; an `HttpError` from the call is the status. */
  method FetchMessage(mb: Mailbox, userId: string, id: string, lib: Library) returns (r: Result<Event, int>)
    ensures mb.getMessage(id).Err? ==> r == Err(mb.getMessage(id).error)
    ensures mb.getMessage(id).Ok? ==> r == Ok(ToEvent(id, userId, mb.getMessage(id).value, lib))
  {
    match mb.getMessage(id)
    case Err(status) =>
      r := Err(status);
    case Ok(msg) =>
      var e := Convert(id, userId, msg, lib);
      r := Ok(e);
  }

  // ---------------------------------------------------------------------------
  // Full listing

  function FetchSlots(mb: Mailbox, userId: string, ids: seq<string>, lib: Library): (r: seq<Option<Event>>)
    ensures |r| == |ids| && forall i :: 0 <= i < |ids| ==> r[i] == EventFor(mb, userId, ids[i], lib)
  {
    seq(|ids|, i requires 0 <= i < |ids| => EventFor(mb, userId, ids[i], lib))
  }

  /** The events the listing loop yields for the listed ids. */
  function Harvest(mb: Mailbox, userId: string, ids: seq<string>, lib: Library): (r: seq<Event>)
    ensures |r| <= |ids|
    ensures forall e :: e in r ==> e.sourceId in ids
  {
    var slots := FetchSlots(mb, userId, ids, lib);
    PresentBounds(slots);
    Present(slots)
  }

  /** The loop over the listed ids: a message whose fetch raises is skipped, the others are converted. */
  method FetchListed(mb: Mailbox, userId: string, ids: seq<string>, lib: Library) returns (events: seq<Event>)
    ensures events == Harvest(mb, userId, ids, lib)
  {
    events := [];
    var i := 0;
    while i < |ids|
      invariant 0 <= i <= |ids|
      invariant events == Harvest(mb, userId, ids[..i], lib)
    {
      var r := FetchMessage(mb, userId, ids[i], lib);
      assert FetchSlots(mb, userId, ids[..i + 1], lib) == FetchSlots(mb, userId, ids[..i], lib) + [EventFor(mb, userId, ids[i], lib)];
      PresentSnoc(FetchSlots(mb, userId, ids[..i], lib), EventFor(mb, userId, ids[i], lib));
      if r.Ok? {
        events := events + [r.value];
      }
      i := i + 1;
    }
    assert ids[..i] == ids;
  }

  /**
   * `idx` is the strictly increasing list of the positions of all the ids
   * whose fetch succeeds, and `events[k]` is the event for the id at `idx[k]`.
   */
  ghost predicate HarvestedFrom(mb: Mailbox, userId: string, ids: seq<string>, lib: Library, events: seq<Event>, idx: seq<int>) {
    |idx| == |events| &&
    (forall k :: 0 <= k < |idx| ==>
       0 <= idx[k] < |ids| && Fetchable(mb, ids[idx[k]]) && events[k].sourceId == ids[idx[k]] &&
       events[k] == ToEvent(ids[idx[k]], userId, mb.getMessage(ids[idx[k]]).value, lib)) &&
    Increasing(idx) &&
    (forall j :: 0 <= j < |ids| && Fetchable(mb, ids[j]) ==> j in idx)
  }

  /**
   * The listing yields events for a subsequence of the listed ids, in listing
   * order: exactly those whose fetch succeeds, each the conversion of its message.
   */
  lemma HarvestInOrder(mb: Mailbox, userId: string, ids: seq<string>, lib: Library)
    ensures exists idx :: HarvestedFrom(mb, userId, ids, lib, Harvest(mb, userId, ids, lib), idx)
    ensures |Harvest(mb, userId, ids, lib)| <= |ids|
  {
    var slots := FetchSlots(mb, userId, ids, lib);
    var ev := Present(slots);
    assert ev == Harvest(mb, userId, ids, lib);
    PresentInOrder(slots);
    PresentBounds(slots);
    var idx :| ListsPresent(slots, ev, idx);
    forall k | 0 <= k < |idx|
      ensures 0 <= idx[k] < |ids| && Fetchable(mb, ids[idx[k]]) && ev[k].sourceId == ids[idx[k]]
      ensures ev[k] == ToEvent(ids[idx[k]], userId, mb.getMessage(ids[idx[k]]).value, lib)
    {
      assert slots[idx[k]] == Some(ev[k]) == EventFor(mb, userId, ids[idx[k]], lib);
    }
    forall j | 0 <= j < |ids| && Fetchable(mb, ids[j]) ensures j in idx {
      assert slots[j].Some?;
    }
    assert HarvestedFrom(mb, userId, ids, lib, ev, idx);
  }

  /** When every fetch succeeds, one event per listed id, in listing order. */
  lemma HarvestAllFetched(mb: Mailbox, userId: string, ids: seq<string>, lib: Library)
    requires forall j :: 0 <= j < |ids| ==> Fetchable(mb, ids[j])
    ensures |Harvest(mb, userId, ids, lib)| == |ids|
    ensures forall k :: 0 <= k < |ids| ==> Harvest(mb, userId, ids, lib)[k].sourceId == ids[k]
  {
    PresentAllSome(FetchSlots(mb, userId, ids, lib));
  }

  /** When no fetch succeeds, nothing is yielded. */
  lemma HarvestNoneFetched(mb: Mailbox, userId: string, ids: seq<string>, lib: Library)
    requires forall j :: 0 <= j < |ids| ==> !Fetchable(mb, ids[j])
    ensures Harvest(mb, userId, ids, lib) == []
  {
    PresentBounds(FetchSlots(mb, userId, ids, lib));
  }

  // ---------------------------------------------------------------------------
  // Incremental sync

  /** The ids of every message added in some history record. */
  function AddedIds(history: seq<HistoryRecord>): (r: set<string>)
    ensures forall k :: 0 <= k < |history| ==> Elements(history[k].messagesAdded) <= r
    decreases |history|
  {
    if history == [] then {}
    else
      var front := history[..|history| - 1];
      assert forall k :: 0 <= k < |front| ==> front[k] == history[k];
      AddedIds(front) + Elements(history[|history| - 1].messagesAdded)
  }

  function Elements(s: seq<string>): (r: set<string>)
    ensures forall x :: x in r <==> x in s
  {
    set i | 0 <= i < |s| :: s[i]
  }

  /** An id is collected exactly when some record lists it as added. */
  lemma {:induction false} AddedIdsMembers(history: seq<HistoryRecord>, id: string)
    ensures id in AddedIds(history) <==> exists i :: 0 <= i < |history| && id in history[i].messagesAdded
    decreases |history|
  {
    if history != [] {
      var n := |history| - 1;
      AddedIdsMembers(history[..n], id);
      assert forall i :: 0 <= i < n ==> history[..n][i] == history[i];
      if id in history[n].messagesAdded {
        assert exists i :: 0 <= i < |history| && id in history[i].messagesAdded;
      }
    }
  }

  /** Deletions contribute nothing: the collected ids depend only on the added messages. */
  lemma {:induction false} DeletionsIgnored(h1: seq<HistoryRecord>, h2: seq<HistoryRecord>)
    requires |h1| == |h2|
    requires forall i :: 0 <= i < |h1| ==> h1[i].messagesAdded == h2[i].messagesAdded
    ensures AddedIds(h1) == AddedIds(h2)
    decreases |h1|
  {
    if h1 != [] {
      var n := |h1| - 1;
      DeletionsIgnored(h1[..n], h2[..n]);
    }
  }

  lemma DeletedOnlyRecord(history: seq<HistoryRecord>, deleted: seq<string>)
    ensures AddedIds(history + [HistoryRecord([], deleted)]) == AddedIds(history)
  {
    assert (history + [HistoryRecord([], deleted)])[..|history|] == history;
  }

  /** The nested loops that fill `message_ids`. */
  method CollectAddedIds(history: seq<HistoryRecord>) returns (ids: set<string>)
    ensures ids == AddedIds(history)
  {
    ids := {};
    var i := 0;
    while i < |history|
      invariant 0 <= i <= |history|
      invariant ids == AddedIds(history[..i])
    {
      var added := history[i].messagesAdded;
      var j := 0;
      while j < |added|
        invariant 0 <= j <= |added|
        invariant ids == AddedIds(history[..i]) + Elements(added[..j])
      {
        assert Elements(added[..j + 1]) == Elements(added[..j]) + {added[j]} by {
          assert added[..j + 1] == added[..j] + [added[j]];
        }
        ids := ids + {added[j]};
        j := j + 1;
      }
      assert added[..j] == added;
      assert history[..i + 1][..i] == history[..i];
      i := i + 1;
    }
    assert history[..i] == history;
  }

  function SourceIds(events: seq<Event>): (r: seq<string>)
    ensures |r| == |events| && forall k :: 0 <= k < |events| ==> r[k] == events[k].sourceId
  {
    seq(|events|, k requires 0 <= k < |events| => events[k].sourceId)
  }

  predicate Distinct(s: seq<string>) {
    forall k, l :: 0 <= k < l < |s| ==> s[k] != s[l]
  }

  /**
   * What the loop over the collected ids yields, in some order: one event for
   * each id whose fetch succeeds, no id twice, each the conversion of its message.
   */
  ghost predicate FetchedEach(mb: Mailbox, userId: string, ids: set<string>, lib: Library, events: seq<Event>) {
    (forall id :: id in SourceIds(events) <==> id in ids && Fetchable(mb, id)) &&
    Distinct(SourceIds(events)) &&
    (forall k :: 0 <= k < |events| ==> EventFor(mb, userId, events[k].sourceId, lib) == Some(events[k]))
  }

  /** The invariant of `FetchEach`: `events` is what fetching the ids already visited, `ids - remaining`, yields. */
  ghost predicate Fetching(mb: Mailbox, userId: string, ids: set<string>, remaining: set<string>, lib: Library, events: seq<Event>) {
    remaining <= ids && FetchedEach(mb, userId, ids - remaining, lib, events)
  }

  /** The loop over the collected set, visiting the ids in an order the model leaves open. */
  method FetchEach(mb: Mailbox, userId: string, ids: set<string>, lib: Library) returns (events: seq<Event>)
    ensures FetchedEach(mb, userId, ids, lib, events)
  {
    events := [];
    var remaining := ids;
    assert ids - remaining == {};
    while remaining != {}
      invariant Fetching(mb, userId, ids, remaining, lib, events)
      decreases |remaining|
    {
      var id :| id in remaining;
      var r := FetchMessage(mb, userId, id, lib);
      if r.Ok? {
        FetchedOneMore(mb, userId, ids, remaining, lib, events, id, r.value);
        events := events + [r.value];
      } else {
        SkippedOne(mb, userId, ids, remaining, lib, events, id);
      }
      remaining := remaining - {id};
    }
    assert ids - remaining == ids;
  }

  lemma SourceIdsSnoc(events: seq<Event>, e: Event)
    ensures SourceIds(events + [e]) == SourceIds(events) + [e.sourceId]
  {
  }

  lemma DistinctSnoc(s: seq<string>, x: string)
    requires Distinct(s) && x !in s
    ensures Distinct(s + [x])
  {
    var t := s + [x];
    forall k, l | 0 <= k < l < |t| ensures t[k] != t[l] {
      assert t[k] == s[k];
      if l < |s| {
        assert t[l] == s[l];
      } else {
        assert s[k] in s;
      }
    }
  }

  /** Appending the event of a newly visited id adds exactly that id to the ids yielded. */
  lemma YieldedOneMore(mb: Mailbox, done: set<string>, events: seq<Event>, id: string, e: Event)
    requires forall x :: x in SourceIds(events) <==> x in done && Fetchable(mb, x)
    requires Distinct(SourceIds(events)) && id !in done && Fetchable(mb, id) && e.sourceId == id
    ensures forall x :: x in SourceIds(events + [e]) <==> x in done + {id} && Fetchable(mb, x)
    ensures Distinct(SourceIds(events + [e]))
  {
    var before, after := SourceIds(events), SourceIds(events + [e]);
    SourceIdsSnoc(events, e);
    assert id !in before;
    DistinctSnoc(before, id);
    forall x ensures x in after <==> x in done + {id} && Fetchable(mb, x) {
      assert x in after <==> x in before || x == id;
    }
  }

  /** Appending an event that is the conversion of its own message keeps every event so. */
  lemma ConvertedOneMore(mb: Mailbox, userId: string, lib: Library, events: seq<Event>, e: Event)
    requires forall k :: 0 <= k < |events| ==> EventFor(mb, userId, events[k].sourceId, lib) == Some(events[k])
    requires EventFor(mb, userId, e.sourceId, lib) == Some(e)
    ensures forall k :: 0 <= k < |events| + 1 ==> EventFor(mb, userId, (events + [e])[k].sourceId, lib) == Some((events + [e])[k])
  {
    forall k | 0 <= k < |events| + 1 ensures EventFor(mb, userId, (events + [e])[k].sourceId, lib) == Some((events + [e])[k]) {
      if k < |events| {
        assert (events + [e])[k] == events[k];
      }
    }
  }

  /** Visiting an id whose fetch succeeds and yielding its event keeps the invariant. */
  lemma FetchedOneMore(mb: Mailbox, userId: string, ids: set<string>, remaining: set<string>, lib: Library, events: seq<Event>, id: string, e: Event)
    requires Fetching(mb, userId, ids, remaining, lib, events)
    requires id in remaining && EventFor(mb, userId, id, lib) == Some(e)
    ensures Fetching(mb, userId, ids, remaining - {id}, lib, events + [e])
  {
    var done := ids - remaining;
    assert ids - (remaining - {id}) == done + {id};
    YieldedOneMore(mb, done, events, id, e);
    ConvertedOneMore(mb, userId, lib, events, e);
  }

  /** Visiting an id whose fetch fails and yielding nothing keeps the invariant. */
  lemma SkippedOne(mb: Mailbox, userId: string, ids: set<string>, remaining: set<string>, lib: Library, events: seq<Event>, id: string)
    requires Fetching(mb, userId, ids, remaining, lib, events)
    requires id in remaining && !Fetchable(mb, id)
    ensures Fetching(mb, userId, ids, remaining - {id}, lib, events)
  {
    assert ids - (remaining - {id}) == (ids - remaining) + {id};
  }

  /** The sync after the history listing succeeded: collect the added ids, then fetch each. */
  method SyncFromHistory(mb: Mailbox, userId: string, history: seq<HistoryRecord>, lib: Library) returns (events: seq<Event>)
    ensures FetchedEach(mb, userId, AddedIds(history), lib, events)
  {
    var ids := CollectAddedIds(history);
    events := FetchEach(mb, userId, ids, lib);
  }

  /** Deleted-only history yields nothing. */
  lemma NothingAddedNothingFetched(mb: Mailbox, userId: string, history: seq<HistoryRecord>, lib: Library, events: seq<Event>)
    requires forall i :: 0 <= i < |history| ==> history[i].messagesAdded == []
    requires FetchedEach(mb, userId, AddedIds(history), lib, events)
    ensures events == []
  {
    forall id ensures id !in AddedIds(history) {
      AddedIdsMembers(history, id);
    }
    FirstIsMember(SourceIds(events));
  }

  lemma FirstIsMember(s: seq<string>)
    ensures |s| > 0 ==> s[0] in s
  {
  }

  // ---------------------------------------------------------------------------
  // The source object

  class GmailSource {
    /** `_services`: the service handle built for each user so far. */
    var services: map<string, Mailbox>
    /** Credential lookup, refresh and `build`, as one given function. */
    const authorize: string -> Mailbox
    const lib: Library
    /** The users for whom credentials were looked up and a handle built, in the order it happened. */
    ghost var authorized: seq<string>

    /**
     * Every cached handle is the one authorization builds for its user, and
     * authorization has run exactly once for each cached user and for no one else.
     */
    ghost predicate Valid()
      reads this
    {
      (forall u :: u in services ==> services[u] == authorize(u)) &&
      (forall u :: u in services <==> u in authorized) &&
      Distinct(authorized)
    }

    constructor(authorize: string -> Mailbox, lib: Library)
      ensures this.authorize == authorize && this.lib == lib
      ensures services == map[] && authorized == [] && Valid()
    {
      this.authorize := authorize;
      this.lib := lib;
      services := map[];
      authorized := [];
    }

    /**
     * `get_service`: on the first use for a user, authorize and remember the
     * handle; afterwards return the remembered one without authorizing again.
     */
    method GetService(userId: string) returns (mb: Mailbox)
      requires Valid()
      modifies this
      ensures Valid()
      ensures mb == authorize(userId)
      ensures services == old(services)[userId := mb]
      ensures userId in old(services) ==> services == old(services) && authorized == old(authorized)
      ensures userId !in old(services) ==> authorized == old(authorized) + [userId]
    {
      if userId !in services {
        DistinctSnoc(authorized, userId);
        services := services[userId := authorize(userId)];
        authorized := authorized + [userId];
      }
      mb := services[userId];
    }

    /**
     * `fetch_events`: the listing for the query built from `since`, then one
     * event per listed message whose fetch succeeds; an error from the
     * listing itself is raised.
     */
    method FetchEvents(userId: string, since: Option<string>, maxResults: int) returns (r: Result<seq<Event>, SyncError>)
      requires Valid()
      modifies this
      ensures Valid()
      ensures services == old(services)[userId := authorize(userId)]
      ensures authorized == old(authorized) + if userId in old(services) then [] else [userId]
      ensures authorize(userId).listMessages(BuildQuery(since), maxResults).Err? ==>
                r == Err(HttpStatus(authorize(userId).listMessages(BuildQuery(since), maxResults).error))
      ensures authorize(userId).listMessages(BuildQuery(since), maxResults).Ok? ==>
                r == Ok(Harvest(authorize(userId), userId, authorize(userId).listMessages(BuildQuery(since), maxResults).value, lib))
    {
      var mb := GetService(userId);
      var query := BuildQuery(since);
      match mb.listMessages(query, maxResults)
      case Err(status) =>
        r := Err(HttpStatus(status));
      case Ok(ids) =>
        var events := FetchListed(mb, userId, ids, lib);
        r := Ok(events);
    }

    /**
     * `sync_incremental`: the history listing from `historyId`, then the
     * messages added in it; a 404 from the listing means the history id
     * has expired.
     */
    method SyncIncremental(userId: string, historyId: string) returns (r: Result<seq<Event>, SyncError>)
      requires Valid()
      modifies this
      ensures Valid()
      ensures services == old(services)[userId := authorize(userId)]
      ensures authorized == old(authorized) + if userId in old(services) then [] else [userId]
      ensures authorize(userId).listHistory(historyId).Err? ==>
                r == Err(HistoryError(authorize(userId).listHistory(historyId).error))
      ensures authorize(userId).listHistory(historyId).Ok? ==>
                r.Ok? && FetchedEach(authorize(userId), userId, AddedIds(authorize(userId).listHistory(historyId).value), lib, r.value)
    {
      var mb := GetService(userId);
      match mb.listHistory(historyId)
      case Err(status) =>
        r := Err(HistoryError(status));
      case Ok(history) =>
        var events := SyncFromHistory(mb, userId, history, lib);
        r := Ok(events);
    }
  }
}
