/** Sending a batch against sending its messages one by one. */
module BatchSend {
  import opened StoreTypes
  import opened MemorySpec
  import opened MemoryStores
  import opened Text

  datatype ErrorCode =
    | MissingParameter
    | InvalidParameterValue
    | InternalError
    | TooManyEntriesInBatch
    | BatchEntryIdsNotDistinct

  datatype LimitsMode = StrictMode | RelaxedMode

  /** The attributes of a queue that sending looks at. */
  datatype Attributes = Attributes(maximumMessageSize: int, fifoQueue: bool, contentBasedDeduplication: bool)

  /** What a client sends. */
  datatype Fields = Fields(body: string, delaySeconds: int, groupId: string, dedupId: string)

  const MAX_DELAY_SECONDS := 900
  const MAX_BATCH_ENTRIES := 10
  const MAX_GROUP_ID := 128
  const MAX_DEDUP_ID := 128

  // ---------------------------------------------------------------- limits

  function Wrap64(n: int): int {
    (n + MAX_INT + 1) % (2 * (MAX_INT + 1)) - MAX_INT - 1
  }

  /** Relaxed mode doubles the limit, guarding against overflow. */
  function EffectiveMax(mode: LimitsMode, max: int): int {
    if mode.StrictMode? then max
    else if Wrap64(2 * max) < max then MAX_INT
    else Wrap64(2 * max)
  }

  /** Relaxing never tightens a limit, and a limit that can be doubled is. */
  lemma RelaxedIsLarger(max: int)
    requires 0 <= max <= MAX_INT
    ensures EffectiveMax(RelaxedMode, max) == if 2 * max <= MAX_INT then 2 * max else MAX_INT
    ensures EffectiveMax(StrictMode, max) <= EffectiveMax(RelaxedMode, max)
  {
    if 2 * max > MAX_INT {
      assert Wrap64(2 * max) == 2 * max - 2 * (MAX_INT + 1);
    }
  }

  predicate SizeOk(mode: LimitsMode, body: string, max: int) {
    |Utf8Bytes(body)| <= EffectiveMax(mode, max)
  }

  predicate DelayOk(delay: int) {
    0 <= delay <= MAX_DELAY_SECONDS
  }

  predicate GroupIdOk(id: string) {
    |Utf8Bytes(id)| <= MAX_GROUP_ID
  }

  predicate DedupIdOk(id: string) {
    |Utf8Bytes(id)| <= MAX_DEDUP_ID
  }

  // ---------------------------------------------------------------- one message

  datatype Outcome = Sent(messageId: string, sequenceNumber: nat) | Failed(code: ErrorCode)

  /** The checks of handleSendMessage, in its order. */
  function Check(mode: LimitsMode, attrs: Attributes, f: Fields): Option<ErrorCode> {
    if f.body == "" then Some(MissingParameter)
    else if !SizeOk(mode, f.body, attrs.maximumMessageSize) then Some(InvalidParameterValue)
    else if !DelayOk(f.delaySeconds) then Some(InvalidParameterValue)
    else if !attrs.fifoQueue then None
    else if f.groupId == "" then Some(MissingParameter)
    else if !GroupIdOk(f.groupId) then Some(InvalidParameterValue)
    else if f.dedupId == "" && !attrs.contentBasedDeduplication then Some(InvalidParameterValue)
    else if f.dedupId != "" && !DedupIdOk(f.dedupId) then Some(InvalidParameterValue)
    else None
  }

  function NewMessage(attrs: Attributes, f: Fields, messageId: string, now: int): Message {
    Message(messageId, f.body, if attrs.fifoQueue then f.groupId else "", if attrs.fifoQueue then f.dedupId else "",
            0, now, false, NO_HANDLE, 0, 0, 0)
  }

  function OutcomeOf(messageId: string, r: SendResult): Outcome {
    match r
    case SendClosed => Failed(InternalError)
    case SendDuplicate => Sent(messageId, 0)
    case SendAccepted(m) => Sent(messageId, m.sequenceNumber)
  }

  /** One SendMessage request. */
  function SendOne(s: State, now: int, mode: LimitsMode, attrs: Attributes, f: Fields, messageId: string): (State, Outcome) {
    match Check(mode, attrs, f)
    case Some(code) => (s, Failed(code))
    case None =>
      var (s', r) := Send(s, now, NewMessage(attrs, f, messageId, now), f.delaySeconds);
      (s', OutcomeOf(messageId, r))
  }

  /** A request that fails leaves the queue as it was, and a request that succeeds met every check. */
  lemma FailureChangesNothing(s: State, now: int, mode: LimitsMode, attrs: Attributes, f: Fields, messageId: string)
    ensures var (s', r) := SendOne(s, now, mode, attrs, f, messageId);
            && (r.Failed? ==> s' == s)
            && (r.Failed? <==> Check(mode, attrs, f).Some? || s.closed)
            && (r == Failed(InternalError) <==> Check(mode, attrs, f).None? && s.closed)
  {
  }

  method HandleSendMessage(store: MemoryStore, mode: LimitsMode, attrs: Attributes, f: Fields, messageId: string, now: int)
    returns (outcome: Outcome)
    requires store.Valid()
    modifies store
    ensures store.Valid()
    ensures (store.model, outcome) == SendOne(old(store.model), now, mode, attrs, f, messageId)
  {
    hide MemoryStore.Valid, Send;
    if f.body == "" {
      return Failed(MissingParameter);
    }
    if !SizeOk(mode, f.body, attrs.maximumMessageSize) {
      return Failed(InvalidParameterValue);
    }
    if !DelayOk(f.delaySeconds) {
      return Failed(InvalidParameterValue);
    }
    var groupId, dedupId := "", "";
    if attrs.fifoQueue {
      groupId := f.groupId;
      if groupId == "" {
        return Failed(MissingParameter);
      }
      if !GroupIdOk(groupId) {
        return Failed(InvalidParameterValue);
      }
      dedupId := f.dedupId;
      if dedupId == "" && !attrs.contentBasedDeduplication {
        return Failed(InvalidParameterValue);
      }
      if dedupId != "" {
        if !DedupIdOk(dedupId) {
          return Failed(InvalidParameterValue);
        }
      }
    }
    var msg := Message(messageId, f.body, groupId, dedupId, 0, now, false, NO_HANDLE, 0, 0, 0);
    var sent := store.SendMessage(msg, f.delaySeconds, now);
    outcome := OutcomeOf(messageId, sent);
  }

  // ---------------------------------------------------------------- a batch

  datatype Entry = Entry(id: string, fields: Fields)

  datatype BatchResult = BatchResult(id: string, messageId: string, sequenceNumber: nat)
  datatype BatchError = BatchError(id: string, code: ErrorCode)

  datatype BatchReply = Rejected(code: ErrorCode) | Accepted(results: seq<BatchResult>, errors: seq<BatchError>)

  /** The entries sent one by one, each with its own message id and clock reading. */
  function SendEach(s: State, mode: LimitsMode, attrs: Attributes, entries: seq<Entry>, ids: seq<string>, nows: seq<int>)
    : (State, seq<Outcome>)
    requires |entries| == |ids| == |nows|
  {
    if entries == [] then (s, [])
    else
      var n := |entries| - 1;
      var (s1, before) := SendEach(s, mode, attrs, entries[..n], ids[..n], nows[..n]);
      var (s2, last) := SendOne(s1, nows[n], mode, attrs, entries[n].fields, ids[n]);
      (s2, before + [last])
  }

  function ResultsOf(entries: seq<Entry>, outcomes: seq<Outcome>): seq<BatchResult>
    requires |entries| == |outcomes|
  {
    if entries == [] then []
    else
      var n := |entries| - 1;
      ResultsOf(entries[..n], outcomes[..n])
      + if outcomes[n].Sent? then [BatchResult(entries[n].id, outcomes[n].messageId, outcomes[n].sequenceNumber)] else []
  }

  function ErrorsOf(entries: seq<Entry>, outcomes: seq<Outcome>): seq<BatchError>
    requires |entries| == |outcomes|
  {
    if entries == [] then []
    else
      var n := |entries| - 1;
      ErrorsOf(entries[..n], outcomes[..n])
      + if outcomes[n].Failed? then [BatchError(entries[n].id, outcomes[n].code)] else []
  }

  ghost predicate DistinctIds(entries: seq<Entry>) {
    forall i, j :: 0 <= i < j < |entries| ==> entries[i].id != entries[j].id
  }

  method HasDuplicateIds(entries: seq<Entry>) returns (duplicate: bool)
    ensures duplicate <==> !DistinctIds(entries)
  {
    var seen: set<string> := {};
    for i := 0 to |entries|
      invariant forall id :: id in seen <==> exists j :: 0 <= j < i && entries[j].id == id
      invariant forall j, k :: 0 <= j < k < i ==> entries[j].id != entries[k].id
    {
      if entries[i].id in seen {
        return true;
      }
      seen := seen + {entries[i].id};
    }
    duplicate := false;
  }

  /** One entry of a batch: the checks of the batch handler, in its order. */
  method SendEntry(store: MemoryStore, mode: LimitsMode, attrs: Attributes, entry: Entry, messageId: string, now: int)
    returns (result: Option<BatchResult>, error: Option<BatchError>)
    requires store.Valid()
    modifies store
    ensures store.Valid()
    ensures var (s, r) := SendOne(old(store.model), now, mode, attrs, entry.fields, messageId);
            && store.model == s
            && result == (if r.Sent? then Some(BatchResult(entry.id, r.messageId, r.sequenceNumber)) else None)
            && error == (if r.Failed? then Some(BatchError(entry.id, r.code)) else None)
    ensures result.Some? <==> error.None?
  {
    hide MemoryStore.Valid, Send;
    var f := entry.fields;
    if f.body == "" {
      return None, Some(BatchError(entry.id, MissingParameter));
    }
    if !SizeOk(mode, f.body, attrs.maximumMessageSize) {
      return None, Some(BatchError(entry.id, InvalidParameterValue));
    }
    if !DelayOk(f.delaySeconds) {
      return None, Some(BatchError(entry.id, InvalidParameterValue));
    }
    if attrs.fifoQueue {
      if f.groupId == "" {
        return None, Some(BatchError(entry.id, MissingParameter));
      }
      if !GroupIdOk(f.groupId) {
        return None, Some(BatchError(entry.id, InvalidParameterValue));
      }
      if f.dedupId == "" && !attrs.contentBasedDeduplication {
        return None, Some(BatchError(entry.id, InvalidParameterValue));
      }
      if f.dedupId != "" {
        if !DedupIdOk(f.dedupId) {
          return None, Some(BatchError(entry.id, InvalidParameterValue));
        }
      }
    }
    var msg := Message(messageId, f.body, "", "", 0, now, false, NO_HANDLE, 0, 0, 0);
    if attrs.fifoQueue {
      msg := msg.(groupId := f.groupId, dedupId := f.dedupId);
    }
    var sent := store.SendMessage(msg, f.delaySeconds, now);
    match sent
    case SendClosed => return None, Some(BatchError(entry.id, InternalError));
    case SendDuplicate => return Some(BatchResult(entry.id, messageId, 0)), None;
    case SendAccepted(m) => return Some(BatchResult(entry.id, messageId, m.sequenceNumber)), None;
  }

  /** handleSendMessageBatch with nobody else at the queue: a batch that is not rejected does exactly what its messages
      sent one by one would do, with the same outcomes. */
  method HandleSendMessageBatch(store: MemoryStore, mode: LimitsMode, attrs: Attributes, entries: seq<Entry>,
                                ids: seq<string>, nows: seq<int>) returns (reply: BatchReply)
    requires store.Valid() && |entries| == |ids| == |nows|
    modifies store
    ensures store.Valid()
    ensures reply.Rejected? <==> entries == [] || |entries| > MAX_BATCH_ENTRIES || !DistinctIds(entries)
    ensures reply.Rejected? ==>
              && store.model == old(store.model)
              && reply.code == if entries == [] then MissingParameter
                               else if |entries| > MAX_BATCH_ENTRIES then TooManyEntriesInBatch
                               else BatchEntryIdsNotDistinct
    ensures reply.Accepted? ==>
              var (s, outcomes) := SendEach(old(store.model), mode, attrs, entries, ids, nows);
              && |outcomes| == |entries| && store.model == s
              && reply.results == ResultsOf(entries, outcomes) && reply.errors == ErrorsOf(entries, outcomes)
  {
    hide MemoryStore.Valid, SendOne;
    if |entries| == 0 {
      return Rejected(MissingParameter);
    }
    if |entries| > MAX_BATCH_ENTRIES {
      return Rejected(TooManyEntriesInBatch);
    }
    var duplicate := HasDuplicateIds(entries);
    if duplicate {
      return Rejected(BatchEntryIdsNotDistinct);
    }
    var results: seq<BatchResult> := [];
    var errors: seq<BatchError> := [];
    for i := 0 to |entries|
      invariant store.Valid()
      invariant SentSoFar(old(store.model), mode, attrs, entries, ids, nows, i, store.model, results, errors)
    {
      ghost var before := store.model;
      var result, error := SendEntry(store, mode, attrs, entries[i], ids[i], nows[i]);
      SendOneMore(old(store.model), mode, attrs, entries, ids, nows, i, before, results, errors);
      if error.Some? {
        errors := errors + [error.value];
        continue;
      }
      results := results + [result.value];
    }
    assert entries[..|entries|] == entries && ids[..|ids|] == ids && nows[..|nows|] == nows;
    reply := Accepted(results, errors);
  }

  /** The first i entries have been sent. */
  ghost predicate SentSoFar(s0: State, mode: LimitsMode, attrs: Attributes, entries: seq<Entry>, ids: seq<string>,
                            nows: seq<int>, i: nat, s: State, results: seq<BatchResult>, errors: seq<BatchError>)
    requires |entries| == |ids| == |nows| && i <= |entries|
  {
    var (s', outcomes) := SendEach(s0, mode, attrs, entries[..i], ids[..i], nows[..i]);
    && |outcomes| == i && s == s'
    && results == ResultsOf(entries[..i], outcomes) && errors == ErrorsOf(entries[..i], outcomes)
  }

  lemma SendOneMore(s0: State, mode: LimitsMode, attrs: Attributes, entries: seq<Entry>, ids: seq<string>, nows: seq<int>,
                    i: nat, s: State, results: seq<BatchResult>, errors: seq<BatchError>)
    requires |entries| == |ids| == |nows| && i < |entries|
    requires SentSoFar(s0, mode, attrs, entries, ids, nows, i, s, results, errors)
    ensures var (s', r) := SendOne(s, nows[i], mode, attrs, entries[i].fields, ids[i]);
            SentSoFar(s0, mode, attrs, entries, ids, nows, i + 1, s',
                      results + (if r.Sent? then [BatchResult(entries[i].id, r.messageId, r.sequenceNumber)] else []),
                      errors + if r.Failed? then [BatchError(entries[i].id, r.code)] else [])
  {
    hide SendOne;
    assert entries[..i + 1][..i] == entries[..i] && ids[..i + 1][..i] == ids[..i] && nows[..i + 1][..i] == nows[..i];
    var (s', before) := SendEach(s0, mode, attrs, entries[..i], ids[..i], nows[..i]);
    var r := SendOne(s, nows[i], mode, attrs, entries[i].fields, ids[i]).1;
    assert (before + [r])[..i] == before;
  }

  // ---------------------------------------------------------------- the reply

  lemma {:induction false} EachHasAnOutcome(s: State, mode: LimitsMode, attrs: Attributes, entries: seq<Entry>,
                                            ids: seq<string>, nows: seq<int>)
    requires |entries| == |ids| == |nows|
    ensures |SendEach(s, mode, attrs, entries, ids, nows).1| == |entries|
  {
    if entries != [] {
      var n := |entries| - 1;
      EachHasAnOutcome(s, mode, attrs, entries[..n], ids[..n], nows[..n]);
    }
  }

  /** The results and errors, position by position of the request: each entry answers at `at` of one of the two lists. */
  ghost predicate AnsweredAt(entries: seq<Entry>, outcomes: seq<Outcome>, results: seq<BatchResult>, errors: seq<BatchError>,
                             i: nat, at: nat)
    requires |entries| == |outcomes| && i < |entries|
  {
    if outcomes[i].Sent?
    then at < |results| && results[at] == BatchResult(entries[i].id, outcomes[i].messageId, outcomes[i].sequenceNumber)
    else at < |errors| && errors[at] == BatchError(entries[i].id, outcomes[i].code)
  }

  /** How many entries before i were sent, or failed, like entry i. */
  function Rank(outcomes: seq<Outcome>, i: nat, sent: bool): nat
    requires i <= |outcomes|
  {
    if i == 0 then 0 else Rank(outcomes, i - 1, sent) + if outcomes[i - 1].Sent? == sent then 1 else 0
  }

  lemma {:induction false} ReplyLengths(entries: seq<Entry>, outcomes: seq<Outcome>)
    requires |entries| == |outcomes|
    ensures |ResultsOf(entries, outcomes)| == Rank(outcomes, |outcomes|, true)
    ensures |ErrorsOf(entries, outcomes)| == Rank(outcomes, |outcomes|, false)
    ensures |ResultsOf(entries, outcomes)| + |ErrorsOf(entries, outcomes)| == |entries|
  {
    if entries != [] {
      var n := |entries| - 1;
      ReplyLengths(entries[..n], outcomes[..n]);
      RankOfPrefix(outcomes, n, n, true);
      RankOfPrefix(outcomes, n, n, false);
    }
  }

  lemma {:induction false} EntryIsAnswered(entries: seq<Entry>, outcomes: seq<Outcome>, i: nat)
    requires i < |entries| == |outcomes|
    ensures AnsweredAt(entries, outcomes, ResultsOf(entries, outcomes), ErrorsOf(entries, outcomes), i,
                       Rank(outcomes, i, outcomes[i].Sent?))
  {
    var n := |entries| - 1;
    RankOfPrefix(outcomes, n, i, outcomes[i].Sent?);
    if i < n {
      EntryIsAnswered(entries[..n], outcomes[..n], i);
      StillAnswered(entries, outcomes, i, Rank(outcomes, i, outcomes[i].Sent?));
    } else {
      ReplyLengths(entries[..n], outcomes[..n]);
    }
  }

  /** The ids of the results and of the errors partition the ids of the request, each in request order: entry i is
      answered exactly once, after as many results (or errors) as there are earlier entries answered in the same way. */
  lemma ReplyPartitionsRequest(entries: seq<Entry>, outcomes: seq<Outcome>)
    requires |entries| == |outcomes|
    ensures |ResultsOf(entries, outcomes)| + |ErrorsOf(entries, outcomes)| == |entries|
    ensures forall i :: 0 <= i < |entries| ==>
              AnsweredAt(entries, outcomes, ResultsOf(entries, outcomes), ErrorsOf(entries, outcomes), i,
                         Rank(outcomes, i, outcomes[i].Sent?))
  {
    ReplyLengths(entries, outcomes);
    forall i | 0 <= i < |entries|
      ensures AnsweredAt(entries, outcomes, ResultsOf(entries, outcomes), ErrorsOf(entries, outcomes), i,
                         Rank(outcomes, i, outcomes[i].Sent?))
    {
      EntryIsAnswered(entries, outcomes, i);
    }
  }

  /** The last entry's answer does not move the earlier ones. */
  lemma StillAnswered(entries: seq<Entry>, outcomes: seq<Outcome>, i: nat, at: nat)
    requires |entries| == |outcomes| && i < |entries| - 1
    requires var n := |entries| - 1;
             AnsweredAt(entries[..n], outcomes[..n], ResultsOf(entries[..n], outcomes[..n]),
                        ErrorsOf(entries[..n], outcomes[..n]), i, at)
    ensures AnsweredAt(entries, outcomes, ResultsOf(entries, outcomes), ErrorsOf(entries, outcomes), i, at)
  {
  }

  lemma {:induction false} RankOfPrefix(outcomes: seq<Outcome>, n: nat, i: nat, sent: bool)
    requires i <= n <= |outcomes|
    ensures Rank(outcomes, i, sent) == Rank(outcomes[..n], i, sent)
  {
    if i > 0 { RankOfPrefix(outcomes, n, i - 1, sent); }
  }

  /** With distinct ids no id is both a result and an error. */
  lemma NoIdInBoth(entries: seq<Entry>, outcomes: seq<Outcome>, r: BatchResult, e: BatchError)
    requires |entries| == |outcomes| && DistinctIds(entries)
    requires r in ResultsOf(entries, outcomes) && e in ErrorsOf(entries, outcomes)
    ensures r.id != e.id
  {
    var i := SourceOfResult(entries, outcomes, r);
    var j := SourceOfError(entries, outcomes, e);
  }

  lemma {:induction false} SourceOfResult(entries: seq<Entry>, outcomes: seq<Outcome>, r: BatchResult) returns (i: nat)
    requires |entries| == |outcomes| && r in ResultsOf(entries, outcomes)
    ensures i < |entries| && outcomes[i].Sent?
            && r == BatchResult(entries[i].id, outcomes[i].messageId, outcomes[i].sequenceNumber)
  {
    i := |entries| - 1;
    if r in ResultsOf(entries[..i], outcomes[..i]) {
      i := SourceOfResult(entries[..i], outcomes[..i], r);
    }
  }

  lemma {:induction false} SourceOfError(entries: seq<Entry>, outcomes: seq<Outcome>, e: BatchError) returns (i: nat)
    requires |entries| == |outcomes| && e in ErrorsOf(entries, outcomes)
    ensures i < |entries| && outcomes[i].Failed? && e == BatchError(entries[i].id, outcomes[i].code)
  {
    i := |entries| - 1;
    if e in ErrorsOf(entries[..i], outcomes[..i]) {
      i := SourceOfError(entries[..i], outcomes[..i], e);
    }
  }
}
