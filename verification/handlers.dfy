/** The action handlers `run_query`, `get_users` and `delete_email`, with every
    remote call replaced by its outcome. */
module Handlers {
  import opened Wrappers
  import opened Json
  import opened Errors
  import opened Validation
  import opened Headers
  import opened Session
  import Query
  import Deletion

  /** The outcome of `_create_service`: a usable client or the failure it set. */
  datatype ServiceOutcome = ServiceReady | ServiceFailed(failure: ActionFailure)

  /** `param.get(key, default)` for an integer parameter: a missing key reads as
      the default, a key present with `None` reads as `Absent`. */
  function IntArgument(p: Option<IntParam>, default: int): IntParam {
    if p.Some? then p.value else Int(default)
  }

  /** A pagination token counts only when truthy. */
  predicate TruthyToken(t: Option<string>) {
    t.Some? && t.value != ""
  }

  /** The token forwarded to the next request or reported in a summary: present
      exactly when the given one is truthy, and then unchanged. */
  function ForwardToken(t: Option<string>): (r: Option<string>)
    ensures r.Some? <==> TruthyToken(t)
    ensures r.Some? ==> r == t
  {
    if TruthyToken(t) then t else None
  }

  /** The summary of a listing: the number of items listed and, when upstream
      gave a truthy one, the next page token. */
  datatype ListSummary = ListSummary(total: nat, nextPageToken: Option<string>)

  // ---------------------------------------------------------------------------
  // run_query
  // ---------------------------------------------------------------------------

  datatype RunQueryParams = RunQueryParams(
    email: string,                  // the mailbox, also the delegated user
    filters: map<string, string>,   // label, subject, sender, internet_message_id, body, query
    maxResults: Option<IntParam>,   // None when the key is missing
    pageToken: Option<string>)

  /** The arguments of `messages().list`. */
  datatype MessageListRequest = MessageListRequest(userId: string, q: string, maxResults: Option<int>, pageToken: Option<string>)

  /** The outcome of `messages().get` for one listed message. */
  datatype FetchOutcome = Fetched(email: Email) | FetchFailed(e: Exception)

  /** One listed message: its id and what fetching it gives. */
  datatype ListedMessage = ListedMessage(id: string, fetch: FetchOutcome)

  /** The outcome of `messages().list`. */
  datatype MessagesOutcome =
    | MessagesListed(messages: seq<ListedMessage>, nextPageToken: Option<string>)
    | MessagesError(e: Exception)

  datatype RunQueryResult =
    | QueryFailed(failure: ActionFailure, listCall: Option<MessageListRequest>)  // the listing call, if it was made
    | QueryRaised(request: MessageListRequest)   // an exception escaped the handler
    | QuerySucceeded(request: MessageListRequest, data: seq<map<string, Value>>, summary: ListSummary)

  /** Number of listed messages whose fetch succeeded. */
  function FetchedCount(msgs: seq<ListedMessage>): (n: nat)
    ensures n <= |msgs|
  {
    if |msgs| == 0 then 0 else (if msgs[0].fetch.Fetched? then 1 else 0) + FetchedCount(msgs[1..])
  }

  /** `record` is the mapped record of some fetched message of `msgs`. */
  ghost predicate FromFetched(msgs: seq<ListedMessage>, record: map<string, Value>) {
    exists j :: 0 <= j < |msgs| && msgs[j].fetch.Fetched? && record == MapEmailDetailsFixed(msgs[j].fetch.email).record
  }

  /** The records `run_query` adds: one per fetched message, in listing order,
      each mapped by the corrected `_map_email_details`; failed fetches are
      skipped. */
  function Collect(msgs: seq<ListedMessage>): (data: seq<map<string, Value>>)
    ensures |data| == FetchedCount(msgs)
    ensures forall i :: 0 <= i < |data| ==> FromFetched(msgs, data[i])
  {
    if |msgs| == 0 then []
    else
      var rest := Collect(msgs[1..]);
      var head := if msgs[0].fetch.Fetched? then [MapEmailDetailsFixed(msgs[0].fetch.email).record] else [];
      CollectStep(msgs, head, rest);
      head + rest
  }

  lemma CollectStep(msgs: seq<ListedMessage>, head: seq<map<string, Value>>, rest: seq<map<string, Value>>)
    requires |msgs| > 0
    requires head == if msgs[0].fetch.Fetched? then [MapEmailDetailsFixed(msgs[0].fetch.email).record] else []
    requires forall i :: 0 <= i < |rest| ==> FromFetched(msgs[1..], rest[i])
    ensures forall i :: 0 <= i < |head + rest| ==> FromFetched(msgs, (head + rest)[i])
  {
    forall i | 0 <= i < |head + rest| ensures FromFetched(msgs, (head + rest)[i]) {
      if i < |head| {
        assert (head + rest)[i] == MapEmailDetailsFixed(msgs[0].fetch.email).record;
      } else {
        assert (head + rest)[i] == rest[i - |head|];
        var j :| 0 <= j < |msgs[1..]| && msgs[1..][j].fetch.Fetched?
                 && rest[i - |head|] == MapEmailDetailsFixed(msgs[1..][j].fetch.email).record;
        assert msgs[j + 1] == msgs[1..][j];
      }
    }
  }

  /** The records keep the listing order: collecting a concatenation collects
      each half. */
  lemma {:induction false} CollectAppend(xs: seq<ListedMessage>, ys: seq<ListedMessage>)
    ensures Collect(xs + ys) == Collect(xs) + Collect(ys)
    decreases |xs|
  {
    if |xs| > 0 {
      assert (xs + ys)[0] == xs[0];
      assert (xs + ys)[1..] == xs[1..] + ys;
      CollectAppend(xs[1..], ys);
    } else {
      assert xs + ys == ys;
    }
  }

  /** One turn of the `run_query` loop: the next listed message adds its mapped
      record at the end when its fetch succeeded, and nothing otherwise. */
  lemma CollectSnoc(xs: seq<ListedMessage>, m: ListedMessage)
    ensures Collect(xs + [m]) ==
            Collect(xs) + (if m.fetch.Fetched? then [MapEmailDetailsFixed(m.fetch.email).record] else [])
  {
    CollectAppend(xs, [m]);
    assert [m][1..] == [];
  }

  /** Some fetched message of `msgs` maps to a bare dictionary. */
  ghost predicate HasBare(msgs: seq<ListedMessage>) {
    exists j :: 0 <= j < |msgs| && msgs[j].fetch.Fetched? && MapEmailDetails(msgs[j].fetch.email).Bare?
  }

  lemma HasBareStep(msgs: seq<ListedMessage>)
    requires |msgs| > 0
    ensures HasBare(msgs) <==>
            (msgs[0].fetch.Fetched? && MapEmailDetails(msgs[0].fetch.email).Bare?) || HasBare(msgs[1..])
  {
    if HasBare(msgs[1..]) {
      var j :| 0 <= j < |msgs[1..]| && msgs[1..][j].fetch.Fetched? && MapEmailDetails(msgs[1..][j].fetch.email).Bare?;
      assert msgs[j + 1] == msgs[1..][j];
    }
    if HasBare(msgs) {
      var j :| 0 <= j < |msgs| && msgs[j].fetch.Fetched? && MapEmailDetails(msgs[j].fetch.email).Bare?;
      if j > 0 {
        assert msgs[1..][j - 1] == msgs[j];
      }
    }
  }

  /** The same loop as written: the caller unpacks `_map_email_details`'s result
      as a pair, so a bare dictionary (a message without headers) makes the
      unpacking raise and the whole handler with it (`None`). */
  function CollectAsWritten(msgs: seq<ListedMessage>): (data: Option<seq<map<string, Value>>>)
    ensures data.None? <==> HasBare(msgs)
    ensures data.Some? ==> data.value == Collect(msgs)
  {
    if |msgs| == 0 then Some([])
    else
      var rest := CollectAsWritten(msgs[1..]);
      HasBareStep(msgs);
      match msgs[0].fetch
      case FetchFailed(_) => rest
      case Fetched(e) =>
        match MapEmailDetails(e)
        case Bare(_) => None
        case Pair(ok, record) =>
          if !ok then rest
          else if rest.None? then None
          else Some([record] + rest.value)
  }

  /** `_handle_run_query` up to the search: the service is created before the
      maximum is validated, the search string and the page token are fixed
      before the listing call. */
  function RunQueryRequest(p: RunQueryParams, service: ServiceOutcome): (r: Result<MessageListRequest, ActionFailure>)
    ensures service.ServiceFailed? ==> r == Failure(service.failure)
    ensures service.ServiceReady? && ValidateInteger(IntArgument(p.maxResults, 100), "max_results", false).Failure? ==>
              r == Failure(ValidateInteger(IntArgument(p.maxResults, 100), "max_results", false).error)
    ensures r.Success? <==> service.ServiceReady? && ValidateInteger(IntArgument(p.maxResults, 100), "max_results", false).Success?
    ensures r.Success? ==> r.value.userId == p.email && r.value.q == Query.BuildQuery(p.filters)
                           && r.value.maxResults == ValidateInteger(IntArgument(p.maxResults, 100), "max_results", false).value
                           && r.value.pageToken == ForwardToken(p.pageToken)
  {
    if service.ServiceFailed? then Failure(service.failure)
    else
      var q := Query.BuildQuery(p.filters);
      match ValidateInteger(IntArgument(p.maxResults, 100), "max_results", false)
      case Failure(f) => Failure(f)
      case Success(max) => Success(MessageListRequest(p.email, q, max, ForwardToken(p.pageToken)))
  }

  /** `_handle_run_query` with the corrected header mapping: a listing failure
      is the only remote failure that fails the action, since a failed fetch
      only skips its message. */
  function RunQuery(p: RunQueryParams, service: ServiceOutcome, listing: MessagesOutcome): (r: RunQueryResult)
    ensures !r.QueryRaised?
    ensures RunQueryRequest(p, service).Failure? ==> r == QueryFailed(RunQueryRequest(p, service).error, None)
    ensures r.QuerySucceeded? <==> RunQueryRequest(p, service).Success? && listing.MessagesListed?
    ensures r.QuerySucceeded? ==>
              && r.request == RunQueryRequest(p, service).value
              && r.summary.total == |listing.messages|
              && |r.data| <= r.summary.total
              && r.data == Collect(listing.messages)
              && r.summary.nextPageToken == ForwardToken(listing.nextPageToken)
    ensures RunQueryRequest(p, service).Success? && listing.MessagesError? ==>
              r == QueryFailed(MessagesFetchFailed(ErrorMessage(listing.e)), Some(RunQueryRequest(p, service).value))
  {
    match RunQueryRequest(p, service)
    case Failure(f) => QueryFailed(f, None)
    case Success(req) =>
      match listing
      case MessagesError(e) => QueryFailed(MessagesFetchFailed(ErrorMessage(e)), Some(req))
      case MessagesListed(msgs, next) =>
        QuerySucceeded(req, Collect(msgs), ListSummary(|msgs|, ForwardToken(next)))
  }

  /** `_handle_run_query` as written. */
  function RunQueryAsWritten(p: RunQueryParams, service: ServiceOutcome, listing: MessagesOutcome): (r: RunQueryResult)
    ensures r.QueryRaised? <==> RunQueryRequest(p, service).Success? && listing.MessagesListed?
                                && CollectAsWritten(listing.messages).None?
    ensures !r.QueryRaised? ==> r == RunQuery(p, service, listing)
  {
    match RunQueryRequest(p, service)
    case Failure(f) => QueryFailed(f, None)
    case Success(req) =>
      match listing
      case MessagesError(e) => QueryFailed(MessagesFetchFailed(ErrorMessage(e)), Some(req))
      case MessagesListed(msgs, next) =>
        match CollectAsWritten(msgs)
        case None => QueryRaised(req)
        case Some(data) => QuerySucceeded(req, data, ListSummary(|msgs|, ForwardToken(next)))
  }

  /** The shape mismatch in action: one listed message fetched without headers
      makes the handler as written raise, while the corrected one reports it. */
  lemma HeaderlessMessageRaises(p: RunQueryParams, fields: map<string, Value>, next: Option<string>)
    requires RunQueryRequest(p, ServiceReady).Success?
    ensures var listing := MessagesListed([ListedMessage("m1", Fetched(Email(fields, None)))], next);
            && RunQueryAsWritten(p, ServiceReady, listing).QueryRaised?
            && RunQuery(p, ServiceReady, listing).QuerySucceeded?
            && RunQuery(p, ServiceReady, listing).data == [fields - {"payload"}]
  {
    var msgs := [ListedMessage("m1", Fetched(Email(fields, None)))];
    assert msgs[0].fetch.Fetched? && MapEmailDetails(msgs[0].fetch.email).Bare?;
  }

  /** When every fetched message has headers, both versions agree. */
  lemma AgreeWhenHeadersPresent(p: RunQueryParams, service: ServiceOutcome, listing: MessagesOutcome)
    requires listing.MessagesListed? ==>
               forall j :: 0 <= j < |listing.messages| && listing.messages[j].fetch.Fetched? ==>
                 MapEmailDetails(listing.messages[j].fetch.email).Pair?
    ensures RunQueryAsWritten(p, service, listing) == RunQuery(p, service, listing)
  {
  }

  // ---------------------------------------------------------------------------
  // get_users
  // ---------------------------------------------------------------------------

  datatype GetUsersParams = GetUsersParams(maxItems: Option<IntParam>, pageToken: Option<string>)

  /** The arguments of the directory's `users().list`. */
  datatype UserListRequest = UserListRequest(
    domain: string, maxResults: Option<int>, orderBy: string, sortOrder: string, pageToken: Option<string>)

  datatype UsersOutcome =
    | UsersListed(users: seq<Value>, nextPageToken: Option<string>)
    | UsersError(e: Exception)

  datatype GetUsersResult =
    | UsersFailed(failure: ActionFailure, listCall: Option<UserListRequest>)
    | UsersSucceeded(request: UserListRequest, data: seq<Value>, summary: ListSummary)

  /** `_handle_get_users`: every listed user is reported unmodified and in order;
      the service is created before `max_items` is validated. */
  function GetUsers(s: Session, p: GetUsersParams, service: ServiceOutcome, listing: UsersOutcome): (r: GetUsersResult)
    ensures service.ServiceFailed? ==> r == UsersFailed(service.failure, None)
    ensures service.ServiceReady? && ValidateInteger(IntArgument(p.maxItems, 500), "max_items", false).Failure? ==>
              r == UsersFailed(ValidateInteger(IntArgument(p.maxItems, 500), "max_items", false).error, None)
    ensures r.UsersFailed? && r.listCall.Some? ==> listing.UsersError? && r.failure == UsersFetchFailed(ErrorMessage(listing.e))
    ensures service.ServiceReady? && ValidateInteger(IntArgument(p.maxItems, 500), "max_items", false).Success?
            && listing.UsersError? ==>
              && r.UsersFailed? && r.failure == UsersFetchFailed(ErrorMessage(listing.e))
              && r.listCall == Some(UserListRequest(s.domain, ValidateInteger(IntArgument(p.maxItems, 500), "max_items", false).value,
                                                    "email", "ASCENDING", ForwardToken(p.pageToken)))
    ensures r.UsersSucceeded? <==> service.ServiceReady? && listing.UsersListed?
                                   && ValidateInteger(IntArgument(p.maxItems, 500), "max_items", false).Success?
    ensures r.UsersSucceeded? ==>
              && r.request == UserListRequest(s.domain, ValidateInteger(IntArgument(p.maxItems, 500), "max_items", false).value,
                                              "email", "ASCENDING", ForwardToken(p.pageToken))
              && r.data == listing.users
              && r.summary.total == |listing.users|
              && r.summary.nextPageToken == ForwardToken(listing.nextPageToken)
  {
    if service.ServiceFailed? then UsersFailed(service.failure, None)
    else
      match ValidateInteger(IntArgument(p.maxItems, 500), "max_items", false)
      case Failure(f) => UsersFailed(f, None)
      case Success(max) =>
        var req := UserListRequest(s.domain, max, "email", "ASCENDING", ForwardToken(p.pageToken));
        match listing
        case UsersError(e) => UsersFailed(UsersFetchFailed(ErrorMessage(e)), Some(req))
        case UsersListed(users, next) => UsersSucceeded(req, users, ListSummary(|users|, ForwardToken(next)))
  }

  // ---------------------------------------------------------------------------
  // delete_email
  // ---------------------------------------------------------------------------

  datatype DeleteParams = DeleteParams(email: string, id: string)

  /** The outcome of `messages().batchDelete`. */
  datatype BatchOutcome = BatchDone | BatchError(e: Exception)

  /** `probed` lists the ids whose existence was checked, `batch` the ids sent to
      the batch delete when it was issued. */
  datatype DeleteResult =
    | DeleteFailed(failure: ActionFailure, probed: seq<string>, batch: Option<seq<string>>)
    | DeleteSucceeded(deleted: set<string>, ignored: set<string>, probed: seq<string>, batch: Option<seq<string>>)

  /** `r` is the failure the first non-HTTP check error produces: the check
      message naming that id, after checking the ids up to and including it. */
  ghost predicate FailsAtFirstCheckError(ids: seq<string>, probes: seq<Deletion.Probe>, r: DeleteResult)
    requires |probes| == |ids|
  {
    exists k :: 0 <= k < |probes| && probes[k].OtherError? && (forall j :: 0 <= j < k ==> !probes[j].OtherError?)
                && r == DeleteFailed(EmailCheckFailed(Deletion.CheckMessage(ids[k], probes[k].e)), ids[..k + 1], None)
  }

  /** A completed check found nothing exactly when no probe found its message. */
  lemma NothingFoundIffGoodEmpty(ids: seq<string>, probes: seq<Deletion.Probe>)
    requires |probes| == |ids| && Deletion.ClassifyIds(ids, probes).Classified?
    ensures Deletion.ClassifyIds(ids, probes).good == {} <==> forall j :: 0 <= j < |probes| ==> !probes[j].Exists?
  {
    var c := Deletion.ClassifyIds(ids, probes);
    if exists j :: 0 <= j < |probes| && probes[j].Exists? {
      var j :| 0 <= j < |probes| && probes[j].Exists?;
      assert ids[j] in c.good;
    }
  }

  /** `_handle_delete_email`. `probes` holds the outcome of the existence check
      of each parsed id, in order. */
  function DeleteEmail(p: DeleteParams, service: ServiceOutcome, probes: seq<Deletion.Probe>, batch: BatchOutcome): (r: DeleteResult)
    requires |probes| == |Deletion.ParseIds(p.id)|
    ensures service.ServiceFailed? ==> r == DeleteFailed(service.failure, [], None)
    ensures service.ServiceReady? && Deletion.Blank(p.id) ==> r == DeleteFailed(InvalidIdParameter, [], None)
    ensures r.batch.Some? ==> r.batch.value == Deletion.ParseIds(p.id)
    ensures r.DeleteSucceeded? ==>
              && r.probed == Deletion.ParseIds(p.id)
              && (forall id :: id in r.deleted <==> exists j :: 0 <= j < |probes| && r.probed[j] == id && probes[j].Exists?)
              && (forall id :: id in r.ignored <==> exists j :: 0 <= j < |probes| && r.probed[j] == id && probes[j].HttpError?)
              && (r.batch.None? <==> r.deleted == {})
    ensures r.DeleteSucceeded? <==>
              && service.ServiceReady? && !Deletion.Blank(p.id)
              && (forall j :: 0 <= j < |probes| ==> !probes[j].OtherError?)
              && (batch.BatchDone? || forall j :: 0 <= j < |probes| ==> !probes[j].Exists?)
    ensures service.ServiceReady? && (exists j :: 0 <= j < |probes| && probes[j].OtherError?) ==>
              r.batch.None? && FailsAtFirstCheckError(Deletion.ParseIds(p.id), probes, r)
  {
    if service.ServiceFailed? then DeleteFailed(service.failure, [], None)
    else
      var ids := Deletion.ParseIds(p.id);
      if ids == [] then DeleteFailed(InvalidIdParameter, [], None)
      else DeleteChecked(ids, probes, batch)
  }

  /** `_handle_delete_email` past the id parsing: check every id, then batch
      delete the whole list when some message was found. */
  function DeleteChecked(ids: seq<string>, probes: seq<Deletion.Probe>, batch: BatchOutcome): (r: DeleteResult)
    requires |probes| == |ids|
    ensures r.batch.Some? ==> r.batch.value == ids
    ensures r.DeleteSucceeded? ==>
              && r.probed == ids
              && (forall id :: id in r.deleted <==> exists j :: 0 <= j < |probes| && ids[j] == id && probes[j].Exists?)
              && (forall id :: id in r.ignored <==> exists j :: 0 <= j < |probes| && ids[j] == id && probes[j].HttpError?)
              && (r.batch.None? <==> r.deleted == {})
    ensures r.DeleteSucceeded? <==>
              && (forall j :: 0 <= j < |probes| ==> !probes[j].OtherError?)
              && (batch.BatchDone? || forall j :: 0 <= j < |probes| ==> !probes[j].Exists?)
    ensures (exists j :: 0 <= j < |probes| && probes[j].OtherError?) ==>
              r.batch.None? && FailsAtFirstCheckError(ids, probes, r)
  {
    if exists j :: 0 <= j < |probes| && probes[j].OtherError? then DeleteAborted(ids, probes)
    else DeleteClassified(ids, probes, batch)
  }

  /** A check raising something other than an HTTP error ends the action before
      any batch delete. */
  function DeleteAborted(ids: seq<string>, probes: seq<Deletion.Probe>): (r: DeleteResult)
    requires |probes| == |ids| && exists j :: 0 <= j < |probes| && probes[j].OtherError?
    ensures r.batch.None? && FailsAtFirstCheckError(ids, probes, r)
  {
    AbortNamesFirstCheckError(ids, probes);
    var c := Deletion.ClassifyIds(ids, probes);
    DeleteFailed(EmailCheckFailed(Deletion.CheckMessage(ids[c.at], c.error)), ids[..c.at + 1], None)
  }

  lemma AbortNamesFirstCheckError(ids: seq<string>, probes: seq<Deletion.Probe>)
    requires |probes| == |ids| && exists j :: 0 <= j < |probes| && probes[j].OtherError?
    ensures var c := Deletion.ClassifyIds(ids, probes);
            && c.CheckAborted? && c.at < |ids|
            && FailsAtFirstCheckError(ids, probes, DeleteFailed(EmailCheckFailed(Deletion.CheckMessage(ids[c.at], c.error)), ids[..c.at + 1], None))
  {
    var c := Deletion.ClassifyIds(ids, probes);
    assert c.CheckAborted?;
    var k := c.at;
    assert k < |probes| && probes[k].OtherError? && (forall j :: 0 <= j < k ==> !probes[j].OtherError?);
    assert c.error == probes[k].e;
  }

  /** Every check completed: nothing found succeeds without a batch delete,
      otherwise the batch delete of the whole list decides. */
  function DeleteClassified(ids: seq<string>, probes: seq<Deletion.Probe>, batch: BatchOutcome): (r: DeleteResult)
    requires |probes| == |ids| && forall j :: 0 <= j < |probes| ==> !probes[j].OtherError?
    ensures r.batch.Some? ==> r.batch.value == ids
    ensures r.DeleteSucceeded? ==>
              && r.probed == ids
              && (forall id :: id in r.deleted <==> exists j :: 0 <= j < |probes| && ids[j] == id && probes[j].Exists?)
              && (forall id :: id in r.ignored <==> exists j :: 0 <= j < |probes| && ids[j] == id && probes[j].HttpError?)
              && (r.batch.None? <==> r.deleted == {})
    ensures r.DeleteSucceeded? <==> batch.BatchDone? || forall j :: 0 <= j < |probes| ==> !probes[j].Exists?
  {
    var c := Deletion.ClassifyIds(ids, probes);
    NothingFoundIffGoodEmpty(ids, probes);
    if c.good == {} then DeleteSucceeded({}, c.bad, ids, None)
    else
      match batch
      case BatchError(e) => DeleteFailed(BatchDeleteFailed(ErrorMessage(e)), ids, Some(ids))
      case BatchDone => DeleteSucceeded(c.good, c.bad, ids, Some(ids))
  }

  /** When every id is already gone, no batch delete is issued, whatever it would
      have returned, and the action succeeds reporting every id as ignored. */
  lemma AllGoneSkipsBatch(p: DeleteParams, probes: seq<Deletion.Probe>, batch: BatchOutcome, batch': BatchOutcome)
    requires |probes| == |Deletion.ParseIds(p.id)| && !Deletion.Blank(p.id)
    requires forall j :: 0 <= j < |probes| ==> probes[j].HttpError?
    ensures DeleteEmail(p, ServiceReady, probes, batch) == DeleteEmail(p, ServiceReady, probes, batch')
    ensures var r := DeleteEmail(p, ServiceReady, probes, batch);
            && r.DeleteSucceeded? && r.batch.None? && r.deleted == {}
            && forall id :: id in r.ignored <==> id in Deletion.ParseIds(p.id)
  {
    var ids := Deletion.ParseIds(p.id);
    assert ids != [];
    assert DeleteEmail(p, ServiceReady, probes, batch) == DeleteClassified(ids, probes, batch);
    assert DeleteEmail(p, ServiceReady, probes, batch') == DeleteClassified(ids, probes, batch');
    NothingFoundIffGoodEmpty(ids, probes);
    var c := Deletion.ClassifyIds(ids, probes);
    assert c.good == {};
    forall id ensures id in c.bad <==> id in ids {
      if id in ids {
        var j :| 0 <= j < |ids| && ids[j] == id;
        assert probes[j].HttpError?;
      }
    }
  }

  /** A failing batch delete fails the action after the whole list was sent. */
  lemma BatchFailureFails(p: DeleteParams, probes: seq<Deletion.Probe>, e: Exception)
    requires |probes| == |Deletion.ParseIds(p.id)|
    requires forall j :: 0 <= j < |probes| ==> !probes[j].OtherError?
    requires exists j :: 0 <= j < |probes| && probes[j].Exists?
    ensures DeleteEmail(p, ServiceReady, probes, BatchError(e))
            == DeleteFailed(BatchDeleteFailed(ErrorMessage(e)), Deletion.ParseIds(p.id), Some(Deletion.ParseIds(p.id)))
  {
    var ids := Deletion.ParseIds(p.id);
    assert ids != [];
    assert DeleteEmail(p, ServiceReady, probes, BatchError(e)) == DeleteChecked(ids, probes, BatchError(e));
    assert DeleteChecked(ids, probes, BatchError(e)) == DeleteClassified(ids, probes, BatchError(e));
    NothingFoundIffGoodEmpty(ids, probes);
    assert Deletion.ClassifyIds(ids, probes).good != {};
  }
}
