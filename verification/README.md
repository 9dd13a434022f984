# G Suite for Gmail connector — a Dafny model of its decision logic

The connector lets a security-automation platform search a Gmail mailbox
(`run_query`), delete messages (`delete_email`) and list the users of a Google
Workspace domain (`get_users`), all through a service account that impersonates
the mailbox owner. Almost all of it is calls into Google's API client. This
project models the parts that decide something, as pure functions over
immutable values:

- integer parameter validation (`_validate_integer`), module `Validation`;
- exception-to-text normalisation (`_get_error_message_from_exception`), module `Errors`;
- promotion of the `subject`, `delivered-to`, `from`, `to` and `message-id`
  headers to top-level keys of a message record (`_map_email_details`), module `Headers`;
- the Gmail search string of `run_query`, module `Query`;
- parsing of the comma-separated `id` parameter of `delete_email` and the
  sorting of ids by their existence check, module `Deletion`;
- the three handlers, with their request arguments, summaries and page tokens,
  module `Handlers`;
- the session's domain, split off the login address in `initialize`, module `Session`.

Every remote call (`messages().list`, `messages().get`, `messages().batchDelete`,
`users().list`) and the construction of the API client are inputs: the handler
functions take their outcomes as arguments and return what the handler reports
together with the arguments of the calls that shape the answer: the
`messages().list` request of `run_query`, the `users().list` request of
`get_users`, and for `delete_email` the ids checked and the ids sent to the
batch delete. Not recorded: the mailbox (`userId`) of the `delete_email` calls,
always the `email` parameter; the per-message `messages().get` arguments of
`run_query` (the mailbox, the listed id and the `metadata` format); and the
scopes and delegated user passed to `_create_service` (`email` for `run_query`
and `delete_email`, `login_email` for `get_users`). `Text` holds the Python string
operations used (`strip`, `split`, `partition`, `lower`, `replace`, `str(int)`),
`Json` the decoded response values with Python truthiness, `Wrappers` the
`Option`/`Result` types.

Summary keys: `ListSummary.total` is `total_messages_returned` (run_query) or
`total_users_returned` (get_users); `ListSummary.nextPageToken` is
`next_page_token`; `DeleteSucceeded.deleted` and `.ignored` are
`deleted_emails` and `ignored_ids`.

## Model

| member | source | states |
|---|---|---|
| Validation.ValidateInteger | Apps/phgsgmail/gsgmail_connector.py:128-143 | accepts exactly `None` or an integer that is positive (or zero when `allow_zero`); `None` passes through and an accepted integer is returned unchanged; non-integral and unparseable values fail with an empty constraint, negatives with "non-negative", zero with "non-zero positive", each naming the parameter |
| Validation.ValidateIdempotent | Apps/phgsgmail/gsgmail_connector.py:128-143 | a value the check returned is accepted again unchanged |
| Validation.AllowZeroOnlyAdmitsZero | Apps/phgsgmail/gsgmail_connector.py:140-141 | `allow_zero` changes the verdict for zero and for no other input |
| Errors.Describe | Apps/phgsgmail/gsgmail_connector.py:150-176 | with two or more args the code and message are `args[0]` and `args[1]`, each replaced by a truthy `error.code` / `error.message` of the JSON-parsed message; with one arg the code is the "unavailable" sentinel and the message is `args[0]`; with none both are sentinels |
| Errors.ErrorMessage | Apps/phgsgmail/gsgmail_connector.py:185 | the text is exactly "Error Code: " followed by the code, ". Error Message: ", then the message |
| Errors.ExtraArgumentsIgnored | Apps/phgsgmail/gsgmail_connector.py:154-157 | arguments after the second never change the text |
| Errors.PayloadIgnoredBelowTwoArguments | Apps/phgsgmail/gsgmail_connector.py:158-170 | the JSON payload is consulted only when there are at least two arguments |
| Errors.RawArgumentsWithoutPayload | Apps/phgsgmail/gsgmail_connector.py:158-167 | a message that does not parse to a JSON object leaves `args[0]` and `args[1]` in place (the parse failure is swallowed) |
| Headers.PromoteHeaders | Apps/phgsgmail/gsgmail_connector.py:212-240 | the header dictionary holds, for each of the five recognised names, the value of the first header whose lower-cased name matches, under the name with `-` turned into `_`, and no other key |
| Headers.PromoteInvariant | Apps/phgsgmail/gsgmail_connector.py:223-240 | loop invariant of the shrinking worklist: after visiting a prefix, the dictionary is that prefix's first-occurrence dictionary and the worklist is the names not yet seen, so finishing the loop yields the first-occurrence dictionary of the whole list |
| Headers.StepKeepsInvariant | Apps/phgsgmail/gsgmail_connector.py:228-240 | one iteration (skip a nameless, unrecognised or already promoted header, or record it and strike the name off) keeps the invariant |
| Headers.UnfoundSnoc | Apps/phgsgmail/gsgmail_connector.py:234-240 | `headers_to_parse.remove(name)` takes exactly the name just promoted off the list of names not yet seen |
| Headers.PromotionStopsOnceAllFound | Apps/phgsgmail/gsgmail_connector.py:225-226 | once all five names are found, headers after that point cannot change the result, so breaking out is sound |
| Headers.RepeatedHeaderIgnored | Apps/phgsgmail/gsgmail_connector.py:234-240 | a later header repeating a promoted name changes nothing |
| Headers.NamesMatchIgnoringCase | Apps/phgsgmail/gsgmail_connector.py:234-238 | a header spelled in any case is promoted when it is the first with its lower-cased name |
| Headers.MapEmailDetails | Apps/phgsgmail/gsgmail_connector.py:204-244 | `payload` is always removed; without headers the bare record comes back, otherwise a success pair; the record's keys are exactly the other fields plus, in the pair case, the keys of the headers actually found; every non-payload field keeps its value unless a promoted header overwrote it; every found header is present with its first value |
| Headers.MapEmailDetailsFixed | Apps/phgsgmail/gsgmail_connector.py:218-244 | corrected shape: always the success pair, with the same record |
| Headers.NoHeadersComesBackBare | Apps/phgsgmail/gsgmail_connector.py:220-221 | a message with missing or empty headers comes back as a bare record, not as a pair |
| Query.BuildQuery | Apps/phgsgmail/gsgmail_connector.py:269-288 | with a `query` parameter the search string is exactly its value; otherwise it is the clauses ` label:L`, ` subject:S`, ` from:F`, ` rfc822msgid:M`, ` B` of the present keys, in that order |
| Query.ClausesOfFilters | Apps/phgsgmail/gsgmail_connector.py:269-284 | the ordered clause table renders the same string as the handler's five `if` statements |
| Query.QueryOverridesFilters | Apps/phgsgmail/gsgmail_connector.py:286-288 | two parameter sets with the same `query` give the same search string whatever their filters |
| Query.OtherParametersIgnored | Apps/phgsgmail/gsgmail_connector.py:269-288 | parameters other than the five filters and `query` do not affect the search string |
| Query.NoCriteriaGivesEmptyQuery | Apps/phgsgmail/gsgmail_connector.py:269-284 | with no filter and no `query` the search string is empty |
| Text.Strip | Apps/phgsgmail/gsgmail_connector.py:361 | `strip()` returns an infix of its input bounded by whitespace only, with no whitespace at either end, and is empty exactly for all-whitespace input |
| Text.JoinSplit | Apps/phgsgmail/gsgmail_connector.py:361 | joining the pieces of `split(',')` with commas gives the string back |
| Text.SplitJoin | Apps/phgsgmail/gsgmail_connector.py:361 | splitting a comma-join of comma-free pieces gives the pieces back |
| Deletion.ParseIds | Apps/phgsgmail/gsgmail_connector.py:361-362 | every parsed id is non-empty, comma-free and has no surrounding whitespace; the list is empty exactly when the parameter holds only commas and whitespace |
| Deletion.ParseIdsOfPieces | Apps/phgsgmail/gsgmail_connector.py:361-362 | the ids of any comma-join of comma-free pieces are those pieces stripped, empty ones dropped, in order; with `Text.JoinSplit` this fixes the ids of every parameter |
| Deletion.NonEmptyAppend | Apps/phgsgmail/gsgmail_connector.py:362 | `filter(None, ...)` keeps order: filtering a concatenation filters each half |
| Deletion.NonEmptySnoc | Apps/phgsgmail/gsgmail_connector.py:362 | one more piece appears at the end of the filtered list exactly when it is non-empty |
| Deletion.ParsePaddedIds | Apps/phgsgmail/gsgmail_connector.py:361-362 | the parameter " a , ,b " gives the ids "a" and "b" |
| Deletion.NoIdsIffAllSpace | Apps/phgsgmail/gsgmail_connector.py:361-364 | no id survives exactly when every comma-separated piece is whitespace |
| Deletion.ParseIdsOfJoined | Apps/phgsgmail/gsgmail_connector.py:361-362 | parsing inverts a comma-join of clean ids, order and duplicates kept |
| Deletion.ClassifyIds | Apps/phgsgmail/gsgmail_connector.py:366-386 | the check completes iff no `get` raised a non-HTTP error; then the good set is exactly the ids found and the bad set exactly the ids that raised an HTTP error; otherwise the first such error aborts the loop at its position, carrying its exception |
| Deletion.ClassifyCompletes | Apps/phgsgmail/gsgmail_connector.py:369-386 | the loop adds each found id to the good set and each HTTP-error id to the bad set |
| Deletion.ClassifyAborts | Apps/phgsgmail/gsgmail_connector.py:380-385 | the first non-HTTP error returns at once with its position and exception, later ids are not checked |
| Deletion.IdInBothSets | Apps/phgsgmail/gsgmail_connector.py:366-386 | an id listed twice whose checks disagree lands in both sets |
| Session.DomainOf | Apps/phgsgmail/gsgmail_connector.py:105-106 | the domain is what follows the first `@`, or empty when there is none |
| Session.DomainOfAddress | Apps/phgsgmail/gsgmail_connector.py:106 | the domain of `user@domain` with an `@`-free user is `domain`, even when `domain` holds further `@` |
| Session.Initialize | Apps/phgsgmail/gsgmail_connector.py:91-110 | initialisation succeeds iff the key parses and the login passes the e-mail check; a key that does not parse fails with the key failure, a login that fails the check with the `login_email` failure; the session then holds the login and its domain |
| Handlers.ForwardToken | Apps/phgsgmail/gsgmail_connector.py:305-307 | a page token is forwarded (or reported) exactly when truthy, and unchanged |
| Handlers.Collect | Apps/phgsgmail/gsgmail_connector.py:318-332 | with the corrected mapping, one record per successfully fetched message, each the mapped record of a fetched message; failed fetches are skipped |
| Handlers.CollectAppend | Apps/phgsgmail/gsgmail_connector.py:318-332 | the records keep the listing order: collecting a concatenation collects each half |
| Handlers.CollectSnoc | Apps/phgsgmail/gsgmail_connector.py:318-332 | one loop turn: the next message adds exactly its own mapped record at the end when its fetch succeeded, and nothing when it failed |
| Handlers.CollectAsWritten | Apps/phgsgmail/gsgmail_connector.py:318-332 | as written, the loop raises exactly when some fetched message maps to a bare record; otherwise it adds the same records as the corrected loop |
| Handlers.RunQueryRequest | Apps/phgsgmail/gsgmail_connector.py:256-307 | a failed service fails the action whatever the parameters (the service is built before validation); a rejected maximum fails with the validator's own failure naming `max_results`; otherwise the listing call carries the mailbox, the search string, the validated maximum (default 100) and the token only when truthy |
| Handlers.RunQuery | Apps/phgsgmail/gsgmail_connector.py:246-337 | with the corrected mapping, only a failed service, a rejected maximum or a failed listing fail the action; on success the total is the number listed, the records number at most that, and `next_page_token` appears exactly when upstream returned a truthy one |
| Handlers.RunQueryAsWritten | Apps/phgsgmail/gsgmail_connector.py:318-332 | the handler as written raises exactly when a listed message fetched without headers reaches the pair unpacking; otherwise it matches the corrected handler |
| Handlers.HeaderlessMessageRaises | Apps/phgsgmail/gsgmail_connector.py:327 | one message fetched without headers makes the handler as written raise while the corrected one reports that message |
| Handlers.AgreeWhenHeadersPresent | Apps/phgsgmail/gsgmail_connector.py:327 | when every fetched message has headers the two handlers agree |
| Handlers.GetUsers | Apps/phgsgmail/gsgmail_connector.py:413-466 | a failed service fails before validation; the listing asks for the session's domain ordered by e-mail ascending with the validated maximum (default 500) and a truthy token only; a failed listing fails with the users-fetch failure and records exactly that request; every user is reported unmodified and in order, with the count and a truthy next token |
| Handlers.DeleteEmail | Apps/phgsgmail/gsgmail_connector.py:339-411 | a failed service fails first; a blank `id` fails with no remote call; the action succeeds exactly when the service is ready, some id parses, no check raised a non-HTTP error, and either nothing was found or the batch delete worked; the first non-HTTP check error fails with the message naming that id, with no batch delete; on success the deleted set is the ids found and the ignored set the HTTP-error ids; a batch delete, when issued, covers the full parsed list; no batch delete is issued exactly when nothing was found |
| Handlers.DeleteChecked | Apps/phgsgmail/gsgmail_connector.py:366-411 | past parsing, the same success condition and sets for a non-empty id list |
| Handlers.DeleteAborted | Apps/phgsgmail/gsgmail_connector.py:380-385 | the first non-HTTP check error fails with "Error checking email. ID: <id> Reason: <text>." for that id, after checking the ids up to it, and with no batch delete |
| Handlers.DeleteClassified | Apps/phgsgmail/gsgmail_connector.py:388-411 | after every check completed: nothing found succeeds without a batch delete, otherwise the batch delete of the whole list decides success |
| Handlers.AllGoneSkipsBatch | Apps/phgsgmail/gsgmail_connector.py:388-395 | when every check raised an HTTP error the action succeeds with nothing deleted, every id ignored and no batch delete, whatever the batch call would have done |
| Handlers.BatchFailureFails | Apps/phgsgmail/gsgmail_connector.py:397-402 | a failing batch delete fails the action after the full id list was sent |

## Left out

- `_create_service` (credential construction, `with_subject` impersonation, `apiclient.discovery.build`) is a foreign library call: the handlers take its outcome, `ServiceReady` or `ServiceFailed` with the failure it set.
- Every remote `list`, `get` and `batchDelete` is network I/O: their outcomes are inputs (`MessagesOutcome`, `FetchOutcome`, `Deletion.Probe`, `BatchOutcome`, `UsersOutcome`).
- `_get_email_details` builds an error text that the caller discards; the model keeps only whether the fetch succeeded.
- `_handle_test_connectivity` is progress narration around one remote call; progress and debug messages elsewhere are not modelled either.
- `_handle_py_ver_compat_for_input_str` is the identity under Python 3 and is not modelled; the `TypeError` fallback after it cannot trigger then.
- The Python version probe in `initialize`, `get_config`, `json.loads` of the key and `ph_utils.is_email` are external: `Session.Initialize` takes the parse outcome and the e-mail verdict as inputs.
- `handle_action`, the `__init__.py` file touch, the `sys.argv` workaround and the `__main__` debugging entry point are packaging and scaffolding.
- The constants file of the connector is not part of this model: the failure texts it defines are `Errors.ActionFailure` constructors, and the two "unavailable" sentinels are stand-in strings.
- The success messages of `delete_email` print `list()` of a set, whose order Python leaves unspecified; the model distinguishes the two successes by whether the batch delete was issued.
- Headers.MapEmailDetails: takes `payload.headers` already decoded; payload or header shapes that make the source raise (a non-dict payload, a non-string name) are not modelled.
- Text.Lower: lower-cases ASCII letters only; this is exact for matching the five recognised names, none of which has a letter that a non-ASCII character lower-cases to.
- Json.Show: renders lists and objects as fixed placeholders instead of Python's `repr`; numbers are integers only.
- Handlers.CollectAsWritten: a bare record with exactly two keys unpacks without raising (into its two key names) in Python; the model treats it like every other bare record.
- Handlers.DeleteEmail: takes one existence-check outcome per parsed id, so it requires as many outcomes as parsed ids.

## Findings

| source | as written | input that shows it | evidently intended | confidence | as-written member | corrected member |
|---|---|---|---|---|---|---|
| Apps/phgsgmail/gsgmail_connector.py:220-221 | `_map_email_details` returns the bare record when a message has no headers, but its caller at line 327 unpacks a (status, record) pair, so the unpacking raises and the whole `run_query` fails | a listed message whose fetched metadata has no `payload.headers` | return the success pair on both paths, so the message is reported like any other | not executed; high for the shape mismatch, such messages are rare in practice | Handlers.RunQueryAsWritten | Headers.MapEmailDetailsFixed |
