# prof_data crawler: a Dafny model of update.py

`update.py` harvests every professor of a school from a GraphQL API, and then every rating of each professor. It writes a checkpointed JSON snapshot as it goes. The core is three sequential loops:

- `find_all_profs` drains the cursor-paginated teacher search. It takes 50 teachers per page and maps each edge to `{id, name, department}`. Before any request it checks that every header value is Latin-1.
- `request_load_more_comments` drains one professor's ratings connection. It takes 20 ratings per page and passes each node through unchanged.
- `save_all_professor_data_to_json` lists the professors. Then, in listing order, it fetches each professor's ratings; a fetch that raises becomes an empty list. After each professor it appends one entry and writes the whole accumulator over the snapshot file.

The network is replaced by a finite sequence of responses per stream. The k-th request of a stream receives the k-th response: a page (`edges`, `hasNextPage`, `endCursor`), a failed connection, or a response with missing keys. A request past the end of the sequence finds no server, so it fails like a lost connection. Every loop therefore terminates, and each method is stated for every input. The modules are:

- `Paging` (paging.dfy): responses, errors and request variables. It also holds the specification of draining a stream: `StopIndex` is the last request issued, `Nodes` the in-order concatenation of the edges, and `Drain` the result or the error.
- `Headers` (headers.dfy): the Latin-1 header check.
- `Profs` (profs.dfy): `find_all_profs`.
- `Comments` (comments.dfy): `request_load_more_comments`.
- `Crawl` (crawl.dfy): `save_all_professor_data_to_json`.

The drivers are imperative methods with loop invariants. Each returns its result. Ghost out-parameters record the variables of every request sent and the number of `time.sleep` calls. The orchestrator also records the sequence of snapshots written, and returns what the snapshot file holds before and after the run.

## Model

| member | source | states |
|---|---|---|
| `Paging.StopIndex` | update.py:163-175 | The last request a driver issues is for the first response that is not a page announcing a next page. Every earlier response announced one. |
| `Paging.CompleteStream` | update.py:70-106 | For pages p1..pk where only pk has `hasNextPage` false: exactly k requests, k pages received, and the result is the in-order concatenation of all their edges. |
| `Paging.StopsAtFirstLastPage` | update.py:173-175 | A driver stops right after the first page without a next page. Responses after it change neither the result nor the cursors sent. |
| `Paging.BrokenResponseFails` | update.py:85-88 | A failed connection or missing key met before the last page fails the stream with that error. It never yields a silently truncated result. |
| `Paging.DrainDoneIff` | update.py:163-174 | A stream succeeds iff some page has `hasNextPage` false and every page before it announced a next page (both directions). |
| `Paging.PageInOrder` | update.py:171-172 | Each page's edges appear unchanged, as one block, right after the edges of the earlier pages. |
| `Headers.BadHeaderIndex` | update.py:33-37 | Finds the first header whose value has a code point above 255, or reports that there is none. |
| `Headers.HeaderCheck` | update.py:32-37 | The check passes iff every character of every header value is at most 255. When it fails, it names a non-Latin-1 header with no non-Latin-1 header before it. |
| `Headers.HeaderCheckFailsOn` | update.py:33-37 | One character above 255 in header k makes the check fail, and the header reported is at or before k. |
| `Profs.Records` | update.py:90-96 | One record per node, in order. Each copies `id` and `department`, and its `name` is `firstName + " " + lastName`. |
| `Profs.AppendRecords` | update.py:90-96 | Appending one page's edges extends the accumulated records by exactly the records of those edges. |
| `Profs.FindAllProfs` | update.py:13-106 | Header failure: `HeaderEncodingError` naming the header, and no request is sent. Otherwise: exactly `StopIndex + 1` requests, each with the school id and `first` = 50. The first `after` is None; request n+1 sends response n's `endCursor`. One sleep per page received, the last page included. The result is the mapped records or the error of the breaking response. |
| `Profs.NameRoundTrip` | update.py:94 | When the first name has no space, splitting a record's name at its first space gives back the first and last names. |
| `Profs.ListCompleteStream` | update.py:66-106 | A search giving p1..pk, only pk without a next page, lists the records of all their edges after k requests and k sleeps. |
| `Profs.ListEmptySchool` | update.py:88-106 | A school whose first page has no edges and no next page lists nothing, without error. |
| `Comments.AppendNodes` | update.py:171-172 | Appending one page's edges extends the accumulated ratings by exactly those nodes. |
| `Comments.RequestLoadMoreComments` | update.py:109-179 | Returns the drained stream's nodes, unchanged and in order, or its error. Exactly `StopIndex + 1` requests, each with the professor id and `first` = 20, with the same cursor threading. It sleeps one time fewer than it sends requests, never after the last. |
| `Crawl.CrawlResult` | update.py:186-202 | One entry per listed professor, in listing order, with the same id, name and department. The comments are the drained ratings, or `[]` when the fetch failed. |
| `Crawl.SaveAllProfessorData` | update.py:182-210 | A listing error propagates: no snapshot is written and the file is untouched. Otherwise the final accumulator is `CrawlResult`, the snapshots written are its successive prefixes, and the file ends as the whole result (untouched when there are no professors). The sleeps are listing, plus each ratings fetch, plus one per professor. |
| `Crawl.SnapshotChain` | update.py:202-206 | The snapshots are a chain of strictly growing prefixes. Snapshot i holds i+1 entries, and the last one is the whole result. |
| `Crawl.CheckpointIsCrawlOfPrefix` | update.py:202-206 | The snapshot written after professor i equals the crawl result of the first i+1 professors alone. |
| `Crawl.FailureIsolated` | update.py:189-202 | Suppose only professor i's ratings fetch changes, and it now raises. Then only entry i changes: it keeps its professor and gets no comments, and every other entry and the length stay the same. |

## Left out

- Network I/O (`requests.post`, `resp.json()`, `resp.close()`): replaced by the response sequences. The response a request receives depends only on its position in its stream, not on the variables sent.
- Unbounded streams: a stream of the model is finite, and a request past its end fails like a lost connection. An upstream that announces a next page forever makes the source loop forever.
- `UserAgent().random` and the header dictionaries: the headers are an input of `FindAllProfs`. `request_load_more_comments` runs no header check, and neither does its model.
- `base64.b64encode` of `"School-{id}"` (section 4 of RFC 4648): the encoded school id is an opaque input string (`scope`). `DEFAULT_SCHOOL_ID` records the default 4928.
- The constant query variables `text: ""` and `fallback: False`, and the query texts: the request log records only the key, `first` and `after`.
- The shape of a rating node: a rating is a type parameter, so nodes pass through unchanged. Optional fields such as `wouldTakeAgain` are not modelled.
- `json.dump`, file opening and write errors: each checkpoint is modelled as the accumulator it writes. An `IOError` while writing, which would abort the run, is not modelled.
- `time.sleep(SLEEP_TIME)`: counted, not timed.
- `print` progress and failure messages.
- Exceptions outside `Exception` (such as `KeyboardInterrupt`), which the orchestrator does not catch, and interruption at any point.
- The `__main__` block (update.py:213-224), which copies the previous snapshot to a backup directory before the crawl. It is filesystem I/O. Note that `shutil.copy` raises when there is no previous snapshot, so the code does not treat a missing source as a no-op.
- Crawl.SaveAllProfessorData: it does not state the requests sent across the whole run. The requests of each stream are stated by `FindAllProfs` and `RequestLoadMoreComments`, which it calls.
