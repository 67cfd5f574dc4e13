/** Cursor pagination over a GraphQL connection, with the network replaced by
    a finite sequence of responses: the k-th request of a stream receives the
    k-th response, and a request past the end of that sequence finds no
    server (the connection fails). Both pagination drivers of update.py are
    specified in terms of the functions below. */
module Paging {

  datatype Option<T> = None | Some(value: T)

  /** An opaque resume token; None is JSON null, the start of a stream. */
  type Cursor = Option<string>

  /** One decoded response of a connection query. */
  datatype Response<N> =
    | Page(edges: seq<N>, hasNextPage: bool, endCursor: Cursor)
      // requests.post or resp.json() raised
    | ConnectionFailed
      // a data[...] lookup on the decoded response raised
    | MissingKeys

  datatype Error =
    | TransportError
    | MalformedResponse
    | HeaderEncodingError(header: string)

  /** What a call returns, or the exception it raises. */
  datatype Outcome<T> = Done(items: seq<T>) | Failed(error: Error)

  /** The variables of one request: the stream's key (the encoded school id
      or the professor id), the page size `first`, and the cursor `after`. */
  datatype Request = Request(key: string, first: nat, after: Cursor)

  function ErrorOf<N>(r: Response<N>): Error
    requires !r.Page?
  {
    if r.ConnectionFailed? then TransportError else MalformedResponse
  }

  /** The response to the k-th request (0-based) of a stream. */
  function Respond<N>(pages: seq<Response<N>>, k: nat): Response<N> {
    if k < |pages| then pages[k] else ConnectionFailed
  }

  /** A response after which the driver asks for another page. */
  predicate Continues<N>(r: Response<N>) {
    r.Page? && r.hasNextPage
  }

  /** The index of the last request a driver issues: the first response that
      is not a page announcing a next page. */
  function StopIndex<N>(pages: seq<Response<N>>): (k: nat)
    ensures k <= |pages|
    ensures forall i :: 0 <= i < k ==> Continues(pages[i])
    ensures k < |pages| ==> !Continues(pages[k])
  {
    if pages == [] || !Continues(pages[0]) then 0 else 1 + StopIndex(pages[1..])
  }

  /** The number of responses a stream consumes: one per request issued. */
  function RequestCount<N>(pages: seq<Response<N>>): nat {
    StopIndex(pages) + 1
  }

  function Edges<N>(r: Response<N>): seq<N> {
    if r.Page? then r.edges else []
  }

  /** The in-order concatenation of the edges of every page. */
  function Nodes<N>(pages: seq<Response<N>>): seq<N> {
    if pages == [] then [] else Nodes(pages[..|pages| - 1]) + Edges(pages[|pages| - 1])
  }

  /** The cursor the i-th request sends: none at first, then the end cursor
      of the previous response. */
  function CursorAfter<N>(pages: seq<Response<N>>, i: nat): Cursor
    requires i <= |pages|
  {
    if i == 0 || !pages[i - 1].Page? then None else pages[i - 1].endCursor
  }

  /** The result of draining a stream: every edge of every page up to and
      including the last one, or the error of the response that broke it. */
  function Drain<N>(pages: seq<Response<N>>): Outcome<N> {
    var k := StopIndex(pages);
    var last := Respond(pages, k);
    if last.Page? then Done(Nodes(pages[..k + 1])) else Failed(ErrorOf(last))
  }

  /** The number of page responses a stream received. */
  function PagesReceived<N>(pages: seq<Response<N>>): nat {
    if Drain(pages).Done? then RequestCount(pages) else StopIndex(pages)
  }

  /** The only index with the property StopIndex promises is StopIndex. */
  lemma StopIndexUnique<N>(pages: seq<Response<N>>, k: nat)
    requires k <= |pages|
    requires forall i :: 0 <= i < k ==> Continues(pages[i])
    requires k < |pages| ==> !Continues(pages[k])
    ensures StopIndex(pages) == k
  {
  }

  /** Appending one page appends its edges. */
  lemma NodesStep<N>(pages: seq<Response<N>>, k: nat)
    requires k < |pages|
    ensures Nodes(pages[..k + 1]) == Nodes(pages[..k]) + Edges(pages[k])
  {
    assert pages[..k + 1][..k] == pages[..k];
  }

  /** Concatenation of the edges distributes over concatenation of pages. */
  lemma {:induction false} NodesAppend<N>(a: seq<Response<N>>, b: seq<Response<N>>)
    ensures Nodes(a + b) == Nodes(a) + Nodes(b)
  {
    if b == [] {
      assert a + b == a;
    } else {
      var b' := b[..|b| - 1];
      assert (a + b)[..|a + b| - 1] == a + b';
      NodesAppend(a, b');
    }
  }

  /** Pages p1..pk where only pk reports no next page: exactly k requests,
      and the result is the in-order concatenation of all their edges. */
  lemma CompleteStream<N>(pages: seq<Response<N>>)
    requires pages != []
    requires forall i :: 0 <= i < |pages| ==> pages[i].Page?
    requires forall i :: 0 <= i < |pages| - 1 ==> pages[i].hasNextPage
    requires !pages[|pages| - 1].hasNextPage
    ensures RequestCount(pages) == |pages|
    ensures Drain(pages) == Done(Nodes(pages))
    ensures PagesReceived(pages) == |pages|
  {
    StopIndexUnique(pages, |pages| - 1);
    assert pages[..|pages|] == pages;
  }

  /** A driver stops right after the first page without a next page:
      whatever the source would answer afterwards is never requested. */
  lemma {:induction false} StopsAtFirstLastPage<N>(pages: seq<Response<N>>, rest: seq<Response<N>>)
    requires StopIndex(pages) < |pages|
    ensures StopIndex(pages + rest) == StopIndex(pages)
    ensures Drain(pages + rest) == Drain(pages)
    ensures forall i :: 0 <= i <= StopIndex(pages) ==> CursorAfter(pages + rest, i) == CursorAfter(pages, i)
  {
    var k := StopIndex(pages);
    StopIndexUnique(pages + rest, k);
    assert (pages + rest)[..k + 1] == pages[..k + 1];
  }

  /** A broken response reached before the last page fails the stream with
      that response's error instead of truncating it silently. */
  lemma BrokenResponseFails<N>(pages: seq<Response<N>>, j: nat)
    requires j <= |pages|
    requires forall i :: 0 <= i < j ==> Continues(pages[i])
    requires !Respond(pages, j).Page?
    ensures RequestCount(pages) == j + 1
    ensures Drain(pages) == Failed(ErrorOf(Respond(pages, j)))
    ensures PagesReceived(pages) == j
  {
    StopIndexUnique(pages, j);
  }

  /** A stream succeeds exactly when the response to its last request is a page. */
  lemma DrainDoneIff<N>(pages: seq<Response<N>>)
    ensures Drain(pages).Done? <==>
      (exists k :: 0 <= k < |pages| && pages[k].Page? && !pages[k].hasNextPage &&
                   forall i :: 0 <= i < k ==> Continues(pages[i]))
  {
    var s := StopIndex(pages);
    if Drain(pages).Done? {
      assert s < |pages| && pages[s].Page? && !pages[s].hasNextPage;
    } else {
      forall k | 0 <= k < |pages| && pages[k].Page? && !pages[k].hasNextPage
        ensures exists i :: 0 <= i < k && !Continues(pages[i])
      {
        assert s < k && !Continues(pages[s]);
      }
    }
  }

  /** Each page's edges appear in the concatenation unchanged, as one block,
      right after the edges of the pages before it. */
  lemma {:induction false} PageInOrder<N>(pages: seq<Response<N>>, i: nat)
    requires i < |pages|
    ensures var from := |Nodes(pages[..i])|;
            from + |Edges(pages[i])| <= |Nodes(pages)| &&
            Nodes(pages)[from..from + |Edges(pages[i])|] == Edges(pages[i])
  {
    var a, e, b := Nodes(pages[..i]), Edges(pages[i]), Nodes(pages[i + 1..]);
    NodesAppend(pages[..i + 1], pages[i + 1..]);
    NodesStep(pages, i);
    assert pages[..i + 1] + pages[i + 1..] == pages;
    assert Nodes(pages) == a + e + b;
    assert (a + e + b)[|a|..|a| + |e|] == e;
  }
}
