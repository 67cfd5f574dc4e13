/** request_load_more_comments: drain the ratings connection of one professor,
    20 ratings per page, passing every rating node through unchanged and
    sleeping only between two requests, never after the last one. */
module Comments {
  import opened Paging

  /** The `first` variable of every ratings request. */
  const RATINGS_PAGE_SIZE: nat := 20

  /** Appends the nodes of one page's edges, in order and unchanged. */
  method AppendNodes<R>(all: seq<R>, edges: seq<R>) returns (r: seq<R>)
    ensures r == all + edges
  {
    r := all;
    for j := 0 to |edges|
      invariant r == all + edges[..j]
    {
      assert edges[..j + 1] == edges[..j] + [edges[j]];
      r := r + [edges[j]];
    }
    assert edges[..|edges|] == edges;
  }

  /** request_load_more_comments for professor `id`, given the responses
      `pages` its ratings connection gives, in order. `log` holds the
      variables of every request sent and `sleeps` counts time.sleep calls. */
  method RequestLoadMoreComments<R>(id: string, pages: seq<Response<R>>)
    returns (res: Outcome<R>, ghost log: seq<Request>, ghost sleeps: nat)
    ensures res == Drain(pages)
    ensures |log| == RequestCount(pages)
    ensures forall i :: 0 <= i < |log| ==> log[i].key == id && log[i].first == RATINGS_PAGE_SIZE
    ensures log[0].after == None
    ensures forall i :: 0 <= i < |log| - 1 ==> pages[i].Page? && log[i + 1].after == pages[i].endCursor
    ensures sleeps == |log| - 1
  {
    ghost var s := StopIndex(pages);
    var after: Cursor := None;
    var comments: seq<R> := [];
    var k := 0;
    log, sleeps := [], 0;
    while true
      invariant k <= |pages| && k <= s
      invariant after == CursorAfter(pages, k)
      invariant comments == Nodes(pages[..k])
      invariant |log| == k && forall i :: 0 <= i < k ==> log[i] == Request(id, RATINGS_PAGE_SIZE, CursorAfter(pages, i))
      invariant sleeps == k
      decreases |pages| - k
    {
      log := log + [Request(id, RATINGS_PAGE_SIZE, after)];
      var resp := Respond(pages, k);
      if !resp.Page? {
        return Failed(ErrorOf(resp)), log, sleeps;
      }
      NodesStep(pages, k);
      comments := AppendNodes(comments, resp.edges);
      if !resp.hasNextPage {
        break;
      }
      after := resp.endCursor;
      sleeps := sleeps + 1;
      k := k + 1;
    }
    res := Done(comments);
  }
}
