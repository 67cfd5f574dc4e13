/** find_all_profs: list every professor of a school by draining the
    cursor-paginated teacher search, 50 teachers per page, sleeping once
    after every page received. */
module Profs {
  import opened Paging
  import opened Headers

  /** PAGE_SIZE: the `first` variable of every teacher-search request. */
  const PAGE_SIZE: nat := 50

  /** The school the crawl lists when none is given. */
  const DEFAULT_SCHOOL_ID: int := 4928

  /** The fields of one teacher node the search query selects. */
  datatype TeacherNode = TeacherNode(id: string, firstName: string, lastName: string, department: string)

  /** One listed professor. */
  datatype Prof = Prof(id: string, name: string, department: string)

  /** The record find_all_profs appends for one edge. */
  function Record(n: TeacherNode): Prof {
    Prof(n.id, n.firstName + " " + n.lastName, n.department)
  }

  /** The records of a sequence of nodes, one per node and in order. */
  function Records(ns: seq<TeacherNode>): (r: seq<Prof>)
    ensures |r| == |ns|
    ensures forall i :: 0 <= i < |ns| ==>
              r[i].id == ns[i].id && r[i].department == ns[i].department &&
              r[i].name == ns[i].firstName + " " + ns[i].lastName
  {
    seq(|ns|, i requires 0 <= i < |ns| => Record(ns[i]))
  }

  lemma RecordsSnoc(ns: seq<TeacherNode>, n: TeacherNode)
    ensures Records(ns + [n]) == Records(ns) + [Record(n)]
  {
  }

  /** Appends the record of every edge of one page, in order. */
  method AppendRecords(all: seq<Prof>, edges: seq<TeacherNode>, ghost before: seq<TeacherNode>)
    returns (r: seq<Prof>)
    requires all == Records(before)
    ensures r == Records(before + edges)
  {
    r := all;
    for j := 0 to |edges|
      invariant r == Records(before + edges[..j])
    {
      RecordsSnoc(before + edges[..j], edges[j]);
      assert before + edges[..j + 1] == (before + edges[..j]) + [edges[j]];
      r := r + [Record(edges[j])];
    }
    assert edges[..|edges|] == edges;
  }

  /** What find_all_profs returns or raises. */
  function ListProfs(headers: seq<Header>, pages: seq<Response<TeacherNode>>): Outcome<Prof> {
    match HeaderCheck(headers)
    case Some(h) => Failed(HeaderEncodingError(h))
    case None =>
      match Drain(pages)
      case Done(ns) => Done(Records(ns))
      case Failed(e) => Failed(e)
  }

  /** The number of sleeps find_all_profs performs: one per page received. */
  function ListSleeps(headers: seq<Header>, pages: seq<Response<TeacherNode>>): nat {
    if HeaderCheck(headers).Some? then 0 else PagesReceived(pages)
  }

  /** find_all_profs over the school id `scope` (already base64-encoded) and
      the responses `pages` the search endpoint gives, in order. `log` holds
      the variables of every request sent and `sleeps` counts time.sleep calls. */
  method FindAllProfs(headers: seq<Header>, scope: string, pages: seq<Response<TeacherNode>>)
    returns (res: Outcome<Prof>, ghost log: seq<Request>, ghost sleeps: nat)
    ensures res == ListProfs(headers, pages)
    ensures sleeps == ListSleeps(headers, pages)
    ensures HeaderCheck(headers).Some? ==> log == []
    ensures HeaderCheck(headers).None? ==>
              |log| == RequestCount(pages) &&
              (forall i :: 0 <= i < |log| ==> log[i].key == scope && log[i].first == PAGE_SIZE) &&
              log[0].after == None &&
              (forall i :: 0 <= i < |log| - 1 ==> pages[i].Page? && log[i + 1].after == pages[i].endCursor)
  {
    log, sleeps := [], 0;
    var bad := HeaderCheck(headers);
    if bad.Some? {
      return Failed(HeaderEncodingError(bad.value)), log, sleeps;
    }
    ghost var s := StopIndex(pages);
    var allTeachers: seq<Prof> := [];
    var endCursor: Cursor := None;
    var hasNext := true;
    var k := 0;
    while hasNext
      invariant k <= |pages| && k <= s + 1
      invariant hasNext <==> k <= s
      invariant 0 < k ==> pages[k - 1].Page?
      invariant endCursor == CursorAfter(pages, k)
      invariant allTeachers == Records(Nodes(pages[..k]))
      invariant |log| == k && forall i :: 0 <= i < k ==> log[i] == Request(scope, PAGE_SIZE, CursorAfter(pages, i))
      invariant sleeps == k
      decreases |pages| - k
    {
      log := log + [Request(scope, PAGE_SIZE, endCursor)];
      var resp := Respond(pages, k);
      if !resp.Page? {
        return Failed(ErrorOf(resp)), log, sleeps;
      }
      NodesStep(pages, k);
      allTeachers := AppendRecords(allTeachers, resp.edges, Nodes(pages[..k]));
      hasNext := resp.hasNextPage;
      endCursor := resp.endCursor;
      sleeps := sleeps + 1;
      k := k + 1;
    }
    res := Done(allTeachers);
  }

  /** The name of a listed record is the first name, one space, then the last
      name: when the first name has no space, both parts can be read back. */
  function SpaceIndex(s: string): (k: nat)
    ensures k <= |s|
    ensures forall i :: 0 <= i < k ==> s[i] != ' '
    ensures k < |s| ==> s[k] == ' '
  {
    if s == [] || s[0] == ' ' then 0 else 1 + SpaceIndex(s[1..])
  }

  function SplitName(name: string): (string, string) {
    var k := SpaceIndex(name);
    if k < |name| then (name[..k], name[k + 1..]) else (name, "")
  }

  lemma {:induction false} NameRoundTrip(n: TeacherNode)
    requires ' ' !in n.firstName
    ensures SplitName(Record(n).name) == (n.firstName, n.lastName)
  {
    var name := Record(n).name;
    var f := |n.firstName|;
    assert name[f] == ' ';
    assert forall i :: 0 <= i < f ==> name[i] == n.firstName[i];
    assert forall i :: 0 <= i < f ==> n.firstName[i] != ' ';
    var k := SpaceIndex(name);
    assert k == f;
    assert name[..f] == n.firstName && name[f + 1..] == n.lastName;
  }

  /** A school whose search returns p1..pk, only pk without a next page,
      lists the records of all their edges in order after k requests and k sleeps. */
  lemma ListCompleteStream(headers: seq<Header>, pages: seq<Response<TeacherNode>>)
    requires HeaderCheck(headers).None?
    requires pages != []
    requires forall i :: 0 <= i < |pages| ==> pages[i].Page?
    requires forall i :: 0 <= i < |pages| - 1 ==> pages[i].hasNextPage
    requires !pages[|pages| - 1].hasNextPage
    ensures ListProfs(headers, pages) == Done(Records(Nodes(pages)))
    ensures RequestCount(pages) == |pages| && ListSleeps(headers, pages) == |pages|
  {
    CompleteStream(pages);
  }

  /** A school with no professors lists nothing and is not an error. */
  lemma ListEmptySchool(headers: seq<Header>, cursor: Cursor, rest: seq<Response<TeacherNode>>)
    requires HeaderCheck(headers).None?
    ensures ListProfs(headers, [Page([], false, cursor)] + rest) == Done([])
  {
    var pages := [Page([], false, cursor)] + rest;
    StopIndexUnique(pages, 0);
    assert pages[..1] == [Page([], false, cursor)];
    assert Nodes(pages[..1]) == Nodes(pages[..0]) + [];
  }
}
