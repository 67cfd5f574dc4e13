/** save_all_professor_data_to_json: list the professors of a school, then
    fetch each professor's ratings in listing order. A fetch that raises is
    isolated (that professor gets no comments, the crawl goes on); after each
    professor the whole result so far is written over the snapshot file. */
module Crawl {
  import opened Paging
  import opened Headers
  import opened Profs
  import opened Comments

  /** One entry of the crawl result. */
  datatype ProfData<R> = ProfData(id: string, name: string, department: string, comments: seq<R>)

  /** The comments recorded for a fetch: its ratings, or none when it raised. */
  function CommentsOrEmpty<R>(fetched: Outcome<R>): seq<R> {
    if fetched.Done? then fetched.items else []
  }

  /** The entry for one professor, whose ratings connection answers `ratings(id)`. */
  function Entry<R>(p: Prof, ratings: string -> seq<Response<R>>): ProfData<R> {
    ProfData(p.id, p.name, p.department, CommentsOrEmpty(Drain(ratings(p.id))))
  }

  /** The crawl result for the listed professors: one entry per professor,
      in listing order, with the same id, name and department. */
  function CrawlResult<R>(profs: seq<Prof>, ratings: string -> seq<Response<R>>): (r: seq<ProfData<R>>)
    ensures |r| == |profs|
    ensures forall i :: 0 <= i < |profs| ==>
              r[i].id == profs[i].id && r[i].name == profs[i].name && r[i].department == profs[i].department
    ensures forall i :: 0 <= i < |profs| ==>
              (Drain(ratings(profs[i].id)).Failed? ==> r[i].comments == []) &&
              (Drain(ratings(profs[i].id)).Done? ==> r[i].comments == Drain(ratings(profs[i].id)).items)
  {
    seq(|profs|, i requires 0 <= i < |profs| => Entry(profs[i], ratings))
  }

  /** The snapshots written, in order: after entry i, the first i + 1 entries. */
  function Snapshots<T>(data: seq<T>): seq<seq<T>> {
    seq(|data|, i requires 0 <= i < |data| => data[..i + 1])
  }

  /** The sleeps of the per-professor phase: those inside each ratings fetch
      (one fewer than its requests) and one after each professor. */
  function CommentSleeps<R>(profs: seq<Prof>, ratings: string -> seq<Response<R>>): nat {
    if profs == [] then 0
    else CommentSleeps(profs[..|profs| - 1], ratings) + StopIndex(ratings(profs[|profs| - 1].id)) + 1
  }

  /** The sleeps of a whole run. */
  function CrawlSleeps<R>(headers: seq<Header>, profPages: seq<Response<TeacherNode>>,
                          ratings: string -> seq<Response<R>>): nat {
    ListSleeps(headers, profPages) +
    match ListProfs(headers, profPages)
    case Done(profs) => CommentSleeps(profs, ratings)
    case Failed(_) => 0
  }

  /** save_all_professor_data_to_json. `profPages` are the responses of the
      teacher search, `ratings(id)` those of professor id's ratings connection;
      `fileBefore` and `fileAfter` are the snapshot file's content before and
      after the run (None: no file). `res` is the final accumulator, or the
      error that listing raised; `snapshots` are the documents written. */
  method SaveAllProfessorData<R>(headers: seq<Header>, scope: string, profPages: seq<Response<TeacherNode>>,
                                 ratings: string -> seq<Response<R>>, fileBefore: Option<seq<ProfData<R>>>)
    returns (res: Outcome<ProfData<R>>, fileAfter: Option<seq<ProfData<R>>>,
             ghost snapshots: seq<seq<ProfData<R>>>, ghost sleeps: nat)
    ensures ListProfs(headers, profPages).Failed? ==>
              res == Failed(ListProfs(headers, profPages).error) && fileAfter == fileBefore && snapshots == []
    ensures ListProfs(headers, profPages).Done? ==>
              var profs := ListProfs(headers, profPages).items;
              res == Done(CrawlResult(profs, ratings)) &&
              snapshots == Snapshots(res.items) &&
              fileAfter == (if profs == [] then fileBefore else Some(res.items))
    ensures sleeps == CrawlSleeps(headers, profPages, ratings)
  {
    var listed;
    ghost var listLog;
    listed, listLog, sleeps := FindAllProfs(headers, scope, profPages);
    if listed.Failed? {
      return Failed(listed.error), fileBefore, [], sleeps;
    }
    var profs := listed.items;
    var allData: seq<ProfData<R>> := [];
    fileAfter := fileBefore;
    snapshots := [];
    for i := 0 to |profs|
      invariant allData == CrawlResult(profs[..i], ratings)
      invariant snapshots == Snapshots(allData)
      invariant fileAfter == if i == 0 then fileBefore else Some(allData)
      invariant sleeps == ListSleeps(headers, profPages) + CommentSleeps(profs[..i], ratings)
    {
      var fetched;
      ghost var commentLog, commentSleeps;
      fetched, commentLog, commentSleeps := RequestLoadMoreComments(profs[i].id, ratings(profs[i].id));
      var comments := if fetched.Done? then fetched.items else [];
      var profData := ProfData(profs[i].id, profs[i].name, profs[i].department, comments);
      CrawlStep(profs, ratings, i);
      SnapshotsSnoc(allData, profData);
      allData := allData + [profData];
      fileAfter := Some(allData);
      snapshots := snapshots + [allData];
      sleeps := sleeps + commentSleeps + 1;
    }
    assert profs[..|profs|] == profs;
    res := Done(allData);
  }

  lemma CrawlStep<R>(profs: seq<Prof>, ratings: string -> seq<Response<R>>, i: nat)
    requires i < |profs|
    ensures CrawlResult(profs[..i + 1], ratings) == CrawlResult(profs[..i], ratings) + [Entry(profs[i], ratings)]
    ensures CommentSleeps(profs[..i + 1], ratings) == CommentSleeps(profs[..i], ratings) + StopIndex(ratings(profs[i].id)) + 1
  {
    assert profs[..i + 1][..i] == profs[..i];
  }

  lemma SnapshotsSnoc<T>(data: seq<T>, x: T)
    ensures Snapshots(data + [x]) == Snapshots(data) + [data + [x]]
  {
    var a, b := Snapshots(data + [x]), Snapshots(data) + [data + [x]];
    forall i | 0 <= i < |data|
      ensures a[i] == b[i]
    {
      assert (data + [x])[..i + 1] == data[..i + 1];
    }
    assert a[|data|] == (data + [x])[..|data| + 1] == data + [x];
  }

  /** The snapshots form a chain of growing prefixes: each write replaces the
      previous document with one that extends it by exactly one entry, and the
      last one is the whole result. */
  lemma {:induction false} SnapshotChain<T>(data: seq<T>)
    ensures |Snapshots(data)| == |data|
    ensures forall i :: 0 <= i < |data| ==> |Snapshots(data)[i]| == i + 1
    ensures forall i, j :: 0 <= i < j < |data| ==> Snapshots(data)[i] < Snapshots(data)[j]
    ensures data != [] ==> Snapshots(data)[|data| - 1] == data
  {
    forall i, j | 0 <= i < j < |data|
      ensures Snapshots(data)[i] < Snapshots(data)[j]
    {
      assert data[..j + 1][..i + 1] == data[..i + 1];
    }
    assert data != [] ==> data[..|data|] == data;
  }

  /** A checkpoint loses at most the professor in flight: the snapshot written
      after professor i is exactly the crawl result of the first i + 1 professors. */
  lemma {:induction false} CheckpointIsCrawlOfPrefix<R>(profs: seq<Prof>, ratings: string -> seq<Response<R>>, i: nat)
    requires i < |profs|
    ensures Snapshots(CrawlResult(profs, ratings))[i] == CrawlResult(profs[..i + 1], ratings)
  {
    var whole, part := CrawlResult(profs, ratings), CrawlResult(profs[..i + 1], ratings);
    assert forall j :: 0 <= j <= i ==> whole[j] == Entry(profs[j], ratings) == part[j];
  }

  /** Failure isolation: when only professor i's ratings fetch changes, and it
      now raises, only entry i changes, and it keeps its professor but has no
      comments. */
  lemma {:induction false} FailureIsolated<R>(profs: seq<Prof>, ratings: string -> seq<Response<R>>,
                                              broken: string -> seq<Response<R>>, i: nat)
    requires i < |profs|
    requires forall j :: 0 <= j < |profs| && j != i ==> profs[j].id != profs[i].id
    requires forall id :: id != profs[i].id ==> broken(id) == ratings(id)
    requires Drain(broken(profs[i].id)).Failed?
    ensures |CrawlResult(profs, broken)| == |CrawlResult(profs, ratings)|
    ensures CrawlResult(profs, broken)[i] == CrawlResult(profs, ratings)[i].(comments := [])
    ensures forall j :: 0 <= j < |profs| && j != i ==> CrawlResult(profs, broken)[j] == CrawlResult(profs, ratings)[j]
  {
    var good, bad := CrawlResult(profs, ratings), CrawlResult(profs, broken);
    forall j | 0 <= j < |profs| && j != i
      ensures bad[j] == good[j]
    {
      assert broken(profs[j].id) == ratings(profs[j].id);
      assert bad[j] == Entry(profs[j], broken);
      assert good[j] == Entry(profs[j], ratings);
    }
    assert bad[i] == Entry(profs[i], broken);
  }
}
