/** The check find_all_profs runs on its request headers before any request:
    every header value must be encodable in Latin-1, the transport's header
    encoding; the first header (in insertion order) that is not raises a
    RuntimeError naming that header. */
module Headers {
  import opened Paging

  datatype Header = Header(name: string, value: string)

  /** A string that str.encode("latin-1") accepts: no code point above 255. */
  predicate Latin1(s: string) {
    forall i :: 0 <= i < |s| ==> s[i] as int <= 255
  }

  /** The position of the first header whose value is not Latin-1, or the
      number of headers when there is none. */
  function BadHeaderIndex(headers: seq<Header>): (k: nat)
    ensures k <= |headers|
    ensures forall i :: 0 <= i < k ==> Latin1(headers[i].value)
    ensures k < |headers| ==> !Latin1(headers[k].value)
  {
    if headers == [] || !Latin1(headers[0].value) then 0
    else 1 + BadHeaderIndex(headers[1..])
  }

  /** None when every header is encodable, otherwise the name of the header
      the RuntimeError reports. */
  function HeaderCheck(headers: seq<Header>): (r: Option<string>)
    ensures r.None? <==> forall i, j :: 0 <= i < |headers| && 0 <= j < |headers[i].value| ==>
                                       headers[i].value[j] as int <= 255
    ensures r.Some? ==> exists k :: 0 <= k < |headers| && headers[k].name == r.value &&
                                    (exists j :: 0 <= j < |headers[k].value| && headers[k].value[j] as int > 255) &&
                                    forall i :: 0 <= i < k ==> Latin1(headers[i].value)
  {
    var k := BadHeaderIndex(headers);
    if k < |headers| then Some(headers[k].name) else None
  }

  /** Headers made only of Latin-1 text always pass; one value with a code
      point above 255 makes the check fail, whatever the other headers hold. */
  lemma {:induction false} HeaderCheckFailsOn(headers: seq<Header>, k: nat, j: nat)
    requires k < |headers| && j < |headers[k].value|
    requires headers[k].value[j] as int > 255
    ensures HeaderCheck(headers).Some?
    ensures BadHeaderIndex(headers) <= k
  {
    assert !Latin1(headers[k].value);
  }
}
