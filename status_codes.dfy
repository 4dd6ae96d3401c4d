/** The per-method table of HTTP statuses that count as a replica's success. */
module StatusCodes {
  import opened Types

  const HTTP_OK := 200
  const HTTP_CREATED := 201
  const HTTP_ACCEPTED := 202
  const HTTP_NOT_FOUND := 404

  /** The methods the table has an entry for. */
  const KnownMethods: set<string> := {"GET", "PUT", "DELETE"}

  /** The table lookup `get(methodName)`; `None` is the `null` a lookup of any other method gives. */
  function SuccessStatusCodes(methodName: string): (r: Option<set<int>>)
    ensures r.Some? <==> methodName in KnownMethods
    ensures r.Some? ==> r.value != {} && forall code :: code in r.value ==> 200 <= code < 300 || code == HTTP_NOT_FOUND
  {
    if methodName == "GET" then Some({HTTP_OK, HTTP_NOT_FOUND})
    else if methodName == "PUT" then Some({HTTP_CREATED})
    else if methodName == "DELETE" then Some({HTTP_ACCEPTED})
    else None
  }

  /** Whether a replica's answer `status` to `methodName` is a success. */
  predicate IsSuccessStatus(methodName: string, status: int)
  {
    var codes := SuccessStatusCodes(methodName);
    codes.Some? && status in codes.value
  }

  /** A read succeeds on "found" and on "not found"; a write only on "created"; a delete only
      on "accepted"; nothing else succeeds, and no status succeeds for two different methods. */
  lemma SuccessStatusTable(methodName: string, status: int)
    ensures IsSuccessStatus(methodName, status) <==>
      (methodName == "GET" && (status == HTTP_OK || status == HTTP_NOT_FOUND)) ||
      (methodName == "PUT" && status == HTTP_CREATED) ||
      (methodName == "DELETE" && status == HTTP_ACCEPTED)
  {
  }
}
