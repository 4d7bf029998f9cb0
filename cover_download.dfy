/**
 * The cover download of a crawl: `download` turns one HTTP request into a
 * byte count or `None`, and the crawl repeats it with
 * `while not self.download(src, cover_path): time.sleep(1)`.
 * The network is a sequence of attempt outcomes, one per request.
 */
module CoverDownload {

  /** What one `requests.get(url)`, and the write after it, comes to. */
  datatype Attempt =
    | Reply(status: int, body: seq<bv8>)  // a response with its status code and content
    | SslFailure                          // `requests.exceptions.SSLError`
    | OtherFailure                        // any other exception of the request or the file write

  /** What `download` returns, or that it raised. */
  datatype DownloadResult =
    | Written(count: nat)  // status 200: the number of bytes written to the cover file
    | NoResult             // `None`
    | Raised               // an exception escaped `download`

  /**
   * Python truthiness of what `download` returns, as `while not` tests it:
   * `None` and a count of 0 are falsy, a positive count is truthy.  A
   * raised exception never reaches the test.
   */
  predicate Truthy(r: DownloadResult)
    ensures r.NoResult? || r.Raised? || r == Written(0) ==> !Truthy(r)
    ensures r.Written? && r.count > 0 ==> Truthy(r)
  {
    r.Written? && r.count != 0
  }

  /** The loop goes round again: the result is falsy and nothing was raised. */
  predicate Retries(r: DownloadResult)
  {
    !Truthy(r) && !r.Raised?
  }

  /**
   * `download(url, path)`: the byte count on status 200, `None` on any
   * other status and on an SSL error; other exceptions escape.
   */
  function Download(a: Attempt): (r: DownloadResult)
    ensures r.Written? <==> a.Reply? && a.status == 200
    ensures r.Written? ==> r.count == |a.body|
    ensures Truthy(r) <==> a.Reply? && a.status == 200 && |a.body| > 0
    ensures r.Raised? <==> a.OtherFailure?
  {
    match a
    case Reply(status, body) => if status == 200 then Written(|body|) else NoResult
    case SslFailure => NoResult
    case OtherFailure => Raised
  }

  /** How the retry loop ended. */
  datatype FetchOutcome =
    | Fetched(count: nat)  // a truthy result ended the loop
    | Aborted              // an exception escaped the loop
    | Pending              // every attempt given failed: the loop would go on

  /**
   * `while not self.download(...)` over the outcomes of successive requests:
   * `made` requests are issued, every one but the last goes round again, and
   * the last one decides how the loop ends.
   */
  method FetchCover(attempts: seq<Attempt>) returns (made: nat, outcome: FetchOutcome)
    ensures made <= |attempts|
    ensures forall k :: 0 <= k && k + 1 < made ==> Retries(Download(attempts[k]))
    ensures outcome.Fetched? ==> 0 < made && Download(attempts[made - 1]) == Written(outcome.count) && outcome.count > 0
    ensures outcome.Aborted? ==> 0 < made && Download(attempts[made - 1]).Raised?
    ensures outcome.Pending? ==> made == |attempts| && forall k :: 0 <= k < made ==> Retries(Download(attempts[k]))
  {
    made := 0;
    while made < |attempts|
      invariant made <= |attempts|
      invariant forall k :: 0 <= k < made ==> Retries(Download(attempts[k]))
    {
      var result := Download(attempts[made]);
      made := made + 1;
      if result.Raised? {
        return made, Aborted;
      }
      if Truthy(result) {
        return made, Fetched(result.count);
      }
    }
    outcome := Pending;
  }

  /**
   * N failing requests (non-200 statuses, SSL errors, empty 200 bodies)
   * followed by a successful one: exactly N + 1 requests are made, and the
   * loop ends with the byte count of the last.
   */
  method FetchAfterFailures(failures: seq<Attempt>, success: Attempt, later: seq<Attempt>)
    returns (made: nat, outcome: FetchOutcome)
    requires forall k :: 0 <= k < |failures| ==> Retries(Download(failures[k]))
    requires Truthy(Download(success))
    ensures made == |failures| + 1
    ensures outcome == Fetched(|success.body|)
  {
    var attempts := failures + [success] + later;
    made, outcome := FetchCover(attempts);
    assert attempts[|failures|] == success;
    assert forall k :: 0 <= k < |failures| ==> attempts[k] == failures[k];
  }
}
