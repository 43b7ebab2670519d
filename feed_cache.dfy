/**
  The conditional fetch of the advisory database (unt-scan.py, database_file).
  Network replies are parameters; the two files in the storage directory, the header
  metadata (db.metadata.pickle) and the database body (db.pickle), are the fields of
  class FeedCache, None standing for a file that does not exist or cannot be opened.
*/
module FeedCache {
  import opened Wrappers

  newtype byte = x: int | 0 <= x < 256

  /** HTTP response headers as a dictionary from header name to value. */
  type Headers = map<string, string>

  /**
    What the server answered to one request: a connection that failed before the reply
    (timeout, TLS, ...), a complete reply, or a reply whose status line and headers
    arrived but whose body could not be read to the end (a timeout or an IncompleteRead).
  */
  datatype Reply =
    | ConnectionFailed
    | Reply(status: int, headers: seq<(string, string)>, body: seq<byte>)
    | CutShort(status: int, headers: seq<(string, string)>)

  datatype FetchError =
    | TransportError        // an exception raised by the HTTP client
    | HeadRejected(code: int) // HEAD answered with a status other than 200
    | GetRejected(code: int)  // GET answered with a status other than 200

  /**
    Python's `<` on str: code-point-wise lexicographic order in which a proper prefix is
    smaller. (Dafny's `<` on sequences means "proper prefix", so it is written out here.)
  */
  predicate StrLess(a: string, b: string)
  {
    if a == [] then b != []
    else if b == [] then false
    else if a[0] != b[0] then a[0] < b[0]
    else StrLess(a[1..], b[1..])
  }

  lemma {:induction false} StrLessIrreflexive(a: string)
    ensures !StrLess(a, a)
  {
    if a != [] {
      StrLessIrreflexive(a[1..]);
    }
  }

  lemma {:induction false} StrLessAsymmetric(a: string, b: string)
    ensures StrLess(a, b) ==> !StrLess(b, a)
  {
    if a != [] && b != [] && a[0] == b[0] {
      StrLessAsymmetric(a[1..], b[1..]);
    }
  }

  lemma {:induction false} StrLessTotal(a: string, b: string)
    ensures a != b ==> StrLess(a, b) || StrLess(b, a)
  {
    if a != [] && b != [] && a[0] == b[0] {
      assert a == [a[0]] + a[1..] && b == [b[0]] + b[1..];
      StrLessTotal(a[1..], b[1..]);
    }
  }

  /**
    StrLess is the lexicographic order: `a` is a proper prefix of `b`, or the two agree up
    to a first position where `a` has the smaller character.
  */
  lemma {:induction false} StrLessIsLexicographic(a: string, b: string)
    ensures StrLess(a, b) <==>
      (|a| < |b| && a == b[..|a|]) ||
      (exists k :: 0 <= k < |a| && k < |b| && a[..k] == b[..k] && a[k] < b[k])
  {
    if a == [] || b == [] {
    } else if a[0] != b[0] {
      if StrLess(a, b) {
        assert a[..0] == b[..0];
      }
    } else {
      var a', b' := a[1..], b[1..];
      StrLessIsLexicographic(a', b');
      assert (|a| < |b| && a == b[..|a|]) <==> (|a'| < |b'| && a' == b'[..|a'|]) by {
        if |a| < |b| && a' == b'[..|a'|] {
          assert a == [a[0]] + a' && b[..|a|] == [b[0]] + b'[..|a'|];
        }
      }
      forall k | 0 <= k < |a'| && k < |b'| && a'[..k] == b'[..k] && a'[k] < b'[k]
        ensures a[..k + 1] == b[..k + 1] && a[k + 1] < b[k + 1]
      {
        assert a[..k + 1] == [a[0]] + a'[..k] && b[..k + 1] == [b[0]] + b'[..k];
      }
      forall k | 0 <= k < |a| && k < |b| && a[..k] == b[..k] && a[k] < b[k]
        ensures 0 < k && a'[..k - 1] == b'[..k - 1] && a'[k - 1] < b'[k - 1]
      {
        assert a'[..k - 1] == a[1..k] && b'[..k - 1] == b[1..k];
      }
    }
  }

  /** The dictionary that results from inserting the pairs from first to last. */
  function Collected(pairs: seq<(string, string)>): Headers
  {
    if pairs == [] then map[]
    else Collected(pairs[..|pairs| - 1])[pairs[|pairs| - 1].0 := pairs[|pairs| - 1].1]
  }

  /** The names of the collected dictionary are exactly the names that occur in the list. */
  lemma {:induction false} CollectedNames(pairs: seq<(string, string)>)
    ensures Collected(pairs).Keys == set i | 0 <= i < |pairs| :: pairs[i].0
  {
    if pairs != [] {
      var init := pairs[..|pairs| - 1];
      CollectedNames(init);
      assert forall i :: 0 <= i < |init| ==> init[i] == pairs[i];
      var names := set i | 0 <= i < |pairs| :: pairs[i].0;
      var initNames := set i | 0 <= i < |init| :: init[i].0;
      assert names == initNames + {pairs[|pairs| - 1].0} by {
        forall n | n in names ensures n in initNames + {pairs[|pairs| - 1].0} {
          var i :| 0 <= i < |pairs| && pairs[i].0 == n;
          if i < |init| { assert init[i].0 == n; }
        }
      }
    }
  }

  /** A repeated header name keeps the value of its last occurrence. */
  lemma {:induction false} CollectedLastWins(pairs: seq<(string, string)>, i: nat)
    requires i < |pairs|
    requires forall j :: i < j < |pairs| ==> pairs[j].0 != pairs[i].0
    ensures pairs[i].0 in Collected(pairs) && Collected(pairs)[pairs[i].0] == pairs[i].1
  {
    if i < |pairs| - 1 {
      var init := pairs[..|pairs| - 1];
      assert init[i] == pairs[i];
      CollectedLastWins(init, i);
    }
  }

  /** Turns the HEAD response's header list into a dictionary, one pair at a time. */
  method HeaderMap(pairs: seq<(string, string)>) returns (headers: Headers)
    ensures headers == Collected(pairs)
  {
    headers := map[];
    var i := 0;
    while i < |pairs|
      invariant 0 <= i <= |pairs|
      invariant headers == Collected(pairs[..i])
    {
      assert pairs[..i + 1][..i] == pairs[..i];
      headers := headers[pairs[i].0 := pairs[i].1];
      i := i + 1;
    }
    assert pairs[..i] == pairs;
  }

  /**
    Whether the header comparison lets the cached body be reused (the `update` flag
    cleared): equal ETags when both sides have one; otherwise, when both sides have
    Last-Modified, a stored value strictly smaller, as strings, than the new one.
  */
  predicate CacheReusable(headers: Headers, oldHeaders: Headers)
  {
    if "ETag" in headers && "ETag" in oldHeaders then
      headers["ETag"] == oldHeaders["ETag"]
    else if "Last-Modified" in headers && "Last-Modified" in oldHeaders then
      StrLess(oldHeaders["Last-Modified"], headers["Last-Modified"])
    else
      false
  }

  /** With an ETag on both sides, only the ETags decide; Last-Modified is not looked at. */
  lemma ETagDecides(headers: Headers, oldHeaders: Headers, newDate: string, oldDate: string)
    requires "ETag" in headers && "ETag" in oldHeaders
    ensures CacheReusable(headers, oldHeaders) <==> headers["ETag"] == oldHeaders["ETag"]
    ensures CacheReusable(headers["Last-Modified" := newDate], oldHeaders["Last-Modified" := oldDate])
        == CacheReusable(headers, oldHeaders)
  {
  }

  /**
    Without an ETag on one of the sides, reuse needs Last-Modified on both sides with the
    stored value strictly smaller; an unchanged Last-Modified therefore always downloads.
  */
  lemma LastModifiedFallback(headers: Headers, oldHeaders: Headers)
    requires !("ETag" in headers && "ETag" in oldHeaders)
    ensures CacheReusable(headers, oldHeaders) <==>
      "Last-Modified" in headers && "Last-Modified" in oldHeaders &&
      StrLess(oldHeaders["Last-Modified"], headers["Last-Modified"])
    ensures ("Last-Modified" in headers && "Last-Modified" in oldHeaders &&
             headers["Last-Modified"] == oldHeaders["Last-Modified"]) ==> !CacheReusable(headers, oldHeaders)
  {
    if "Last-Modified" in headers {
      StrLessIrreflexive(headers["Last-Modified"]);
    }
  }

  /** With no stored metadata (first run) the comparison always asks for a download. */
  lemma NoMetadataDownloads(headers: Headers)
    ensures !CacheReusable(headers, map[])
  {
  }

  /** Metadata from a file, an absent file reading as the empty dictionary. */
  function StoredHeaders(file: Option<Headers>): Headers
  {
    if file.Some? then file.value else map[]
  }

  /** The decision the method reaches: download unless headers allow reuse and a body is cached. */
  predicate MustDownload(headers: Headers, metadata: Option<Headers>, body: Option<seq<byte>>)
  {
    !CacheReusable(headers, StoredHeaders(metadata)) || body.None?
  }

  /** The server answered with status 200 (the body may still have been cut short). */
  predicate Accepted(reply: Reply)
  {
    !reply.ConnectionFailed? && reply.status == 200
  }

  class FeedCache {
    /** Contents of the metadata file: the previous HEAD response headers. */
    var metadata: Option<Headers>
    /** Contents of the cached database file. */
    var body: Option<seq<byte>>

    constructor (metadata: Option<Headers>, body: Option<seq<byte>>)
      ensures this.metadata == metadata && this.body == body
    {
      this.metadata := metadata;
      this.body := body;
    }

    /**
      Returns the database bytes, downloading them only when needed. `persistent` is the
      storage setting, `head` and `get` the server's answers to the HEAD and GET requests.
    */
    method DatabaseFile(persistent: bool, head: Reply, get: Reply) returns (r: Result<seq<byte>, FetchError>)
      modifies this
      // Without storage: a plain GET whose status is not checked; no file is touched.
      ensures !persistent ==> metadata == old(metadata) && body == old(body)
      ensures !persistent ==> r == if get.Reply? then Success(get.body) else Failure(TransportError)
      // The HEAD body is never read, so a cut-short HEAD reply counts by its status alone.
      // A failed HEAD aborts before anything is written.
      ensures persistent && !Accepted(head) ==> metadata == old(metadata) && body == old(body) && r.Failure?
      // Otherwise the metadata always becomes the new headers, whatever follows.
      ensures persistent && Accepted(head) ==> metadata == Some(Collected(head.headers))
      ensures persistent && Accepted(head) && !MustDownload(Collected(head.headers), old(metadata), old(body)) ==>
        body == old(body) && r == Success(old(body).value)
      ensures persistent && Accepted(head) && MustDownload(Collected(head.headers), old(metadata), old(body)) ==>
        if Accepted(get) && get.Reply? then body == Some(get.body) && r == Success(get.body)
        // The cache file is emptied before the body is read into it.
        else if Accepted(get) then body == Some([]) && r == Failure(TransportError)
        else body == old(body) && r.Failure?
    {
      if !persistent {
        if !get.Reply? {
          return Failure(TransportError);
        }
        return Success(get.body);
      }

      if head.ConnectionFailed? {
        return Failure(TransportError);
      }
      if head.status != 200 {
        return Failure(HeadRejected(head.status));
      }

      var headers := HeaderMap(head.headers);

      var oldHeaders: Headers;
      if metadata.Some? {
        oldHeaders := metadata.value;
      } else {
        oldHeaders := map[];
      }
      metadata := Some(headers);

      var update := true;
      if "ETag" in headers && "ETag" in oldHeaders {
        if headers["ETag"] == oldHeaders["ETag"] {
          update := false;
        }
      } else if "Last-Modified" in headers && "Last-Modified" in oldHeaders {
        if StrLess(oldHeaders["Last-Modified"], headers["Last-Modified"]) {
          update := false;
        }
      }

      if !update {
        if body.Some? {
          return Success(body.value);
        }
        update := true;
      }

      if get.ConnectionFailed? {
        return Failure(TransportError);
      }
      if get.status != 200 {
        return Failure(GetRejected(get.status));
      }
      body := Some([]);
      if get.CutShort? {
        return Failure(TransportError);
      }
      body := Some(get.body);
      r := Success(get.body);
    }
  }

  /**
    Two consecutive fetches while the server's ETag stays the same (other headers, such
    as Date, may differ): the second one issues no GET (its reply is never looked at)
    and yields the same bytes as the first.
  */
  method RefetchWithUnchangedETag(cache: FeedCache, head1: Reply, get1: Reply, head2: Reply, get2: Reply)
    returns (r1: Result<seq<byte>, FetchError>, r2: Result<seq<byte>, FetchError>)
    requires Accepted(head1) && Accepted(head2)
    requires "ETag" in Collected(head1.headers) && "ETag" in Collected(head2.headers)
    requires Collected(head1.headers)["ETag"] == Collected(head2.headers)["ETag"]
    modifies cache
    ensures r1.Success? ==> r2 == r1
    ensures r1.Success? ==> cache.body == Some(r1.value) && cache.metadata == Some(Collected(head2.headers))
  {
    r1 := cache.DatabaseFile(true, head1, get1);
    r2 := cache.DatabaseFile(true, head2, get2);
  }

  /**
    The metadata is written before the download: when, after the ETag changed, the GET
    answers with a status other than 200 or its connection fails before the reply, the
    next run with that same ETag serves the older cached body.
  */
  method StaleBodyAfterFailedGet(cache: FeedCache, head: Reply, get1: Reply, get2: Reply)
    returns (r1: Result<seq<byte>, FetchError>, r2: Result<seq<byte>, FetchError>)
    requires Accepted(head) && "ETag" in Collected(head.headers)
    requires cache.metadata.Some? && "ETag" in cache.metadata.value
    requires cache.metadata.value["ETag"] != Collected(head.headers)["ETag"]
    requires cache.body.Some? && !Accepted(get1)
    modifies cache
    ensures r1.Failure?
    ensures r2 == Success(old(cache.body).value)
  {
    r1 := cache.DatabaseFile(true, head, get1);
    r2 := cache.DatabaseFile(true, head, get2);
  }

  /**
    A GET that answers 200 but is cut short while the body is read leaves the cache file
    empty, after the metadata already took the new ETag: the next run with that ETag
    returns the empty body instead of downloading again.
  */
  method EmptyBodyAfterCutShortGet(cache: FeedCache, head: Reply, status: int, headers: seq<(string, string)>, get2: Reply)
    returns (r1: Result<seq<byte>, FetchError>, r2: Result<seq<byte>, FetchError>)
    requires Accepted(head) && "ETag" in Collected(head.headers)
    requires cache.metadata.Some? && "ETag" in cache.metadata.value
    requires cache.metadata.value["ETag"] != Collected(head.headers)["ETag"]
    requires status == 200
    modifies cache
    ensures r1 == Failure(TransportError)
    ensures r2 == Success([])
  {
    r1 := cache.DatabaseFile(true, head, CutShort(status, headers));
    r2 := cache.DatabaseFile(true, head, get2);
  }
}
