/**
 * `download_file` (download.py:64-134): an authenticated request to the
 * model endpoint that must answer with a redirect, an unauthenticated
 * request to the redirect target that must answer 200, the choice of the
 * output filename, and the loop that streams the body to the file chunk by
 * chunk. The network is a function from requests to responses; a response
 * body is the sequence of chunks successive reads return.
 */
module Download {
  import opened Wrappers
  import opened PyStr

  newtype byte = x: int | 0 <= x < 256

  /** What one `response.read(CHUNK_SIZE)` returns. */
  type Chunk = seq<byte>

  /** Response headers by name, as `response.getheader` finds them. */
  type Headers = map<string, string>

  const ChunkSize: nat := 1638400
  const UserAgent: string :=
    "Mozilla/5.0 (Windows NT 10.0; Win64; x64) AppleWebKit/537.36 (KHTML, like Gecko) Chrome/58.0.3029.110 Safari/537.3"
  const BaseUrl: string := "https://civitai.com/api/download/models"

  /** The statuses the first response must have. */
  const RedirectStatuses: set<int> := {301, 302, 303, 307, 308}

  datatype Request = Request(url: string, headers: Headers)

  /** How the body stream ends once its chunks are used up: end of stream, or a read that raises. */
  datatype StreamEnd = EndOfStream | ConnectionLost

  /** The chunks successive reads return, then the end. */
  datatype Body = Body(chunks: seq<Chunk>, end: StreamEnd)

  datatype Response = Response(status: int, headers: Headers, body: Body)

  /** Everything outside the program that answers a request. */
  type Network = Request -> Response

  /** The ways `download_file` raises. */
  datatype DownloadError =
    | UnexpectedResponse(status: int)  // first response is not a redirect
    | NoRedirectUrl                     // redirect without a usable Location
    | HttpError(status: int)            // second response is not 200
    | NoFilename                        // empty filename: the output path names the directory
    | ReadFailed                        // a read of the body raised mid-stream

  /** The output file as the download leaves it. */
  datatype SavedFile = SavedFile(name: string, contents: seq<byte>)

  /** A completed download: the filename and the final byte counter. */
  datatype Completed = Completed(filename: string, downloaded: nat)

  /** One call of `download_file`: the requests it sent, the file it wrote, and how it ended. */
  datatype Attempt = Attempt(sent: seq<Request>, saved: Option<SavedFile>, result: Result<Completed, DownloadError>)

  /** `response.getheader(name)`. */
  function Header(r: Response, name: string): Option<string>
  {
    if name in r.headers then Some(r.headers[name]) else None
  }

  /** The first, authenticated request for a model. */
  function AuthenticatedRequest(modelId: string, token: string): Request
  {
    Request(BaseUrl + "/" + modelId, map["Authorization" := "Bearer " + token, "User-Agent" := UserAgent])
  }

  /** The second request, to the redirect target: a User-Agent and nothing else. */
  function RedirectRequest(url: string): Request
  {
    Request(url, map["User-Agent" := UserAgent])
  }

  /** The first response is accepted: a redirect status and a non-empty Location. */
  predicate RedirectAccepted(first: Response)
  {
    first.status in RedirectStatuses && Header(first, "Location").Some? && Header(first, "Location").value != ""
  }

  /** The checks on the first response: where to go next, or why not. */
  function RedirectTarget(first: Response): (r: Result<string, DownloadError>)
    ensures r.Success? <==> RedirectAccepted(first)
    ensures r.Success? ==> r.value != "" && r.value == first.headers["Location"]
    ensures first.status !in RedirectStatuses ==> r == Failure(UnexpectedResponse(first.status))
    ensures first.status in RedirectStatuses && r.Failure? ==> r.error == NoRedirectUrl
  {
    if first.status !in RedirectStatuses then Failure(UnexpectedResponse(first.status))
    else match Header(first, "Location")
      case None => Failure(NoRedirectUrl)
      case Some(location) => if location == "" then Failure(NoRedirectUrl) else Success(location)
  }

  /** The `filename=` parameter of a Content-Disposition header, when there is one. */
  function DispositionFilename(disposition: Option<string>): (r: Option<string>)
    ensures r.Some? <==> disposition.Some? && Contains(disposition.value, "filename=")
    ensures r.Some? && r.value != [] ==> r.value[0] != '"' && r.value[|r.value| - 1] != '"'
  {
    if disposition.Some? && disposition.value != "" && Contains(disposition.value, "filename=")
    then
      SplitAtFirst(disposition.value, "filename=");
      Some(Strip(Split(disposition.value, "filename=")[1], {'"'}))
    else None
  }

  /** The text after the first `filename=`, up to the next `filename=` or the end. */
  function AfterFirstFilename(disposition: string): string
    requires Contains(disposition, "filename=")
  {
    var rest := disposition[IndexOf(disposition, "filename=").value + 9..];
    match IndexOf(rest, "filename=")
    case None => rest
    case Some(j) => rest[..j]
  }

  /** The header filename is the text between the first `filename=` and the next, with the quotes around it stripped. */
  lemma DispositionFilenameBetween(disposition: string)
    requires Contains(disposition, "filename=")
    ensures DispositionFilename(Some(disposition)) == Some(Strip(AfterFirstFilename(disposition), {'"'}))
  {
    var i := IndexOf(disposition, "filename=").value;
    var rest := disposition[i + 9..];
    SplitAtFirst(disposition, "filename=");
    SplitAtFirst(rest, "filename=");
  }

  /** The last `/`-separated segment of a URL. */
  function LastSegment(url: string): string
  {
    var segments := Split(url, "/");
    segments[|segments| - 1]
  }

  /** The fallback filename: the last `/`-segment of the redirect URL, cut at the first `?`. */
  function UrlFilename(url: string): (name: string)
    ensures '/' !in name && '?' !in name
  {
    SplitLastPiece(url, '/');
    SplitFirstPiece(LastSegment(url), '?');
    Split(LastSegment(url), "?")[0]
  }

  /** The fallback filename is what follows the last `/` (or the whole URL), up to the first `?` after it (or the end). */
  lemma UrlFilenameIsLastSegment(url: string)
    ensures var segment := LastSegment(url);
      && |segment| <= |url| && segment == url[|url| - |segment|..] && '/' !in segment
      && (|segment| == |url| || url[|url| - |segment| - 1] == '/')
    ensures var segment, name := LastSegment(url), UrlFilename(url);
      && |name| <= |segment| && name == segment[..|name|]
      && (|name| == |segment| || segment[|name|] == '?')
  {
    SplitLastPiece(url, '/');
    SplitFirstPiece(LastSegment(url), '?');
  }

  /** The output filename: the header's when it gives a non-empty one, else the fallback. */
  function ResolveFilename(disposition: Option<string>, redirectUrl: string): (name: string)
    ensures Truthy(DispositionFilename(disposition)) ==> name == DispositionFilename(disposition).value
    ensures !Truthy(DispositionFilename(disposition)) ==> name == UrlFilename(redirectUrl)
    ensures !Truthy(DispositionFilename(disposition)) ==> '/' !in name && '?' !in name
  {
    var fromHeader := DispositionFilename(disposition);
    if fromHeader.Some? && fromHeader.value != "" then fromHeader.value else UrlFilename(redirectUrl)
  }


  /**
   * A header `<p>filename="<n>"` names the file `n`, whatever the redirect
   * URL is (for instance `attachment; filename="x.zip"` gives `x.zip`),
   * provided neither part holds an `=` and `n` is a non-empty name that does
   * not itself start or end with a quote.
   */
  lemma QuotedFilenameWins(p: string, n: string, url: string)
    requires '=' !in p && '=' !in n
    requires n != "" && n[0] != '"' && n[|n| - 1] != '"'
    ensures ResolveFilename(Some(p + "filename=" + ("\"" + n + "\"")), url) == n
  {
    var quoted := "\"" + n + "\"";
    var header := p + "filename=" + quoted;
    FirstParameterAfter(p, quoted);
    assert AfterFirstFilename(header) == quoted by {
      assert forall k :: 0 <= k < |quoted| ==> quoted[k] != '=' by {
        assert forall k :: 0 < k < |quoted| - 1 ==> quoted[k] == n[k - 1];
      }
      NoParameterWithoutEquals(quoted);
    }
    DispositionFilenameBetween(header);
    StripQuotes(n);
  }

  /** Without an `=` in `p`, the first `filename=` of `p + "filename=" + q` is the one after `p`. */
  lemma FirstParameterAfter(p: string, q: string)
    requires '=' !in p
    ensures var header := p + "filename=" + q;
      && IndexOf(header, "filename=") == Some(|p|)
      && header[|p| + 9..] == q
  {
    var header := p + "filename=" + q;
    assert header[|p|..|p| + 9] == "filename=";
    forall j: nat | j < |p| ensures !OccursAt(header, "filename=", j) {
      if j + 9 <= |header| {
        assert header[j..j + 9][8] == header[j + 8];
        if j + 8 < |p| {
          assert header[j + 8] == p[j + 8];
        } else {
          assert header[j + 8] == "filename="[j + 8 - |p|];
        }
      }
    }
    IndexOfIs(header, "filename=", |p|);
    assert header[|p| + 9..] == q;
  }

  /** A string without `=` holds no `filename=`. */
  lemma NoParameterWithoutEquals(q: string)
    requires forall k :: 0 <= k < |q| ==> q[k] != '='
    ensures IndexOf(q, "filename=") == None
  {
    forall j: nat | j <= |q| ensures !OccursAt(q, "filename=", j) {
      if j + 9 <= |q| {
        assert q[j..j + 9][8] == q[j + 8];
      }
    }
  }

  /** Stripping the quotes around a name that has none at its ends gives the name. */
  lemma StripQuotes(n: string)
    requires n != "" && n[0] != '"' && n[|n| - 1] != '"'
    ensures Strip("\"" + n + "\"", {'"'}) == n
  {
    var quoted := "\"" + n + "\"";
    assert quoted[1..] == n + "\"";
    assert StripStart(quoted, {'"'}) == n + "\"";
    assert (n + "\"")[..|n|] == n;
    assert StripEnd(n + "\"", {'"'}) == n;
  }

  // ---------------------------------------------------------------------------
  // Streaming the body to the output file (download.py:109-119)

  /** The bytes of the chunks, in order. */
  function Concat(chunks: seq<Chunk>): seq<byte>
  {
    if chunks == [] then [] else Concat(chunks[..|chunks| - 1]) + chunks[|chunks| - 1]
  }

  /** The sum of the chunks' lengths: what the `downloaded` counter adds up. */
  function TotalLength(chunks: seq<Chunk>): nat
  {
    if chunks == [] then 0 else TotalLength(chunks[..|chunks| - 1]) + |chunks[|chunks| - 1]|
  }

  /** The chunks read before the first empty one: the longest prefix of non-empty chunks. */
  function Delivered(chunks: seq<Chunk>): (d: seq<Chunk>)
    ensures |d| <= |chunks| && d == chunks[..|d|]
    ensures forall k :: 0 <= k < |d| ==> d[k] != []
    ensures |d| < |chunks| ==> chunks[|d|] == []
  {
    if chunks == [] || chunks[0] == [] then []
    else [chunks[0]] + Delivered(chunks[1..])
  }

  /** The body ends cleanly: some read returns an empty chunk rather than raising. */
  predicate Completes(body: Body)
  {
    |Delivered(body.chunks)| < |body.chunks| || body.end == EndOfStream
  }

  /** The `k`-th `response.read(CHUNK_SIZE)`: a chunk, or None when it raises. */
  function ReadChunk(body: Body, k: nat): Option<Chunk>
  {
    if k < |body.chunks| then Some(body.chunks[k])
    else if body.end == EndOfStream then Some([])
    else None
  }

  /** The byte counter equals the number of bytes written. */
  lemma {:induction false} TotalLengthIsSize(chunks: seq<Chunk>)
    ensures TotalLength(chunks) == |Concat(chunks)|
    decreases |chunks|
  {
    if chunks != [] {
      TotalLengthIsSize(chunks[..|chunks| - 1]);
    }
  }

  /**
   * The `while True` loop: read a chunk, stop at an empty one, otherwise
   * write it and add its length to `downloaded`. `data` is what the file
   * holds, `writes` the number of `f.write` calls, and `completed` is false
   * when a read raised (the file then keeps what was written).
   */
  method StreamBody(body: Body) returns (data: seq<byte>, downloaded: nat, writes: nat, completed: bool)
    ensures data == Concat(Delivered(body.chunks))
    ensures downloaded == |data|
    ensures writes == |Delivered(body.chunks)|
    ensures completed <==> Completes(body)
  {
    ghost var delivered := Delivered(body.chunks);
    data, downloaded, writes := [], 0, 0;
    var k := 0;
    while true
      invariant k <= |delivered|
      invariant data == Concat(body.chunks[..k])
      invariant downloaded == TotalLength(body.chunks[..k])
      invariant writes == k
      decreases |body.chunks| - k
    {
      var chunk := ReadChunk(body, k);
      if chunk.None? {
        completed := false;
        break;
      }
      if chunk.value == [] {
        completed := true;
        break;
      }
      assert body.chunks[..k + 1][..k] == body.chunks[..k];
      data := data + chunk.value;
      downloaded := downloaded + |chunk.value|;
      writes := writes + 1;
      k := k + 1;
    }
    assert k == |delivered|;
    assert body.chunks[..k] == delivered;
    TotalLengthIsSize(delivered);
  }

  /** Successive full reads of `n` bytes over a body holding `data`, the last read taking what is left. */
  function FullReads(data: seq<byte>, n: nat): (chunks: seq<Chunk>)
    requires n > 0
    ensures forall k :: 0 <= k < |chunks| ==> 0 < |chunks[k]| <= n
    decreases |data|
  {
    if data == [] then []
    else if |data| <= n then [data]
    else [data[..n]] + FullReads(data[n..], n)
  }

  lemma {:induction false} ConcatCons(c: Chunk, chunks: seq<Chunk>)
    ensures Concat([c] + chunks) == c + Concat(chunks)
    decreases |chunks|
  {
    if chunks != [] {
      var init := chunks[..|chunks| - 1];
      ConcatCons(c, init);
      assert ([c] + chunks)[..|chunks|] == [c] + init;
    }
  }

  /** Full reads deliver every chunk: none of them is empty, so the stream ends at the end of the body. */
  lemma FullReadsAllDelivered(data: seq<byte>, n: nat)
    requires n > 0
    ensures Delivered(FullReads(data, n)) == FullReads(data, n)
    ensures Completes(Body(FullReads(data, n), EndOfStream))
  {
  }

  /** Full reads of `n` bytes put the whole body in the file. */
  lemma {:induction false} FullReadsWriteWholeBody(data: seq<byte>, n: nat)
    requires n > 0
    ensures Concat(FullReads(data, n)) == data
    decreases |data|
  {
    if data == [] {
    } else if |data| <= n {
      assert FullReads(data, n) == [data];
      assert Concat([data]) == Concat([]) + data;
    } else {
      var rest := data[n..];
      FullReadsWriteWholeBody(rest, n);
      ConcatCons(data[..n], FullReads(rest, n));
      assert data == data[..n] + rest;
    }
  }

  /** A body of S bytes read in full reads of C bytes takes ceil(S / C) reads (and as many writes). */
  lemma {:induction false} FullReadsCount(data: seq<byte>, n: nat)
    requires n > 0
    ensures var k := |FullReads(data, n)|;
      (k == 0 <==> data == []) && (k - 1) * n < |data| <= k * n
    decreases |data|
  {
    if |data| > n {
      var rest := data[n..];
      FullReadsCount(rest, n);
      var k' := |FullReads(rest, n)|;
      assert |FullReads(data, n)| == k' + 1;
      assert (k' + 1) * n == k' * n + n;
    }
  }

  /**
   * The loop over a server that fills every `read(CHUNK_SIZE)`: a body of S
   * bytes ends up whole in the file, in ceil(S / CHUNK_SIZE) writes.
   */
  method StreamFullReads(data: seq<byte>) returns (written: seq<byte>, downloaded: nat, writes: nat, completed: bool)
    ensures written == data && downloaded == |data| && completed
    ensures (writes == 0 <==> data == []) && (writes - 1) * ChunkSize < |data| <= writes * ChunkSize
  {
    var chunks := FullReads(data, ChunkSize);
    written, downloaded, writes, completed := StreamBody(Body(chunks, EndOfStream));
    FullReadsAllDelivered(data, ChunkSize);
    FullReadsWriteWholeBody(data, ChunkSize);
    FullReadsCount(data, ChunkSize);
  }

  // ---------------------------------------------------------------------------
  // The whole of download_file

  /**
   * What `download_file(model_id, output_path, token)` does against `network`:
   * the specification the method `DownloadFile` meets.
   */
  function DownloadOutcome(modelId: string, token: string, network: Network): (a: Attempt)
    // The first request is the authenticated one; there are at most two.
    ensures 1 <= |a.sent| <= 2 && a.sent[0] == AuthenticatedRequest(modelId, token)
    // The redirect is followed exactly when the first response is a redirect with a Location.
    ensures |a.sent| == 2 <==> RedirectAccepted(network(a.sent[0]))
    // The code's own second request goes to the Location with only a User-Agent.
    ensures |a.sent| == 2 ==> a.sent[1] == RedirectRequest(network(a.sent[0]).headers["Location"])
    ensures forall k :: 1 <= k < |a.sent| ==> a.sent[k].headers.Keys == {"User-Agent"}
    // A file is written only after a 200 on the second hop, under a non-empty name.
    ensures a.saved.Some? ==> |a.sent| == 2 && network(a.sent[1]).status == 200 && a.saved.value.name != ""
    ensures a.saved.Some? ==> a.saved.value.contents == Concat(Delivered(network(a.sent[1]).body.chunks))
    // Success: both hops accepted, the whole body up to the empty read saved, the counter equal to its size.
    ensures a.result.Success? <==> |a.sent| == 2 && network(a.sent[1]).status == 200 && a.saved.Some? && Completes(network(a.sent[1]).body)
    ensures a.result.Success? ==> a.saved.value.name == a.result.value.filename
    ensures a.result.Success? ==> a.result.value.downloaded == |a.saved.value.contents|
    // A failure after the file was opened leaves the partial file behind.
    ensures a.result.Failure? && a.saved.Some? ==> a.result.error == ReadFailed
    // A rejected first response: nothing written, and the error the checks on it give.
    ensures !RedirectAccepted(network(a.sent[0])) ==>
      a.saved.None? && a.result == Failure(RedirectTarget(network(a.sent[0])).error)
    // A second response other than 200: nothing written, and an HTTP error with its status.
    ensures |a.sent| == 2 && network(a.sent[1]).status != 200 ==>
      a.saved.None? && a.result == Failure(HttpError(network(a.sent[1]).status))
    // After a 200, the file is written exactly when the filename rules give a non-empty name, under that name.
    ensures |a.sent| == 2 && network(a.sent[1]).status == 200 ==>
      var name := ResolveFilename(Header(network(a.sent[1]), "Content-Disposition"), network(a.sent[0]).headers["Location"]);
      && (a.saved.Some? <==> name != "")
      && (a.saved.Some? ==> a.saved.value.name == name)
      && (name == "" ==> a.result == Failure(NoFilename))
  {
    var first := AuthenticatedRequest(modelId, token);
    match RedirectTarget(network(first))
    case Failure(e) => Attempt([first], None, Failure(e))
    case Success(location) =>
      var second := RedirectRequest(location);
      var response := network(second);
      if response.status != 200 then Attempt([first, second], None, Failure(HttpError(response.status)))
      else
        var name := ResolveFilename(Header(response, "Content-Disposition"), location);
        if name == "" then Attempt([first, second], None, Failure(NoFilename))
        else
          var delivered := Delivered(response.body.chunks);
          var file := SavedFile(name, Concat(delivered));
          TotalLengthIsSize(delivered);
          if Completes(response.body) then Attempt([first, second], Some(file), Success(Completed(name, TotalLength(delivered))))
          else Attempt([first, second], Some(file), Failure(ReadFailed))
  }

  /** `download_file`, with the streaming loop of `StreamBody`. */
  method DownloadFile(modelId: string, token: string, network: Network) returns (a: Attempt)
    ensures a == DownloadOutcome(modelId, token, network)
  {
    var first := AuthenticatedRequest(modelId, token);
    var target := RedirectTarget(network(first));
    if target.Failure? {
      return Attempt([first], None, Failure(target.error));
    }
    var second := RedirectRequest(target.value);
    var response := network(second);
    if response.status != 200 {
      return Attempt([first, second], None, Failure(HttpError(response.status)));
    }
    var name := ResolveFilename(Header(response, "Content-Disposition"), target.value);
    if name == "" {
      return Attempt([first, second], None, Failure(NoFilename));
    }
    var data, downloaded, writes, completed := StreamBody(response.body);
    TotalLengthIsSize(Delivered(response.body.chunks));
    if completed {
      a := Attempt([first, second], Some(SavedFile(name, data)), Success(Completed(name, downloaded)));
    } else {
      a := Attempt([first, second], Some(SavedFile(name, data)), Failure(ReadFailed));
    }
  }
}
