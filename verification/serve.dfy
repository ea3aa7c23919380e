/** The request path end to end: resolve beneath the root, build the response
    head, and stream the body with the reader the server loop drives
    (`read(65536)` until `None`). */
module Serve {
  import opened Common
  import opened Text
  import opened Paths
  import opened Fs
  import opened OpenFile
  import Body
  import Decimal

  /** The chunk size the server loop reads with. */
  const ChunkSize: nat := 65536

  /** `file_path` followed by `response_header`: never a 500, since resolving
      raises nothing but ERR_NO_ACCESS; a 200 exactly for a readable file
      below the root, a 403 for anything else that exists there. */
  function Respond(root: Root, fs: FileSystem, uriPath: string): (resp: Response)
    requires |uriPath| > 0 && uriPath[0] == '/'
    ensures resp.status in {200, 403, 404}
    ensures var c := Canonicalize(fs, Candidate(root, uriPath));
            && (resp.status == 200 <==>
                  c.Some? && Contained(root, c.value) && NodeAt(fs, c.value).Some?
                  && NodeAt(fs, c.value).value.File? && NodeAt(fs, c.value).value.readable)
            && (resp.status == 404 <==>
                  c.None? || !Contained(root, c.value) || NodeAt(fs, c.value).None?)
  {
    ResponseHeader(FilePath(root, fs, uriPath))
  }

  /** The bytes the server loop writes for a response: the drained body, or
      nothing when there is no body source. */
  function BodyBytes(resp: Response): seq<u8>
    requires resp.body.Some? ==> resp.body.value.0.pos == 0
    requires resp.body.Some? ==> resp.body.value.1.len == |resp.body.value.0.content|
  {
    match resp.body
    case None => []
    case Some((file, meta)) =>
      Body.Flatten(Body.Drain(Body.New(file, meta.len), ChunkSize).chunks)
  }

  /** Every response's body is exactly as long as its `Content-Length` says:
      a 200 streams the whole file and nothing else, every other status
      streams nothing and announces 0. */
  lemma BodyMatchesContentLength(root: Root, fs: FileSystem, uriPath: string)
    requires |uriPath| > 0 && uriPath[0] == '/'
    ensures var resp := Respond(root, fs, uriPath);
            && (resp.body.Some? ==> resp.body.value.0.pos == 0
                                    && resp.body.value.1.len == |resp.body.value.0.content|)
            && HeaderValue(resp.headers, ContentLength).Some?
            && Decimal.Parse(HeaderValue(resp.headers, ContentLength).value) == Some(|BodyBytes(resp)|)
            && (resp.status == 200 ==> BodyBytes(resp) == resp.body.value.0.content)
  {
    var result := FilePath(root, fs, uriPath);
    var resp := Respond(root, fs, uriPath);
    if result.Ok? && result.value.Some? {
      var found := result.value.value;
      FoundContentLength(found);
      Body.DrainWholeFile(found.file, 0, ChunkSize);
      assert found.file.content[0..] == found.file.content;
    } else {
      ErrorHeaders(result);
      assert HeaderValue(resp.headers, ContentLength) == Some("0");
      assert Decimal.Parse("0") == Some(0);
    }
  }
}
