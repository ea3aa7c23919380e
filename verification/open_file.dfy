/** Resolving a request path beneath the document root (`Root::validate`,
    `Root::file_path`) and turning the outcome into a response status,
    headers and an optional body source (`response_header`). */
module OpenFile {
  import opened Common
  import opened Text
  import opened Paths
  import opened Fs
  import Mime
  import Decimal
  import HttpDate

  /** The configured document root, kept as the string it was given as. */
  datatype Root = Root(path: string)

  /** What a successful `file_path` hands back: the open file, its metadata,
      and the path string it was found under. */
  datatype Opened = Opened(file: FileHandle, meta: Metadata, path: string)

  datatype Header = Header(name: string, value: string)

  /** The response head and, on success, the file and metadata to stream. */
  datatype Response = Response(status: nat, headers: seq<Header>, body: Option<(FileHandle, Metadata)>)

  const ContentLength := "Content-Length"
  const ContentType := "Content-Type"
  const LastModified := "Last-Modified"

  /** The candidate is the root string followed by the request path, joined as
      plain strings and never as paths. */
  function Candidate(root: Root, uriPath: string): string {
    root.path + uriPath
  }

  /** The candidate's canonical form lies beneath the root: the root's
      components are a prefix of the canonical path's components. */
  predicate Contained(root: Root, c: seq<string>) {
    StartsWith(AbsoluteComponents(c), Components(root.path))
  }

  /** `Root::validate`: the path canonicalises, and the result starts with the
      root component by component. */
  function Validate(root: Root, fs: FileSystem, p: string): (ok: bool)
    ensures ok <==> Canonicalize(fs, p).Some? && Contained(root, Canonicalize(fs, p).value)
  {
    match Canonicalize(fs, p)
    case None => false
    case Some(c) => StartsWith(AbsoluteComponents(c), Components(root.path))
  }

  /** Validation in terms of names: when the root string spells the canonical
      directory `rootDir`, a path validates exactly when it canonicalises to a
      path below `rootDir` (or to `rootDir` itself). */
  lemma ValidateByNames(root: Root, fs: FileSystem, p: string, rootDir: seq<string>)
    requires Components(root.path) == AbsoluteComponents(rootDir)
    ensures Validate(root, fs, p) <==>
              && Canonicalize(fs, p).Some?
              && |rootDir| <= |Canonicalize(fs, p).value|
              && Canonicalize(fs, p).value[..|rootDir|] == rootDir
  {
    if Canonicalize(fs, p).Some? {
      StartsWithNames(Canonicalize(fs, p).value, rootDir);
    }
  }

  /** The candidate is the root and the request glued as strings: its pieces
      are the root's pieces followed by the request's, so nothing in the
      request is kept from climbing above the root before canonicalisation. */
  lemma CandidatePieces(root: Root, uriPath: string)
    requires |uriPath| > 0 && uriPath[0] == '/'
    ensures Split(Candidate(root, uriPath)) == Split(root.path) + Split(uriPath[1..])
  {
    assert uriPath == "/" + uriPath[1..];
    assert Candidate(root, uriPath) == root.path + "/" + uriPath[1..];
    SplitAround(root.path, uriPath[1..]);
  }

  /** `Path::exists`: `stat` succeeds. */
  predicate Exists(fs: FileSystem, p: string) {
    Stat(fs, p).Some?
  }

  /** The absolute path spelled by proper names exists exactly when those
      names can be followed from `/`, the last one included. */
  lemma ExistsByNames(fs: FileSystem, names: seq<string>)
    requires AllValid(names)
    ensures Exists(fs, Absolute(names)) <==> Reachable(fs, [], names)
  {
    CanonicalizeNames(fs, names);
    if Reachable(fs, [], names) && |names| > 0 {
      var k := |names| - 1;
      assert [] + names[..k] + [names[k]] == names;
    }
  }

  /** `Root::file_path`: the ladder not-validated or missing (`Ok(None)`), not a
      regular file (`ERR_NO_ACCESS`), cannot be opened (`ERR_NO_ACCESS`), found
      (`Ok(Some(..))`). */
  function FilePath(root: Root, fs: FileSystem, uriPath: string): (r: Result<Option<Opened>>)
    requires |uriPath| > 0 && uriPath[0] == '/'
    // Only ERR_NO_ACCESS is ever raised.
    ensures r.Err? ==> r.error == NoAccess
    // Not found: the candidate does not resolve, resolves outside the root, or names nothing.
    ensures r == Ok(None) <==>
              var c := Canonicalize(fs, Candidate(root, uriPath));
              c.None? || !Contained(root, c.value) || NodeAt(fs, c.value).None?
    // Forbidden: a contained node that is not a regular file the process may read.
    ensures r.Err? <==>
              var c := Canonicalize(fs, Candidate(root, uriPath));
              && c.Some? && Contained(root, c.value) && NodeAt(fs, c.value).Some?
              && !(NodeAt(fs, c.value).value.File? && NodeAt(fs, c.value).value.readable)
    // Found: a contained readable file, opened at its start, under the candidate path.
    ensures r.Ok? && r.value.Some? ==>
              var c := Canonicalize(fs, Candidate(root, uriPath));
              && c.Some? && Contained(root, c.value)
              && NodeAt(fs, c.value).Some? && NodeAt(fs, c.value).value.File?
              && var node := NodeAt(fs, c.value).value;
              && r.value.value.file == FileHandle(node.content, 0)
              && r.value.value.meta == Metadata(|node.content|, node.mtime)
              && r.value.value.path == Candidate(root, uriPath)
  {
    var pathStr := Candidate(root, uriPath);
    if !Validate(root, fs, pathStr) then Ok(None)
    else if !Exists(fs, pathStr) then Ok(None)
    else
      var node := Stat(fs, pathStr).value;
      if !node.File? then Err(NoAccess)
      else
        var meta := Metadata(|node.content|, node.mtime);
        if !node.readable then Err(NoAccess)
        else Ok(Some(Opened(FileHandle(node.content, 0), meta, pathStr)))
  }

  /** The value of the first header called `name`, if there is one. */
  function HeaderValue(headers: seq<Header>, name: string): (r: Option<string>)
    ensures r.None? <==> forall i :: 0 <= i < |headers| ==> headers[i].name != name
    ensures r.Some? ==> exists i :: 0 <= i < |headers| && headers[i] == Header(name, r.value)
    decreases |headers|
  {
    if |headers| == 0 then None
    else if headers[0].name == name then Some(headers[0].value)
    else
      var r := HeaderValue(headers[1..], name);
      if r.Some? then
        var i :| 0 <= i < |headers[1..]| && headers[1..][i] == Header(name, r.value);
        assert headers[i + 1] == Header(name, r.value);
        r
      else r
  }

  /** No header name occurs twice. */
  predicate DistinctNames(headers: seq<Header>) {
    forall i, j :: 0 <= i < j < |headers| ==> headers[i].name != headers[j].name
  }

  /** The head of an error response: the status with `Content-Length: 0`. */
  function EmptyResponse(status: nat): Response {
    Response(status, [Header(ContentLength, "0")], None)
  }

  /** `response_header`: 200 with `Content-Length`, `Content-Type` when the
      MIME table knows the extension and `Last-Modified` when there is a
      modification time, plus the body source; 404 for not found; 403 for
      `ERR_NO_ACCESS`; 500 for every other error. */
  function ResponseHeader(result: Result<Option<Opened>>): (resp: Response)
    ensures resp.status in {200, 403, 404, 500}
    ensures resp.body.Some? <==> resp.status == 200
    ensures DistinctNames(resp.headers)
    ensures resp.status == 200 <==> result.Ok? && result.value.Some?
    ensures resp.status == 404 <==> result == Ok(None)
    ensures resp.status == 403 <==> result == Err(NoAccess)
    ensures resp.status == 500 <==> result.Err? && result.error != NoAccess
    ensures resp.status == 200 ==>
              forall i :: 0 <= i < |resp.headers| ==> resp.headers[i].name in {ContentLength, ContentType, LastModified}
  {
    match result
    case Ok(Some(found)) =>
      var lengthHeader := [Header(ContentLength, Decimal.Show(found.meta.len))];
      var typeHeader :=
        match Mime.Lookup(found.path)
        case Some(mime) => [Header(ContentType, mime)]
        case None => [];
      var modifiedHeader :=
        match found.meta.modified
        case Some(t) => [Header(LastModified, HttpDate.Format(t))]
        case None => [];
      Response(200, lengthHeader + typeHeader + modifiedHeader, Some((found.file, found.meta)))
    case Ok(None) => EmptyResponse(404)
    case Err(NoAccess) => EmptyResponse(403)
    case Err(_) => EmptyResponse(500)
  }

  /** The `Content-Length` of a 200 response reads back as the file's length. */
  lemma FoundContentLength(found: Opened)
    ensures var resp := ResponseHeader(Ok(Some(found)));
            && resp.body == Some((found.file, found.meta))
            && HeaderValue(resp.headers, ContentLength).Some?
            && Decimal.Canonical(HeaderValue(resp.headers, ContentLength).value)
            && Decimal.Parse(HeaderValue(resp.headers, ContentLength).value) == Some(found.meta.len)
  {
    Decimal.ParseShow(found.meta.len);
    var resp := ResponseHeader(Ok(Some(found)));
    assert resp.headers[0] == Header(ContentLength, Decimal.Show(found.meta.len));
  }

  /** A 200 response has a `Content-Type` exactly when the MIME table knows the
      path's extension, and then it is the table's type. */
  lemma FoundContentType(found: Opened)
    ensures HeaderValue(ResponseHeader(Ok(Some(found))).headers, ContentType) == Mime.Lookup(found.path)
  {
    var resp := ResponseHeader(Ok(Some(found)));
    var h := resp.headers;
    assert h[0].name == ContentLength;
    if Mime.Lookup(found.path).Some? {
      assert h[1] == Header(ContentType, Mime.Lookup(found.path).value);
      assert HeaderValue(h, ContentType) == HeaderValue(h[1..], ContentType);
    } else {
      assert forall i :: 0 <= i < |h| ==> h[i].name != ContentType;
    }
  }

  /** A 200 response has a `Last-Modified` exactly when the file has a
      modification time, and the value reads back as that time whenever its
      year has four digits. */
  lemma FoundLastModified(found: Opened)
    ensures var h := ResponseHeader(Ok(Some(found))).headers;
            && (HeaderValue(h, LastModified).Some? <==> found.meta.modified.Some?)
            && (found.meta.modified.Some? ==>
                  var t := found.meta.modified.value;
                  HttpDate.Parse(HeaderValue(h, LastModified).value) ==
                    if 0 <= HttpDate.Civil(t).year <= 9999 then Some(t) else None)
  {
    var h := ResponseHeader(Ok(Some(found))).headers;
    if found.meta.modified.Some? {
      var t := found.meta.modified.value;
      assert h[|h| - 1] == Header(LastModified, HttpDate.Format(t));
      assert forall i :: 0 <= i < |h| - 1 ==> h[i].name != LastModified;
      HttpDate.ParseFormat(t);
    } else {
      assert forall i :: 0 <= i < |h| ==> h[i].name != LastModified;
    }
  }

  /** Every response other than 200 carries exactly `Content-Length: 0` and
      no body. */
  lemma ErrorHeaders(result: Result<Option<Opened>>)
    requires !(result.Ok? && result.value.Some?)
    ensures var resp := ResponseHeader(result);
            && resp.body.None?
            && resp.headers == [Header(ContentLength, "0")]
            && HeaderValue(resp.headers, ContentType).None?
            && HeaderValue(resp.headers, LastModified).None?
  {
  }

  /** Containment in terms of names: when the root string spells the
      canonical directory `rootDir`, a found file's canonical path lies below
      `rootDir`. */
  lemma FoundIsBelowRoot(root: Root, fs: FileSystem, uriPath: string, rootDir: seq<string>)
    requires |uriPath| > 0 && uriPath[0] == '/'
    requires Components(root.path) == AbsoluteComponents(rootDir)
    requires FilePath(root, fs, uriPath).Ok? && FilePath(root, fs, uriPath).value.Some?
    ensures var c := Canonicalize(fs, Candidate(root, uriPath)).value;
            |rootDir| <= |c| && c[..|rootDir|] == rootDir
  {
    StartsWithNames(Canonicalize(fs, Candidate(root, uriPath)).value, rootDir);
  }

  /** A root given as a relative path (neither empty nor starting with `/`)
      never matches a canonical path, so such a root serves nothing. */
  lemma RelativeRootFindsNothing(root: Root, fs: FileSystem, uriPath: string)
    requires |uriPath| > 0 && uriPath[0] == '/'
    requires root.path != "" && root.path[0] != '/'
    ensures FilePath(root, fs, uriPath) == Ok(None)
  {
    var rc := Components(root.path);
    var pieces := Split(root.path);
    JoinSplit(root.path);
    assert |rc| > 0 && rc[0] != RootDir;
  }

  /** On a well-formed filesystem the `exists` rung is never the one that
      answers: a path that validates always exists. */
  lemma ValidatedExists(root: Root, fs: FileSystem, p: string)
    requires WellFormed(fs)
    requires Validate(root, fs, p)
    ensures Exists(fs, p)
  {
    if p[0] == '/' {
      WalkStaysInTree(fs, [], Split(p));
    } else {
      WalkStaysInTree(fs, fs.cwd, Split(p));
    }
  }
}
