/** Concrete requests against a small document tree rooted at `/srv/www`,
    the test cases of src/mime.rs, src/open_file.rs and src/body.rs, and the
    date example of RFC 9110. */
module Scenarios {
  import opened Common
  import opened Text
  import opened Paths
  import opened Fs
  import opened OpenFile
  import Serve
  import Body
  import Mime
  import Decimal
  import HttpDate

  /** An absolute path built from proper names has exactly those names as
      `Normal` components. */
  lemma AbsoluteComponentsOf(names: seq<string>)
    requires |names| > 0 && AllValid(names)
    ensures Components(Absolute(names)) == AbsoluteComponents(names)
  {
    SplitJoin(names);
    assert Split(Absolute(names)) == [""] + names;
    BodyOfNames(names);
  }

  lemma {:induction false} BodyOfNames(names: seq<string>)
    requires AllValid(names)
    ensures BodyComponents(names) == AbsoluteComponents(names)[1..]
    decreases |names|
  {
    if |names| > 0 {
      BodyOfNames(names[1..]);
      assert AbsoluteComponents(names)[1..][1..] == AbsoluteComponents(names[1..])[1..];
    }
  }

  /** A filesystem in which `/srv/www` is a directory. */
  predicate Serving(fs: FileSystem) {
    IsDir(fs, ["srv"]) && IsDir(fs, ["srv", "www"])
  }

  const WebRoot := Root("/srv/www")

  lemma WebRootComponents()
    ensures Components(WebRoot.path) == AbsoluteComponents(["srv", "www"])
  {
    assert Join(["srv", "www"]) == "srv/www";
    AbsoluteComponentsOf(["srv", "www"]);
  }

  /** The pieces of the root string. */
  const RootPieces: seq<string> := ["", "srv", "www"]

  lemma SplitRoot()
    ensures Split(WebRoot.path) == RootPieces
  {
    assert Join(RootPieces) == "/srv/www";
    SplitJoin(RootPieces);
  }

  lemma WalkRoot(fs: FileSystem)
    requires Serving(fs)
    ensures Walk(fs, [], RootPieces) == Some(["srv", "www"])
  {
    assert Walk(fs, [], RootPieces) == Walk(fs, [], RootPieces[1..]);
    assert [] + ["srv"] == ["srv"];
    assert Walk(fs, [], RootPieces[1..]) == Walk(fs, ["srv"], RootPieces[2..]);
    assert ["srv"] + ["www"] == ["srv", "www"];
    assert Walk(fs, ["srv"], RootPieces[2..]) == Walk(fs, ["srv", "www"], []);
  }

  /** A request below `/srv/www` is resolved from that directory. */
  lemma ResolveRequest(fs: FileSystem, uriPath: string, rest: seq<string>)
    requires Serving(fs)
    requires |rest| >= 1 && NoSlash(rest) && uriPath == "/" + Join(rest)
    ensures Canonicalize(fs, Candidate(WebRoot, uriPath)) == Walk(fs, ["srv", "www"], rest)
  {
    var p := WebRoot.path + "/" + Join(rest);
    assert Candidate(WebRoot, uriPath) == p;
    SplitJoin(rest);
    SplitAround(WebRoot.path, Join(rest));
    SplitRoot();
    assert Split(p) == RootPieces + rest;
    assert p != "" && p[0] == '/';
    WalkRoot(fs);
    WalkAppend(fs, [], RootPieces, rest);
  }

  /** An entry directly inside `/srv/www`, requested as `/<name>`, resolves
      to itself and lies beneath the root. */
  lemma ResolveInRoot(fs: FileSystem, name: string)
    requires Serving(fs) && ValidName(name)
    requires ["srv", "www", name] in fs.entries
    ensures Canonicalize(fs, Candidate(WebRoot, "/" + name)) == Some(["srv", "www", name])
    ensures Contained(WebRoot, ["srv", "www", name])
  {
    assert Join([name]) == name;
    assert "/" + name == "/" + Join([name]);
    ResolveRequest(fs, "/" + name, [name]);
    assert ["srv", "www"] + [name] == ["srv", "www", name];
    assert [name][1..] == [];
    assert Walk(fs, ["srv", "www"], [name]) == Walk(fs, ["srv", "www", name], []);
    WebRootComponents();
    assert AbsoluteComponents(["srv", "www", name])[..3] == AbsoluteComponents(["srv", "www"]);
  }

  /** A request whose candidate does not resolve, or resolves outside the
      root, is 404. */
  lemma NotFound(fs: FileSystem, uriPath: string)
    requires |uriPath| > 0 && uriPath[0] == '/'
    requires var c := Canonicalize(fs, Candidate(WebRoot, uriPath));
             c.None? || !Contained(WebRoot, c.value)
    ensures Serve.Respond(WebRoot, fs, uriPath) == EmptyResponse(404)
  {
  }

  /** A request that resolves beneath the root to something other than a
      readable file is 403. */
  lemma Forbidden(fs: FileSystem, uriPath: string, c: seq<string>)
    requires |uriPath| > 0 && uriPath[0] == '/'
    requires Canonicalize(fs, Candidate(WebRoot, uriPath)) == Some(c)
    requires Contained(WebRoot, c) && c in fs.entries
    requires !(fs.entries[c].File? && fs.entries[c].readable)
    ensures Serve.Respond(WebRoot, fs, uriPath) == EmptyResponse(403)
  {
  }

  /** An HTML page directly in the root is found, opened at its start, under
      its request path. */
  lemma PageFound(fs: FileSystem, name: string, page: seq<u8>, mtime: int)
    requires Serving(fs) && ValidName(name)
    requires ["srv", "www", name] in fs.entries
    requires fs.entries[["srv", "www", name]] == File(page, Some(mtime), true)
    ensures FilePath(WebRoot, fs, "/" + name) ==
              Ok(Some(Opened(FileHandle(page, 0), Metadata(|page|, Some(mtime)), WebRoot.path + "/" + name)))
  {
    ResolveInRoot(fs, name);
    var c := ["srv", "www", name];
    assert Canonicalize(fs, Candidate(WebRoot, "/" + name)) == Some(c);
    assert NodeAt(fs, c) == Some(File(page, Some(mtime), true));
    assert Candidate(WebRoot, "/" + name) == WebRoot.path + "/" + name;
  }

  /** Any `<dir>/<stem>.html` is `text/html`. */
  lemma HtmlLookup(dir: string, stem: string)
    requires stem != "" && '/' !in stem
    ensures Mime.Lookup(dir + "/" + (stem + ".html")) == Some("text/html")
  {
    var name := stem + ".html";
    assert name == stem + "." + "html";
    assert name[|stem|] == '.';
    assert ValidName(name);
    assert AsciiLower("html") == "html";
    Mime.LookupOfChild(dir, stem, "html");
  }

  /** A found HTML page is announced as `text/html`. */
  lemma HtmlType(found: Opened, dir: string, stem: string)
    requires stem != "" && '/' !in stem
    requires found.path == dir + "/" + (stem + ".html")
    ensures HeaderValue(ResponseHeader(Ok(Some(found))).headers, ContentType) == Some("text/html")
  {
    HtmlLookup(dir, stem);
    FoundContentType(found);
  }

  /** The body of a found file opened at its start is the whole file. */
  lemma WholeBody(found: Opened)
    requires found.file.pos == 0 && found.meta.len == |found.file.content|
    ensures Serve.BodyBytes(ResponseHeader(Ok(Some(found)))) == found.file.content
  {
    Body.DrainWholeFile(found.file, 0, Serve.ChunkSize);
    assert found.file.content[0..] == found.file.content;
  }

  /** An HTML page in the root, such as `/index.html`: 200 with its length as
      `Content-Length`, `Content-Type: text/html`, a `Last-Modified`, and a
      body of exactly the page's bytes. */
  lemma HtmlPage(fs: FileSystem, stem: string, page: seq<u8>, mtime: int)
    requires Serving(fs) && stem != "" && '/' !in stem
    requires ["srv", "www", stem + ".html"] in fs.entries
    requires fs.entries[["srv", "www", stem + ".html"]] == File(page, Some(mtime), true)
    ensures var resp := Serve.Respond(WebRoot, fs, "/" + (stem + ".html"));
            && resp.status == 200
            && Decimal.Parse(HeaderValue(resp.headers, ContentLength).value) == Some(|page|)
            && HeaderValue(resp.headers, ContentType) == Some("text/html")
            && HeaderValue(resp.headers, LastModified).Some?
            && Serve.BodyBytes(resp) == page
  {
    var name := stem + ".html";
    assert name[|stem|] == '.';
    assert ValidName(name);
    PageFound(fs, name, page, mtime);
    var found := Opened(FileHandle(page, 0), Metadata(|page|, Some(mtime)), WebRoot.path + "/" + name);
    assert Serve.Respond(WebRoot, fs, "/" + name) == ResponseHeader(Ok(Some(found)));
    FoundContentLength(found);
    HtmlType(found, WebRoot.path, stem);
    FoundLastModified(found);
    WholeBody(found);
  }

  /** A missing file is 404 with `Content-Length: 0` and no body. */
  lemma MissingFile(fs: FileSystem, name: string)
    requires Serving(fs) && ValidName(name)
    requires ["srv", "www", name] !in fs.entries
    ensures Serve.Respond(WebRoot, fs, "/" + name) == EmptyResponse(404)
  {
    assert Join([name]) == name;
    assert "/" + name == "/" + Join([name]);
    ResolveRequest(fs, "/" + name, [name]);
    assert ["srv", "www"] + [name] == ["srv", "www", name];
    assert Walk(fs, ["srv", "www"], [name]) == None;
    NotFound(fs, "/" + name);
  }

  /** A file under a missing directory is not found either. */
  lemma MissingDirectory(fs: FileSystem, dir: string, name: string)
    requires Serving(fs) && ValidName(dir) && ValidName(name)
    requires ["srv", "www", dir] !in fs.entries
    ensures Serve.Respond(WebRoot, fs, "/" + dir + "/" + name) == EmptyResponse(404)
  {
    var rest := [dir, name];
    assert Join(rest) == dir + "/" + name;
    assert "/" + dir + "/" + name == "/" + Join(rest);
    ResolveRequest(fs, "/" + dir + "/" + name, rest);
    assert ["srv", "www"] + [dir] == ["srv", "www", dir];
    assert Walk(fs, ["srv", "www"], rest) == None;
    NotFound(fs, "/" + dir + "/" + name);
  }

  /** A canonical path whose first name is not `srv` is not beneath the root. */
  lemma OutsideRoot(c: seq<string>)
    requires |c| > 0 && c[0] != "srv"
    ensures !Contained(WebRoot, c)
  {
    WebRootComponents();
    assert AbsoluteComponents(c)[1] != AbsoluteComponents(["srv", "www"])[1];
  }

  /** A canonical path `/srv/<dir>/...` with `dir` other than `www` is not
      beneath the root. */
  lemma BesideRoot(c: seq<string>)
    requires |c| > 1 && c[1] != "www"
    ensures !Contained(WebRoot, c)
  {
    WebRootComponents();
    assert AbsoluteComponents(c)[2] != AbsoluteComponents(["srv", "www"])[2];
  }

  /** Walking two proper names either fails or arrives below them. */
  lemma WalkTwoNames(fs: FileSystem, cur: seq<string>, a: string, b: string)
    requires ValidName(a) && ValidName(b)
    ensures var w := Walk(fs, cur, [a, b]); w.None? || w.value == cur + [a, b]
  {
    assert [a, b][1..] == [b];
    assert [b][1..] == [];
    assert cur + [a] + [b] == cur + [a, b];
    if Walk(fs, cur, [a, b]).Some? {
      assert Walk(fs, cur, [a, b]) == Walk(fs, cur + [a], [b]);
      assert Walk(fs, cur + [a], [b]) == Walk(fs, cur + [a, b], []);
    }
  }

  /** `/../<dir>/<name>` resolves, if at all, to `/srv/<dir>/<name>`. */
  lemma EscapeResolves(fs: FileSystem, dir: string, name: string)
    requires Serving(fs) && ValidName(dir) && ValidName(name)
    ensures var c := Canonicalize(fs, Candidate(WebRoot, "/../" + dir + "/" + name));
            c.None? || c.value == ["srv", dir, name]
  {
    var rest := ["..", dir, name];
    assert Join(rest[1..]) == dir + "/" + name;
    assert Join(rest) == "../" + dir + "/" + name;
    assert "/../" + dir + "/" + name == "/" + Join(rest);
    ResolveRequest(fs, "/../" + dir + "/" + name, rest);
    assert ["srv", "www"][..1] == ["srv"];
    assert Walk(fs, ["srv", "www"], rest) == Walk(fs, ["srv"], [dir, name]);
    WalkTwoNames(fs, ["srv"], dir, name);
  }

  /** `/../../<dir>/<name>` resolves, if at all, to `/<dir>/<name>`. */
  lemma DoubleEscapeResolves(fs: FileSystem, dir: string, name: string)
    requires Serving(fs) && ValidName(dir) && ValidName(name)
    ensures var c := Canonicalize(fs, Candidate(WebRoot, "/../../" + dir + "/" + name));
            c.None? || c.value == [dir, name]
  {
    var rest := ["..", "..", dir, name];
    assert Join(rest[2..]) == dir + "/" + name;
    assert Join(rest[1..]) == "../" + dir + "/" + name;
    assert Join(rest) == "../../" + dir + "/" + name;
    assert "/../../" + dir + "/" + name == "/" + Join(rest);
    ResolveRequest(fs, "/../../" + dir + "/" + name, rest);
    assert ["srv", "www"][..1] == ["srv"];
    assert ["srv"][..0] == [];
    assert Walk(fs, ["srv", "www"], rest) == Walk(fs, ["srv"], rest[1..]);
    assert Walk(fs, ["srv"], rest[1..]) == Walk(fs, [], [dir, name]);
    WalkTwoNames(fs, [], dir, name);
  }

  /** `/../<dir>/<name>`, such as `/../etc/passwd`, leads outside the root:
      not found, whatever lies there. */
  lemma EscapeIsNotFound(fs: FileSystem, dir: string, name: string)
    requires Serving(fs) && ValidName(dir) && ValidName(name) && dir != "www"
    ensures Serve.Respond(WebRoot, fs, "/../" + dir + "/" + name) == EmptyResponse(404)
  {
    EscapeResolves(fs, dir, name);
    BesideRoot(["srv", dir, name]);
    NotFound(fs, "/../" + dir + "/" + name);
  }

  /** `/../../<dir>/<name>`, such as `/../../etc/passwd`, is not found
      either, although it may exist and be readable. */
  lemma DoubleEscapeIsNotFound(fs: FileSystem, dir: string, name: string)
    requires Serving(fs) && ValidName(dir) && ValidName(name) && dir != "srv"
    ensures Serve.Respond(WebRoot, fs, "/../../" + dir + "/" + name) == EmptyResponse(404)
  {
    DoubleEscapeResolves(fs, dir, name);
    OutsideRoot([dir, name]);
    NotFound(fs, "/../../" + dir + "/" + name);
  }

  /** A directory is forbidden: 403 with `Content-Length: 0`. */
  lemma DirectoryIsForbidden(fs: FileSystem, name: string)
    requires Serving(fs) && ValidName(name)
    requires ["srv", "www", name] in fs.entries
    requires fs.entries[["srv", "www", name]] == Dir
    ensures Serve.Respond(WebRoot, fs, "/" + name) == EmptyResponse(403)
  {
    ResolveInRoot(fs, name);
    Forbidden(fs, "/" + name, ["srv", "www", name]);
  }

  /** A file that cannot be opened is forbidden too, not a server error. */
  lemma UnreadableIsForbidden(fs: FileSystem, name: string, content: seq<u8>, mtime: Option<int>)
    requires Serving(fs) && ValidName(name)
    requires ["srv", "www", name] in fs.entries
    requires fs.entries[["srv", "www", name]] == File(content, mtime, false)
    ensures Serve.Respond(WebRoot, fs, "/" + name) == EmptyResponse(403)
  {
    ResolveInRoot(fs, name);
    Forbidden(fs, "/" + name, ["srv", "www", name]);
  }

  /** The bytes of an ASCII string. */
  function Ascii(s: string): (b: seq<u8>)
    requires forall i :: 0 <= i < |s| ==> s[i] as int < 256
    ensures |b| == |s|
  {
    seq(|s|, i requires 0 <= i < |s| => s[i] as int as u8)
  }

  /** A page beginning `<!DOCTYPE` read 5 then 4 bytes gives `<!DOC` then
      `TYPE`; with the window moved to 5 first, 4 bytes give `TYPE`. */
  lemma DoctypeReads(page: seq<u8>)
    requires |page| >= 9 && page[..9] == Ascii("<!DOCTYPE")
    ensures var r0 := Body.New(Fs.FileHandle(page, 0), |page|);
            var s0 := Body.Read(r0, 5);
            var s1 := Body.Read(s0.next, 4);
            s0.result == Ok(Some(Ascii("<!DOC"))) && s1.result == Ok(Some(Ascii("TYPE")))
    ensures var r := Body.New(Fs.FileHandle(page, 0), |page|).(start := 5);
            Body.Read(r, 4).result == Ok(Some(Ascii("TYPE")))
  {
    assert page[0..5] == page[..9][0..5] == Ascii("<!DOC");
    assert page[5..9] == page[..9][5..9] == Ascii("TYPE");
  }

  /** Without a clamp at the window's end, a window shorter than the file
      hands out bytes past its end: the window `[0, 2)` of a six-byte file read
      with size 4 returns 4 bytes, then `None`. */
  lemma WindowOvershoot()
    ensures var r := Body.New(Fs.FileHandle(Ascii("abcdef"), 0), 2);
            var s := Body.Read(r, 4);
            && s.result == Ok(Some(Ascii("abcd")))
            && s.next.bytesRead == 4
            && Body.Read(s.next, 4).result == Ok(None)
  {
    assert Ascii("abcdef")[0..4] == Ascii("abcd");
  }

  /** 784111777 seconds after the epoch is 1994-11-06T08:49:37Z, a Sunday. */
  lemma RfcCivil()
    ensures HttpDate.Civil(784111777) == HttpDate.DateTime(1994, 11, 6, 8, 49, 37, 0)
  {
    var dt := HttpDate.DateTime(1994, 11, 6, 8, 49, 37, 0);
    HttpDate.YearStartClosed(1994);
    assert HttpDate.YearStart(1994) == 8766;
    assert HttpDate.DayNumber(dt) == 9075;
    assert HttpDate.Timestamp(dt) == 784111777;
    HttpDate.CivilTimestamp(dt);
  }

  /** The fields of that date as `%Y`, `%d`, `%H`, `%M` and `%S` print them. */
  lemma RfcFields()
    ensures HttpDate.YearText(1994) == "1994"
    ensures HttpDate.TwoDigits(6) == "06" && HttpDate.TwoDigits(8) == "08"
    ensures HttpDate.TwoDigits(49) == "49" && HttpDate.TwoDigits(37) == "37"
  {
    assert Decimal.Show(1) == "1";
    assert Decimal.Show(19) == "19";
    assert Decimal.Show(199) == "199";
    assert Decimal.Show(1994) == "1994";
  }

  /** Any instant that falls on 1994-11-06T08:49:37Z is formatted as
      `Sun, 06 Nov 1994 08:49:37 GMT`. */
  lemma RfcText(t: int)
    ensures HttpDate.Civil(t) == HttpDate.DateTime(1994, 11, 6, 8, 49, 37, 0) ==>
              HttpDate.Format(t) == "Sun, 06 Nov 1994 08:49:37 GMT"
  {
    if HttpDate.Civil(t) == HttpDate.DateTime(1994, 11, 6, 8, 49, 37, 0) {
      RfcFields();
      assert HttpDate.Format(t) == HttpDate.Layout("Sun", "06", "Nov", "1994", "08", "49", "37");
      RfcLayout();
    }
  }

  lemma RfcLayout()
    ensures HttpDate.Layout("Sun", "06", "Nov", "1994", "08", "49", "37") == "Sun, 06 Nov 1994 08:49:37 GMT"
  {
  }

  /** The example of section 5.6.7 of RFC 9110, and back. */
  lemma RfcDateExample()
    ensures HttpDate.Format(784111777) == "Sun, 06 Nov 1994 08:49:37 GMT"
    ensures HttpDate.Parse("Sun, 06 Nov 1994 08:49:37 GMT") == Some(784111777)
  {
    RfcCivil();
    RfcText(784111777);
    HttpDate.ParseFormat(784111777);
  }
}
