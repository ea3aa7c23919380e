/** The parts of Rust's `std::path::Path` (Unix flavour) the core relies on:
    `components`, `starts_with`, `file_name` and `extension`. Paths are
    strings; there is no Windows prefix. */
module Paths {
  import opened Common
  import opened Text

  /** `std::path::Component` without the Windows `Prefix` variant. */
  datatype Component = RootDir | CurDir | ParentDir | Normal(name: string)

  /** A name a `Normal` component can carry: not empty, not `.` or `..`,
      and without a separator. */
  predicate ValidName(n: string) {
    n != "" && n != "." && n != ".." && '/' !in n
  }

  /** `names` are proper path names. */
  predicate AllValid(names: seq<string>) {
    forall i :: 0 <= i < |names| ==> ValidName(names[i])
  }

  /** The absolute path spelling `names` from `/`. */
  function Absolute(names: seq<string>): string {
    if |names| == 0 then "/" else "/" + Join(names)
  }

  /** The components of the `/`-free pieces of a path body: empty pieces and
      `.` are dropped, `..` is `ParentDir`, anything else is `Normal`. */
  function BodyComponents(pieces: seq<string>): (cs: seq<Component>)
    ensures |cs| <= |pieces|
    ensures NoSlash(pieces) ==>
              forall i :: 0 <= i < |cs| ==> cs[i] == ParentDir || (cs[i].Normal? && ValidName(cs[i].name))
    decreases |pieces|
  {
    if |pieces| == 0 then []
    else
      var rest := BodyComponents(pieces[1..]);
      var p := pieces[0];
      if p == "" || p == "." then rest
      else if p == ".." then [ParentDir] + rest
      else [Normal(p)] + rest
  }

  /** `Path::components`: a leading `/` gives `RootDir`; a leading `.` of a
      relative path is the only `.` kept (as `CurDir`); repeated and trailing
      separators and inner `.` pieces vanish. */
  function Components(p: string): (cs: seq<Component>)
    ensures forall i :: 0 <= i < |cs| && cs[i].Normal? ==> ValidName(cs[i].name)
  {
    var pieces := Split(p);
    if |p| > 0 && p[0] == '/' then [RootDir] + BodyComponents(pieces[1..])
    else if pieces[0] == "." then [CurDir] + BodyComponents(pieces[1..])
    else BodyComponents(pieces)
  }

  /** `Path::starts_with`: `base` is a prefix of `p` component by component,
      never character by character. */
  predicate StartsWith(p: seq<Component>, base: seq<Component>) {
    |base| <= |p| && p[..|base|] == base
  }

  /** The components of the absolute path naming `names` from `/`, the shape
      of every path `canonicalize` returns. */
  function AbsoluteComponents(names: seq<string>): (cs: seq<Component>)
    ensures |cs| == |names| + 1 && cs[0] == RootDir
    ensures forall i :: 0 <= i < |names| ==> cs[i + 1] == Normal(names[i])
  {
    [RootDir] + seq(|names|, i requires 0 <= i < |names| => Normal(names[i]))
  }

  /** On absolute paths, `starts_with` is prefix order on the names: whole
      names are compared, so `/srv/www` is not a prefix of `/srv/wwwx`. */
  lemma StartsWithNames(names: seq<string>, base: seq<string>)
    ensures StartsWith(AbsoluteComponents(names), AbsoluteComponents(base)) <==>
              |base| <= |names| && names[..|base|] == base
  {
    var cs := AbsoluteComponents(names);
    var bs := AbsoluteComponents(base);
    if StartsWith(cs, bs) {
      forall i | 0 <= i < |base|
        ensures names[i] == base[i]
      {
        assert cs[i + 1] == bs[i + 1];
      }
    }
    if |base| <= |names| && names[..|base|] == base {
      forall i | 1 <= i < |bs|
        ensures cs[i] == bs[i]
      {
        assert names[i - 1] == base[i - 1];
      }
      assert cs[..|bs|] == bs;
    }
  }

  /** `Path::file_name`: the last component when it is a `Normal` one. */
  function FileName(p: string): (r: Option<string>)
    ensures r.Some? ==> ValidName(r.value)
  {
    var cs := Components(p);
    if |cs| > 0 && cs[|cs| - 1].Normal? then Some(cs[|cs| - 1].name)
    else None
  }

  /** The position of the last `.` in `s`, if any. */
  function LastDot(s: string): (r: Option<nat>)
    ensures r.None? ==> '.' !in s
    ensures r.Some? ==> r.value < |s| && s[r.value] == '.' && '.' !in s[r.value + 1..]
    decreases |s|
  {
    if |s| == 0 then None
    else if s[|s| - 1] == '.' then Some(|s| - 1)
    else
      var r := LastDot(s[..|s| - 1]);
      if r.Some? then
        assert s[r.value + 1..] == s[..|s| - 1][r.value + 1..] + [s[|s| - 1]];
        r
      else r
  }

  /** `e` is what follows the last `.` of `name`, and that `.` is not the
      first character of `name`. */
  predicate IsExtensionOf(e: string, name: string) {
    |e| + 1 < |name| && name[|name| - |e| - 1] == '.' && name[|name| - |e|..] == e && '.' !in e
  }

  /** `Path::extension`: what follows the last `.` of the file name, unless
      that `.` is the name's first character (a hidden file such as
      `.bashrc`) or the name is `..`. */
  function Extension(p: string): (r: Option<string>)
    ensures r.Some? <==> FileName(p).Some? && '.' in FileName(p).value[1..]
    ensures r.Some? ==> IsExtensionOf(r.value, FileName(p).value)
  {
    match FileName(p)
    case None => None
    case Some(name) =>
      if name == ".." then None
      else
        match LastDot(name)
        case None => None
        case Some(i) => if i == 0 then None else Some(name[i + 1..])
  }

  /** Appending a valid name to any path makes it the file name. */
  lemma FileNameOfChild(dir: string, name: string)
    requires ValidName(name)
    ensures FileName(dir + "/" + name) == Some(name)
  {
    var p := dir + "/" + name;
    SplitAround(dir, name);
    SplitPlain(name);
    var pieces := Split(p);
    assert pieces == Split(dir) + [name];
    BodyComponentsLast(pieces);
    if |p| > 0 && p[0] == '/' {
      assert pieces[1..][|pieces[1..]| - 1] == name;
      BodyComponentsLast(pieces[1..]);
    } else {
      if pieces[0] == "." {
        assert |Split(dir)| >= 1;
        assert pieces[1..][|pieces[1..]| - 1] == name;
        BodyComponentsLast(pieces[1..]);
      }
    }
  }

  /** A body whose last piece is a valid name ends in that `Normal` component. */
  lemma {:induction false} BodyComponentsLast(pieces: seq<string>)
    requires |pieces| > 0 && ValidName(pieces[|pieces| - 1])
    ensures var cs := BodyComponents(pieces);
            |cs| > 0 && cs[|cs| - 1] == Normal(pieces[|pieces| - 1])
    decreases |pieces|
  {
    if |pieces| > 1 {
      BodyComponentsLast(pieces[1..]);
    }
  }

  /** The extension of `stem.ext` is `ext` when `ext` holds no `.` and the
      stem is not empty, whatever directory the file is in. */
  lemma ExtensionOfChild(dir: string, stem: string, ext: string)
    requires stem != "" && '.' !in ext
    requires ValidName(stem + "." + ext)
    ensures Extension(dir + "/" + (stem + "." + ext)) == Some(ext)
  {
    var name := stem + "." + ext;
    FileNameOfChild(dir, name);
    assert name[|stem|] == '.';
    assert name[|stem| + 1..] == ext;
  }

  /** A file name whose only `.` (if any) is its first character has no
      extension: `just_file` and `.bashrc` alike. */
  lemma NoExtensionOfChild(dir: string, name: string)
    requires ValidName(name) && '.' !in name[1..]
    ensures Extension(dir + "/" + name) == None
  {
    FileNameOfChild(dir, name);
  }
}
