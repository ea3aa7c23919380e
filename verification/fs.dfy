/** An immutable filesystem and the three OS services the path resolver uses
    on it: `canonicalize`, `stat` (behind `exists`, `is_file` and `metadata`)
    and `open`. Symbolic links are not modelled, so canonicalising is a walk
    over the `/`-separated pieces of the path. */
module Fs {
  import opened Common
  import opened Text
  import opened Paths

  /** What sits at a path: a directory, a regular file (its bytes, its
      modification time if the filesystem reports one, and whether the process
      may open it for reading), or anything else (a device, a socket, a FIFO). */
  datatype Node =
    | Dir
    | File(content: seq<u8>, mtime: Option<int>, readable: bool)
    | Special

  /** The nodes by canonical path (the names below `/`) and the process's
      working directory. `/` itself is always a directory and is not listed. */
  datatype FileSystem = FileSystem(entries: map<seq<string>, Node>, cwd: seq<string>)

  /** What `fs.metadata()` reports that the core uses: the length in bytes and
      the modification time (`None` when `modified()` fails). */
  datatype Metadata = Metadata(len: nat, modified: Option<int>)

  /** An open file: its bytes and the current read position. */
  datatype FileHandle = FileHandle(content: seq<u8>, pos: nat)

  function NodeAt(fs: FileSystem, c: seq<string>): Option<Node> {
    if c == [] then Some(Dir)
    else if c in fs.entries then Some(fs.entries[c])
    else None
  }

  predicate IsDir(fs: FileSystem, c: seq<string>) {
    NodeAt(fs, c) == Some(Dir)
  }

  /** A filesystem a real kernel could present: every entry has a valid name
      and sits in a directory, and the working directory is a directory. */
  predicate WellFormed(fs: FileSystem) {
    && (forall c :: c in fs.entries ==> |c| > 0 && ValidName(c[|c| - 1]) && IsDir(fs, c[..|c| - 1]))
    && IsDir(fs, fs.cwd)
  }

  /** Resolves `pieces` one by one from the directory `cur`: empty pieces and
      `.` stay, `..` goes to the parent (`/` is its own parent), a name must
      exist, and nothing may follow a non-directory (`ENOENT`/`ENOTDIR`). */
  function Walk(fs: FileSystem, cur: seq<string>, pieces: seq<string>): (r: Option<seq<string>>)
    requires NoSlash(pieces)
    decreases |pieces|
  {
    if |pieces| == 0 then Some(cur)
    else if !IsDir(fs, cur) then None
    else
      var p := pieces[0];
      if p == "" || p == "." then Walk(fs, cur, pieces[1..])
      else if p == ".." then Walk(fs, if cur == [] then [] else cur[..|cur| - 1], pieces[1..])
      else if cur + [p] in fs.entries then Walk(fs, cur + [p], pieces[1..])
      else None
  }

  /** Every prefix of `names` below `cur` exists, and every proper one is a
      directory: the names can be followed one by one from `cur`. */
  predicate Reachable(fs: FileSystem, cur: seq<string>, names: seq<string>) {
    forall i :: 0 <= i < |names| ==> IsDir(fs, cur + names[..i]) && cur + names[..i] + [names[i]] in fs.entries
  }

  /** Walking proper names descends by exactly those names, and succeeds
      exactly when each of them can be followed. */
  lemma {:induction false} WalkNames(fs: FileSystem, cur: seq<string>, names: seq<string>)
    requires AllValid(names)
    ensures NoSlash(names)
    ensures Walk(fs, cur, names) == if Reachable(fs, cur, names) then Some(cur + names) else None
    decreases |names|
  {
    assert NoSlash(names) by {
      forall i | 0 <= i < |names| ensures '/' !in names[i] {
        assert ValidName(names[i]);
      }
    }
    if |names| > 0 {
      var n := names[0];
      assert ValidName(n);
      var tail := names[1..];
      assert AllValid(tail) by {
        forall i | 0 <= i < |tail| ensures ValidName(tail[i]) {
          assert tail[i] == names[i + 1];
        }
      }
      WalkNames(fs, cur + [n], tail);
      assert names[..0] == [];
      assert cur + names[..0] == cur;
      if IsDir(fs, cur) && cur + [n] in fs.entries {
        assert Walk(fs, cur, names) == Walk(fs, cur + [n], tail);
        assert cur + [n] + tail == cur + names;
        forall i | 0 <= i < |tail|
          ensures cur + [n] + tail[..i] == cur + names[..i + 1]
          ensures tail[i] == names[i + 1]
        {
          assert names[..i + 1] == [n] + tail[..i];
        }
        if Reachable(fs, cur + [n], tail) {
          forall i | 0 <= i < |names|
            ensures IsDir(fs, cur + names[..i]) && cur + names[..i] + [names[i]] in fs.entries
          {
            if i > 0 {
              assert cur + [n] + tail[..i - 1] == cur + names[..i];
            }
          }
        } else {
          var j :| 0 <= j < |tail| &&
                   !(IsDir(fs, cur + [n] + tail[..j]) && cur + [n] + tail[..j] + [tail[j]] in fs.entries);
          assert !(IsDir(fs, cur + names[..j + 1]) && cur + names[..j + 1] + [names[j + 1]] in fs.entries);
        }
      } else {
        assert Walk(fs, cur, names) == None;
        assert !(IsDir(fs, cur + names[..0]) && cur + names[..0] + [names[0]] in fs.entries);
      }
    } else {
      assert cur + names == cur;
    }
  }

  /** Canonicalising the absolute path spelled by proper names gives those
      names when they can be followed from `/`, and fails otherwise. */
  lemma CanonicalizeNames(fs: FileSystem, names: seq<string>)
    requires AllValid(names)
    ensures Canonicalize(fs, Absolute(names)) == if Reachable(fs, [], names) then Some(names) else None
  {
    WalkNames(fs, [], names);
    if |names| == 0 {
      assert Split("/") == ["", ""];
      assert Walk(fs, [], ["", ""]) == Walk(fs, [], [""]) == Walk(fs, [], []);
    } else {
      SplitJoin(names);
      SplitAround("", Join(names));
      assert Absolute(names) == "" + "/" + Join(names);
      assert Split(Absolute(names)) == [""] + names;
      assert ([""] + names)[1..] == names;
      assert [] + names == names;
    }
  }

  /** `std::fs::canonicalize`: the canonical path of `p`, relative paths
      starting from the working directory; the empty path fails. */
  function Canonicalize(fs: FileSystem, p: string): Option<seq<string>> {
    if p == "" then None
    else if p[0] == '/' then Walk(fs, [], Split(p))
    else Walk(fs, fs.cwd, Split(p))
  }

  /** `stat` following the path: the node it names, if any. */
  function Stat(fs: FileSystem, p: string): Option<Node> {
    match Canonicalize(fs, p)
    case None => None
    case Some(c) => NodeAt(fs, c)
  }

  /** On a well-formed filesystem, a walk from a directory that succeeds ends
      at a node that exists. */
  lemma {:induction false} WalkStaysInTree(fs: FileSystem, cur: seq<string>, pieces: seq<string>)
    requires NoSlash(pieces)
    requires WellFormed(fs) && IsDir(fs, cur)
    ensures Walk(fs, cur, pieces).Some? ==> NodeAt(fs, Walk(fs, cur, pieces).value).Some?
    decreases |pieces|
  {
    if |pieces| > 0 {
      var p := pieces[0];
      if p == "" || p == "." {
        WalkStaysInTree(fs, cur, pieces[1..]);
      } else if p == ".." {
        if cur != [] {
          assert cur in fs.entries;
        }
        WalkStaysInTree(fs, if cur == [] then [] else cur[..|cur| - 1], pieces[1..]);
      } else if cur + [p] in fs.entries {
        if |pieces| > 1 && IsDir(fs, cur + [p]) {
          WalkStaysInTree(fs, cur + [p], pieces[1..]);
        }
      }
    }
  }

  /** Resolving `a + b` is resolving `a`, then `b` from where `a` led. */
  lemma {:induction false} WalkAppend(fs: FileSystem, cur: seq<string>, a: seq<string>, b: seq<string>)
    requires NoSlash(a) && NoSlash(b)
    ensures NoSlash(a + b)
    ensures Walk(fs, cur, a + b) ==
              match Walk(fs, cur, a)
              case None => None
              case Some(c) => Walk(fs, c, b)
    decreases |a|
  {
    if |a| > 0 {
      assert (a + b)[1..] == a[1..] + b;
      var p := a[0];
      if p == "" || p == "." {
        WalkAppend(fs, cur, a[1..], b);
      } else if p == ".." {
        WalkAppend(fs, if cur == [] then [] else cur[..|cur| - 1], a[1..], b);
      } else if cur + [p] in fs.entries {
        WalkAppend(fs, cur + [p], a[1..], b);
      }
    } else {
      assert a + b == b;
    }
  }
}
