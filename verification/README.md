# pingora-web static-file core in Dafny

This project models the part of the pingora-web static-file server that decides
what to send for a request path. It has three parts:

- **MIME lookup** (`mime_type_lookup`). The extension of the last path
  component is ASCII-lower-cased and looked up in a fixed table of fourteen
  entries.
- **Path resolution and the response head** (`Root::validate`,
  `Root::file_path`, `response_header`).
  - The candidate path is the root string followed by the request path.
  - The candidate is canonicalised and must start with the root, component by
    component.
  - The outcome is not found (`Ok(None)`), forbidden (`ERR_NO_ACCESS`) or
    found (the open file, its metadata and the path string).
  - That outcome becomes a status (200/404/403/500), a header list
    (`Content-Length`, `Content-Type`, `Last-Modified`) and an optional body
    source.
- **The windowed body reader** (`BodyReader::new` and `read`). This is a
  cursor over a file window `[start, end)`. It seeks to `start` lazily on the
  first read, hands out chunks of at most the requested size, and answers
  `None` once the window has been read.

The operating system is replaced by values:

- **The filesystem** is an immutable map from canonical paths to nodes
  (directory, regular file with bytes, optional modification time and a
  readable flag, or anything else).
- **`canonicalize`** walks the `/`-separated pieces of the path over that map.
- **An open file** is its bytes plus a read position.
- **The success or failure of a seek or read**, and any short read, form an
  explicit `Io` parameter of `Body.ReadWith`. `Body.Read` is `ReadWith` on a
  system that never fails.

Modules follow the program's structure:

- **`Common`**: `Option`, `Result`, error types, `u8`.
- **`Text`**: splitting and joining on `/`, ASCII lower-casing.
- **`Decimal`**: the `{}` rendering of `meta.len()` and its reading back.
- **`Paths`**: the parts of Rust's `Path` the code uses: `components`,
  `starts_with`, `file_name`, `extension`.
- **`Mime`**.
- **`Fs`**: the filesystem and `canonicalize`.
- **`OpenFile`**: `validate`, `file_path`, `response_header`.
- **`HttpDate`**: chrono's `%a, %d %b %Y %H:%M:%S GMT` in UTC, which for
  years 0 to 9999 is the IMF-fixdate of section 5.6.7 of RFC 9110.
- **`Body`**.
- **`Serve`**: `file_path`, then `response_header`, then a drain of the body
  with `read(65536)` until `None`, as the server loop does.
- **`Scenarios`**: concrete requests against any filesystem that holds
  `/srv/www`, the test cases of src/mime.rs, src/open_file.rs and
  src/body.rs, and the RFC 9110 date example.

The model follows the code where the code differs from what its comments or
its callers might suggest:

- **Metadata and open failures give 403, not 500.** Every error
  `Root::file_path` raises carries `ERR_NO_ACCESS`. The 500 branch of
  `response_header` is reached only by other error types, which `file_path`
  never produces (`OpenFile.ResponseHeader`, `OpenFile.FilePath`).
- **Chunks are not cut at the end of the window.** `read` asks the file for
  `chunk_size` bytes whatever is left of the window. A window that ends before
  the file does can therefore yield more than `end - start` bytes
  (`Body.NominalChunkLength`, `Body.DrainLength`, `Scenarios.WindowOvershoot`).
- **A relative root serves nothing.** `canonicalize` always returns an
  absolute path, so a root such as `www` never prefixes it
  (`OpenFile.RelativeRootFindsNothing`).
- **The `exists` rung never answers.** `validate` has already canonicalised
  the path, so on a consistent filesystem the path exists
  (`OpenFile.ValidatedExists`). The rung is modelled anyway.

## Model

| member | source | states |
|---|---|---|
| `Mime.Lookup` | src/mime.rs:37-42 | a type is found exactly when the path has an extension whose lower-cased form is a table key, and every type found is one of the table's values |
| `Mime.KeysAreLower` | src/mime.rs:10-35 | every key of the fixed table is already lower case, so lower-casing the extension is what makes matching case-insensitive |
| `Mime.LookupOfChild` | src/mime.rs:37-42 | for `dir/stem.ext` the result is exactly the table entry for the lower-cased `ext`, or `None`: no prefix or wildcard matching |
| `Mime.LookupIgnoresCase` | src/mime.rs:39 | two extensions that differ only in ASCII case give the same result |
| `Mime.LookupWithoutExtension` | src/mime.rs:38 | a file name with no `.` after its first character has no type |
| `Mime.Aliases` | src/mime.rs:14-23 | `html`, `htm` and `shtml` all give `text/html`, and `jpeg` and `jpg` both give `image/jpeg`, in any letter case |
| `Mime.LookupHtml` | src/mime.rs:48-52 | `/tmp/1.html` gives `text/html` |
| `Mime.LookupMixedCase` | src/mime.rs:60-64 | `/tmp/1.HTmL` gives `text/html` |
| `Mime.LookupUnknown` | src/mime.rs:54-58 | `/tmp/1.lol` gives no type |
| `Mime.LookupNoPrefixMatch` | src/mime.rs:40 | `/tmp/1.htmlx` gives no type, although its extension starts with a table key |
| `Mime.LookupNoExtension` | src/mime.rs:66-70 | `/tmp/just_file` gives no type |
| `Paths.Extension` | src/mime.rs:38 | the extension exists exactly when the file name has a `.` after its first character, and it is the text after the last `.` |
| `Paths.ExtensionOfChild` | src/mime.rs:38 | the extension of `dir/stem.ext` is `ext`, whatever the directory |
| `Paths.NoExtensionOfChild` | src/mime.rs:38 | a hidden-file name such as `.bashrc`, or a name without `.`, has no extension |
| `Paths.FileNameOfChild` | src/mime.rs:38 | the file name of `dir/name` is `name` |
| `Paths.FileName` | src/mime.rs:38 | a file name, when there is one, is a proper name: not empty, not `.` or `..`, and without a separator |
| `Paths.StartsWithNames` | src/open_file.rs:32 | on absolute paths `starts_with` is prefix order on whole names, so `/srv/www` does not start `/srv/wwwx` |
| `Paths.Components` | src/open_file.rs:32 | every `Normal` component of a path is a proper name: no empty piece, `.`, `..` or separator survives |
| `Text.AsciiLower` | src/mime.rs:39 | lower-casing keeps the length, turns each of `A` to `Z` into its lower-case letter, keeps every other character, and leaves no upper-case ASCII letter |
| `Text.AsciiLowerSound` | src/mime.rs:39 | lower-casing leaves no upper-case ASCII letter, is idempotent, and leaves lower-case text unchanged |
| `Text.SplitJoin` | src/open_file.rs:42 | joining `/`-free pieces with `/` and splitting again gives the pieces back |
| `Text.JoinSplit` | src/open_file.rs:42 | splitting a path at `/` and joining the pieces again gives the path back |
| `Decimal.Show` | src/open_file.rs:84 | the `{}` rendering of a length is a non-empty digit string that starts with `0` only for 0 itself |
| `Decimal.ParseShow` | src/open_file.rs:84 | the decimal `Content-Length` text of a length is canonical and reads back as that length |
| `Decimal.ShowParse` | src/open_file.rs:84 | every canonical digit string is the rendering of the number it denotes, so rendering and reading are inverse |
| `Fs.WalkNames` | src/open_file.rs:28 | resolving proper names from a directory descends by exactly those names, and succeeds exactly when every prefix exists and every proper prefix is a directory |
| `Fs.CanonicalizeNames` | src/open_file.rs:28 | canonicalising the absolute path spelled by proper names gives those names when they can be followed from `/`, and fails otherwise |
| `Fs.WalkStaysInTree` | src/open_file.rs:28-31 | on a consistent filesystem, canonicalising from a directory either fails or ends at an existing node |
| `Fs.WalkAppend` | src/open_file.rs:28 | resolving `a` then `b` is resolving `a + b` |
| `OpenFile.ValidateByNames` | src/open_file.rs:23-33 | when the root string spells the directory `rootDir`, a path validates exactly when it canonicalises to `rootDir` or a path below it. Failing to canonicalise means not valid |
| `OpenFile.CandidatePieces` | src/open_file.rs:39-42 | the candidate's `/`-pieces are the root's pieces followed by the request's, so a `..` in the request is kept and resolved against the root's directories |
| `OpenFile.ExistsByNames` | src/open_file.rs:50 | the absolute path spelled by proper names exists exactly when those names, the last one included, can be followed from `/` |
| `OpenFile.FilePath` | src/open_file.rs:38-67 | `Ok(None)` exactly when the candidate does not resolve, resolves outside the root or names nothing. `ERR_NO_ACCESS` exactly when it names a contained node that is not a readable regular file. Otherwise the file is opened at its start, with its length and time, under the candidate string `root + uri_path`. No other error is ever raised |
| `OpenFile.ResponseHeader` | src/open_file.rs:71-144 | 200 exactly for a found file, 404 exactly for `Ok(None)`, 403 exactly for `ERR_NO_ACCESS`, 500 exactly for other errors. A body source exactly on 200, no header name twice, and a 200 carries no header besides `Content-Length`, `Content-Type` and `Last-Modified` |
| `OpenFile.FoundContentLength` | src/open_file.rs:82-85 | on 200 the `Content-Length` is a canonical decimal (digits only, no leading zero) that reads back as the file's length, and the body source is the opened file and its metadata |
| `OpenFile.FoundContentType` | src/open_file.rs:87-93 | on 200 the `Content-Type` is present exactly when the MIME lookup of the found path succeeds, and equals it |
| `OpenFile.FoundLastModified` | src/open_file.rs:95-106 | on 200 a `Last-Modified` is present exactly when the file has a modification time. For a four-digit year it parses back to that time |
| `OpenFile.ErrorHeaders` | src/open_file.rs:110-142 | every non-200 response carries only `Content-Length: 0`, no `Content-Type`, no `Last-Modified` and no body |
| `OpenFile.FoundIsBelowRoot` | src/open_file.rs:28-46 | a found file's canonical path lies below the directory the root names, so `/../x` can never escape it |
| `OpenFile.RelativeRootFindsNothing` | src/open_file.rs:32 | a relative root string never prefixes a canonical path, so every request is not found |
| `OpenFile.ValidatedExists` | src/open_file.rs:44-52 | on a consistent filesystem every validated path exists |
| `HttpDate.Civil` | src/open_file.rs:99 | the UTC breakdown of an instant is a valid date and time whose weekday matches its date |
| `HttpDate.TimestampCivil` | src/open_file.rs:99 | the breakdown of an instant denotes that instant again |
| `HttpDate.CivilTimestamp` | src/open_file.rs:99 | breaking down the instant of a valid date gives that date back, weekday included |
| `HttpDate.FormatFields` | src/open_file.rs:99-103 | for years 0 to 9999 the `Last-Modified` text is 29 characters: the weekday name, the two-digit day, the month name, the four-digit year, and the two-digit hour, minute and second of the instant's UTC breakdown, each in its fixed place. They are separated by `, `, single spaces and `:`, and followed by ` GMT` |
| `HttpDate.ParseFormat` | src/open_file.rs:96-106 | for years 0 to 9999 the `Last-Modified` text is 29 characters and parses back to the instant. Other years do not fit the IMF-fixdate layout |
| `HttpDate.Parse` | src/open_file.rs:103 | only a 29-character text can be accepted as an IMF-fixdate |
| `Body.New` | src/body.rs:16-23 | a new reader covers the whole file from offset 0 with nothing read |
| `Body.NewSynced` | src/body.rs:16-23 | a new reader over an unread file is in step with the file's position |
| `Body.OsRead` | src/body.rs:45-49 | a read returns at most the buffer size, the file's bytes from its position, and advances the position by as many bytes. On a nominal system it returns `min(n, bytes left)`, and nothing at end of file |
| `Body.ReadWith` | src/body.rs:28-54 | `None` exactly when exhausted, and then nothing changes. A failing read before exhaustion is always reported as `ERR_FILE_READ`. Any error is `ERR_FILE_READ`, comes from a failed seek or read, and counts no byte. A chunk is at most `chunk_size` consecutive file bytes from the next offset, and `bytes_read` grows by its length. The window and the file's bytes never change |
| `Body.Read` | src/lib.rs:74 | on a system that never fails a read never errs, and it yields a chunk exactly when the window is not yet exhausted |
| `Body.ExhaustionIsFinal` | src/body.rs:30-32 | once exhausted, every later call answers `None` whatever the chunk sizes |
| `Body.SeekOnlyFirst` | src/body.rs:34-39 | a read seeks only when nothing has been read and `start != 0`: otherwise a failing seek changes nothing. When it does seek, a failing seek is `ERR_FILE_READ` with the reader untouched, and a successful one moves the file to `start` |
| `Body.ReadKeepsSynced` | src/body.rs:34-51 | every read keeps the reader in step with its file, under any OS behaviour. So every chunk is the file's bytes at `start + bytes_read` |
| `Body.NominalChunkLength` | src/body.rs:42-49 | a nominal read before the end returns `min(chunk_size, bytes left in the file)` bytes, not cut at the window's end |
| `Body.ZeroReadMakesNoProgress` | src/body.rs:45-53 | a read at end of file that the window still expects bytes from returns an empty chunk and leaves `bytes_read` unchanged |
| `Body.ReadProgress` | src/body.rs:45-51 | while the file holds the window, each nominal read before the end returns a non-empty chunk, so the window shrinks |
| `Body.Drain` | src/lib.rs:74-76 | the loop `while let Some(data) = read(chunk_size)` receives at most as many chunks (loop iterations) as bytes remain in the window. The final `read` that answers `None` is not counted |
| `Body.DrainEnds` | src/body.rs:28-54 | a drain ends on a reader with the same window and file that answers `None`, and each chunk holds 1 to `chunk_size` bytes |
| `Body.DrainLength` | src/body.rs:42-53 | a drain yields at least the rest of the window and less than one chunk more |
| `Body.DrainIsSlice` | src/body.rs:34-53 | a drain yields the file's bytes from `start + bytes_read` on, in order |
| `Body.DrainWholeFile` | src/body.rs:78-82 | with the window ending at the file's end, draining a fresh reader from any `start` yields exactly the file from `start` |
| `Body.WindowedDrain` | src/body.rs:96-105 | moving `start` to `k` yields the whole file's bytes without the first `k`, whatever chunk sizes are used |
| `Serve.Respond` | src/lib.rs:66-67 | a request is never answered 500. It is answered 200 exactly for a readable regular file below the root, and 404 exactly when the candidate does not resolve, resolves outside the root, or names nothing |
| `Serve.BodyMatchesContentLength` | src/open_file.rs:78-108 | every response's body is exactly as long as its `Content-Length` says. A 200 streams the whole file; every other status streams nothing and announces 0 |
| `Scenarios.ResolveRequest` | src/open_file.rs:42-43 | with root `/srv/www`, the request `/a/b/...` is resolved as the pieces `a, b, ...` from `/srv/www` |
| `Scenarios.NotFound` | src/open_file.rs:44-46 | a request whose candidate does not resolve, or resolves outside the root, is answered 404 with `Content-Length: 0` |
| `Scenarios.Forbidden` | src/open_file.rs:55-64 | a request resolving beneath the root to a node that is not a readable regular file is answered 403 |
| `Scenarios.PageFound` | src/open_file.rs:170-182 | a readable file in the root is found, opened at 0, with its length and time, under the path `root + uri_path` |
| `Scenarios.HtmlPage` | src/open_file.rs:184-198 | an HTML page in the root is answered 200. `Content-Length` reads back as its size, its type is `text/html`, `Last-Modified` is present, and the body is the page |
| `Scenarios.MissingFile` | src/open_file.rs:150-158 | a name missing from the root is answered 404 |
| `Scenarios.MissingDirectory` | src/open_file.rs:160-168 | a name below a missing directory is answered 404 |
| `Scenarios.OutsideRoot` | src/open_file.rs:32 | a canonical path outside `/srv` is not contained in `/srv/www` |
| `Scenarios.BesideRoot` | src/open_file.rs:32 | a canonical path in `/srv` but not in `/srv/www` is not contained in it |
| `Scenarios.EscapeResolves` | src/open_file.rs:39-42 | `/../dir/name` appended to the root resolves, if at all, to `/srv/dir/name` |
| `Scenarios.DoubleEscapeResolves` | src/open_file.rs:39-42 | `/../../dir/name` resolves, if at all, to `/dir/name` |
| `Scenarios.EscapeIsNotFound` | src/open_file.rs:22-23 | a request climbing out of the root with `..` into a sibling directory is answered 404 |
| `Scenarios.DoubleEscapeIsNotFound` | src/open_file.rs:22-23 | a request climbing two levels out of the root is answered 404 |
| `Scenarios.DirectoryIsForbidden` | src/open_file.rs:54-57 | a directory in the root is answered 403 |
| `Scenarios.UnreadableIsForbidden` | src/open_file.rs:59-64 | a regular file the process may not open is answered 403 |
| `Scenarios.DoctypeReads` | src/body.rs:61-99 | a page starting `<!DOCTYPE` read 5 then 4 bytes gives `<!DOC` then `TYPE`. With `start` moved to 5, 4 bytes give `TYPE` |
| `Scenarios.WindowOvershoot` | src/body.rs:42-51 | a 2-byte window over a 6-byte file read with 4 hands out 4 bytes, then `None` |
| `Scenarios.RfcDateExample` | src/open_file.rs:96-106 | the instant 784111777 is formatted `Sun, 06 Nov 1994 08:49:37 GMT`, and that text parses back to it |

## Left out

- src/lib.rs: only the request path of `do_process_request` (lines 66-76) is
  modelled, by `Serve`, with the `read(65536)` loop as a drain with chunk
  size 65536. The pingora session handling and the writing of headers and
  body (async framework glue) are not modelled.
- examples/server.rs is not part of this model: server bootstrap and listener.
- Symbolic links are not modelled. Neither is the window between the checks
  in `file_path` and the `open`. Both need a mutable, concurrent filesystem.
- Permission errors while canonicalising (a directory that may not be
  searched) are not modelled; such a path simply resolves.
- A `metadata()` failure separate from `is_file()` is not modelled. Both
  consult the same `stat`, so without a race only `open` can fail after
  `is_file()`. That failure (`File.readable` false) gives the same
  `ERR_NO_ACCESS`.
- The text of error messages (`format!("path ...")`) and the `dbg!` output are
  not modelled.
- Header names are compared exactly. Pingora's case-insensitive header map and
  the reserved header capacity are not modelled.
- `OsStr` is modelled as a Unicode string; non-UTF-8 names (for which
  `to_str()` fails and the lookup is `None`) are not modelled.
- Integer widths are not modelled: `u64` lengths and offsets and the `usize`
  byte count are unbounded naturals. Overflow is unreachable for real file
  sizes.
- `Body.ReadWith`: a negative `end - start` is excluded by the precondition
  `start <= end`. In Rust that `u64` subtraction panics in debug builds and
  wraps in release builds. The wrapped bound is so large that `read` never
  reports exhaustion: past the end of the file it returns empty chunks
  forever.
- A modification time is whole seconds since the epoch. chrono's range limits
  are not modelled; beyond them the conversion panics.
- Sub-second precision is not modelled. It does not appear in the formatted
  date anyway.
- `Body.New`: its contract repeats its definition, because `BodyReader::new`
  is a plain constructor. What a fresh reader does is stated by
  `Body.NewSynced` and `Body.DrainWholeFile`.
- `Body.DrainEnds`, `Body.DrainLength`, `Body.DrainIsSlice`: these assume the
  file holds the whole window and the chunk size is positive. Otherwise the
  server loop need not end: a read at end of file returns an empty chunk
  forever (`Body.ZeroReadMakesNoProgress`).
- `HttpDate.ParseFormat`: the round trip is stated for years 0 to 9999 only.
  Other years print with a sign or more than four digits, which is not an
  IMF-fixdate.
- `HttpDate.Parse`: its contract states only the length of an accepted text.
  What it accepts is given by `HttpDate.ParseFormat` and
  `Scenarios.RfcDateExample`.
