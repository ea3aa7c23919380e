/** `BodyReader`: a cursor that streams the window `[start, end)` of an open
    file in chunks of at most a requested size, seeking to `start` lazily on
    a read made before anything has been read. */
module Body {
  import opened Common
  import opened Fs

  /** The cursor: the file (with its own read position), the window, and the
      number of bytes handed out so far. */
  datatype BodyReader = BodyReader(fd: FileHandle, start: nat, end: nat, bytesRead: nat)

  /** How the operating system behaves on one `read` call: whether the seek or
      the read fails, and an optional cap on how many bytes the read returns
      (a short read). */
  datatype Io = Io(seekFails: bool, readFails: bool, cap: Option<nat>)

  /** An operating system that never fails and fills the buffer as far as the
      file allows. */
  const Nominal := Io(false, false, None)

  /** The outcome of one `read` call and the cursor afterwards. */
  datatype ReadStep = ReadStep(result: Result<Option<seq<u8>>>, next: BodyReader)

  /** `BodyReader::new`: the whole file, nothing read yet. */
  function New(fd: FileHandle, totalLength: nat): (r: BodyReader)
    ensures r.fd == fd && r.start == 0 && r.end == totalLength && r.bytesRead == 0
  {
    BodyReader(fd, 0, totalLength, 0)
  }

  /** Every byte of the window has been handed out. */
  predicate Exhausted(r: BodyReader)
    requires r.start <= r.end
  {
    r.bytesRead >= r.end - r.start
  }

  /** The file offset the next `read` call reads from: `start` when it will
      seek first, the file's own position otherwise. */
  function NextOffset(r: BodyReader): nat {
    if r.bytesRead == 0 && r.start != 0 then r.start else r.fd.pos
  }

  /** `File::read` into an `n`-byte buffer: up to `n` bytes from the current
      position (fewer at the end of the file or under a cap), advancing it. */
  function OsRead(fd: FileHandle, n: nat, cap: Option<nat>): (r: (seq<u8>, FileHandle))
    ensures |r.0| <= n
    ensures |r.0| > 0 ==> fd.pos + |r.0| <= |fd.content| && r.0 == fd.content[fd.pos..fd.pos + |r.0|]
    ensures r.1 == FileHandle(fd.content, fd.pos + |r.0|)
    ensures cap.None? && fd.pos < |fd.content| ==>
              |r.0| == if n < |fd.content| - fd.pos then n else |fd.content| - fd.pos
    ensures fd.pos >= |fd.content| ==> |r.0| == 0
  {
    if fd.pos >= |fd.content| then ([], fd)
    else
      var available := |fd.content| - fd.pos;
      var k := if n < available then n else available;
      var k := if cap.Some? && cap.value < k then cap.value else k;
      (fd.content[fd.pos..fd.pos + k], FileHandle(fd.content, fd.pos + k))
  }

  /** `BodyReader::read` under the operating-system behaviour `io`. */
  function ReadWith(r: BodyReader, chunkSize: nat, io: Io): (step: ReadStep)
    requires r.start <= r.end
    // Exhaustion: `None`, and nothing changes.
    ensures step.result == Ok(None) <==> Exhausted(r)
    ensures Exhausted(r) ==> step.next == r
    // A failed seek or read: ERR_FILE_READ, and no byte counted.
    ensures step.result.Err? ==>
              && step.result.error == FileRead
              && (io.seekFails || io.readFails)
              && step.next.bytesRead == r.bytesRead
    // A read the operating system fails is reported as ERR_FILE_READ.
    ensures !Exhausted(r) && io.readFails ==> step.result == Err(FileRead)
    // A chunk: at most `chunkSize` consecutive file bytes from the next offset.
    ensures step.result.Ok? && step.result.value.Some? ==>
              var chunk := step.result.value.value;
              && |chunk| <= chunkSize
              && step.next.bytesRead == r.bytesRead + |chunk|
              && step.next.fd == FileHandle(r.fd.content, NextOffset(r) + |chunk|)
              && (|chunk| > 0 ==> NextOffset(r) + |chunk| <= |r.fd.content|
                                  && chunk == r.fd.content[NextOffset(r)..NextOffset(r) + |chunk|])
    // The window and the file's bytes never change.
    ensures step.next.start == r.start && step.next.end == r.end
    ensures step.next.fd.content == r.fd.content
  {
    if r.bytesRead >= r.end - r.start then ReadStep(Ok(None), r)
    else
      var seeks := r.bytesRead == 0 && r.start != 0;
      if seeks && io.seekFails then ReadStep(Err(FileRead), r)
      else
        var fd := if seeks then FileHandle(r.fd.content, r.start) else r.fd;
        if io.readFails then ReadStep(Err(FileRead), r.(fd := fd))
        else
          var (data, fd') := OsRead(fd, chunkSize, io.cap);
          ReadStep(Ok(Some(data)), r.(fd := fd', bytesRead := r.bytesRead + |data|))
  }

  /** `BodyReader::read` on an operating system that does not fail. */
  function Read(r: BodyReader, chunkSize: nat): (step: ReadStep)
    requires r.start <= r.end
    ensures step.result.Ok?
    ensures step.result.value.Some? <==> !Exhausted(r)
  {
    ReadWith(r, chunkSize, Nominal)
  }

  /** The file position agrees with the bytes handed out, except before
      the first byte of a window not at 0, where the lazy seek fixes it. */
  predicate Synced(r: BodyReader) {
    (r.bytesRead == 0 && r.start != 0) || r.fd.pos == r.start + r.bytesRead
  }

  /** A fresh reader is in step with its file. */
  lemma NewSynced(fd: FileHandle, totalLength: nat, start: nat)
    requires fd.pos == 0
    ensures Synced(New(fd, totalLength).(start := start))
  {
  }

  /** Every `read` keeps the reader in step, whatever the operating system does,
      so chunks are consecutive bytes of the file from `start` onwards. */
  lemma ReadKeepsSynced(r: BodyReader, chunkSize: nat, io: Io)
    requires r.start <= r.end && Synced(r)
    ensures Synced(ReadWith(r, chunkSize, io).next)
    ensures var step := ReadWith(r, chunkSize, io);
            step.result.Ok? && step.result.value.Some? && |step.result.value.value| > 0 ==>
              step.result.value.value ==
                r.fd.content[r.start + r.bytesRead..r.start + r.bytesRead + |step.result.value.value|]
  {
  }

  /** On a nominal system a read that is not at the end returns
      `min(chunkSize, bytes left in the file)` bytes: the chunk is not cut at
      the window's end. */
  lemma NominalChunkLength(r: BodyReader, chunkSize: nat)
    requires r.start <= r.end && !Exhausted(r)
    requires NextOffset(r) < |r.fd.content|
    ensures var step := Read(r, chunkSize);
            var left := |r.fd.content| - NextOffset(r);
            step.result.Ok? && step.result.value.Some?
            && |step.result.value.value| == if chunkSize < left then chunkSize else left
  {
  }

  /** A read at or past the end of the file that the window still expects
      bytes from returns an empty chunk and makes no progress. */
  lemma ZeroReadMakesNoProgress(r: BodyReader, chunkSize: nat)
    requires r.start <= r.end && !Exhausted(r)
    requires NextOffset(r) >= |r.fd.content|
    ensures Read(r, chunkSize).result == Ok(Some([]))
    ensures Read(r, chunkSize).next.bytesRead == r.bytesRead
  {
  }

  /** The only seek is to `start`, on a read made while nothing has been
      read and `start` is not 0; otherwise the file position is used as is. */
  lemma SeekOnlyFirst(r: BodyReader, chunkSize: nat, io: Io)
    requires r.start <= r.end
    ensures !(r.bytesRead == 0 && r.start != 0) ==>
              ReadWith(r, chunkSize, io) == ReadWith(r, chunkSize, io.(seekFails := false))
    ensures !Exhausted(r) && r.bytesRead == 0 && r.start != 0 && io.seekFails ==>
              ReadWith(r, chunkSize, io) == ReadStep(Err(FileRead), r)
    ensures !Exhausted(r) && !io.seekFails && io.readFails ==>
              ReadWith(r, chunkSize, io).next.fd.pos ==
                if r.bytesRead == 0 && r.start != 0 then r.start else r.fd.pos
  {
  }

  /** The results of successive reads, one per requested chunk size. */
  function ReadMany(r: BodyReader, chunkSizes: seq<nat>): (results: seq<Result<Option<seq<u8>>>>)
    requires r.start <= r.end
    ensures |results| == |chunkSizes|
    decreases |chunkSizes|
  {
    if |chunkSizes| == 0 then []
    else
      var step := Read(r, chunkSizes[0]);
      [step.result] + ReadMany(step.next, chunkSizes[1..])
  }

  /** Once exhausted, every later call returns `None`. */
  lemma {:induction false} ExhaustionIsFinal(r: BodyReader, chunkSizes: seq<nat>)
    requires r.start <= r.end && Exhausted(r)
    ensures forall i :: 0 <= i < |chunkSizes| ==> ReadMany(r, chunkSizes)[i] == Ok(None)
    decreases |chunkSizes|
  {
    if |chunkSizes| > 0 {
      ExhaustionIsFinal(r, chunkSizes[1..]);
      var results := ReadMany(r, chunkSizes);
      assert results == [Ok(None)] + ReadMany(r, chunkSizes[1..]);
    }
  }

  function Flatten(chunks: seq<seq<u8>>): seq<u8>
    decreases |chunks|
  {
    if |chunks| == 0 then [] else chunks[0] + Flatten(chunks[1..])
  }

  /** The chunks a drive loop receives until `None`, and the reader it ends with. */
  datatype Drained = Drained(chunks: seq<seq<u8>>, last: BodyReader)

  /** Bytes the window still expects. */
  function Remaining(r: BodyReader): nat
    requires r.start <= r.end
  {
    if Exhausted(r) then 0 else r.end - r.start - r.bytesRead
  }

  /** On a nominal system, while the file holds the whole window, each read
      before the end returns at least one byte, so the window shrinks. */
  lemma ReadProgress(r: BodyReader, chunkSize: nat)
    requires chunkSize > 0
    requires r.start <= r.end <= |r.fd.content| && Synced(r) && !Exhausted(r)
    ensures var step := Read(r, chunkSize);
            && step.result.Ok? && step.result.value.Some?
            && |step.result.value.value| > 0
            && Remaining(step.next) < Remaining(r)
  {
    assert NextOffset(r) == r.start + r.bytesRead;
  }

  /** Calling `read(chunkSize)` until it returns `None`, as the serving loop
      does. The loop ends when the chunk size is positive and the file holds
      the whole window. */
  function Drain(r: BodyReader, chunkSize: nat): (d: Drained)
    requires chunkSize > 0
    requires r.start <= r.end <= |r.fd.content| && Synced(r)
    ensures |d.chunks| <= Remaining(r)
    decreases Remaining(r)
  {
    if Exhausted(r) then Drained([], r)
    else
      ReadProgress(r, chunkSize);
      var step := Read(r, chunkSize);
      ReadKeepsSynced(r, chunkSize, Nominal);
      var rest := Drain(step.next, chunkSize);
      Drained([step.result.value.value] + rest.chunks, rest.last)
  }

  /** A drain ends on a reader over the same window and file that answers
      `None`, after chunks that each hold between one and `chunkSize` bytes. */
  lemma {:induction false} DrainEnds(r: BodyReader, chunkSize: nat)
    requires chunkSize > 0
    requires r.start <= r.end <= |r.fd.content| && Synced(r)
    ensures var d := Drain(r, chunkSize);
            && (forall i :: 0 <= i < |d.chunks| ==> 0 < |d.chunks[i]| <= chunkSize)
            && d.last.start == r.start && d.last.end == r.end && d.last.fd.content == r.fd.content
            && Read(d.last, chunkSize) == ReadStep(Ok(None), d.last)
    decreases Remaining(r)
  {
    if !Exhausted(r) {
      ReadProgress(r, chunkSize);
      ReadKeepsSynced(r, chunkSize, Nominal);
      var step := Read(r, chunkSize);
      DrainEnds(step.next, chunkSize);
      var d := Drain(r, chunkSize);
      var rest := Drain(step.next, chunkSize);
      assert d.chunks == [step.result.value.value] + rest.chunks;
      forall i | 0 < i < |d.chunks|
        ensures 0 < |d.chunks[i]| <= chunkSize
      {
        assert d.chunks[i] == rest.chunks[i - 1];
      }
    }
  }

  /** How much a drain yields: the rest of the window, overshooting its end
      by less than one chunk (chunks are not cut at the window's end). */
  lemma {:induction false} DrainLength(r: BodyReader, chunkSize: nat)
    requires chunkSize > 0
    requires r.start <= r.end <= |r.fd.content| && Synced(r)
    ensures var out := Flatten(Drain(r, chunkSize).chunks);
            && Remaining(r) <= |out|
            && (Remaining(r) == 0 ==> |out| == 0)
            && (Remaining(r) > 0 ==> |out| < Remaining(r) + chunkSize)
    decreases Remaining(r)
  {
    if !Exhausted(r) {
      DrainUnfold(r, chunkSize);
      var step := Read(r, chunkSize);
      var chunk := step.result.value.value;
      DrainLength(step.next, chunkSize);
      if !Exhausted(step.next) {
        assert Remaining(step.next) == Remaining(r) - |chunk|;
      }
    }
  }

  /** `out` is the run of `content`'s bytes that starts at `from` (trivially so
      when `out` is empty). */
  predicate SliceAt(content: seq<u8>, from: nat, out: seq<u8>) {
    |out| > 0 ==> from + |out| <= |content| && out <= content[from..]
  }

  /** What a drain yields: the file's bytes from the current offset, in order. */
  lemma {:induction false} DrainIsSlice(r: BodyReader, chunkSize: nat)
    requires chunkSize > 0
    requires r.start <= r.end <= |r.fd.content| && Synced(r)
    ensures SliceAt(r.fd.content, r.start + r.bytesRead, Flatten(Drain(r, chunkSize).chunks))
    decreases Remaining(r)
  {
    if Exhausted(r) {
      DrainExhausted(r, chunkSize);
    } else {
      var chunk, next := DrainStep(r, chunkSize);
      DrainIsSlice(next, chunkSize);
      SliceConcat(r.fd.content, r.start + r.bytesRead, chunk, next.fd.content, next.start + next.bytesRead,
                  Flatten(Drain(next, chunkSize).chunks), Flatten(Drain(r, chunkSize).chunks));
    }
  }

  /** A drain of an exhausted reader yields nothing. */
  lemma DrainExhausted(r: BodyReader, chunkSize: nat)
    requires chunkSize > 0
    requires r.start <= r.end <= |r.fd.content| && Synced(r) && Exhausted(r)
    ensures Flatten(Drain(r, chunkSize).chunks) == []
  {
  }

  /** One step of a drain that is not finished, named: the first chunk is the
      file's bytes at `start + bytesRead`, and the drain continues from a
      reader whose offset sits right after them. */
  lemma DrainStep(r: BodyReader, chunkSize: nat) returns (chunk: seq<u8>, next: BodyReader)
    requires chunkSize > 0
    requires r.start <= r.end <= |r.fd.content| && Synced(r) && !Exhausted(r)
    ensures var from := r.start + r.bytesRead;
            && |chunk| > 0 && from + |chunk| <= |r.fd.content|
            && chunk == r.fd.content[from..from + |chunk|]
            && next.start == r.start && next.end == r.end
            && next.bytesRead == r.bytesRead + |chunk|
            && next.fd == FileHandle(r.fd.content, from + |chunk|)
    ensures Remaining(next) < Remaining(r)
    ensures Flatten(Drain(r, chunkSize).chunks) == chunk + Flatten(Drain(next, chunkSize).chunks)
  {
    DrainUnfold(r, chunkSize);
    ReadSlice(r, chunkSize);
    chunk := Read(r, chunkSize).result.value.value;
    next := Read(r, chunkSize).next;
  }

  /** One nominal read of a synced reader before the end takes the bytes at
      `start + bytesRead` and moves that offset past them. */
  lemma ReadSlice(r: BodyReader, chunkSize: nat)
    requires chunkSize > 0
    requires r.start <= r.end <= |r.fd.content| && Synced(r) && !Exhausted(r)
    ensures var step := Read(r, chunkSize);
            var from := r.start + r.bytesRead;
            && step.result.Ok? && step.result.value.Some?
            && var chunk := step.result.value.value;
            && from + |chunk| <= |r.fd.content|
            && chunk == r.fd.content[from..from + |chunk|]
            && step.next.start + step.next.bytesRead == from + |chunk|
            && step.next.start == r.start && step.next.end == r.end
            && step.next.fd.content == r.fd.content
  {
    ReadProgress(r, chunkSize);
    assert NextOffset(r) == r.start + r.bytesRead;
  }

  /** One step of a drain that is not finished: the first chunk, then the rest. */
  lemma DrainUnfold(r: BodyReader, chunkSize: nat)
    requires chunkSize > 0
    requires r.start <= r.end <= |r.fd.content| && Synced(r) && !Exhausted(r)
    ensures Read(r, chunkSize).result.Ok? && Read(r, chunkSize).result.value.Some?
    ensures Synced(Read(r, chunkSize).next)
    ensures |Read(r, chunkSize).result.value.value| > 0
    ensures Remaining(Read(r, chunkSize).next) < Remaining(r)
    ensures Read(r, chunkSize).next.bytesRead == r.bytesRead + |Read(r, chunkSize).result.value.value|
    ensures Flatten(Drain(r, chunkSize).chunks) ==
              Read(r, chunkSize).result.value.value + Flatten(Drain(Read(r, chunkSize).next, chunkSize).chunks)
  {
    ReadProgress(r, chunkSize);
    ReadKeepsSynced(r, chunkSize, Nominal);
    var step := Read(r, chunkSize);
    var rest := Drain(step.next, chunkSize);
    var cs := [step.result.value.value] + rest.chunks;
    assert Drain(r, chunkSize).chunks == cs;
    assert cs[1..] == rest.chunks;
  }

  /** A chunk read at `from` followed by a tail read right after it is one
      slice of the file. */
  lemma SliceConcat(content: seq<u8>, from: nat, chunk: seq<u8>,
                    tailContent: seq<u8>, tailFrom: nat, tail: seq<u8>, out: seq<u8>)
    requires |chunk| > 0 && from + |chunk| <= |content| && chunk == content[from..from + |chunk|]
    requires tailContent == content && tailFrom == from + |chunk| && SliceAt(tailContent, tailFrom, tail)
    requires out == chunk + tail
    ensures SliceAt(content, from, out)
  {
    if |tail| > 0 {
      assert content[from..from + |chunk| + |tail|]
          == content[from..from + |chunk|] + content[from + |chunk|..from + |chunk| + |tail|];
    }
  }

  /** With the window ending at the end of the file, draining a fresh reader
      (its window starting anywhere in the file) yields exactly the file's
      bytes from `start`, then `None`. */
  lemma DrainWholeFile(fd: FileHandle, start: nat, chunkSize: nat)
    requires fd.pos == 0 && chunkSize > 0 && start <= |fd.content|
    ensures var r := New(fd, |fd.content|).(start := start);
            Flatten(Drain(r, chunkSize).chunks) == fd.content[start..]
  {
    var r := New(fd, |fd.content|).(start := start);
    DrainLength(r, chunkSize);
    DrainIsSlice(r, chunkSize);
    var out := Flatten(Drain(r, chunkSize).chunks);
    assert |out| == |fd.content| - start;
  }

  /** A window starting at `k` yields the whole file's bytes without the
      first `k`, whatever chunk sizes the two drains use. */
  lemma WindowedDrain(fd: FileHandle, k: nat, chunkSize: nat, chunkSize': nat)
    requires fd.pos == 0 && chunkSize > 0 && chunkSize' > 0 && k <= |fd.content|
    ensures var whole := Flatten(Drain(New(fd, |fd.content|), chunkSize).chunks);
            var window := Flatten(Drain(New(fd, |fd.content|).(start := k), chunkSize').chunks);
            k <= |whole| && window == whole[k..]
  {
    DrainWholeFile(fd, 0, chunkSize);
    DrainWholeFile(fd, k, chunkSize');
  }
}
