/** The streaming writer itself: it walks digests, one file at a time, and writes what `Render`
    says.  The tree that the root node stands for is a ghost argument; it also bounds the walk. */
module StreamingWriter {
  import opened Base
  import opened NarFormat
  import opened NameOrder
  import opened Merkle
  import opened NarCodec
  import opened Streaming
  import opened DirSources

  function Status(o: Output): Result<(), ReadError> {
    match o.error
    case None => Ok(())
    case Some(error) => Err(error)
  }

  /** What a writer returned, and what it added to the sink, is what `o` says, failures included. */
  ghost predicate Wrote(r: Result<(), ReadError>, before: Bytes, after: Bytes, o: Output) {
    r == Status(o) && after == before + o.bytes
  }

  /** Directories are loaded from `src`, which answers as `reader` says. */
  ghost predicate Reading(c: Config, reader: Reader, src: DirSource)
    reads src.Footprint()
  {
    Genuine(c, reader) && src.Valid() && src.Backs(reader)
  }

  method WriteNarStreaming(w: ByteSink, root: CaNode, reader: Reader, src: DirSource,
                           ghost c: Config, ghost t: NarNode)
    returns (r: Result<(), ReadError>)
    requires Reading(c, reader, src) && (root == CaEmpty || root == CaOf(c, t))
    modifies w, src.Footprint()
    ensures Wrote(r, old(w.buf), w.buf, NarOutput(c, reader, root, t))
    ensures src.Valid()
  {
    WriteBytesTo(w, MAGIC);
    if root.CaEmpty? {
      assert Str(MAGIC) + [] == Str(MAGIC);
      return Err(NoVariant);
    }
    ghost var mid := w.buf;
    r := WriteCasNode(w, root, reader, src, c, t);
    WroteAfter(r, old(w.buf), Str(MAGIC), w.buf, Render(c, reader, t));
  }

  lemma WroteAfter(r: Result<(), ReadError>, before: Bytes, prefix: Bytes, after: Bytes, o: Output)
    requires Wrote(r, before + prefix, after, o)
    ensures Wrote(r, before, after, Then(Done(prefix), o))
  {
    assert before + prefix + o.bytes == before + (prefix + o.bytes);
  }

  /** A writer's work between a head and a tail: after a failure the tail is not written. */
  lemma WroteAround(r: Result<(), ReadError>, before: Bytes, head: Bytes, o: Output, tail: Bytes, after: Bytes)
    requires r == Status(o)
    requires after == before + head + o.bytes + (if r.Err? then [] else tail)
    ensures Wrote(r, before, after, Around(head, o, tail))
  {
    var rest := if r.Err? then [] else tail;
    assert before + head + o.bytes + rest == before + (head + o.bytes + rest);
  }

  method WriteCasNode(w: ByteSink, node: CaNode, reader: Reader, src: DirSource, ghost c: Config, ghost t: NarNode)
    returns (r: Result<(), ReadError>)
    requires Reading(c, reader, src) && node == CaOf(c, t)
    modifies w, src.Footprint()
    ensures Wrote(r, old(w.buf), w.buf, Render(c, reader, t)) && src.Valid()
    decreases t, 2
  {
    match node {
      case CaFile(digest, size, executable) =>
        WriteHead(w, REGULAR);
        r := WriteFileBody(w, digest, size, executable, reader);
        r := WriteClose(w, r, old(w.buf), Encode([OPEN, TYPE, REGULAR]),
                        FileBody(executable, size, FileOutput(reader, digest)));
      case CaDir(digest, _) =>
        WriteHead(w, DIRECTORY);
        r := WriteDirBody(w, digest, reader, src, c, t.entries);
        r := WriteClose(w, r, old(w.buf), Encode([OPEN, TYPE, DIRECTORY]), RenderEntries(c, reader, t.entries));
      case CaSymlink(target) =>
        WriteHead(w, SYMLINK);
        WriteTarget(w, target);
        r := WriteClose(w, Ok(()), old(w.buf), Encode([OPEN, TYPE, SYMLINK]), Done(Encode([TARGET, target])));
    }
  }

  method WriteHead(w: ByteSink, ty: Bytes)
    modifies w
    ensures w.buf == old(w.buf) + Encode([OPEN, TYPE, ty])
  {
    ghost var base := w.buf;
    assert base == base + Encode([]);
    ghost var written := WriteHeadTo(w, ty, base, []);
    assert written == [OPEN, TYPE, ty];
  }

  method WriteTarget(w: ByteSink, target: Bytes)
    modifies w
    ensures w.buf == old(w.buf) + Encode([TARGET, target])
  {
    ghost var base := w.buf;
    assert base == base + Encode([]);
    ghost var written := WriteStrTo(w, TARGET, base, []);
    written := WriteStrTo(w, target, base, written);
    assert written == [TARGET, target];
  }

  /** The closing string, unless what comes before it failed. */
  method WriteClose(w: ByteSink, status: Result<(), ReadError>, ghost before: Bytes, ghost head: Bytes,
                    ghost o: Output)
    returns (r: Result<(), ReadError>)
    requires Wrote(status, before + head, w.buf, o)
    modifies w
    ensures Wrote(r, before, w.buf, Around(head, o, Str(CLOSE)))
  {
    r := status;
    if status.Ok? {
      WriteBytesTo(w, CLOSE);
    } else {
      assert w.buf + [] == w.buf;
    }
    WroteAround(r, before, head, o, Str(CLOSE), w.buf);
  }

  method WriteFileBody(w: ByteSink, digest: Digest, size: nat, executable: bool, reader: Reader)
    returns (r: Result<(), ReadError>)
    modifies w
    ensures Wrote(r, old(w.buf), w.buf, FileBody(executable, size, FileOutput(reader, digest)))
  {
    ghost var base := w.buf;
    WriteFileHead(w, executable);
    w.WriteAll(LeBytes(size, 8));
    assert w.buf == base + FileHead(executable, size);
    ghost var mid := w.buf;
    r := WriteFileDataTo(w, digest, reader);
    var pad := (8 - size % 8) % 8;
    if r.Ok? && pad > 0 {
      w.WriteAll(Zeros(pad));
    }
    assert w.buf == mid + FileOutput(reader, digest).bytes + (if r.Err? then [] else Zeros(Padding(size)));
    WroteAround(r, base, FileHead(executable, size), FileOutput(reader, digest), Zeros(Padding(size)), w.buf);
  }

  method WriteFileHead(w: ByteSink, executable: bool)
    modifies w
    ensures w.buf == old(w.buf) + Encode((if executable then [EXECUTABLE, []] else []) + [CONTENTS])
  {
    ghost var base := w.buf;
    ghost var written := [];
    assert base == base + Encode(written);
    if executable {
      written := WriteStrTo(w, EXECUTABLE, base, written);
      written := WriteStrTo(w, [], base, written);
      assert written == [EXECUTABLE, []];
    }
    written := WriteStrTo(w, CONTENTS, base, written);
  }

  /** Streams the chunks of one file, in order, or reads them all before writing. */
  method WriteFileDataTo(w: ByteSink, digest: Digest, reader: Reader) returns (r: Result<(), ReadError>)
    modifies w
    ensures Wrote(r, old(w.buf), w.buf, FileOutput(reader, digest))
  {
    if reader.wholeFiles {
      var whole := new ByteSink();
      r := StreamChunks(whole, digest, reader);
      if r.Ok? {
        w.WriteAll(whole.buf);
      }
      assert [] + ReadFile(reader, digest).bytes == ReadFile(reader, digest).bytes && old(w.buf) + [] == old(w.buf);
    } else {
      r := StreamChunks(w, digest, reader);
    }
  }

  method StreamChunks(w: ByteSink, digest: Digest, reader: Reader) returns (r: Result<(), ReadError>)
    modifies w
    ensures Wrote(r, old(w.buf), w.buf, ReadFile(reader, digest))
  {
    var refs := if digest in reader.rows then reader.rows[digest] else [];
    ghost var done: Bytes := [];
    var i := 0;
    assert refs[0..] == refs;
    ThenDone(ReadFile(reader, digest));
    while i < |refs|
      invariant 0 <= i <= |refs|
      invariant w.buf == old(w.buf) + done
      invariant ReadFile(reader, digest) == Then(Done(done), ReadChunks(reader, refs[i..]))
    {
      assert refs[i..][1..] == refs[i + 1..];
      if refs[i].digest !in reader.blobs {
        assert done + [] == done;
        return Err(NoChunk(refs[i].digest));
      }
      var chunk := reader.blobs[refs[i].digest];
      ThenAssociative(Done(done), Done(chunk), ReadChunks(reader, refs[i + 1..]));
      w.WriteAll(chunk);
      done := done + chunk;
      i := i + 1;
    }
    assert done + [] == done;
    r := Ok(());
  }

  function CaNames(es: seq<CaEntry>): (names: seq<Bytes>)
    ensures |names| == |es| && forall i :: 0 <= i < |es| ==> names[i] == es[i].name
  {
    seq(|es|, i requires 0 <= i < |es| => es[i].name)
  }

  method WriteDirBody(w: ByteSink, digest: Digest, reader: Reader, src: DirSource, ghost c: Config,
                      ghost es: seq<DirEntry>)
    returns (r: Result<(), ReadError>)
    requires Reading(c, reader, src) && digest == DirDigest(c, es)
    modifies w, src.Footprint()
    ensures Wrote(r, old(w.buf), w.buf, RenderEntries(c, reader, es)) && src.Valid()
    decreases es, 2
  {
    var loaded := src.Load(digest);
    if loaded.Err? {
      assert w.buf + [] == w.buf;
      return Err(loaded.error);
    }
    assert loaded.value == DirOf(c, es);
    CaEntriesAll(c, es);
    var names := CaNames(loaded.value.entries);
    assert names == Names(es);
    r := WriteSortedEntries(w, loaded.value.entries, SortedIndices(names), reader, src, c, es);
  }

  method WriteSortedEntries(w: ByteSink, entries: seq<CaEntry>, p: seq<nat>, reader: Reader, src: DirSource,
                            ghost c: Config, ghost es: seq<DirEntry>)
    returns (r: Result<(), ReadError>)
    requires Reading(c, reader, src) && entries == CaEntries(c, es)
    requires forall i :: 0 <= i < |p| ==> p[i] < |es|
    modifies w, src.Footprint()
    ensures Wrote(r, old(w.buf), w.buf, Gather(Permute(RenderEach(c, reader, es), p))) && src.Valid()
    decreases es, 1
  {
    ghost var os := Permute(RenderEach(c, reader, es), p);
    ghost var done: Bytes := [];
    var i := 0;
    NoneWritten(w.buf, os);
    while i < |p|
      invariant 0 <= i <= |p| && src.Valid()
      invariant SomeWritten(old(w.buf), w.buf, done, os, i)
    {
      ghost var mid := w.buf;
      r := WriteNthEntry(w, entries, p[i], reader, src, c, es);
      OneMoreWritten(old(w.buf), mid, w.buf, done, r, os, i);
      if r.Err? {
        return;
      }
      done := done + os[i].bytes;
      i := i + 1;
    }
    AllWritten(old(w.buf), w.buf, done, os);
    r := Ok(());
  }

  /** The first `i` outputs, `done`, have been written to a sink that held `before`, all without failure. */
  ghost predicate SomeWritten(before: Bytes, now: Bytes, done: Bytes, os: seq<Output>, i: nat)
    requires i <= |os|
  {
    now == before + done && Gather(os) == Then(Done(done), Gather(os[i..]))
  }

  lemma NoneWritten(before: Bytes, os: seq<Output>)
    ensures SomeWritten(before, before, [], os, 0)
  {
    ThenDone(Gather(os));
    assert os[0..] == os && before + [] == before;
  }

  lemma OneMoreWritten(before: Bytes, mid: Bytes, after: Bytes, done: Bytes, r: Result<(), ReadError>,
                       os: seq<Output>, i: nat)
    requires i < |os| && SomeWritten(before, mid, done, os, i) && Wrote(r, mid, after, os[i])
    ensures r.Err? ==> Wrote(r, before, after, Gather(os))
    ensures r.Ok? ==> SomeWritten(before, after, done + os[i].bytes, os, i + 1)
  {
    assert os[i..][1..] == os[i + 1..];
    StepWritten(before, mid, after, done, r, os[i], Gather(os[i + 1..]));
  }

  lemma StepWritten(before: Bytes, mid: Bytes, after: Bytes, done: Bytes, r: Result<(), ReadError>,
                    o: Output, rest: Output)
    requires mid == before + done && Wrote(r, mid, after, o)
    ensures r.Err? ==> Wrote(r, before, after, Then(Done(done), Then(o, rest)))
    ensures r.Ok? ==> after == before + (done + o.bytes)
                      && Then(Done(done), Then(o, rest)) == Then(Done(done + o.bytes), rest)
  {
    assert before + done + o.bytes == before + (done + o.bytes);
    ThenAssociative(Done(done), o, rest);
  }

  lemma AllWritten(before: Bytes, after: Bytes, done: Bytes, os: seq<Output>)
    requires SomeWritten(before, after, done, os, |os|)
    ensures Wrote(Ok(()), before, after, Gather(os))
  {
    assert done + [] == done;
  }

  method WriteNthEntry(w: ByteSink, entries: seq<CaEntry>, k: nat, reader: Reader, src: DirSource,
                       ghost c: Config, ghost es: seq<DirEntry>)
    returns (r: Result<(), ReadError>)
    requires Reading(c, reader, src) && k < |es| && entries == CaEntries(c, es)
    modifies w, src.Footprint()
    ensures Wrote(r, old(w.buf), w.buf, RenderEach(c, reader, es)[k]) && src.Valid()
    decreases es, 0
  {
    CaEntriesAt(c, es, k);
    RenderEachAt(c, reader, es, k);
    r := WriteCasEntry(w, entries[k], reader, src, c, es[k]);
  }

  lemma {:induction false} RenderEachAt(c: Config, reader: Reader, es: seq<DirEntry>, i: nat)
    requires i < |es|
    ensures RenderEach(c, reader, es)[i] == RenderEntry(c, reader, es[i])
  {
    if i > 0 {
      RenderEachAt(c, reader, es[1..], i - 1);
    }
  }

  method WriteCasEntry(w: ByteSink, entry: CaEntry, reader: Reader, src: DirSource,
                       ghost c: Config, ghost e: DirEntry)
    returns (r: Result<(), ReadError>)
    requires Reading(c, reader, src) && entry == CaEntry(e.name, CaOf(c, e.node))
    modifies w, src.Footprint()
    ensures Wrote(r, old(w.buf), w.buf, RenderEntry(c, reader, e)) && src.Valid()
    decreases e, 3
  {
    WriteEntryHead(w, entry.name);
    r := WriteCasNode(w, entry.node, reader, src, c, e.node);
    r := WriteClose(w, r, old(w.buf), EntryHead(e.name), Render(c, reader, e.node));
  }

  method WriteEntryHead(w: ByteSink, name: Bytes)
    modifies w
    ensures w.buf == old(w.buf) + EntryHead(name)
  {
    ghost var base := w.buf;
    assert base == base + Encode([]);
    ghost var written := WriteEntryHeadTo(w, name, base, []);
    assert written == [ENTRY, OPEN, NAME, name, NODE];
  }
}
