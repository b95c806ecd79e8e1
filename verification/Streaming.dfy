/** Writing an archive straight from a Merkle tree, asking a reader for directories and files. */
module Streaming {
  import opened Base
  import opened NarFormat
  import opened NameOrder
  import opened Merkle
  import opened NarCodec

  datatype ReadError = NoVariant | NoDirectory(digest: Digest) | NoChunk(digest: Digest)

  /** All a chunk reader can answer: the directories it can load, the chunk rows of each file,
      and the chunks it can read.  The server streams a file chunk by chunk; the client reads
      it whole before writing any of it. */
  datatype Reader = Reader(
    dirs: map<Digest, CaDirectory>,
    rows: map<Digest, seq<ChunkRef>>,
    blobs: map<Digest, Bytes>,
    wholeFiles: bool)

  /** A directory is only ever loaded under its own digest. */
  ghost predicate Genuine(c: Config, reader: Reader) {
    forall dir :: c.hash(c.encode(dir)) in reader.dirs ==> reader.dirs[c.hash(c.encode(dir))] == dir
  }

  // --- Outputs ---

  /** What has been written when a writer returns, and the error it returns, if any. */
  datatype Output = Output(bytes: Bytes, error: Option<ReadError>)

  function Done(bytes: Bytes): Output { Output(bytes, None) }

  function Failed(error: ReadError): Output { Output([], Some(error)) }

  /** `a`, and then `b` unless `a` failed. */
  function Then(a: Output, b: Output): Output {
    if a.error.Some? then a else Output(a.bytes + b.bytes, b.error)
  }

  /** `before` in any case, `after` only if `o` did not fail. */
  function Around(before: Bytes, o: Output, after: Bytes): Output {
    Output(before + o.bytes + (if o.error.Some? then [] else after), o.error)
  }

  lemma ThenDone(o: Output)
    ensures Then(Done([]), o) == o
  {
    assert [] + o.bytes == o.bytes;
  }

  lemma ThenAssociative(a: Output, b: Output, d: Output)
    ensures Then(Then(a, b), d) == Then(a, Then(b, d))
  {
    assert a.bytes + b.bytes + d.bytes == a.bytes + (b.bytes + d.bytes);
  }

  // --- Files ---

  /** The concatenation of a file's chunks; a file without rows is empty. */
  function ReadFile(reader: Reader, f: Digest): Output {
    ReadChunks(reader, if f in reader.rows then reader.rows[f] else [])
  }

  function ReadChunks(reader: Reader, refs: seq<ChunkRef>): Output {
    if refs == [] then Done([])
    else if refs[0].digest !in reader.blobs then Failed(NoChunk(refs[0].digest))
    else Then(Done(reader.blobs[refs[0].digest]), ReadChunks(reader, refs[1..]))
  }

  /** What reaches the sink of a file: the chunks before a missing one, or nothing if files are
      read whole. */
  function FileOutput(reader: Reader, f: Digest): Output {
    var o := ReadFile(reader, f);
    if reader.wholeFiles && o.error.Some? then Failed(o.error.value) else o
  }

  lemma {:induction false} ChunksConcatenate(c: Config, reader: Reader, pieces: seq<Bytes>)
    requires forall p :: p in pieces ==> c.hash(p) in reader.blobs && reader.blobs[c.hash(p)] == p
    ensures ReadChunks(reader, RefsOf(c, pieces)) == Done(Flatten(pieces))
    decreases |pieces|
  {
    if pieces != [] {
      ChunksConcatenate(c, reader, pieces[1..]);
      assert RefsOf(c, pieces)[1..] == RefsOf(c, pieces[1..]);
    }
  }

  lemma {:induction false} ReadNeedsChunks(reader: Reader, refs: seq<ChunkRef>)
    requires ReadChunks(reader, refs).error.None?
    ensures forall r :: r in refs ==> r.digest in reader.blobs
  {
    if refs != [] {
      ReadNeedsChunks(reader, refs[1..]);
    }
  }

  /** Of a file whose `i`-th chunk is the first one missing, a reader that streams has written the chunks before
      it, and one that reads files whole has written nothing. */
  lemma MissingChunkCutsFile(reader: Reader, f: Digest, pieces: seq<Bytes>, i: nat)
    requires f in reader.rows && i < |reader.rows[f]| && |pieces| == i && reader.rows[f][i].digest !in reader.blobs
    requires forall j :: 0 <= j < i ==>
               reader.rows[f][j].digest in reader.blobs && reader.blobs[reader.rows[f][j].digest] == pieces[j]
    ensures FileOutput(reader, f) == Output(if reader.wholeFiles then [] else Flatten(pieces),
                                            Some(NoChunk(reader.rows[f][i].digest)))
  {
    ChunksBeforeMissing(reader, reader.rows[f], pieces);
  }

  lemma {:induction false} ChunksBeforeMissing(reader: Reader, refs: seq<ChunkRef>, pieces: seq<Bytes>)
    requires |pieces| < |refs| && refs[|pieces|].digest !in reader.blobs
    requires forall j :: 0 <= j < |pieces| ==>
               refs[j].digest in reader.blobs && reader.blobs[refs[j].digest] == pieces[j]
    ensures ReadChunks(reader, refs) == Output(Flatten(pieces), Some(NoChunk(refs[|pieces|].digest)))
    decreases |refs|
  {
    if pieces != [] {
      ChunksBeforeMissing(reader, refs[1..], pieces[1..]);
    }
  }

  // --- What is written ---

  function Framed(ty: Bytes, body: Bytes): Bytes {
    Encode([OPEN, TYPE, ty]) + body + Str(CLOSE)
  }

  function FileHead(executable: bool, size: nat): Bytes {
    Encode((if executable then [EXECUTABLE, []] else []) + [CONTENTS]) + LeBytes(size, 8)
  }

  /** The length prefix and the padding come from the recorded size, not from the data. */
  function FileBody(executable: bool, size: nat, data: Output): Output {
    Around(FileHead(executable, size), data, Zeros(Padding(size)))
  }

  function EntryHead(name: Bytes): Bytes { Encode([ENTRY, OPEN, NAME, name, NODE]) }

  function FramedOutput(ty: Bytes, body: Output): Output {
    Around(Encode([OPEN, TYPE, ty]), body, Str(CLOSE))
  }

  /** What is written for the Merkle tree of `t`: everything, or what precedes the first failure. */
  function Render(c: Config, reader: Reader, t: NarNode): Output
    decreases t, 1
  {
    match t
    case Regular(executable, data) =>
      FramedOutput(REGULAR, FileBody(executable, |data|, FileOutput(reader, c.hash(data))))
    case Directory(entries) => FramedOutput(DIRECTORY, RenderEntries(c, reader, entries))
    case Symlink(target) => Done(Framed(SYMLINK, Encode([TARGET, target])))
  }

  /** The entries in the order of their names. */
  function RenderEntries(c: Config, reader: Reader, es: seq<DirEntry>): Output
    decreases es, 1
  {
    if DirDigest(c, es) !in reader.dirs then Failed(NoDirectory(DirDigest(c, es)))
    else Gather(Permute(RenderEach(c, reader, es), SortedIndices(Names(es))))
  }

  function RenderEach(c: Config, reader: Reader, es: seq<DirEntry>): (r: seq<Output>)
    ensures |r| == |es|
    decreases es, 0
  {
    if es == [] then [] else [RenderEntry(c, reader, es[0])] + RenderEach(c, reader, es[1..])
  }

  function RenderEntry(c: Config, reader: Reader, e: DirEntry): Output
    decreases e, 2
  {
    Around(EntryHead(e.name), Render(c, reader, e.node), Str(CLOSE))
  }

  function Gather(os: seq<Output>): Output {
    if os == [] then Done([]) else Then(os[0], Gather(os[1..]))
  }

  /** What is written for a root node that stands for `t` or for nothing yet. */
  function NarOutput(c: Config, reader: Reader, root: CaNode, t: NarNode): Output {
    Then(Done(Str(MAGIC)), if root.CaEmpty? then Failed(NoVariant) else Render(c, reader, t))
  }

  // --- A complete reader yields the archive of the sorted tree ---

  /** The reader has every directory of `t`, and every file of `t` reads back. */
  ghost predicate Complete(c: Config, reader: Reader, t: NarNode) {
    && (forall x :: x in Contents(t) ==> ReadFile(reader, c.hash(x)) == Done(x))
    && (forall r :: r in Dirs(c, t) ==> r.digest in reader.dirs)
  }

  lemma ObjIsFramed(t: NarNode)
    ensures Encode(ObjTokens(t)) == Framed(TypeToken(t), Encode(BodyTokens(t)))
  {
    var head := [OPEN, TYPE, TypeToken(t)];
    EncodeAppend(head + BodyTokens(t), [CLOSE]);
    EncodeAppend(head, BodyTokens(t));
    assert Encode([CLOSE]) == Str(CLOSE) + Encode([]);
  }

  lemma FileBodyIsEncoded(executable: bool, data: Bytes)
    ensures FileBody(executable, |data|, Done(data)) == Done(Encode(RegularTokens(executable, data)))
  {
    var head := (if executable then [EXECUTABLE, []] else []) + [CONTENTS];
    assert RegularTokens(executable, data) == head + [data];
    EncodeAppend(head, [data]);
    assert Encode([data]) == Str(data) + Encode([]);
    var a, b, d, e := Encode(head), LeBytes(|data|, 8), data, Zeros(Padding(|data|));
    assert a + b + d + e == a + (b + d + e);
    assert FileHead(executable, |data|) == a + b;
  }

  lemma EntryIsEncoded(name: Bytes, obj: seq<Bytes>)
    ensures Around(EntryHead(name), Done(Encode(obj)), Str(CLOSE)) == Done(Encode(EntryTokens(name, obj)))
  {
    var head := [ENTRY, OPEN, NAME, name, NODE];
    EncodeAppend(head + obj, [CLOSE]);
    EncodeAppend(head, obj);
    assert Encode([CLOSE]) == Str(CLOSE) + Encode([]);
  }

  function EncodedEntry(e: DirEntry): Output { Done(Encode(EntryTokens(e.name, ObjTokens(e.node)))) }

  function EncodedEach(es: seq<DirEntry>): (os: seq<Output>)
    ensures |os| == |es| && forall i :: 0 <= i < |es| ==> os[i] == EncodedEntry(es[i])
  {
    if es == [] then [] else [EncodedEntry(es[0])] + EncodedEach(es[1..])
  }

  lemma {:induction false} GatherEncodes(os: seq<Output>, es: seq<DirEntry>)
    requires |os| == |es|
    requires forall i :: 0 <= i < |es| ==> os[i] == EncodedEntry(es[i])
    ensures Gather(os) == Done(Encode(EntriesTokens(es)))
  {
    if es != [] {
      GatherEncodes(os[1..], es[1..]);
      EncodeAppend(EntryTokens(es[0].name, ObjTokens(es[0].node)), EntriesTokens(es[1..]));
    }
  }

  /** The streaming writer's central law. */
  lemma {:induction false} RenderComplete(c: Config, reader: Reader, t: NarNode)
    requires Complete(c, reader, t)
    ensures Render(c, reader, t) == Done(Encode(ObjTokens(Canon(t))))
    decreases t, 1
  {
    ObjIsFramed(Canon(t));
    match t
    case Regular(executable, data) =>
      assert data in Contents(t);
      FileBodyIsEncoded(executable, data);
    case Directory(entries) =>
      assert Dirs(c, t)[|Dirs(c, t)| - 1] == DirRowOf(c, entries);
      RenderEntriesComplete(c, reader, entries);
    case Symlink(target) =>
  }

  lemma {:induction false} RenderEntriesComplete(c: Config, reader: Reader, es: seq<DirEntry>)
    requires forall x :: x in EntriesContents(es) ==> ReadFile(reader, c.hash(x)) == Done(x)
    requires forall r :: r in EntriesDirs(c, es) ==> r.digest in reader.dirs
    requires DirDigest(c, es) in reader.dirs
    ensures RenderEntries(c, reader, es) == Done(Encode(EntriesTokens(SortEntries(CanonEntries(es)))))
    decreases es, 1
  {
    RenderEachComplete(c, reader, es);
    var sorted := CanonEntries(es);
    assert Names(sorted) == Names(es);
    GatherEncodes(Permute(RenderEach(c, reader, es), SortedIndices(Names(es))), SortEntries(sorted));
  }

  lemma {:induction false} RenderEachComplete(c: Config, reader: Reader, es: seq<DirEntry>)
    requires forall x :: x in EntriesContents(es) ==> ReadFile(reader, c.hash(x)) == Done(x)
    requires forall r :: r in EntriesDirs(c, es) ==> r.digest in reader.dirs
    ensures RenderEach(c, reader, es) == EncodedEach(CanonEntries(es))
    decreases es, 0
  {
    if es != [] {
      RenderComplete(c, reader, es[0].node);
      EntryIsEncoded(es[0].name, ObjTokens(Canon(es[0].node)));
      RenderEachComplete(c, reader, es[1..]);
      assert CanonEntries(es)[1..] == CanonEntries(es[1..]);
    }
  }

  // --- Whatever is written without failure was readable ---

  lemma {:induction false} GatheredAreDone(os: seq<Output>, i: nat)
    requires i < |os| && Gather(os).error.None?
    ensures os[i].error.None?
  {
    if i > 0 {
      GatheredAreDone(os[1..], i - 1);
    }
  }

  lemma {:induction false} RenderedFilesRead(c: Config, reader: Reader, t: NarNode)
    requires Render(c, reader, t).error.None?
    ensures forall x :: x in Contents(t) ==> ReadFile(reader, c.hash(x)).error.None?
    decreases t, 1
  {
    if t.Directory? {
      var es := t.entries;
      var os, p := RenderEach(c, reader, es), SortedIndices(Names(es));
      forall k | 0 <= k < |es|
        ensures os[k].error.None?
      {
        SortedIndicesHaveAll(Names(es), k);
        var i :| 0 <= i < |p| && p[i] == k;
        GatheredAreDone(Permute(os, p), i);
      }
      RenderedEntriesRead(c, reader, es);
    }
  }

  lemma {:induction false} RenderedEntriesRead(c: Config, reader: Reader, es: seq<DirEntry>)
    requires forall k :: 0 <= k < |es| ==> RenderEach(c, reader, es)[k].error.None?
    ensures forall x :: x in EntriesContents(es) ==> ReadFile(reader, c.hash(x)).error.None?
    decreases es, 0
  {
    if es != [] {
      assert RenderEach(c, reader, es)[0] == RenderEntry(c, reader, es[0]);
      RenderedFilesRead(c, reader, es[0].node);
      forall k | 0 <= k < |es| - 1
        ensures RenderEach(c, reader, es[1..])[k].error.None?
      {
        assert RenderEach(c, reader, es)[k + 1].error.None?;
      }
      RenderedEntriesRead(c, reader, es[1..]);
    }
  }
}
