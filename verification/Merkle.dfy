/** Content-addressed trees: what a NAR tree becomes when every file and directory is named by
    the digest of its bytes.

    The hash, the protobuf encoding, the chunker and the compressor are parameters; `Sound`
    collects everything that is assumed about them. */
module Merkle {
  import opened Base
  import opened NarFormat

  /** A 32-byte blake3 digest; only equality matters. */
  datatype Digest = Digest(id: nat)

  datatype CaNode =
    | CaEmpty  // a node message without a variant: the placeholder of a path that has no NAR yet
    | CaFile(digest: Digest, size: nat, executable: bool)
    | CaDir(digest: Digest, size: nat)
    | CaSymlink(target: Bytes)

  datatype CaEntry = CaEntry(name: Bytes, node: CaNode)

  datatype CaDirectory = CaDirectory(entries: seq<CaEntry>)

  const CHUNK_MAX: nat := 256 * 1024

  datatype Config = Config(
    hash: Bytes -> Digest,
    preimage: Digest -> Bytes,
    encode: CaDirectory -> Bytes,
    decode: Bytes -> Option<CaDirectory>,
    chunk: Bytes -> seq<Bytes>,
    compress: Bytes -> Bytes,
    decompress: (Bytes, nat) -> Option<Bytes>,
    level: int)

  /** The hash is injective (`preimage`, its left inverse, is used in proofs only), decoding inverts
      encoding, chunking cuts the data into non-empty pieces of bounded size, and decompression
      inverts compression up to its output limit. */
  ghost predicate Sound(c: Config) {
    && (forall x :: c.preimage(c.hash(x)) == x)
    && (forall d :: c.decode(c.encode(d)) == Some(d))
    && (forall x :: Flatten(c.chunk(x)) == x)
    && (forall x, p :: p in c.chunk(x) ==> 0 < |p| <= CHUNK_MAX)
    && (forall x, n :: c.decompress(c.compress(x), n) == if |x| <= n then Some(x) else None)
  }

  // --- Files ---

  datatype ChunkRef = ChunkRef(digest: Digest, size: nat)

  function RefsOf(c: Config, pieces: seq<Bytes>): (r: seq<ChunkRef>)
    ensures |r| == |pieces|
    ensures forall i :: 0 <= i < |r| ==> r[i] == ChunkRef(c.hash(pieces[i]), |pieces[i]|)
  {
    seq(|pieces|, i requires 0 <= i < |pieces| => ChunkRef(c.hash(pieces[i]), |pieces[i]|))
  }

  /** The ordered chunk list of a file. */
  function Refs(c: Config, data: Bytes): seq<ChunkRef> { RefsOf(c, c.chunk(data)) }

  lemma OnlyEmptyFilesHaveNoChunks(c: Config, data: Bytes)
    requires Sound(c)
    ensures data == [] <==> Refs(c, data) == []
  {
  }

  // --- Trees ---

  function CaOf(c: Config, t: NarNode): (n: CaNode)
    ensures !n.CaEmpty?
    decreases t, 1
  {
    match t
    case Regular(executable, data) => CaFile(c.hash(data), |data|, executable)
    case Directory(entries) => CaDir(DirDigest(c, entries), |entries|)
    case Symlink(target) => CaSymlink(target)
  }

  function DirOf(c: Config, es: seq<DirEntry>): CaDirectory
    decreases es, 1
  {
    CaDirectory(CaEntries(c, es))
  }

  function DirDigest(c: Config, es: seq<DirEntry>): Digest
    decreases es, 2
  {
    c.hash(c.encode(DirOf(c, es)))
  }

  function CaEntries(c: Config, es: seq<DirEntry>): (r: seq<CaEntry>)
    ensures |r| == |es|
    decreases es, 0
  {
    if es == [] then []
    else [CaEntry(es[0].name, CaOf(c, es[0].node))] + CaEntries(c, es[1..])
  }

  lemma {:induction false} CaEntriesAt(c: Config, es: seq<DirEntry>, i: nat)
    requires i < |es|
    ensures CaEntries(c, es)[i] == CaEntry(es[i].name, CaOf(c, es[i].node))
  {
    if i > 0 {
      CaEntriesAt(c, es[1..], i - 1);
    }
  }

  lemma CaEntriesAll(c: Config, es: seq<DirEntry>)
    ensures forall i :: 0 <= i < |es| ==>
              CaEntries(c, es)[i] == CaEntry(es[i].name, CaOf(c, es[i].node))
  {
  }

  lemma SameDigestSameDir(c: Config, d: CaDirectory, e: CaDirectory)
    requires Sound(c) && c.hash(c.encode(d)) == c.hash(c.encode(e))
    ensures d == e
  {
  }

  /** A root node names one tree only. */
  lemma {:induction false} CaOfInjective(c: Config, t: NarNode, u: NarNode)
    requires Sound(c) && CaOf(c, t) == CaOf(c, u)
    ensures t == u
    decreases t, 1
  {
    if t.Directory? {
      SameDigestSameDir(c, DirOf(c, t.entries), DirOf(c, u.entries));
      CaEntriesInjective(c, t.entries, u.entries);
    }
  }

  lemma {:induction false} CaEntriesInjective(c: Config, es: seq<DirEntry>, fs: seq<DirEntry>)
    requires Sound(c) && CaEntries(c, es) == CaEntries(c, fs)
    ensures es == fs
    decreases es, 0
  {
    if es != [] {
      CaEntriesAt(c, es, 0);
      CaEntriesAt(c, fs, 0);
      CaOfInjective(c, es[0].node, fs[0].node);
      assert CaEntries(c, es)[1..] == CaEntries(c, es[1..]);
      assert CaEntries(c, fs)[1..] == CaEntries(c, fs[1..]);
      CaEntriesInjective(c, es[1..], fs[1..]);
      assert es == [es[0]] + es[1..] && fs == [fs[0]] + fs[1..];
    }
  }

  // --- What a tree consists of, in traversal order and with repetitions ---

  function Contents(t: NarNode): seq<Bytes>
    decreases t, 1
  {
    match t
    case Regular(_, data) => [data]
    case Directory(entries) => EntriesContents(entries)
    case Symlink(_) => []
  }

  function EntriesContents(es: seq<DirEntry>): seq<Bytes>
    decreases es, 0
  {
    if es == [] then [] else Contents(es[0].node) + EntriesContents(es[1..])
  }

  datatype DirRow = DirRow(digest: Digest, dir: CaDirectory)

  function DirRowOf(c: Config, es: seq<DirEntry>): DirRow { DirRow(DirDigest(c, es), DirOf(c, es)) }

  /** Directories after everything they contain. */
  function Dirs(c: Config, t: NarNode): seq<DirRow>
    decreases t, 1
  {
    if t.Directory? then EntriesDirs(c, t.entries) + [DirRowOf(c, t.entries)] else []
  }

  function EntriesDirs(c: Config, es: seq<DirEntry>): seq<DirRow>
    decreases es, 0
  {
    if es == [] then [] else Dirs(c, es[0].node) + EntriesDirs(c, es[1..])
  }

  /** Every row is a directory under its own digest. */
  ghost predicate Addressed(c: Config, rows: seq<DirRow>) {
    forall r :: r in rows ==> r.digest == c.hash(c.encode(r.dir))
  }

  lemma {:induction false} DirsAreAddressed(c: Config, t: NarNode)
    ensures Addressed(c, Dirs(c, t))
    decreases t, 1
  {
    if t.Directory? {
      EntriesDirsAreAddressed(c, t.entries);
    }
  }

  lemma {:induction false} EntriesDirsAreAddressed(c: Config, es: seq<DirEntry>)
    ensures Addressed(c, EntriesDirs(c, es))
    decreases es, 0
  {
    if es != [] {
      DirsAreAddressed(c, es[0].node);
      EntriesDirsAreAddressed(c, es[1..]);
    }
  }
}
