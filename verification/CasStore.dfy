/** The server's content-addressed store as a value: five tables and the chunk files, the effect
    of every operation on them, and the invariant that makes them refine a map from path hash
    to tree. */
module CasStore {
  import opened Base
  import opened NarFormat
  import opened Merkle

  type Hash = string

  const INLINE_THRESHOLD: nat := 1024

  datatype ChunkRow = ChunkRow(size: nat, level: Option<int>, diskSize: nat, data: Option<Bytes>)

  datatype PathRow = PathRow(root: CaNode, lastAccess: nat)

  /** `fileChunks[f]` lists the rows of file `f` by chunk index; `files` is the chunk directory. */
  datatype Store = Store(
    paths: map<Hash, PathRow>,
    pathFiles: set<(Hash, Digest)>,
    fileChunks: map<Digest, seq<ChunkRef>>,
    chunks: map<Digest, ChunkRow>,
    directories: map<Digest, Bytes>,
    files: map<Digest, Bytes>)

  const EMPTY: Store := Store(map[], {}, map[], map[], map[], map[])

  // --- Ingesting ---

  /** How a chunk file would be written: compressed only if that is smaller. */
  function FileFor(c: Config, data: Bytes): Bytes {
    if |c.compress(data)| < |data| then c.compress(data) else data
  }

  function LevelFor(c: Config, data: Bytes): Option<int> {
    if |c.compress(data)| < |data| then Some(c.level) else None
  }

  /** An existing file is kept, and then no level is reported; an existing row is kept. */
  function InsertChunk(c: Config, s: Store, data: Bytes): Store {
    var d := c.hash(data);
    var inline := |data| < INLINE_THRESHOLD;
    var files := if inline || d in s.files then s.files else s.files[d := FileFor(c, data)];
    var level := if inline || d in s.files then None else LevelFor(c, data);
    var row := ChunkRow(|data|, level, if inline then 0 else |files[d]|,
                        if inline then Some(data) else None);
    s.(files := files, chunks := if d in s.chunks then s.chunks else s.chunks[d := row])
  }

  function InsertChunks(c: Config, s: Store, pieces: seq<Bytes>): Store
    decreases |pieces|
  {
    if pieces == [] then s
    else InsertChunks(c, InsertChunk(c, s, pieces[0]), pieces[1..])
  }

  function RowsOf(rows: map<Digest, seq<ChunkRef>>, f: Digest): seq<ChunkRef> {
    if f in rows then rows[f] else []
  }

  /** Row `i` of file `f`; a row already there is kept. */
  function InsertRow(rows: map<Digest, seq<ChunkRef>>, f: Digest, i: nat, r: ChunkRef)
    : map<Digest, seq<ChunkRef>>
    requires i <= |RowsOf(rows, f)|
  {
    if i < |RowsOf(rows, f)| then rows else rows[f := RowsOf(rows, f) + [r]]
  }

  function InsertRows(rows: map<Digest, seq<ChunkRef>>, f: Digest, refs: seq<ChunkRef>)
    : map<Digest, seq<ChunkRef>>
  {
    if |refs| <= |RowsOf(rows, f)| then rows
    else rows[f := RowsOf(rows, f) + refs[|RowsOf(rows, f)|..]]
  }

  function InsertFile(c: Config, s: Store, data: Bytes): Store {
    var s1 := InsertChunks(c, s, c.chunk(data));
    s1.(fileChunks := InsertRows(s1.fileChunks, c.hash(data), Refs(c, data)))
  }

  function InsertDir(c: Config, s: Store, dir: CaDirectory): Store {
    var bytes := c.encode(dir);
    if c.hash(bytes) in s.directories then s
    else s.(directories := s.directories[c.hash(bytes) := bytes])
  }

  function Ingest(c: Config, s: Store, t: NarNode): Store
    decreases t, 1
  {
    match t
    case Regular(_, data) => InsertFile(c, s, data)
    case Directory(entries) => InsertDir(c, IngestEntries(c, s, entries), DirOf(c, entries))
    case Symlink(_) => s
  }

  function IngestEntries(c: Config, s: Store, es: seq<DirEntry>): Store
    decreases es, 0
  {
    if es == [] then s else IngestEntries(c, Ingest(c, s, es[0].node), es[1..])
  }

  // --- The public operations ---

  function Hashes(c: Config, xs: seq<Bytes>): set<Digest> {
    set x | x in xs :: c.hash(x)
  }

  function FileDigests(c: Config, t: NarNode): set<Digest> { Hashes(c, Contents(t)) }

  function PutTree(c: Config, s: Store, h: Hash, t: NarNode, now: nat): Store {
    var s1 := Ingest(c, s, t);
    s1.(pathFiles := s1.pathFiles + (set f | f in FileDigests(c, t) :: (h, f)),
        paths := s1.paths[h := PathRow(CaOf(c, t), now)])
  }

  /** An archive that does not parse changes nothing. */
  function PutNar(c: Config, s: Store, h: Hash, data: Bytes, now: nat): Store {
    match ParseNar(data)
    case Ok(t) => PutTree(c, s, h, t, now)
    case Err(_) => s
  }

  function PutNarinfo(s: Store, h: Hash, now: nat): Store {
    var root := if h in s.paths then s.paths[h].root else CaEmpty;
    s.(paths := s.paths[h := PathRow(root, now)])
  }

  function Accessed(paths: map<Hash, PathRow>, hs: set<Hash>, time: nat): map<Hash, PathRow> {
    map h | h in paths :: if h in hs then PathRow(paths[h].root, time) else paths[h]
  }

  /** A batch of accesses, to the hour; paths that are not there are passed over. */
  function UpdateAccess(s: Store, hashes: seq<Hash>, now: nat): Store {
    s.(paths := Accessed(s.paths, SetOf(hashes), now - now % 3600))
  }

  // --- Evicting ---

  function Owned(s: Store, h: Hash): set<Digest> {
    set p | p in s.pathFiles && p.0 == h :: p.1
  }

  function PathFilesWithout(s: Store, h: Hash): set<(Hash, Digest)> {
    set p | p in s.pathFiles && p.0 != h
  }

  /** Files of `h` that no other path has. */
  function DeadFiles(s: Store, h: Hash): set<Digest> {
    set f | f in Owned(s, h) && forall p :: p in s.pathFiles && p.1 == f ==> p.0 == h
  }

  predicate Mentions(rows: map<Digest, seq<ChunkRef>>, d: Digest) {
    exists f :: f in rows && ListsChunk(rows[f], d)
  }

  predicate ListsChunk(refs: seq<ChunkRef>, d: Digest) {
    exists i :: 0 <= i < |refs| && refs[i].digest == d
  }

  function ChunksOf(refs: seq<ChunkRef>): (ds: set<Digest>)
    ensures forall d :: d in ds <==> ListsChunk(refs, d)
  {
    set i | 0 <= i < |refs| :: refs[i].digest
  }

  function ChunksOfFiles(rows: map<Digest, seq<ChunkRef>>, fs: set<Digest>): set<Digest> {
    set f, d | f in fs && f in rows && d in ChunksOf(rows[f]) :: d
  }

  /** Chunks of the dead files that no remaining file lists. */
  function DeadChunks(s: Store, h: Hash): set<Digest> {
    set d | d in ChunksOfFiles(s.fileChunks, DeadFiles(s, h))
            && !Mentions(s.fileChunks - DeadFiles(s, h), d)
  }

  function Evict(s: Store, h: Hash): Store {
    s.(paths := s.paths - {h},
       pathFiles := PathFilesWithout(s, h),
       fileChunks := s.fileChunks - DeadFiles(s, h),
       chunks := s.chunks - DeadChunks(s, h),
       files := s.files - DeadChunks(s, h))
  }

  /** The recorded sizes of the chunks `ds`. */
  ghost function SizeOf(chunks: map<Digest, ChunkRow>, ds: set<Digest>): nat {
    if ds == {} then 0
    else
      var d :| d in ds;
      (if d in chunks then chunks[d].size else 0) + SizeOf(chunks, ds - {d})
  }

  /** SUM(chunks.size). */
  ghost function TotalBytes(s: Store): nat { SizeOf(s.chunks, s.chunks.Keys) }

  // --- The abstract map ---

  /** What a path hash stands for: metadata only, or a tree. */
  datatype Entry = Pending | Holding(tree: NarNode)

  type Catalog = map<Hash, Entry>

  datatype Op =
    | OpPutNar(hash: Hash, data: Bytes, now: nat)
    | OpPutNarinfo(hash: Hash, now: nat)
    | OpStoreChunk(data: Bytes)
    | OpAccess(hashes: seq<Hash>, now: nat)
    | OpEvict(hash: Hash)

  /** An operation that neither puts nor evicts `h`. */
  predicate Spares(op: Op, h: Hash) { op.OpStoreChunk? || op.OpAccess? || op.hash != h }

  function Step(c: Config, s: Store, op: Op): Store {
    match op
    case OpPutNar(h, data, now) => PutNar(c, s, h, data, now)
    case OpPutNarinfo(h, now) => PutNarinfo(s, h, now)
    case OpStoreChunk(data) => InsertChunk(c, s, data)
    case OpAccess(hashes, now) => UpdateAccess(s, hashes, now)
    case OpEvict(h) => Evict(s, h)
  }

  function AbsStep(m: Catalog, op: Op): Catalog {
    match op
    case OpPutNar(h, data, _) => if ParseNar(data).Ok? then m[h := Holding(ParseNar(data).value)] else m
    case OpPutNarinfo(h, _) => if h in m then m else m[h := Pending]
    case OpStoreChunk(_) => m
    case OpAccess(_, _) => m
    case OpEvict(h) => m - {h}
  }

  function Run(c: Config, ops: seq<Op>): Store {
    if ops == [] then EMPTY else Step(c, Run(c, ops[..|ops| - 1]), ops[|ops| - 1])
  }

  function AbsRun(ops: seq<Op>): Catalog {
    if ops == [] then map[] else AbsStep(AbsRun(ops[..|ops| - 1]), ops[|ops| - 1])
  }

  // --- The invariant ---

  /** The row of chunk `x` and the file behind it agree on how `x` is stored. */
  ghost predicate StoredRight(c: Config, chunks: map<Digest, ChunkRow>, files: map<Digest, Bytes>, x: Bytes) {
    var d := c.hash(x);
    && d in chunks
    && chunks[d].size == |x|
    && (if |x| < INLINE_THRESHOLD then chunks[d].data == Some(x)
        else && chunks[d].data == None && d in files
             && files[d] == FileFor(c, x) && chunks[d].level == LevelFor(c, x))
  }

  ghost predicate ChunksRight(c: Config, chunks: map<Digest, ChunkRow>, files: map<Digest, Bytes>) {
    && (forall x :: c.hash(x) in chunks ==> StoredRight(c, chunks, files, x))
    && (forall d :: d in files <==> d in chunks && chunks[d].data.None?)
  }

  ghost predicate RowsRight(c: Config, rows: map<Digest, seq<ChunkRef>>, chunks: map<Digest, ChunkRow>) {
    && (forall x :: c.hash(x) in rows ==> x != [] && rows[c.hash(x)] == Refs(c, x))
    && (forall f, d :: f in rows && ListsChunk(rows[f], d) ==> d in chunks)
  }

  ghost predicate DirsRight(c: Config, directories: map<Digest, Bytes>) {
    forall dir :: c.hash(c.encode(dir)) in directories
                  ==> directories[c.hash(c.encode(dir))] == c.encode(dir)
  }

  ghost predicate TablesRight(c: Config, s: Store) {
    && ChunksRight(c, s.chunks, s.files)
    && RowsRight(c, s.fileChunks, s.chunks)
    && DirsRight(c, s.directories)
  }

  /** Every directory of `t` and the rows of every non-empty file of `t` are present. */
  ghost predicate Holds(c: Config, s: Store, t: NarNode) {
    && (forall x :: x in Contents(t) && x != [] ==> c.hash(x) in s.fileChunks)
    && (forall r :: r in Dirs(c, t) ==> r.digest in s.directories)
  }

  ghost predicate PathRight(c: Config, s: Store, h: Hash, t: NarNode) {
    && h in s.paths && s.paths[h].root == CaOf(c, t)
    && Holds(c, s, t)
    && forall x :: x in Contents(t) ==> (h, c.hash(x)) in s.pathFiles
  }

  ghost predicate PathsRight(c: Config, s: Store, m: Catalog) {
    && s.paths.Keys == m.Keys
    && (forall h :: h in m ==> match m[h]
                               case Pending => s.paths[h].root == CaEmpty
                               case Holding(t) => PathRight(c, s, h, t))
    && (forall p :: p in s.pathFiles ==> p.0 in s.paths)
    && (forall h, x :: (h, c.hash(x)) in s.pathFiles && x != [] ==> c.hash(x) in s.fileChunks)
  }

  ghost predicate Inv(c: Config, s: Store, m: Catalog) {
    TablesRight(c, s) && PathsRight(c, s, m)
  }

  ghost predicate FilesOwned(s: Store) {
    forall f :: f in s.fileChunks ==> exists p :: p in s.pathFiles && p.1 == f
  }

  /** Chunks that no file lists. */
  function Orphans(s: Store): set<Digest> {
    set d | d in s.chunks && !Mentions(s.fileChunks, d)
  }

  /** Every chunk is listed by a file and every file is owned by a path. */
  ghost predicate NoGarbage(s: Store) {
    Orphans(s) == {} && FilesOwned(s)
  }
}
