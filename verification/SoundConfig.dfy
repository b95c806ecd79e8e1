/** A hash, an encoding, a chunker and a compressor that are all that `Sound` asks for. */
module SoundConfigs {
  import opened Base
  import opened Merkle

  // --- Numbering byte strings ---

  function Number(b: Bytes): nat {
    if b == [] then 0 else 1 + b[0] + 256 * Number(b[1..])
  }

  function Numbered(n: nat): Bytes {
    if n == 0 then [] else [(n - 1) % 256] + Numbered((n - 1) / 256)
  }

  lemma {:induction false} NumberedInverts(b: Bytes)
    ensures Numbered(Number(b)) == b
  {
    if b != [] {
      NumberedInverts(b[1..]);
      HeadAndRest(b[0], Number(b[1..]));
      assert b == [b[0]] + b[1..];
    }
  }

  lemma HeadAndRest(head: byte, rest: nat)
    ensures (head + 256 * rest) % 256 == head && (head + 256 * rest) / 256 == rest
  {
  }

  // --- Writing directories so that no one begins another ---

  function Unary(n: nat): Bytes {
    if n == 0 then [0] else [1] + Unary(n - 1)
  }

  function Framed(b: Bytes): Bytes { Unary(|b|) + b }

  function NodeBytes(n: CaNode): Bytes {
    match n
    case CaEmpty => [0]
    case CaFile(d, size, executable) => [1] + Unary(d.id) + Unary(size) + [if executable then 1 else 0]
    case CaDir(d, size) => [2] + Unary(d.id) + Unary(size)
    case CaSymlink(target) => [3] + Framed(target)
  }

  function EntriesBytes(es: seq<CaEntry>): Bytes {
    if es == [] then [0] else [1] + Framed(es[0].name) + NodeBytes(es[0].node) + EntriesBytes(es[1..])
  }

  function DirBytes(dir: CaDirectory): Bytes { EntriesBytes(dir.entries) }

  lemma Parts(a: Bytes, b: Bytes, x: Bytes)
    ensures a + b + x == a + (b + x)
  {
  }

  lemma {:induction false} UnaryUnique(m: nat, n: nat, x: Bytes, y: Bytes)
    requires Unary(m) + x == Unary(n) + y
    ensures m == n && x == y
  {
    assert (Unary(m) + x)[0] == Unary(m)[0] && (Unary(n) + y)[0] == Unary(n)[0];
    if m > 0 && n > 0 {
      assert (Unary(m) + x)[1..] == Unary(m - 1) + x;
      assert (Unary(n) + y)[1..] == Unary(n - 1) + y;
      UnaryUnique(m - 1, n - 1, x, y);
    } else {
      assert (Unary(m) + x)[1..] == x && (Unary(n) + y)[1..] == y;
    }
  }

  lemma FramedUnique(a: Bytes, b: Bytes, x: Bytes, y: Bytes)
    requires Framed(a) + x == Framed(b) + y
    ensures a == b && x == y
  {
    Parts(Unary(|a|), a, x);
    Parts(Unary(|b|), b, y);
    UnaryUnique(|a|, |b|, a + x, b + y);
    assert (a + x)[..|a|] == a && (b + y)[..|b|] == b;
    assert (a + x)[|a|..] == x && (b + y)[|b|..] == y;
  }

  lemma TagUnique(s: byte, a: Bytes, t: byte, b: Bytes)
    requires [s] + a == [t] + b
    ensures s == t && a == b
  {
    assert ([s] + a)[0] == s && ([t] + b)[0] == t;
    assert ([s] + a)[1..] == a && ([t] + b)[1..] == b;
  }

  lemma TwoUnique(i: nat, j: nat, k: nat, l: nat, x: Bytes, y: Bytes)
    requires Unary(i) + Unary(j) + x == Unary(k) + Unary(l) + y
    ensures i == k && j == l && x == y
  {
    Parts(Unary(i), Unary(j), x);
    Parts(Unary(k), Unary(l), y);
    UnaryUnique(i, k, Unary(j) + x, Unary(l) + y);
    UnaryUnique(j, l, x, y);
  }

  function Tag(n: CaNode): byte {
    match n
    case CaEmpty => 0
    case CaFile(_, _, _) => 1
    case CaDir(_, _) => 2
    case CaSymlink(_) => 3
  }

  function Body(n: CaNode): Bytes {
    match n
    case CaEmpty => []
    case CaFile(d, size, executable) => Unary(d.id) + Unary(size) + [if executable then 1 else 0]
    case CaDir(d, size) => Unary(d.id) + Unary(size)
    case CaSymlink(target) => Framed(target)
  }

  lemma NodeParts(n: CaNode, x: Bytes)
    ensures NodeBytes(n) + x == [Tag(n)] + (Body(n) + x)
  {
  }

  lemma NodeUnique(m: CaNode, n: CaNode, x: Bytes, y: Bytes)
    requires NodeBytes(m) + x == NodeBytes(n) + y
    ensures m == n && x == y
  {
    NodeParts(m, x);
    NodeParts(n, y);
    TagUnique(Tag(m), Body(m) + x, Tag(n), Body(n) + y);
    match m
    case CaEmpty => assert [] + x == x && [] + y == y;
    case CaFile(d, size, executable) => FileUnique(d.id, size, executable, n.digest.id, n.size, n.executable, x, y);
    case CaDir(d, size) => TwoUnique(d.id, size, n.digest.id, n.size, x, y);
    case CaSymlink(target) => FramedUnique(target, n.target, x, y);
  }

  lemma FileUnique(i: nat, j: nat, e: bool, k: nat, l: nat, f: bool, x: Bytes, y: Bytes)
    requires Unary(i) + Unary(j) + [if e then 1 else 0] + x == Unary(k) + Unary(l) + [if f then 1 else 0] + y
    ensures i == k && j == l && e == f && x == y
  {
    var s: byte, t: byte := if e then 1 else 0, if f then 1 else 0;
    Parts(Unary(i) + Unary(j), [s], x);
    Parts(Unary(k) + Unary(l), [t], y);
    TwoUnique(i, j, k, l, [s] + x, [t] + y);
    TagUnique(s, x, t, y);
  }

  lemma {:induction false} EntriesUnique(es: seq<CaEntry>, fs: seq<CaEntry>)
    requires EntriesBytes(es) == EntriesBytes(fs)
    ensures es == fs
  {
    FirstByte(es);
    FirstByte(fs);
    if es != [] && fs != [] {
      EntryParts(es);
      EntryParts(fs);
      var a, b := NodeBytes(es[0].node) + EntriesBytes(es[1..]), NodeBytes(fs[0].node) + EntriesBytes(fs[1..]);
      TagUnique(1, Framed(es[0].name) + a, 1, Framed(fs[0].name) + b);
      FramedUnique(es[0].name, fs[0].name, a, b);
      NodeUnique(es[0].node, fs[0].node, EntriesBytes(es[1..]), EntriesBytes(fs[1..]));
      EntriesUnique(es[1..], fs[1..]);
      assert es == [es[0]] + es[1..] && fs == [fs[0]] + fs[1..];
    }
  }

  lemma FirstByte(es: seq<CaEntry>)
    ensures EntriesBytes(es) != [] && EntriesBytes(es)[0] == if es == [] then 0 else 1
  {
    if es != [] {
      EntryParts(es);
    }
  }

  lemma EntryParts(es: seq<CaEntry>)
    requires es != []
    ensures EntriesBytes(es) == [1] + (Framed(es[0].name) + (NodeBytes(es[0].node) + EntriesBytes(es[1..])))
  {
  }

  ghost function DirOfBytes(b: Bytes): Option<CaDirectory> {
    if d: CaDirectory :| DirBytes(d) == b then Some(d) else None
  }

  lemma DirOfBytesInverts(dir: CaDirectory)
    ensures DirOfBytes(DirBytes(dir)) == Some(dir)
  {
    forall d: CaDirectory | DirBytes(d) == DirBytes(dir)
      ensures d == dir
    {
      EntriesUnique(d.entries, dir.entries);
    }
  }

  // --- One byte a chunk ---

  function SingleBytes(b: Bytes): (pieces: seq<Bytes>)
    ensures forall p :: p in pieces ==> |p| == 1
  {
    if b == [] then [] else [[b[0]]] + SingleBytes(b[1..])
  }

  lemma {:induction false} SingleBytesConcatenate(b: Bytes)
    ensures Flatten(SingleBytes(b)) == b
  {
    if b != [] {
      SingleBytesConcatenate(b[1..]);
      assert SingleBytes(b)[1..] == SingleBytes(b[1..]);
      assert b == [b[0]] + b[1..];
    }
  }

  /** What is assumed of the parameters can be met. */
  lemma SoundConfigExists() returns (c: Config)
    ensures Sound(c)
  {
    c := Config(b => Digest(Number(b)), (d: Digest) => Numbered(d.id), DirBytes, b => DirOfBytes(b), SingleBytes,
                b => b, (b, n) => if |b| <= n then Some(b) else None, 0);
    forall x
      ensures c.preimage(c.hash(x)) == x && Flatten(c.chunk(x)) == x
    {
      NumberedInverts(x);
      SingleBytesConcatenate(x);
    }
    forall d
      ensures c.decode(c.encode(d)) == Some(d)
    {
      DirOfBytesInverts(d);
    }
  }
}
