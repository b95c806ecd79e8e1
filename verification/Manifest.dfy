/** What a manifest expects of an archive, and which archives keep their hash through the store. */
module Manifests {
  import opened Base
  import opened NarFormat
  import opened NarRoundTrip
  import opened NameOrder

  /** The expected hash of every announced path, and the hash function it is checked with. */
  datatype Manifest = Manifest(narHash: map<string, string>, sha256: Bytes -> string)

  /** Hashes of another kind are not checked. */
  predicate VerifyNarHash(sha256: Bytes -> string, nar: Bytes, expected: string) {
    "sha256:" <= expected ==> sha256(nar) == expected[7..]
  }

  predicate Verified(manifest: Manifest, h: string, nar: Bytes) {
    h in manifest.narHash && VerifyNarHash(manifest.sha256, nar, manifest.narHash[h])
  }

  ghost predicate Collisionless(sha256: Bytes -> string) {
    forall x, y :: sha256(x) == sha256(y) ==> x == y
  }

  /** The manifest has the hash of `data`. */
  predicate Expects(manifest: Manifest, h: string, data: Bytes) {
    h in manifest.narHash && manifest.narHash[h] == "sha256:" + manifest.sha256(data)
  }

  /** An archive is accepted exactly if a SHA-256 hash in the manifest is its own; a hash of any other kind
      accepts every archive, and a path without a hash none. */
  lemma VerifiedExactly(manifest: Manifest, h: string, nar: Bytes)
    ensures Verified(manifest, h, nar)
            <==> h in manifest.narHash
                 && forall hex :: manifest.narHash[h] == "sha256:" + hex ==> manifest.sha256(nar) == hex
  {
    if h in manifest.narHash {
      var expected := manifest.narHash[h];
      if "sha256:" <= expected {
        assert expected == "sha256:" + expected[7..];
      }
      forall hex | expected == "sha256:" + hex
        ensures expected[7..] == hex
      {
      }
    }
  }

  // --- Archives that come back as they were pushed ---

  /** The archive of a tree sorted by name, and nothing after it. */
  ghost predicate IsCanonical(data: Bytes) {
    exists t :: Representable(t) && SortedTree(t) && data == WriteNar(t)
  }

  lemma {:induction false} RepresentableAt(es: seq<DirEntry>)
    ensures RepresentableEntries(es)
            <==> forall i :: 0 <= i < |es| ==> IsText(es[i].name) && Representable(es[i].node)
  {
    if es != [] {
      RepresentableAt(es[1..]);
      assert forall i :: 0 < i < |es| ==> es[i] == es[1..][i - 1];
    }
  }

  lemma {:induction false} CanonIsRepresentable(t: NarNode)
    requires Representable(t)
    ensures Representable(Canon(t))
    decreases t, 1
  {
    if t.Directory? {
      CanonEntriesAreRepresentable(t.entries);
      SortedEntriesAreRepresentable(CanonEntries(t.entries));
    }
  }

  lemma {:induction false} CanonEntriesAreRepresentable(es: seq<DirEntry>)
    requires RepresentableEntries(es)
    ensures RepresentableEntries(CanonEntries(es))
    decreases es, 0
  {
    if es != [] {
      CanonIsRepresentable(es[0].node);
      CanonEntriesAreRepresentable(es[1..]);
    }
  }

  lemma SortedEntriesAreRepresentable(es: seq<DirEntry>)
    requires RepresentableEntries(es)
    ensures RepresentableEntries(SortEntries(es))
  {
    RepresentableAt(es);
    RepresentableAt(SortEntries(es));
    SortedIndicesSorts(Names(es));
  }

  /** Storing an archive and writing it again gives the same bytes exactly if it is canonical. */
  lemma StoringKeepsBytesIff(data: Bytes)
    requires ParseNar(data).Ok?
    ensures WriteNar(Canon(ParseNar(data).value)) == data <==> IsCanonical(data)
  {
    var t := ParseNar(data).value;
    ParsedNarIsRepresentable(data);
    CanonIsRepresentable(t);
    CanonIsSorted(t);
    if s :| Representable(s) && SortedTree(s) && data == WriteNar(s) {
      ParseInvertsWrite(s, []);
      assert WriteNar(s) + [] == WriteNar(s);
      CanonOfSorted(s);
    }
  }

  /** An archive followed by anything parses and is not canonical. */
  lemma TrailedIsNotCanonical(t: NarNode, trailer: Bytes)
    requires Representable(t) && trailer != []
    ensures ParseNar(WriteNar(t) + trailer).Ok? && !IsCanonical(WriteNar(t) + trailer)
  {
    ParseInvertsWrite(t, trailer);
    if s :| Representable(s) && SortedTree(s) && WriteNar(t) + trailer == WriteNar(s) {
      WriteNarIsPrefixFree(t, s, trailer);
      assert false;
    }
  }

  lemma ParsedNarIsRepresentable(data: Bytes)
    requires ParseNar(data).Ok?
    ensures Representable(ParseNar(data).value)
  {
    ParsedIsRepresentable(data, Expect(data, 0, MAGIC).value);
  }

  /** What the store writes for pushed bytes has their hash exactly if they are canonical. */
  lemma RebuiltVerifiesIff(manifest: Manifest, h: string, data: Bytes)
    requires ParseNar(data).Ok? && Collisionless(manifest.sha256) && Expects(manifest, h, data)
    ensures Verified(manifest, h, WriteNar(Canon(ParseNar(data).value))) <==> IsCanonical(data)
  {
    StoringKeepsBytesIff(data);
    var expected := manifest.narHash[h];
    assert expected[..7] == "sha256:" && expected[7..] == manifest.sha256(data);
  }
}
