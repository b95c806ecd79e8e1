/** The archive format told byte by byte, for a reader who knows nothing of how it is written here. */
module NarFields {
  import opened Base
  import opened NarFormat

  // --- One string ---

  /** What a reader of the format expects of the written form of `s`, byte for byte: eight bytes of length, least
      significant first, the bytes of `s`, and zeros up to the next multiple of eight. */
  ghost predicate IsField(b: Bytes, s: Bytes) {
    && |b| % 8 == 0 && 8 + |s| <= |b| < 16 + |s|
    && (|s| < U64 ==> |s| == Number(b, 0))
    && b[8..8 + |s|] == s
    && forall i :: 8 + |s| <= i < |b| ==> b[i] == 0
  }

  /** `data` is the written form of `tokens`, one after the other. */
  ghost predicate AreFields(data: Bytes, tokens: seq<Bytes>)
    decreases |tokens|
  {
    if tokens == [] then data == []
    else exists n :: 0 <= n <= |data| && IsField(data[..n], tokens[0]) && AreFields(data[n..], tokens[1..])
  }

  /** `data` is the written form of an archive of `t`. */
  ghost predicate IsArchive(data: Bytes, t: NarNode) { AreFields(data, [Ascii("nix-archive-1")] + ObjTokens(t)) }

  lemma PaddingFills(n: nat)
    ensures (8 + n + Padding(n)) % 8 == 0 && Padding(n) < 8
  {
  }

  lemma {:induction false} FieldParts(head: Bytes, s: Bytes, pad: Bytes)
    requires |head| == 8 && forall i :: 0 <= i < |pad| ==> pad[i] == 0
    ensures var b := head + s + pad;
            && b[8..8 + |s|] == s && (forall i :: 8 + |s| <= i < |b| ==> b[i] == 0)
            && Number(b, 0) == Number(head, 0)
  {
  }

  lemma {:induction false} StrIsField(s: Bytes)
    ensures IsField(Str(s), s)
  {
    var head := LeBytes(|s|, 8);
    PaddingFills(|s|);
    FieldParts(head, s, Zeros(Padding(|s|)));
    if |s| < U64 {
      Pow256Of8();
      LeRoundTrip(|s|, 8);
      LeValueOf8(head);
    }
  }

  lemma {:induction false} EncodedAreFields(tokens: seq<Bytes>)
    ensures AreFields(Encode(tokens), tokens)
  {
    if tokens != [] {
      var b, rest := Str(tokens[0]), Encode(tokens[1..]);
      StrIsField(tokens[0]);
      EncodedAreFields(tokens[1..]);
      assert (b + rest)[..|b|] == b && (b + rest)[|b|..] == rest;
    }
  }

  lemma WrittenIsArchive(t: NarNode)
    ensures IsArchive(WriteNar(t), t)
  {
    EncodedAreFields([MAGIC] + ObjTokens(t));
  }

  // --- The productions ---

  /** Files, links and the empty directory, written out. */
  lemma LeafProductions(x: Bytes, target: Bytes)
    ensures ObjTokens(Regular(true, x))
            == [Ascii("("), Ascii("type"), Ascii("regular"), Ascii("executable"), [], Ascii("contents"), x, Ascii(")")]
    ensures ObjTokens(Regular(false, x))
            == [Ascii("("), Ascii("type"), Ascii("regular"), Ascii("contents"), x, Ascii(")")]
    ensures ObjTokens(Symlink(target))
            == [Ascii("("), Ascii("type"), Ascii("symlink"), Ascii("target"), target, Ascii(")")]
    ensures ObjTokens(Directory([])) == [Ascii("("), Ascii("type"), Ascii("directory"), Ascii(")")]
  {
  }

  /** One more entry is written between the entries before it and the closing string. */
  lemma EntryProduction(es: seq<DirEntry>, e: DirEntry)
    ensures ObjTokens(Directory(es + [e]))
            == ObjTokens(Directory(es))[..|ObjTokens(Directory(es))| - 1]
               + [Ascii("entry"), Ascii("("), Ascii("name"), e.name, Ascii("node")] + ObjTokens(e.node)
               + [Ascii(")"), Ascii(")")]
  {
    EntriesTokensSnoc(es, e);
  }

  lemma {:induction false} EntriesTokensSnoc(es: seq<DirEntry>, e: DirEntry)
    ensures EntriesTokens(es + [e]) == EntriesTokens(es) + EntryTokens(e.name, ObjTokens(e.node))
    decreases |es|
  {
    if es == [] {
      assert [] + [e] == [e] && [e][1..] == [];
    } else {
      assert (es + [e])[0] == es[0] && (es + [e])[1..] == es[1..] + [e];
      EntriesTokensSnoc(es[1..], e);
    }
  }
}
