/** What is written is read back, whatever follows it; what is read can be written. */
module NarRoundTrip {
  import opened Base
  import opened NarFormat

  /** Reading strings from `pos` on yields `tokens`, one after the other. */
  ghost predicate Lexes(data: Bytes, pos: nat, tokens: seq<Bytes>)
    decreases |tokens|
  {
    tokens == [] ||
    (&& ReadStr(data, pos) == Ok(Parsed(tokens[0], Skip(pos, tokens[0])))
     && Lexes(data, Skip(pos, tokens[0]), tokens[1..]))
  }

  function Skip(pos: nat, token: Bytes): nat { pos + 8 + |token| + Padding(|token|) }

  /** The offset behind `tokens`. */
  function SkipAll(pos: nat, tokens: seq<Bytes>): nat
    decreases |tokens|
  {
    if tokens == [] then pos else SkipAll(Skip(pos, tokens[0]), tokens[1..])
  }

  lemma {:induction false} LexesAppend(data: Bytes, pos: nat, a: seq<Bytes>, b: seq<Bytes>)
    requires Lexes(data, pos, a + b)
    ensures Lexes(data, pos, a) && Lexes(data, SkipAll(pos, a), b)
    ensures SkipAll(pos, a + b) == SkipAll(SkipAll(pos, a), b)
    decreases |a|
  {
    if a == [] {
      assert a + b == b;
    } else {
      assert (a + b)[1..] == a[1..] + b;
      LexesAppend(data, Skip(pos, a[0]), a[1..], b);
    }
  }

  lemma LexesCons(data: Bytes, pos: nat, token: Bytes, rest: seq<Bytes>)
    requires Lexes(data, pos, [token] + rest)
    ensures ReadStr(data, pos) == Ok(Parsed(token, Skip(pos, token)))
    ensures Lexes(data, Skip(pos, token), rest)
    ensures SkipAll(pos, [token] + rest) == SkipAll(Skip(pos, token), rest)
  {
  }

  // --- Bytes to strings ---

  lemma StrIsRead(data: Bytes, pos: nat, s: Bytes, post: Bytes)
    requires |s| < U64 && pos <= |data| && data[pos..] == Str(s) + post
    ensures ReadStr(data, pos) == Ok(Parsed(s, Skip(pos, s)))
    ensures Skip(pos, s) <= |data| && data[Skip(pos, s)..] == post
  {
    Pow256Of8();
    LeRoundTrip(|s|, 8);
    var tail := data[pos..];
    assert tail == LeBytes(|s|, 8) + (s + (Zeros(Padding(|s|)) + post));
    assert tail[..8] == LeBytes(|s|, 8);
    assert tail[8..] == s + (Zeros(Padding(|s|)) + post);
    assert tail[8..][..|s|] == s;
    assert tail[|Str(s)|..] == post;
    assert data[pos..pos + 8] == tail[..8];
    assert data[pos + 8..pos + 8 + |s|] == tail[8..][..|s|];
    assert data[Skip(pos, s)..] == tail[|Str(s)|..];
  }

  ghost predicate Short(tokens: seq<Bytes>) {
    forall i :: 0 <= i < |tokens| ==> |tokens[i]| < U64
  }

  lemma Associative(a: Bytes, b: Bytes, d: Bytes)
    ensures a + b + d == a + (b + d)
  {
  }

  lemma {:induction false} EncodedIsLexed(data: Bytes, pos: nat, tokens: seq<Bytes>, post: Bytes)
    requires Short(tokens) && pos <= |data| && data[pos..] == Encode(tokens) + post
    ensures Lexes(data, pos, tokens)
    decreases |tokens|
  {
    if tokens != [] {
      var s, rest := Str(tokens[0]), Encode(tokens[1..]);
      assert Encode(tokens) == s + rest;
      Associative(s, rest, post);
      StrIsRead(data, pos, tokens[0], rest + post);
      EncodedIsLexed(data, Skip(pos, tokens[0]), tokens[1..], post);
    }
  }

  // --- Strings to trees ---

  lemma {:induction false} ObjIsShort(t: NarNode)
    requires Representable(t)
    ensures Short(ObjTokens(t))
    decreases t, 1
  {
    if t.Directory? {
      EntriesAreShort(t.entries);
    }
  }

  lemma {:induction false} EntriesAreShort(es: seq<DirEntry>)
    requires RepresentableEntries(es)
    ensures Short(EntriesTokens(es))
    decreases es, 0
  {
    if es != [] {
      ObjIsShort(es[0].node);
      EntriesAreShort(es[1..]);
    }
  }

  lemma AsciiIsRead(data: Bytes, pos: nat, token: Bytes)
    requires ReadStr(data, pos) == Ok(Parsed(token, Skip(pos, token)))
    requires forall i :: 0 <= i < |token| ==> token[i] < 0x80
    ensures ReadString(data, pos) == Ok(Parsed(token, Skip(pos, token)))
  {
    AsciiIsUtf8(token);
  }

  lemma {:induction false} FramedIsParsed(ty: Bytes, body: seq<Bytes>, t: NarNode, data: Bytes, pos: nat)
    requires forall i :: 0 <= i < |ty| ==> ty[i] < 0x80
    requires Lexes(data, pos, [OPEN, TYPE, ty] + body + [CLOSE])
    requires var p := SkipAll(pos, [OPEN, TYPE, ty]);
             Lexes(data, p, body + [CLOSE])
             ==> ParseBody(data, ty, p) == Ok(Parsed(t, SkipAll(p, body)))
    ensures ParseObj(data, pos) == Ok(Parsed(t, SkipAll(pos, [OPEN, TYPE, ty] + body + [CLOSE])))
  {
    var head := [OPEN, TYPE, ty];
    assert head + body + [CLOSE] == head + (body + [CLOSE]);
    LexesAppend(data, pos, head, body + [CLOSE]);
    HeadIsRead(ty, data, pos);
    var p3 := SkipAll(pos, head);
    LexesAppend(data, p3, body, [CLOSE]);
    var p4 := SkipAll(p3, body);
    assert [CLOSE] == [CLOSE] + [];
    LexesCons(data, p4, CLOSE, []);
  }

  lemma HeadIsRead(ty: Bytes, data: Bytes, pos: nat)
    requires forall i :: 0 <= i < |ty| ==> ty[i] < 0x80
    requires Lexes(data, pos, [OPEN, TYPE, ty])
    ensures Expect(data, pos, OPEN) == Ok(Skip(pos, OPEN))
    ensures var p2 := Skip(Skip(pos, OPEN), TYPE);
            && Expect(data, Skip(pos, OPEN), TYPE) == Ok(p2)
            && ReadString(data, p2) == Ok(Parsed(ty, Skip(p2, ty)))
            && SkipAll(pos, [OPEN, TYPE, ty]) == Skip(p2, ty)
  {
    assert [OPEN, TYPE, ty] == [OPEN] + ([TYPE] + ([ty] + []));
    LexesCons(data, pos, OPEN, [TYPE] + ([ty] + []));
    LexesCons(data, Skip(pos, OPEN), TYPE, [ty] + []);
    var p2 := Skip(Skip(pos, OPEN), TYPE);
    LexesCons(data, p2, ty, []);
    AsciiIsRead(data, p2, ty);
  }

  lemma {:induction false} ObjIsParsed(t: NarNode, data: Bytes, pos: nat)
    requires Representable(t) && Lexes(data, pos, ObjTokens(t))
    ensures ParseObj(data, pos) == Ok(Parsed(t, SkipAll(pos, ObjTokens(t))))
    decreases t, 1
  {
    var p := SkipAll(pos, [OPEN, TYPE, TypeToken(t)]);
    if Lexes(data, p, BodyTokens(t) + [CLOSE]) {
      BodyIsParsed(t, data, p);
    }
    FramedIsParsed(TypeToken(t), BodyTokens(t), t, data, pos);
  }

  lemma {:induction false} BodyIsParsed(t: NarNode, data: Bytes, pos: nat)
    requires Representable(t) && Lexes(data, pos, BodyTokens(t) + [CLOSE])
    ensures ParseBody(data, TypeToken(t), pos) == Ok(Parsed(t, SkipAll(pos, BodyTokens(t))))
    decreases t, 0
  {
    LexesAppend(data, pos, BodyTokens(t), [CLOSE]);
    match t
    case Regular(executable, contents) => RegularIsParsed(executable, contents, data, pos);
    case Directory(entries) => EntriesAreParsed(entries, data, pos);
    case Symlink(target) => SymlinkIsParsed(target, data, pos);
  }

  lemma SymlinkIsParsed(target: Bytes, data: Bytes, pos: nat)
    requires IsText(target) && Lexes(data, pos, [TARGET, target])
    ensures ParseBody(data, SYMLINK, pos) == Ok(Parsed(Symlink(target), SkipAll(pos, [TARGET, target])))
  {
    assert SYMLINK[0] != REGULAR[0];
    assert [TARGET, target] == [TARGET] + ([target] + []);
    LexesCons(data, pos, TARGET, [target] + []);
    LexesCons(data, Skip(pos, TARGET), target, []);
  }

  lemma {:induction false} RegularIsParsed(executable: bool, contents: Bytes, data: Bytes, pos: nat)
    requires Lexes(data, pos, RegularTokens(executable, contents))
    ensures ParseRegular(data, pos, false)
            == Ok(Parsed(Regular(executable, contents),
                         SkipAll(pos, RegularTokens(executable, contents))))
  {
    var p := pos;
    if executable {
      assert RegularTokens(executable, contents) == [EXECUTABLE] + ([[]] + [CONTENTS, contents]);
      LexesCons(data, pos, EXECUTABLE, [[]] + [CONTENTS, contents]);
      AsciiIsRead(data, pos, EXECUTABLE);
      LexesCons(data, Skip(pos, EXECUTABLE), [], [CONTENTS, contents]);
      p := Skip(Skip(pos, EXECUTABLE), []);
      assert ParseRegular(data, pos, false) == ParseRegular(data, p, true);
    }
    ContentsIsParsed(executable, contents, data, p);
  }

  lemma ContentsIsParsed(executable: bool, contents: Bytes, data: Bytes, pos: nat)
    requires Lexes(data, pos, [CONTENTS, contents])
    ensures ParseRegular(data, pos, executable)
            == Ok(Parsed(Regular(executable, contents), SkipAll(pos, [CONTENTS, contents])))
  {
    assert [CONTENTS, contents] == [CONTENTS] + ([contents] + []);
    LexesCons(data, pos, CONTENTS, [contents] + []);
    AsciiIsRead(data, pos, CONTENTS);
    LexesCons(data, Skip(pos, CONTENTS), contents, []);
  }

  lemma {:induction false} EntriesAreParsed(es: seq<DirEntry>, data: Bytes, pos: nat)
    requires RepresentableEntries(es) && Lexes(data, pos, EntriesTokens(es) + [CLOSE])
    ensures ParseEntries(data, pos) == Ok(Parsed(es, SkipAll(pos, EntriesTokens(es))))
    decreases es, 0
  {
    if es == [] {
      assert EntriesTokens(es) + [CLOSE] == [CLOSE];
      EntriesEnd(data, pos);
    } else {
      var next := SkipAll(pos, EntryTokens(es[0].name, ObjTokens(es[0].node)));
      EntriesSplit(es, data, pos);
      EntryIsParsed(es[0], data, pos);
      EntriesAreParsed(es[1..], data, next);
      EntryIsPrepended(data, pos, Skip(pos, ENTRY), es[0], next);
      PrependRest(ParseEntries(data, pos), ParseEntries(data, next), es, SkipAll(next, EntriesTokens(es[1..])));
    }
  }

  lemma {:induction false} EntriesEnd(data: Bytes, pos: nat)
    requires Lexes(data, pos, [CLOSE])
    ensures ParseEntries(data, pos) == Ok(Parsed([], pos))
  {
    assert [CLOSE] == [CLOSE] + [];
    LexesCons(data, pos, CLOSE, []);
    AsciiIsRead(data, pos, CLOSE);
  }

  lemma PrependRest(all: Read<seq<DirEntry>>, rest: Read<seq<DirEntry>>, es: seq<DirEntry>, end: nat)
    requires es != [] && rest == Ok(Parsed(es[1..], end)) && all == Prepend([es[0]], rest)
    ensures all == Ok(Parsed(es, end))
  {
    assert [es[0]] + es[1..] == es;
  }

  lemma {:induction false} EntryIsPrepended(data: Bytes, pos: nat, p: nat, e: DirEntry, next: nat)
    requires ReadString(data, pos) == Ok(Parsed(ENTRY, p)) && ParseEntry(data, p) == Ok(Parsed(e, next))
    ensures ParseEntries(data, pos) == Prepend([e], ParseEntries(data, next))
  {
    var token := ReadString(data, pos);
    assert pos + 8 <= |data|;
    assert token.Ok? && token.value.value == ENTRY && token.value.next == p;
  }

  lemma {:induction false} EntriesSplit(es: seq<DirEntry>, data: Bytes, pos: nat)
    requires es != [] && Lexes(data, pos, EntriesTokens(es) + [CLOSE])
    ensures var first := EntryTokens(es[0].name, ObjTokens(es[0].node));
            && Lexes(data, pos, first) && Lexes(data, SkipAll(pos, first), EntriesTokens(es[1..]) + [CLOSE])
            && SkipAll(pos, EntriesTokens(es)) == SkipAll(SkipAll(pos, first), EntriesTokens(es[1..]))
  {
    var first := EntryTokens(es[0].name, ObjTokens(es[0].node));
    assert EntriesTokens(es) == first + EntriesTokens(es[1..]);
    assert EntriesTokens(es) + [CLOSE] == first + (EntriesTokens(es[1..]) + [CLOSE]);
    LexesAppend(data, pos, first, EntriesTokens(es[1..]) + [CLOSE]);
    LexesAppend(data, pos, EntriesTokens(es), [CLOSE]);
    LexesAppend(data, pos, first, EntriesTokens(es[1..]));
  }

  lemma NameIsRead(name: Bytes, rest: seq<Bytes>, data: Bytes, pos: nat) returns (p: nat)
    requires Lexes(data, pos, [NAME] + ([name] + ([NODE] + rest)))
    ensures var p3 := Skip(pos, NAME);
            && Expect(data, pos, NAME) == Ok(p3)
            && ReadStr(data, p3) == Ok(Parsed(name, Skip(p3, name)))
            && Expect(data, Skip(p3, name), NODE) == Ok(p) && p == Skip(Skip(p3, name), NODE)
    ensures Lexes(data, p, rest) && SkipAll(pos, [NAME] + ([name] + ([NODE] + rest))) == SkipAll(p, rest)
  {
    LexesCons(data, pos, NAME, [name] + ([NODE] + rest));
    var p3 := Skip(pos, NAME);
    LexesCons(data, p3, name, [NODE] + rest);
    var p4 := Skip(p3, name);
    LexesCons(data, p4, NODE, rest);
    p := Skip(p4, NODE);
  }

  function EntryRest(e: DirEntry): seq<Bytes> {
    [OPEN] + ([NAME] + ([e.name] + ([NODE] + (ObjTokens(e.node) + [CLOSE]))))
  }

  lemma EntryTokensSplit(e: DirEntry)
    ensures EntryTokens(e.name, ObjTokens(e.node)) == [ENTRY] + EntryRest(e)
  {
  }

  lemma {:induction false} EntryIsParsed(e: DirEntry, data: Bytes, pos: nat)
    requires IsText(e.name) && Representable(e.node)
    requires Lexes(data, pos, EntryTokens(e.name, ObjTokens(e.node)))
    ensures ReadString(data, pos) == Ok(Parsed(ENTRY, Skip(pos, ENTRY)))
    ensures ParseEntry(data, Skip(pos, ENTRY))
            == Ok(Parsed(e, SkipAll(pos, EntryTokens(e.name, ObjTokens(e.node)))))
    decreases e, 3
  {
    EntryTokensSplit(e);
    LexesCons(data, pos, ENTRY, EntryRest(e));
    AsciiIsRead(data, pos, ENTRY);
    EntryRestIsParsed(e, data, Skip(pos, ENTRY));
  }

  lemma {:induction false} EntryRestIsParsed(e: DirEntry, data: Bytes, p1: nat)
    requires IsText(e.name) && Representable(e.node) && Lexes(data, p1, EntryRest(e))
    ensures ParseEntry(data, p1) == Ok(Parsed(e, SkipAll(p1, EntryRest(e))))
    decreases e, 2
  {
    var r5 := ObjTokens(e.node) + [CLOSE];
    var r2 := [NAME] + ([e.name] + ([NODE] + r5));
    LexesCons(data, p1, OPEN, r2);
    var p5 := NameIsRead(e.name, r5, data, Skip(p1, OPEN));
    var p6 := ObjAndCloseAreParsed(e.node, data, p5);
  }

  lemma {:induction false} ObjAndCloseAreParsed(t: NarNode, data: Bytes, pos: nat) returns (p: nat)
    requires Representable(t) && Lexes(data, pos, ObjTokens(t) + [CLOSE])
    ensures ParseObj(data, pos) == Ok(Parsed(t, p))
    ensures Expect(data, p, CLOSE) == Ok(SkipAll(pos, ObjTokens(t) + [CLOSE]))
    decreases t, 2
  {
    LexesAppend(data, pos, ObjTokens(t), [CLOSE]);
    ObjIsParsed(t, data, pos);
    p := SkipAll(pos, ObjTokens(t));
    assert Expect(data, p, CLOSE) == Ok(SkipAll(p, [CLOSE]));
  }

  /** The codec's central law. */
  lemma ParseInvertsWrite(t: NarNode, trailing: Bytes)
    requires Representable(t)
    ensures ParseNar(WriteNar(t) + trailing) == Ok(t)
  {
    var tokens := [MAGIC] + ObjTokens(t);
    ObjIsShort(t);
    assert Encode(tokens) == WriteNar(t);
    EncodedIsLexed(WriteNar(t) + trailing, 0, tokens, trailing);
    assert tokens[1..] == ObjTokens(t);
    ObjIsParsed(t, WriteNar(t) + trailing, Skip(0, MAGIC));
  }

  /** No archive is a proper prefix of another, and none is written for two trees. */
  lemma WriteNarIsPrefixFree(t: NarNode, u: NarNode, trailing: Bytes)
    requires Representable(t) && Representable(u) && WriteNar(t) + trailing == WriteNar(u)
    ensures t == u && trailing == []
  {
    ParseInvertsWrite(t, trailing);
    ParseInvertsWrite(u, []);
    assert WriteNar(u) + [] == WriteNar(u);
    assert |WriteNar(t) + trailing| == |WriteNar(t)| + |trailing|;
  }

  // --- Whatever is accepted can be held in memory and written again ---

  lemma {:induction false} ParsedIsRepresentable(data: Bytes, pos: nat)
    ensures ParseObj(data, pos).Ok? ==> Representable(ParseObj(data, pos).value.value)
    decreases Left(data, pos), 1
  {
    var p1 := Expect(data, pos, OPEN);
    if p1.Ok? {
      var p2 := Expect(data, p1.value, TYPE);
      if p2.Ok? {
        var ty := ReadString(data, p2.value);
        if ty.Ok? {
          ParsedBodyIsRepresentable(data, ty.value.value, ty.value.next);
        }
      }
    }
  }

  lemma {:induction false} ParsedBodyIsRepresentable(data: Bytes, ty: Bytes, pos: nat)
    ensures ParseBody(data, ty, pos).Ok? ==> Representable(ParseBody(data, ty, pos).value.value)
    decreases Left(data, pos), 1
  {
    if ty == REGULAR {
      ParsedRegularIsRepresentable(data, pos, false);
    } else if ty == DIRECTORY {
      ParsedEntriesAreRepresentable(data, pos);
    }
  }

  lemma {:induction false} ParsedRegularIsRepresentable(data: Bytes, pos: nat, executable: bool)
    ensures ParseRegular(data, pos, executable).Ok?
            ==> Representable(ParseRegular(data, pos, executable).value.value)
    decreases Left(data, pos)
  {
    var field := ReadString(data, pos);
    if field.Ok? && field.value.value == EXECUTABLE {
      var ignored := ReadStr(data, field.value.next);
      if ignored.Ok? {
        ParsedRegularIsRepresentable(data, ignored.value.next, true);
      }
    }
  }

  lemma {:induction false} ParsedEntriesAreRepresentable(data: Bytes, pos: nat)
    ensures ParseEntries(data, pos).Ok? ==> RepresentableEntries(ParseEntries(data, pos).value.value)
    decreases Left(data, pos), 0
  {
    if pos + 8 <= |data| {
      var token := ReadString(data, pos);
      if token.Ok? && token.value.value == ENTRY {
        var e := ParseEntry(data, token.value.next);
        if e.Ok? {
          ParsedEntryIsRepresentable(data, token.value.next);
          ParsedEntriesAreRepresentable(data, e.value.next);
        }
      }
    }
  }

  lemma {:induction false} ParsedEntryIsRepresentable(data: Bytes, pos: nat)
    requires ParseEntry(data, pos).Ok?
    ensures IsText(ParseEntry(data, pos).value.value.name)
    ensures Representable(ParseEntry(data, pos).value.value.node)
    decreases Left(data, pos), 2
  {
    var p1 := Expect(data, pos, OPEN).value;
    var p2 := Expect(data, p1, NAME).value;
    var name := ReadString(data, p2).value;
    var p4 := Expect(data, name.next, NODE).value;
    ParsedIsRepresentable(data, p4);
  }

  /** Writing a parsed archive normalises it: the result parses to the same tree, and
      normalising again changes nothing. */
  lemma WriteAfterParseNormalises(data: Bytes)
    requires ParseNar(data).Ok?
    ensures Representable(ParseNar(data).value)
    ensures ParseNar(WriteNar(ParseNar(data).value)) == ParseNar(data)
  {
    var t := ParseNar(data).value;
    ParsedIsRepresentable(data, Expect(data, 0, MAGIC).value);
    ParseInvertsWrite(t, []);
    assert WriteNar(t) + [] == WriteNar(t);
  }
}
