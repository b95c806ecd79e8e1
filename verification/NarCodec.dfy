/** The cursor parser, which rewinds, and the writer, which appends; each is proved equal to
    the look-ahead grammar and the token lists of `NarFormat`. */
module NarCodec {
  import opened Base
  import opened NarFormat
  import opened NarFields

  /** A reader's result and final position are what the grammar says. */
  ghost predicate Agrees<T>(r: Result<T, NarError>, pos: nat, spec: Read<T>) {
    match spec
    case Ok(parsed) => r == Ok(parsed.value) && pos == parsed.next
    case Err(error) => r == Err(error)
  }

  /** Reading never leaves the cursor further past the end than unseen padding takes it, errors included. */
  predicate InReach(data: Bytes, pos: nat) { pos <= |data| + 7 }

  /** A `)` comes next. */
  predicate AtClose(data: Bytes, pos: nat) { Expect(data, pos, CLOSE).Ok? }

  /** The string before `pos` is the contents of the file just read. */
  ghost predicate AfterContents(data: Bytes, node: NarNode, pos: nat) {
    node.Regular? && exists from: nat :: NarFormat.ReadStr(data, from) == Ok(Parsed(node.data, pos))
  }

  class NarReader {
    const data: Bytes
    var pos: nat

    constructor (data: Bytes)
      ensures this.data == data && pos == 0
    {
      this.data := data;
      pos := 0;
    }

    method ReadU64() returns (r: Result<nat, NarError>)
      modifies this
      ensures InReach(data, old(pos)) ==> InReach(data, pos)
      ensures Agrees(r, pos, NarFormat.ReadU64(data, old(pos)))
    {
      if pos + 8 > |data| {
        return Err(UnexpectedEof);
      }
      r := Ok(LeValue(data[pos..pos + 8]));
      pos := pos + 8;
    }

    method ReadStr() returns (r: Result<Bytes, NarError>)
      modifies this
      ensures InReach(data, old(pos)) ==> InReach(data, pos)
      ensures Agrees(r, pos, NarFormat.ReadStr(data, old(pos)))
    {
      var len := ReadU64();
      if len.Err? {
        return Err(len.error);
      }
      if pos + len.value > |data| {
        return Err(UnexpectedEof);
      }
      r := Ok(data[pos..pos + len.value]);
      pos := pos + len.value;
      pos := pos + (8 - len.value % 8) % 8;
    }

    method ExpectStr(expected: Bytes) returns (r: Result<(), NarError>)
      modifies this
      ensures InReach(data, old(pos)) ==> InReach(data, pos)
      ensures match Expect(data, old(pos), expected)
              case Ok(next) => r == Ok(()) && pos == next
              case Err(error) => r == Err(error)
    {
      var s := ReadStr();
      if s.Err? {
        return Err(s.error);
      }
      r := if s.value == expected then Ok(()) else Err(UnexpectedToken);
    }

    method ReadString() returns (r: Result<Bytes, NarError>)
      modifies this
      ensures InReach(data, old(pos)) ==> InReach(data, pos)
      ensures Agrees(r, pos, NarFormat.ReadString(data, old(pos)))
    {
      r := ReadStr();
      if r.Ok? && !IsUtf8(r.value) {
        r := Err(InvalidUtf8);
      }
    }

    function Remaining(): (n: nat)
      reads this
      ensures n == 0 <==> pos >= |data|
    {
      if pos <= |data| then |data| - pos else 0
    }

    method ParseNarObj() returns (r: Result<NarNode, NarError>)
      modifies this
      ensures InReach(data, old(pos)) ==> InReach(data, pos)
      ensures Agrees(r, pos, ParseObj(data, old(pos)))
      decreases Left(data, pos), 2
    {
      var open := ExpectStr(OPEN);
      if open.Err? {
        return Err(open.error);
      }
      var ty := ExpectStr(TYPE);
      if ty.Err? {
        return Err(ty.error);
      }
      var typeStr := ReadString();
      if typeStr.Err? {
        return Err(typeStr.error);
      }
      var node: Result<NarNode, NarError>;
      if typeStr.value == REGULAR {
        node := this.ParseRegular();
      } else if typeStr.value == DIRECTORY {
        node := ParseDirectory();
      } else if typeStr.value == SYMLINK {
        node := this.ParseSymlink();
      } else {
        node := Err(UnknownType);
      }
      if node.Err? {
        return node;
      }
      var close := ExpectStr(CLOSE);
      r := if close.Err? then Err(close.error) else node;
    }

    /** Steps back over the `)` just read, which is then the next string again. */
    method StepBack()
      requires pos >= 16 && Expect(data, pos - 16, CLOSE) == Ok(pos)
      modifies this
      ensures pos == old(pos) - 16 && AtClose(data, pos)
    {
      pos := pos - 16;
    }

    /** A `)` ends the fields and is left for the enclosing object. */
    method ParseRegular() returns (r: Result<NarNode, NarError>)
      modifies this
      ensures InReach(data, old(pos)) ==> InReach(data, pos)
      ensures Agrees(r, pos, NarFormat.ParseRegular(data, old(pos), false))
      ensures r.Ok? ==> AtClose(data, pos) || AfterContents(data, r.value, pos)
    {
      var executable := false;
      ghost var spec := NarFormat.ParseRegular(data, pos, false);
      while true
        invariant InReach(data, old(pos)) ==> InReach(data, pos)
        invariant spec == NarFormat.ParseRegular(data, pos, executable)
        decreases Left(data, pos)
      {
        var next;
        next, executable := NextField(executable);
        match next {
          case Err(error) => return Err(error);
          case Ok(Some(node)) => return Ok(node);
          case Ok(None) =>
        }
      }
    }

    /** One turn of the field loop: an error, the finished file, or another turn. */
    method NextField(executable: bool) returns (r: Result<Option<NarNode>, NarError>, executable': bool)
      modifies this
      ensures InReach(data, old(pos)) ==> InReach(data, pos)
      ensures var spec := NarFormat.ParseRegular(data, old(pos), executable);
              match r
              case Err(error) => spec == Err(error)
              case Ok(Some(node)) =>
                spec == Ok(Parsed(node, pos)) && (AtClose(data, pos) || AfterContents(data, node, pos))
              case Ok(None) =>
                Left(data, pos) < Left(data, old(pos)) && spec == NarFormat.ParseRegular(data, pos, executable')
    {
      executable' := executable;
      var field := ReadString();
      if field.Err? {
        return Err(field.error), executable;
      }
      if field.value == EXECUTABLE {
        var ignored := ReadStr();
        if ignored.Err? {
          return Err(ignored.error), executable;
        }
        return Ok(None), true;
      } else if field.value == CONTENTS {
        var file := ReadContents(executable);
        r := if file.Err? then Err(file.error) else Ok(Some(file.value));
      } else if field.value == CLOSE {
        StepBack();
        r := Ok(Some(Regular(executable, [])));
      } else {
        r := Err(UnexpectedField);
      }
    }

    method ReadContents(executable: bool) returns (r: Result<NarNode, NarError>)
      modifies this
      ensures InReach(data, old(pos)) ==> InReach(data, pos)
      ensures match NarFormat.ReadStr(data, old(pos))
              case Ok(contents) => r == Ok(Regular(executable, contents.value)) && pos == contents.next
              case Err(error) => r == Err(error)
      ensures r.Ok? ==> AfterContents(data, r.value, pos)
    {
      var contents := ReadStr();
      r := if contents.Err? then Err(contents.error) else Ok(Regular(executable, contents.value));
    }

    method ParseDirectory() returns (r: Result<NarNode, NarError>)
      modifies this
      ensures InReach(data, old(pos)) ==> InReach(data, pos)
      ensures Agrees(r, pos, AsDirectory(ParseEntries(data, old(pos))))
      ensures r.Ok? ==> AtClose(data, pos) || Remaining() < 8
      decreases Left(data, pos), 1
    {
      var entries: seq<DirEntry> := [];
      ghost var spec := ParseEntries(data, pos);
      PrependNothing(spec);
      while true
        invariant old(pos) <= pos && (InReach(data, old(pos)) ==> InReach(data, pos))
        invariant spec == Prepend(entries, ParseEntries(data, pos))
        decreases Left(data, pos)
      {
        var next := NextEntry();
        if next.Err? {
          return Err(next.error);
        }
        if next.value.None? {
          assert entries + [] == entries;
          return Ok(Directory(entries));
        }
        PrependAppend(entries, next.value.value, ParseEntries(data, pos));
        entries := entries + [next.value.value];
      }
    }

    /** One turn of the directory loop.  A `)` ends it and is left for the enclosing object. */
    method NextEntry() returns (r: Result<Option<DirEntry>, NarError>)
      modifies this
      ensures InReach(data, old(pos)) ==> InReach(data, pos)
      ensures match r
              case Err(error) => ParseEntries(data, old(pos)) == Err(error)
              case Ok(None) =>
                && ParseEntries(data, old(pos)) == Ok(Parsed([], pos))
                && (AtClose(data, pos) || Remaining() < 8)
              case Ok(Some(e)) =>
                && old(pos) < pos && InReach(data, pos)
                && ParseEntries(data, old(pos)) == Prepend([e], ParseEntries(data, pos))
      decreases Left(data, pos), 0
    {
      if Remaining() < 8 {
        return Ok(None);
      }
      var token := ReadString();
      if token.Err? {
        return Err(token.error);
      }
      if token.value == ENTRY {
        var entry := ParseDirEntry();
        r := if entry.Err? then Err(entry.error) else Ok(Some(entry.value));
      } else if token.value == CLOSE {
        StepBack();
        r := Ok(None);
      } else {
        r := Err(UnexpectedToken);
      }
    }

    method ParseDirEntry() returns (r: Result<DirEntry, NarError>)
      modifies this
      ensures InReach(data, old(pos)) ==> InReach(data, pos)
      ensures Agrees(r, pos, ParseEntry(data, old(pos)))
      decreases Left(data, pos), 3
    {
      var open := ExpectStr(OPEN);
      if open.Err? {
        return Err(open.error);
      }
      var nameTag := ExpectStr(NAME);
      if nameTag.Err? {
        return Err(nameTag.error);
      }
      var name := ReadString();
      if name.Err? {
        return Err(name.error);
      }
      var nodeTag := ExpectStr(NODE);
      if nodeTag.Err? {
        return Err(nodeTag.error);
      }
      var node := ParseNarObj();
      if node.Err? {
        return Err(node.error);
      }
      var close := ExpectStr(CLOSE);
      r := if close.Err? then Err(close.error) else Ok(DirEntry(name.value, node.value));
    }

    method ParseSymlink() returns (r: Result<NarNode, NarError>)
      modifies this
      ensures InReach(data, old(pos)) ==> InReach(data, pos)
      ensures Agrees(r, pos, NarFormat.ParseSymlink(data, old(pos)))
    {
      var tag := ExpectStr(TARGET);
      if tag.Err? {
        return Err(tag.error);
      }
      var target := ReadString();
      r := if target.Err? then Err(target.error) else Ok(Symlink(target.value));
    }
  }

  lemma PrependNothing(r: Read<seq<DirEntry>>)
    ensures Prepend([], r) == r
  {
    if r.Ok? {
      assert [] + r.value.value == r.value.value;
    }
  }

  lemma PrependAppend(es: seq<DirEntry>, e: DirEntry, r: Read<seq<DirEntry>>)
    ensures Prepend(es, Prepend([e], r)) == Prepend(es + [e], r)
  {
    if r.Ok? {
      assert es + [e] + r.value.value == es + ([e] + r.value.value);
    }
  }

  method ParseNarBytes(data: Bytes) returns (r: Result<NarNode, NarError>)
    ensures r == ParseNar(data)
  {
    var reader := new NarReader(data);
    var magic := reader.ExpectStr(MAGIC);
    if magic.Err? {
      return Err(magic.error);
    }
    r := reader.ParseNarObj();
  }

  // --- Writing ---

  /** Where a writer's bytes go. */
  class ByteSink {
    var buf: Bytes

    constructor ()
      ensures buf == []
    {
      buf := [];
    }

    method WriteAll(data: Bytes)
      modifies this
      ensures buf == old(buf) + data
    {
      buf := buf + data;
    }
  }

  lemma {:induction false} EncodeAppend(a: seq<Bytes>, b: seq<Bytes>)
    ensures Encode(a + b) == Encode(a) + Encode(b)
  {
    if a == [] {
      assert a + b == b;
    } else {
      assert (a + b)[1..] == a[1..] + b;
      EncodeAppend(a[1..], b);
    }
  }

  /** The length-prefixed, padded form of `s`. */
  method WriteBytesTo(w: ByteSink, s: Bytes)
    modifies w
    ensures w.buf == old(w.buf) + Str(s) && IsField(w.buf[|old(w.buf)|..], s)
  {
    StrIsField(s);
    w.WriteAll(LeBytes(|s|, 8));
    w.WriteAll(s);
    var pad := (8 - |s| % 8) % 8;
    if pad > 0 {
      w.WriteAll(Zeros(pad));
    }
  }

  /** Writes one string; `written` lists the strings that follow `base` in the sink. */
  method WriteStrTo(w: ByteSink, s: Bytes, ghost base: Bytes, ghost written: seq<Bytes>)
    returns (ghost after: seq<Bytes>)
    requires w.buf == base + Encode(written)
    modifies w
    ensures after == written + [s] && w.buf == base + Encode(after)
  {
    WriteBytesTo(w, s);
    after := written + [s];
    EncodeSnoc(base, written, s);
  }

  lemma EncodeSnoc(base: Bytes, tokens: seq<Bytes>, token: Bytes)
    ensures base + Encode(tokens) + Str(token) == base + Encode(tokens + [token])
  {
    EncodeAppend(tokens, [token]);
    assert Encode([token]) == Str(token) + Encode([]);
    var a, b := Encode(tokens), Str(token);
    assert base + a + b == base + (a + b);
  }

  method WriteNarTo(w: ByteSink, t: NarNode)
    modifies w
    ensures w.buf == old(w.buf) + WriteNar(t)
    ensures IsArchive(w.buf[|old(w.buf)|..], t)
  {
    WrittenIsArchive(t);
    ghost var base := w.buf;
    assert base == base + Encode([]);
    ghost var written := WriteStrTo(w, MAGIC, base, []);
    written := WriteNarObjTo(w, t, base, written);
    assert [] + [MAGIC] == [MAGIC];
  }

  method WriteNarObjTo(w: ByteSink, t: NarNode, ghost base: Bytes, ghost written: seq<Bytes>)
    returns (ghost after: seq<Bytes>)
    requires w.buf == base + Encode(written)
    modifies w
    ensures after == written + ObjTokens(t) && w.buf == base + Encode(after)
    decreases t, 1
  {
    ghost var head := [OPEN, TYPE, TypeToken(t)];
    after := WriteHeadTo(w, TypeToken(t), base, written);
    after := WriteBodyTo(w, t, base, after);
    assert after == written + (head + BodyTokens(t));
    after := WriteStrTo(w, CLOSE, base, after);
  }

  method WriteHeadTo(w: ByteSink, ty: Bytes, ghost base: Bytes, ghost written: seq<Bytes>)
    returns (ghost after: seq<Bytes>)
    requires w.buf == base + Encode(written)
    modifies w
    ensures after == written + [OPEN, TYPE, ty] && w.buf == base + Encode(after)
  {
    after := WriteStrTo(w, OPEN, base, written);
    after := WriteStrTo(w, TYPE, base, after);
    after := WriteStrTo(w, ty, base, after);
  }

  method WriteBodyTo(w: ByteSink, t: NarNode, ghost base: Bytes, ghost written: seq<Bytes>)
    returns (ghost after: seq<Bytes>)
    requires w.buf == base + Encode(written)
    modifies w
    ensures after == written + BodyTokens(t) && w.buf == base + Encode(after)
    decreases t, 0
  {
    match t {
      case Regular(executable, data) =>
        after := WriteRegularTo(w, executable, data, base, written);
      case Directory(entries) =>
        after := WriteEntriesTo(w, entries, base, written);
      case Symlink(target) =>
        after := WriteStrTo(w, TARGET, base, written);
        after := WriteStrTo(w, target, base, after);
    }
  }

  method WriteRegularTo(w: ByteSink, executable: bool, data: Bytes, ghost base: Bytes,
                        ghost written: seq<Bytes>)
    returns (ghost after: seq<Bytes>)
    requires w.buf == base + Encode(written)
    modifies w
    ensures after == written + RegularTokens(executable, data) && w.buf == base + Encode(after)
  {
    after := written;
    if executable {
      after := WriteStrTo(w, EXECUTABLE, base, after);
      after := WriteStrTo(w, [], base, after);
    }
    after := WriteStrTo(w, CONTENTS, base, after);
    after := WriteStrTo(w, data, base, after);
  }

  method WriteEntriesTo(w: ByteSink, entries: seq<DirEntry>, ghost base: Bytes,
                        ghost written: seq<Bytes>)
    returns (ghost after: seq<Bytes>)
    requires w.buf == base + Encode(written)
    modifies w
    ensures after == written + EntriesTokens(entries) && w.buf == base + Encode(after)
    decreases entries, 0
  {
    after := written;
    var i := 0;
    while i < |entries|
      invariant 0 <= i <= |entries|
      invariant w.buf == base + Encode(after)
      invariant after + EntriesTokens(entries[i..]) == written + EntriesTokens(entries)
    {
      EntriesTokensStep(entries, i, after);
      after := WriteEntryTo(w, entries[i], base, after);
      i := i + 1;
    }
  }

  lemma EntriesTokensStep(es: seq<DirEntry>, i: nat, written: seq<Bytes>)
    requires i < |es|
    ensures written + EntriesTokens(es[i..])
            == written + EntryTokens(es[i].name, ObjTokens(es[i].node)) + EntriesTokens(es[i + 1..])
  {
  }

  method WriteEntryTo(w: ByteSink, entry: DirEntry, ghost base: Bytes, ghost written: seq<Bytes>)
    returns (ghost after: seq<Bytes>)
    requires w.buf == base + Encode(written)
    modifies w
    ensures after == written + EntryTokens(entry.name, ObjTokens(entry.node))
    ensures w.buf == base + Encode(after)
    decreases entry, 2
  {
    ghost var head := [ENTRY, OPEN, NAME, entry.name, NODE];
    after := WriteEntryHeadTo(w, entry.name, base, written);
    after := WriteNarObjTo(w, entry.node, base, after);
    assert after == written + (head + ObjTokens(entry.node));
    after := WriteStrTo(w, CLOSE, base, after);
  }

  method WriteEntryHeadTo(w: ByteSink, name: Bytes, ghost base: Bytes, ghost written: seq<Bytes>)
    returns (ghost after: seq<Bytes>)
    requires w.buf == base + Encode(written)
    modifies w
    ensures after == written + [ENTRY, OPEN, NAME, name, NODE] && w.buf == base + Encode(after)
  {
    after := WriteStrTo(w, ENTRY, base, written);
    after := WriteStrTo(w, OPEN, base, after);
    after := WriteStrTo(w, NAME, base, after);
    after := WriteStrTo(w, name, base, after);
    after := WriteStrTo(w, NODE, base, after);
  }
}
