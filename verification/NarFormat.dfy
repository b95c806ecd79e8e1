/** The Nix Archive format: trees, the bytes they are written as, and a look-ahead grammar
    that reads them back.  (Nix Reference Manual, section "Nix Archive (NAR) Format".) */
module NarFormat {
  import opened Base

  datatype NarNode =
    | Regular(executable: bool, data: Bytes)
    | Directory(entries: seq<DirEntry>)
    | Symlink(target: Bytes)

  datatype DirEntry = DirEntry(name: Bytes, node: NarNode)

  datatype NarError =
    | UnexpectedEof
    | UnexpectedToken
    | InvalidUtf8
    | UnknownType
    | UnexpectedField

  // --- Trees a Rust program can hold ---

  predicate IsText(s: Bytes) { |s| < U64 && IsUtf8(s) }

  /** Names and targets are `String`s, and no length exceeds 64 bits. */
  predicate Representable(t: NarNode) {
    match t
    case Regular(_, data) => |data| < U64
    case Directory(entries) => RepresentableEntries(entries)
    case Symlink(target) => IsText(target)
  }

  predicate RepresentableEntries(es: seq<DirEntry>) {
    es == [] || (IsText(es[0].name) && Representable(es[0].node) && RepresentableEntries(es[1..]))
  }

  // --- Writing ---

  function Padding(n: nat): nat { (8 - n % 8) % 8 }

  function Zeros(n: nat): (b: Bytes)
    ensures |b| == n
  {
    seq(n, _ => 0)
  }

  /** Length prefix, payload, zeros up to a multiple of 8. */
  function Str(s: Bytes): (b: Bytes)
    ensures |b| == 8 + |s| + Padding(|s|)
  {
    LeBytes(|s|, 8) + s + Zeros(Padding(|s|))
  }

  const MAGIC: Bytes := Ascii("nix-archive-1")
  const OPEN: Bytes := Ascii("(")
  const CLOSE: Bytes := Ascii(")")
  const TYPE: Bytes := Ascii("type")
  const REGULAR: Bytes := Ascii("regular")
  const DIRECTORY: Bytes := Ascii("directory")
  const SYMLINK: Bytes := Ascii("symlink")
  const EXECUTABLE: Bytes := Ascii("executable")
  const CONTENTS: Bytes := Ascii("contents")
  const TARGET: Bytes := Ascii("target")
  const ENTRY: Bytes := Ascii("entry")
  const NAME: Bytes := Ascii("name")
  const NODE: Bytes := Ascii("node")

  // An archive is a list of strings, each written with its own prefix and padding.

  function Encode(tokens: seq<Bytes>): Bytes {
    if tokens == [] then [] else Str(tokens[0]) + Encode(tokens[1..])
  }

  function WriteNar(t: NarNode): Bytes { Encode([MAGIC] + ObjTokens(t)) }

  function ObjTokens(t: NarNode): seq<Bytes> {
    [OPEN, TYPE, TypeToken(t)] + BodyTokens(t) + [CLOSE]
  }

  function TypeToken(t: NarNode): Bytes {
    match t
    case Regular(_, _) => REGULAR
    case Directory(_) => DIRECTORY
    case Symlink(_) => SYMLINK
  }

  function BodyTokens(t: NarNode): seq<Bytes>
    decreases t, 0
  {
    match t
    case Regular(executable, data) => RegularTokens(executable, data)
    case Directory(entries) => EntriesTokens(entries)
    case Symlink(target) => [TARGET, target]
  }

  function RegularTokens(executable: bool, data: Bytes): seq<Bytes> {
    (if executable then [EXECUTABLE, []] else []) + [CONTENTS, data]
  }

  function EntriesTokens(es: seq<DirEntry>): seq<Bytes> {
    if es == [] then [] else EntryTokens(es[0].name, ObjTokens(es[0].node)) + EntriesTokens(es[1..])
  }

  function EntryTokens(name: Bytes, obj: seq<Bytes>): seq<Bytes> {
    [ENTRY, OPEN, NAME, name, NODE] + obj + [CLOSE]
  }

  // --- Reading ---

  datatype Parsed<+T> = Parsed(value: T, next: nat)

  type Read<+T> = Result<Parsed<T>, NarError>

  function ReadU64(data: Bytes, pos: nat): Read<nat> {
    if pos + 8 <= |data| then Ok(Parsed(LeValue(data[pos..pos + 8]), pos + 8)) else Err(UnexpectedEof)
  }

  /** The padding is skipped without being looked at, so `next` may lie up to 7 bytes past the end. */
  function ReadStr(data: Bytes, pos: nat): (r: Read<Bytes>)
    ensures r.Ok? ==> pos + 8 <= |data| && pos + 8 + |r.value.value| <= |data|
    ensures r.Ok? ==> r.value.next == pos + 8 + |r.value.value| + Padding(|r.value.value|)
    ensures r.Ok? ==> |r.value.value| < U64 && r.value.next <= |data| + 7
  {
    if pos + 8 <= |data| then
      var n := LeValue(data[pos..pos + 8]);
      LeValueBound(data[pos..pos + 8]);
      Pow256Of8();
      if pos + 8 + n <= |data| then Ok(Parsed(data[pos + 8..pos + 8 + n], pos + 8 + n + Padding(n)))
      else Err(UnexpectedEof)
    else Err(UnexpectedEof)
  }

  function ReadString(data: Bytes, pos: nat): (r: Read<Bytes>)
    ensures r.Ok? ==> IsText(r.value.value) && ReadStr(data, pos) == r
  {
    var r := ReadStr(data, pos);
    if r.Ok? && !IsUtf8(r.value.value) then Err(InvalidUtf8) else r
  }

  function Expect(data: Bytes, pos: nat, token: Bytes): (r: Result<nat, NarError>)
    ensures r.Ok? ==> pos < r.value <= |data| + 7
  {
    var r := ReadStr(data, pos);
    if r.Err? then Err(r.error)
    else if r.value.value != token then Err(UnexpectedToken)
    else Ok(r.value.next)
  }

  /** How far reading can still go; every token read makes it smaller. */
  function Left(data: Bytes, pos: nat): nat {
    if pos <= |data| + 8 then |data| + 8 - pos else 0
  }

  function ParseNar(data: Bytes): Result<NarNode, NarError> {
    var m := Expect(data, 0, MAGIC);
    if m.Err? then Err(m.error)
    else
      var r := ParseObj(data, m.value);
      if r.Err? then Err(r.error) else Ok(r.value.value)
  }

  function ParseObj(data: Bytes, pos: nat): (r: Read<NarNode>)
    ensures r.Ok? ==> pos < r.value.next <= |data| + 7
    decreases Left(data, pos), 2
  {
    var p1 := Expect(data, pos, OPEN);
    if p1.Err? then Err(p1.error) else
    var p2 := Expect(data, p1.value, TYPE);
    if p2.Err? then Err(p2.error) else
    var ty := ReadString(data, p2.value);
    if ty.Err? then Err(ty.error) else
    var body := ParseBody(data, ty.value.value, ty.value.next);
    if body.Err? then body else
    var p4 := Expect(data, body.value.next, CLOSE);
    if p4.Err? then Err(p4.error) else Ok(Parsed(body.value.value, p4.value))
  }

  function ParseBody(data: Bytes, ty: Bytes, pos: nat): (r: Read<NarNode>)
    ensures r.Ok? ==> pos <= r.value.next && (pos <= |data| + 7 ==> r.value.next <= |data| + 7)
    decreases Left(data, pos), 1
  {
    if ty == REGULAR then ParseRegular(data, pos, false)
    else if ty == DIRECTORY then AsDirectory(ParseEntries(data, pos))
    else if ty == SYMLINK then ParseSymlink(data, pos)
    else Err(UnknownType)
  }

  function AsDirectory(es: Read<seq<DirEntry>>): Read<NarNode> {
    if es.Err? then Err(es.error) else Ok(Parsed(Directory(es.value.value), es.value.next))
  }

  function ParseSymlink(data: Bytes, pos: nat): (r: Read<NarNode>)
    ensures r.Ok? ==> pos <= r.value.next <= |data| + 7
  {
    var p := Expect(data, pos, TARGET);
    if p.Err? then Err(p.error) else
    var target := ReadString(data, p.value);
    if target.Err? then Err(target.error)
    else Ok(Parsed(Symlink(target.value.value), target.value.next))
  }

  /** A `)` ends the fields and is left for the caller. */
  function ParseRegular(data: Bytes, pos: nat, executable: bool): (r: Read<NarNode>)
    ensures r.Ok? ==> pos <= r.value.next && (pos <= |data| + 7 ==> r.value.next <= |data| + 7)
    decreases Left(data, pos)
  {
    var field := ReadString(data, pos);
    if field.Err? then Err(field.error)
    else if field.value.value == EXECUTABLE then
      var ignored := ReadStr(data, field.value.next);
      if ignored.Err? then Err(ignored.error) else ParseRegular(data, ignored.value.next, true)
    else if field.value.value == CONTENTS then
      var contents := ReadStr(data, field.value.next);
      if contents.Err? then Err(contents.error)
      else Ok(Parsed(Regular(executable, contents.value.value), contents.value.next))
    else if field.value.value == CLOSE then Ok(Parsed(Regular(executable, []), pos))
    else Err(UnexpectedField)
  }

  /** A `)`, or fewer than 8 remaining bytes, ends the entries and is left for the caller. */
  function ParseEntries(data: Bytes, pos: nat): (r: Read<seq<DirEntry>>)
    ensures r.Ok? ==> pos <= r.value.next && (pos <= |data| + 7 ==> r.value.next <= |data| + 7)
    decreases Left(data, pos), 0
  {
    if pos + 8 > |data| then Ok(Parsed([], pos)) else
    var token := ReadString(data, pos);
    if token.Err? then Err(token.error)
    else if token.value.value == ENTRY then
      var e := ParseEntry(data, token.value.next);
      if e.Err? then Err(e.error) else
      Prepend([e.value.value], ParseEntries(data, e.value.next))
    else if token.value.value == CLOSE then Ok(Parsed([], pos))
    else Err(UnexpectedToken)
  }

  function Prepend(es: seq<DirEntry>, r: Read<seq<DirEntry>>): Read<seq<DirEntry>> {
    if r.Err? then r else Ok(Parsed(es + r.value.value, r.value.next))
  }

  function ParseEntry(data: Bytes, pos: nat): (r: Read<DirEntry>)
    ensures r.Ok? ==> pos < r.value.next <= |data| + 7
    decreases Left(data, pos), 3
  {
    var p1 := Expect(data, pos, OPEN);
    if p1.Err? then Err(p1.error) else
    var p2 := Expect(data, p1.value, NAME);
    if p2.Err? then Err(p2.error) else
    var name := ReadString(data, p2.value);
    if name.Err? then Err(name.error) else
    var p4 := Expect(data, name.value.next, NODE);
    if p4.Err? then Err(p4.error) else
    var node := ParseObj(data, p4.value);
    if node.Err? then Err(node.error) else
    var p6 := Expect(data, node.value.next, CLOSE);
    if p6.Err? then Err(p6.error)
    else Ok(Parsed(DirEntry(name.value.value, node.value.value), p6.value))
  }
}
