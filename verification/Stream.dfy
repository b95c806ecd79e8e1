/** Streaming archives and deltas: the server frames payloads as messages, the client reassembles them. */
module Streams {
  import opened Base

  const NAR_CHUNK_SIZE: nat := 65_536

  datatype NarChunk = NarChunk(pathHash: string, data: Bytes, last: bool, fileSize: nat, isDelta: bool)

  // --- The chunking writer ---

  /** Full blocks of `chunkSize` bytes. */
  ghost predicate Full(blocks: seq<Bytes>, chunkSize: nat) {
    forall b :: b in blocks ==> |b| == chunkSize
  }

  /** Full blocks, except that the last may be shorter but not empty. */
  ghost predicate Blocks(blocks: seq<Bytes>, chunkSize: nat) {
    blocks == [] || (Full(blocks[..|blocks| - 1], chunkSize) && 0 < |blocks[|blocks| - 1]| <= chunkSize)
  }

  lemma FlattenSnoc(blocks: seq<Bytes>, b: Bytes)
    ensures Flatten(blocks + [b]) == Flatten(blocks) + b
  {
    FlattenAppend(blocks, [b]);
    assert Flatten([b]) == b + Flatten([b][1..]);
  }

  class ChannelWriter {
    const chunkSize: nat
    var buf: Bytes
    var sent: seq<Bytes>

    ghost predicate Valid()
      reads this
    {
      |buf| < chunkSize && Full(sent, chunkSize)
    }

    ghost function Written(): Bytes
      reads this
    {
      Flatten(sent) + buf
    }

    constructor (chunkSize: nat)
      requires chunkSize > 0
      ensures Valid() && sent == [] && Written() == [] && this.chunkSize == chunkSize
    {
      this.chunkSize := chunkSize;
      buf, sent := [], [];
    }

    method Write(data: Bytes)
      requires Valid()
      modifies this
      ensures Valid() && Written() == old(Written()) + data
    {
      var written := 0;
      while written < |data|
        invariant 0 <= written <= |data| && Valid()
        invariant Written() == old(Written()) + data[..written]
      {
        var space := chunkSize - |buf|;
        var n := if space < |data| - written then space else |data| - written;
        assert data[..written + n] == data[..written] + data[written..written + n];
        Fill(data[written..written + n]);
        written := written + n;
      }
      assert data[..written] == data;
    }

    /** Buffers what fits and sends the block once it is full. */
    method Fill(part: Bytes)
      requires Valid() && |part| <= chunkSize - |buf|
      modifies this
      ensures Valid() && Written() == old(Written()) + part
    {
      assert Flatten(sent) + (buf + part) == Written() + part;
      buf := buf + part;
      if |buf| >= chunkSize {
        FlattenSnoc(sent, buf);
        sent := sent + [buf];
        buf := [];
        assert Written() == Flatten(sent);
      }
    }

    method FlushFinal()
      requires Valid()
      modifies this
      ensures Blocks(sent, chunkSize) && Flatten(sent) == old(Written())
    {
      if buf != [] {
        FlattenSnoc(sent, buf);
        sent := sent + [buf];
        buf := [];
      }
    }
  }

  // --- The server ---

  /** What the server finds for a requested hash: a cached delta, an archive that is written in some
      split of writes and may fail after any of them, or nothing. */
  datatype Item =
    | Delta(hash: string, delta: Bytes)
    | Nar(hash: string, narSize: nat, writes: seq<Bytes>, complete: bool)
    | Unavailable(hash: string)

  /** The messages of one archive: its blocks, then an empty terminal message. */
  function NarFrames(hash: string, narSize: nat, blocks: seq<Bytes>): seq<NarChunk> {
    BlockFrames(hash, narSize, blocks) + [NarChunk(hash, [], true, 0, false)]
  }

  function BlockFrames(hash: string, narSize: nat, blocks: seq<Bytes>): seq<NarChunk> {
    if blocks == [] then []
    else
      var n := |blocks| - 1;
      BlockFrames(hash, narSize, blocks[..n]) + [NarChunk(hash, blocks[n], false, if n == 0 then narSize else 0, false)]
  }

  /** The messages of data sent at once: full blocks, the size on the first, the last one marked; a single
      empty message if there is no data. */
  ghost predicate DataFrames(hash: string, isDelta: bool, data: Bytes, frames: seq<NarChunk>) {
    && |frames| > 0 && Payload(frames) == data
    && (forall i :: 0 <= i < |frames| ==> frames[i].pathHash == hash && frames[i].isDelta == isDelta
                                          && (frames[i].last <==> i == |frames| - 1)
                                          && frames[i].fileSize == (if i == 0 then |data| else 0)
                                          && (i < |frames| - 1 ==> |frames[i].data| == NAR_CHUNK_SIZE))
  }

  function Payload(frames: seq<NarChunk>): Bytes {
    if frames == [] then [] else Payload(frames[..|frames| - 1]) + frames[|frames| - 1].data
  }

  /** What is delivered: everything, except that of an archive that could not be written completely
      only the full blocks of what was written are. */
  function PayloadOf(item: Item): Bytes
    requires !item.Unavailable?
  {
    match item
    case Delta(_, delta) => delta
    case Nar(_, _, writes, complete) =>
      var all := Flatten(writes);
      if complete then all else all[..|all| - |all| % NAR_CHUNK_SIZE]
  }

  /** The messages for one requested hash. */
  ghost predicate Frames(item: Item, frames: seq<NarChunk>) {
    match item
    case Unavailable(_) => frames == []
    case Delta(hash, delta) => DataFrames(hash, true, delta, frames)
    case Nar(hash, narSize, _, _) =>
      exists blocks: seq<Bytes> :: frames == NarFrames(hash, narSize, blocks) && Cut(blocks, PayloadOf(item))
  }

  ghost predicate Cut(blocks: seq<Bytes>, payload: Bytes) {
    Blocks(blocks, NAR_CHUNK_SIZE) && Flatten(blocks) == payload
  }

  ghost predicate Framing(items: seq<Item>, frames: seq<seq<NarChunk>>) {
    |frames| == |items| && forall i :: 0 <= i < |items| ==> Frames(items[i], frames[i])
  }

  /** The messages for all requested hashes, one after the other. */
  ghost predicate Streamed(items: seq<Item>, messages: seq<NarChunk>) {
    exists frames :: Framing(items, frames) && messages == Flatten(frames)
  }

  lemma FramingSnoc(items: seq<Item>, frames: seq<seq<NarChunk>>, item: Item, sent: seq<NarChunk>)
    requires Framing(items, frames) && Frames(item, sent)
    ensures Framing(items + [item], frames + [sent]) && Flatten(frames + [sent]) == Flatten(frames) + sent
  {
    FlattenAppend(frames, [sent]);
    assert Flatten([sent]) == sent + Flatten([sent][1..]);
  }

  method StreamItem(item: Item) returns (sent: seq<NarChunk>)
    ensures Frames(item, sent)
  {
    match item
    case Delta(hash, delta) => sent := SendNarChunks(hash, delta, true);
    case Nar(hash, narSize, writes, complete) => sent := StreamNar(hash, narSize, writes, complete);
    case Unavailable(_) => sent := [];
  }

  method SendNarChunks(hash: string, data: Bytes, isDelta: bool) returns (frames: seq<NarChunk>)
    ensures DataFrames(hash, isDelta, data, frames)
  {
    var total := |data|;
    var offset := 0;
    var first := true;
    frames := [];
    while offset < total
      invariant 0 <= offset <= total && Payload(frames) == data[..offset]
      invariant first <==> offset == 0
      invariant offset > 0 <==> |frames| > 0
      invariant offset < total ==> offset == |frames| * NAR_CHUNK_SIZE
      invariant forall i :: 0 <= i < |frames| ==>
                  && frames[i].pathHash == hash && frames[i].isDelta == isDelta
                  && (frames[i].last <==> offset == total && i == |frames| - 1)
                  && frames[i].fileSize == (if i == 0 then total else 0)
                  && (i < |frames| - 1 || offset < total ==> |frames[i].data| == NAR_CHUNK_SIZE)
    {
      var end := if offset + NAR_CHUNK_SIZE < total then offset + NAR_CHUNK_SIZE else total;
      var chunk := NarChunk(hash, data[offset..end], end == total, if first then total else 0, isDelta);
      assert data[..end] == data[..offset] + data[offset..end];
      PayloadSnoc(frames, chunk);
      frames := frames + [chunk];
      first := false;
      offset := end;
    }
    if total == 0 {
      frames := [NarChunk(hash, [], true, 0, isDelta)];
    }
    assert data[..total] == data;
  }

  method StreamNar(hash: string, narSize: nat, writes: seq<Bytes>, complete: bool) returns (frames: seq<NarChunk>)
    ensures Frames(Nar(hash, narSize, writes, complete), frames)
  {
    var blocks := WriteBlocks(writes, complete);
    frames := ForwardBlocks(hash, narSize, blocks);
    frames := frames + [NarChunk(hash, [], true, 0, false)];
    ghost var item := Nar(hash, narSize, writes, complete);
    assert frames == NarFrames(hash, narSize, blocks) && Cut(blocks, PayloadOf(item));
  }

  /** The writing side; without `FlushFinal` the unsent rest is dropped with the writer. */
  method WriteBlocks(writes: seq<Bytes>, complete: bool) returns (blocks: seq<Bytes>)
    ensures Cut(blocks, PayloadOf(Nar("", 0, writes, complete)))
  {
    var w := new ChannelWriter(NAR_CHUNK_SIZE);
    WriteAll(w, writes);
    SentIsFullBlocks(w.sent, w.buf, Flatten(writes));
    if complete {
      w.FlushFinal();
    }
    blocks := w.sent;
  }

  method WriteAll(w: ChannelWriter, writes: seq<Bytes>)
    requires w.Valid() && w.Written() == []
    modifies w
    ensures w.Valid() && w.Written() == Flatten(writes)
  {
    var i := 0;
    while i < |writes|
      invariant 0 <= i <= |writes| && w.Valid() && w.Written() == Flatten(writes[..i])
    {
      assert writes[..i + 1] == writes[..i] + [writes[i]];
      FlattenSnoc(writes[..i], writes[i]);
      w.Write(writes[i]);
      i := i + 1;
    }
    assert writes[..i] == writes;
  }

  /** The receiving end of the writer's channel: blocks become messages, the first with the size. */
  method ForwardBlocks(hash: string, narSize: nat, blocks: seq<Bytes>) returns (frames: seq<NarChunk>)
    ensures frames == BlockFrames(hash, narSize, blocks)
  {
    frames := [];
    var first := true;
    var i := 0;
    while i < |blocks|
      invariant 0 <= i <= |blocks| && (first <==> i == 0)
      invariant frames == BlockFrames(hash, narSize, blocks[..i])
    {
      assert blocks[..i + 1][..i] == blocks[..i];
      frames := frames + [NarChunk(hash, blocks[i], false, if first then narSize else 0, false)];
      first := false;
      i := i + 1;
    }
    assert blocks[..i] == blocks;
  }

  lemma PayloadSnoc(frames: seq<NarChunk>, f: NarChunk)
    ensures Payload(frames + [f]) == Payload(frames) + f.data
  {
  }

  /** What has been sent before the final flush is the full blocks of what was written. */
  lemma SentIsFullBlocks(sent: seq<Bytes>, buf: Bytes, all: Bytes)
    requires Full(sent, NAR_CHUNK_SIZE) && |buf| < NAR_CHUNK_SIZE && all == Flatten(sent) + buf
    ensures Cut(sent, all[..|all| - |all| % NAR_CHUNK_SIZE])
  {
    FullBlocks(sent);
    assert |all| - |all| % NAR_CHUNK_SIZE == |Flatten(sent)|;
  }

  lemma {:induction false} FullBlocks(blocks: seq<Bytes>)
    requires Full(blocks, NAR_CHUNK_SIZE)
    ensures |Flatten(blocks)| == |blocks| * NAR_CHUNK_SIZE
    ensures Blocks(blocks, NAR_CHUNK_SIZE)
    decreases |blocks|
  {
    if blocks != [] {
      FullBlocks(blocks[1..]);
      assert blocks[0] in blocks && blocks[|blocks| - 1] in blocks;
    }
  }
}
