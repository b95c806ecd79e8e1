/** The client's side of the stream: reassembly, and what it stages for import. */
module StreamClients {
  import opened Base
  import opened Streams

  /** One finished download. */
  datatype Transfer = Transfer(hash: string, payload: Bytes, isDelta: bool)

  datatype Client = Client(hash: string, buf: Bytes, isDelta: bool, received: seq<Transfer>)

  const START: Client := Client("", [], false, [])

  /** A message for another hash starts over; the flag is only looked at then. */
  function Receive(c: Client, m: NarChunk): Client {
    var c1 := if m.pathHash != c.hash then Client(m.pathHash, [], m.isDelta, c.received) else c;
    var buf := c1.buf + m.data;
    if m.last then c1.(buf := [], received := c1.received + [Transfer(c1.hash, buf, c1.isDelta)])
    else c1.(buf := buf)
  }

  function ReceiveAll(c: Client, ms: seq<NarChunk>): Client {
    if ms == [] then c else Receive(ReceiveAll(c, ms[..|ms| - 1]), ms[|ms| - 1])
  }

  // --- Reassembly inverts framing ---

  /** What the client makes of `items` if it last saw a message for `hash` flagged `flag`. */
  function Remembered(hash: string, flag: bool, items: seq<Item>): seq<Transfer>
    decreases |items|
  {
    if items == [] then []
    else if items[0].Unavailable? then Remembered(hash, flag, items[1..])
    else
      var f := if items[0].hash != hash then items[0].Delta? else flag;
      [Transfer(items[0].hash, PayloadOf(items[0]), f)] + Remembered(items[0].hash, f, items[1..])
  }

  /** What was sent. */
  function Transfers(items: seq<Item>): seq<Transfer> {
    if items == [] then []
    else if items[0].Unavailable? then Transfers(items[1..])
    else [Transfer(items[0].hash, PayloadOf(items[0]), items[0].Delta?)] + Transfers(items[1..])
  }

  /** A payload is never of another kind than the one before it if both are for the same hash. */
  predicate Steady(hash: string, flag: bool, items: seq<Item>)
    decreases |items|
  {
    items == []
    || (if items[0].Unavailable? then Steady(hash, flag, items[1..])
        else (items[0].hash == hash ==> items[0].Delta? == flag)
             && Steady(items[0].hash, items[0].Delta?, items[1..]))
  }

  /** The messages of one payload: one hash, one flag, marked as last only at the end. */
  ghost predicate OnePayload(frames: seq<NarChunk>, hash: string, isDelta: bool, payload: Bytes) {
    && |frames| > 0 && Payload(frames) == payload
    && forall i :: 0 <= i < |frames| ==> frames[i].pathHash == hash && frames[i].isDelta == isDelta
                                         && (frames[i].last <==> i == |frames| - 1)
  }

  lemma {:induction false} BlockFramesCarry(hash: string, narSize: nat, blocks: seq<Bytes>)
    ensures var fs := BlockFrames(hash, narSize, blocks);
            && |fs| == |blocks| && Payload(fs) == Flatten(blocks)
            && forall i :: 0 <= i < |fs| ==> fs[i].pathHash == hash && !fs[i].isDelta && !fs[i].last
    decreases |blocks|
  {
    if blocks != [] {
      var n := |blocks| - 1;
      BlockFramesCarry(hash, narSize, blocks[..n]);
      assert blocks == blocks[..n] + [blocks[n]];
      FlattenSnoc(blocks[..n], blocks[n]);
      PayloadSnoc(BlockFrames(hash, narSize, blocks[..n]),
                  NarChunk(hash, blocks[n], false, if n == 0 then narSize else 0, false));
    }
  }

  lemma FramesAreOnePayload(item: Item, frames: seq<NarChunk>)
    requires Frames(item, frames) && !item.Unavailable?
    ensures OnePayload(frames, item.hash, item.Delta?, PayloadOf(item))
  {
    if item.Nar? {
      var blocks: seq<Bytes> :| frames == NarFrames(item.hash, item.narSize, blocks) && Cut(blocks, PayloadOf(item));
      NarFramesAreOnePayload(item.hash, item.narSize, blocks);
    }
  }

  lemma NarFramesAreOnePayload(hash: string, narSize: nat, blocks: seq<Bytes>)
    ensures OnePayload(NarFrames(hash, narSize, blocks), hash, false, Flatten(blocks))
  {
    BlockFramesCarry(hash, narSize, blocks);
    PayloadSnoc(BlockFrames(hash, narSize, blocks), NarChunk(hash, [], true, 0, false));
  }

  lemma {:induction false} PartIsReceived(c: Client, frames: seq<NarChunk>, hash: string, flag: bool, k: nat)
    requires c.buf == [] && 0 < k <= |frames|
    requires forall i :: 0 <= i < k ==> frames[i].pathHash == hash && frames[i].isDelta == flag && !frames[i].last
    ensures ReceiveAll(c, frames[..k])
            == Client(hash, Payload(frames[..k]), if hash != c.hash then flag else c.isDelta, c.received)
    decreases k
  {
    assert frames[..k][..k - 1] == frames[..k - 1];
    if k > 1 {
      PartIsReceived(c, frames, hash, flag, k - 1);
    }
  }

  lemma PayloadIsReceived(c: Client, frames: seq<NarChunk>, hash: string, flag: bool, payload: Bytes)
    requires c.buf == [] && OnePayload(frames, hash, flag, payload)
    ensures var f := if hash != c.hash then flag else c.isDelta;
            ReceiveAll(c, frames) == Client(hash, [], f, c.received + [Transfer(hash, payload, f)])
  {
    var n := |frames| - 1;
    if n == 0 {
      assert frames[..n] == [];
    } else {
      PartIsReceived(c, frames, hash, flag, n);
    }
    assert frames == frames[..n] + [frames[n]];
    PayloadSnoc(frames[..n], frames[n]);
  }

  lemma {:induction false} ReceiveAllAppend(c: Client, a: seq<NarChunk>, b: seq<NarChunk>)
    ensures ReceiveAll(c, a + b) == ReceiveAll(ReceiveAll(c, a), b)
    decreases |b|
  {
    if b == [] {
      assert a + b == a;
    } else {
      assert (a + b)[..|a + b| - 1] == a + b[..|b| - 1];
      ReceiveAllAppend(c, a, b[..|b| - 1]);
    }
  }

  /** A stream that breaks off has delivered a beginning of what the whole stream delivers. */
  lemma {:induction false} BrokenStreamIsPrefix(c: Client, ms: seq<NarChunk>, k: nat)
    requires k <= |ms|
    ensures ReceiveAll(c, ms[..k]).received <= ReceiveAll(c, ms).received
    decreases |ms|
  {
    var n := |ms| - 1;
    if k <= n {
      assert ms[..n][..k] == ms[..k];
      BrokenStreamIsPrefix(c, ms[..n], k);
    } else {
      assert ms[..k] == ms;
    }
  }

  /** The client after all messages for one requested hash. */
  function ReceiveItem(c: Client, item: Item): Client {
    if item.Unavailable? then c
    else
      var f := if item.hash != c.hash then item.Delta? else c.isDelta;
      Client(item.hash, [], f, c.received + [Transfer(item.hash, PayloadOf(item), f)])
  }

  lemma ItemIsReceived(c: Client, item: Item, frames: seq<NarChunk>)
    requires c.buf == [] && Frames(item, frames)
    ensures ReceiveAll(c, frames) == ReceiveItem(c, item)
  {
    if !item.Unavailable? {
      FramesAreOnePayload(item, frames);
      PayloadIsReceived(c, frames, item.hash, item.Delta?, PayloadOf(item));
    }
  }

  lemma HeadIsReceived(c: Client, items: seq<Item>, frames: seq<seq<NarChunk>>)
    requires c.buf == [] && Framing(items, frames) && items != []
    ensures ReceiveAll(c, Flatten(frames)) == ReceiveAll(ReceiveItem(c, items[0]), Flatten(frames[1..]))
    ensures Framing(items[1..], frames[1..])
  {
    assert Frames(items[0], frames[0]);
    ItemIsReceived(c, items[0], frames[0]);
    ReceiveAllAppend(c, frames[0], Flatten(frames[1..]));
  }

  lemma RememberedStep(c: Client, items: seq<Item>)
    requires items != []
    ensures var c1 := ReceiveItem(c, items[0]);
            c1.received + Remembered(c1.hash, c1.isDelta, items[1..])
            == c.received + Remembered(c.hash, c.isDelta, items)
  {
    if !items[0].Unavailable? {
      var f := if items[0].hash != c.hash then items[0].Delta? else c.isDelta;
      var t := Transfer(items[0].hash, PayloadOf(items[0]), f);
      var rest := Remembered(items[0].hash, f, items[1..]);
      Associative(c.received, t, rest);
    }
  }

  lemma Associative(a: seq<Transfer>, t: Transfer, b: seq<Transfer>)
    ensures a + [t] + b == a + ([t] + b)
  {
  }

  lemma {:induction false} StreamIsRemembered(c: Client, items: seq<Item>, frames: seq<seq<NarChunk>>)
    requires c.buf == [] && Framing(items, frames)
    ensures ReceiveAll(c, Flatten(frames)).received == c.received + Remembered(c.hash, c.isDelta, items)
    decreases |items|
  {
    if items == [] {
      assert Flatten(frames) == [];
    } else {
      HeadIsReceived(c, items, frames);
      RememberedStep(c, items);
      StreamIsRemembered(ReceiveItem(c, items[0]), items[1..], frames[1..]);
    }
  }

  lemma {:induction false} RememberedIffSteady(hash: string, flag: bool, items: seq<Item>)
    ensures Remembered(hash, flag, items) == Transfers(items) <==> Steady(hash, flag, items)
    decreases |items|
  {
    if items != [] {
      if items[0].Unavailable? {
        RememberedIffSteady(hash, flag, items[1..]);
      } else {
        RememberedIffSteady(items[0].hash, items[0].Delta?, items[1..]);
        var f := if items[0].hash != hash then items[0].Delta? else flag;
        var head := Transfer(items[0].hash, PayloadOf(items[0]), f);
        assert Remembered(hash, flag, items)[0] == head;
        assert Remembered(hash, flag, items)[1..] == Remembered(items[0].hash, f, items[1..]);
        assert Transfers(items)[1..] == Transfers(items[1..]);
      }
    }
  }

  /** The client recovers every payload with its kind exactly if the stream is steady. */
  lemma StreamRoundTrip(items: seq<Item>, frames: seq<seq<NarChunk>>)
    requires Framing(items, frames)
    ensures ReceiveAll(START, Flatten(frames)).received == Transfers(items) <==> Steady("", false, items)
  {
    StreamIsRemembered(START, items, frames);
    RememberedIffSteady("", false, items);
  }

  /** An archive followed by a delta for the same hash: the delta is taken for a second archive. */
  lemma DeltaAfterArchiveIsMistaken(hash: string, narSize: nat, nar: Bytes, delta: Bytes, frames: seq<seq<NarChunk>>)
    requires Framing([Nar(hash, narSize, [nar], true), Delta(hash, delta)], frames)
    ensures ReceiveAll(START, Flatten(frames)).received == [Transfer(hash, nar, false), Transfer(hash, delta, false)]
  {
    var first, second := Nar(hash, narSize, [nar], true), Delta(hash, delta);
    StreamIsRemembered(START, [first, second], frames);
    RememberedOne("", false, first, [second]);
    RememberedOne(hash, false, second, []);
    assert [first] + [second] == [first, second] && [second] + [] == [second];
    assert PayloadOf(first) == nar by {
      assert Flatten([nar]) == nar + Flatten([]);
    }
  }

  lemma RememberedOne(hash: string, flag: bool, item: Item, rest: seq<Item>)
    requires !item.Unavailable?
    ensures var f := if item.hash != hash then item.Delta? else flag;
            Remembered(hash, flag, [item] + rest)
            == [Transfer(item.hash, PayloadOf(item), f)] + Remembered(item.hash, f, rest)
  {
    assert ([item] + rest)[1..] == rest;
  }

  /** Hashes and payloads are recovered in every stream, steady or not. */
  lemma {:induction false} PayloadsAreRecovered(hash: string, flag: bool, items: seq<Item>)
    ensures |Remembered(hash, flag, items)| == |Transfers(items)|
    ensures forall i :: 0 <= i < |Transfers(items)| ==>
              && Remembered(hash, flag, items)[i].hash == Transfers(items)[i].hash
              && Remembered(hash, flag, items)[i].payload == Transfers(items)[i].payload
    decreases |items|
  {
    if items != [] {
      var f := if items[0].Unavailable? || items[0].hash == hash then flag else items[0].Delta?;
      PayloadsAreRecovered(if items[0].Unavailable? then hash else items[0].hash, f, items[1..]);
    }
  }

  ghost predicate DistinctHashes(items: seq<Item>) {
    && (forall i :: 0 <= i < |items| ==> items[i].hash != "")
    && forall i, j :: 0 <= i < j < |items| ==> items[i].hash != items[j].hash
  }

  lemma {:induction false} DistinctIsSteady(hash: string, flag: bool, items: seq<Item>)
    requires forall i :: 0 <= i < |items| ==> items[i].hash != hash
    requires forall i, j :: 0 <= i < j < |items| ==> items[i].hash != items[j].hash
    ensures Steady(hash, flag, items)
    decreases |items|
  {
    if items != [] {
      if items[0].Unavailable? {
        DistinctIsSteady(hash, flag, items[1..]);
      } else {
        DistinctIsSteady(items[0].hash, items[0].Delta?, items[1..]);
      }
    }
  }

  /** Distinct hashes are always recovered exactly. */
  lemma DistinctRoundTrip(items: seq<Item>, frames: seq<seq<NarChunk>>)
    requires Framing(items, frames) && DistinctHashes(items)
    ensures ReceiveAll(START, Flatten(frames)).received == Transfers(items)
  {
    DistinctIsSteady("", false, items);
    StreamRoundTrip(items, frames);
  }

  // --- Staging ---

  datatype PathEntry = PathEntry(url: string, deltaBaseHash: string)

  type Patcher = (Bytes, string) -> Option<Bytes>

  /** The archive to stage for a transfer, if any: deltas are applied to their base. */
  function Staged(entries: map<string, PathEntry>, applyDelta: Patcher, t: Transfer): Option<Bytes> {
    if t.hash !in entries then None
    else if t.isDelta && entries[t.hash].deltaBaseHash != "" then applyDelta(t.payload, entries[t.hash].deltaBaseHash)
    else Some(t.payload)
  }

  function StageAll(entries: map<string, PathEntry>, applyDelta: Patcher, ts: seq<Transfer>): map<string, Bytes> {
    if ts == [] then map[]
    else
      var n := |ts| - 1;
      var before := StageAll(entries, applyDelta, ts[..n]);
      match Staged(entries, applyDelta, ts[n])
      case None => before
      case Some(nar) => before[entries[ts[n].hash].url := nar]
  }

  function StagedCount(entries: map<string, PathEntry>, applyDelta: Patcher, ts: seq<Transfer>): nat {
    if ts == [] then 0
    else
      var n := |ts| - 1;
      StagedCount(entries, applyDelta, ts[..n]) + if Staged(entries, applyDelta, ts[n]).Some? then 1 else 0
  }

  method StreamAndImport(messages: seq<NarChunk>, entries: map<string, PathEntry>, applyDelta: Patcher)
    returns (staged: map<string, Bytes>, pathsReceived: nat)
    ensures var received := ReceiveAll(START, messages).received;
            && staged == StageAll(entries, applyDelta, received)
            && pathsReceived == StagedCount(entries, applyDelta, received)
  {
    staged, pathsReceived := map[], 0;
    var currentHash, currentBuf, currentIsDelta := "", [], false;
    ghost var received := [];
    var i := 0;
    while i < |messages|
      invariant 0 <= i <= |messages|
      invariant ReceiveAll(START, messages[..i]) == Client(currentHash, currentBuf, currentIsDelta, received)
      invariant staged == StageAll(entries, applyDelta, received)
      invariant pathsReceived == StagedCount(entries, applyDelta, received)
    {
      assert messages[..i + 1][..i] == messages[..i];
      var chunk := messages[i];
      if chunk.pathHash != currentHash {
        currentHash := chunk.pathHash;
        currentBuf := [];
        currentIsDelta := chunk.isDelta;
      }
      currentBuf := currentBuf + chunk.data;
      if chunk.last {
        ghost var t := Transfer(currentHash, currentBuf, currentIsDelta);
        staged, pathsReceived := Stage(entries, applyDelta, currentHash, currentBuf, currentIsDelta,
                                       staged, pathsReceived, received);
        received := received + [t];
        currentBuf := [];
      }
      i := i + 1;
    }
    assert messages[..i] == messages;
  }

  /** What the loop does with a finished download. */
  method Stage(entries: map<string, PathEntry>, applyDelta: Patcher, hash: string, payload: Bytes, isDelta: bool,
               staged: map<string, Bytes>, pathsReceived: nat, ghost received: seq<Transfer>)
    returns (staged': map<string, Bytes>, pathsReceived': nat)
    requires staged == StageAll(entries, applyDelta, received)
    requires pathsReceived == StagedCount(entries, applyDelta, received)
    ensures staged' == StageAll(entries, applyDelta, received + [Transfer(hash, payload, isDelta)])
    ensures pathsReceived' == StagedCount(entries, applyDelta, received + [Transfer(hash, payload, isDelta)])
  {
    staged', pathsReceived' := staged, pathsReceived;
    assert (received + [Transfer(hash, payload, isDelta)])[..|received|] == received;
    if hash !in entries {
      return;
    }
    var entry := entries[hash];
    var nar := payload;
    if isDelta && entry.deltaBaseHash != "" {
      var patched := applyDelta(payload, entry.deltaBaseHash);
      if patched.None? {
        return;
      }
      nar := patched.value;
    }
    staged' := staged[entry.url := nar];
    pathsReceived' := pathsReceived + 1;
  }

  // --- End to end ---

  ghost predicate DistinctUrls(entries: map<string, PathEntry>) {
    forall h, k :: h in entries && k in entries && h != k ==> entries[h].url != entries[k].url
  }

  lemma {:induction false} StagedIsKept(entries: map<string, PathEntry>, applyDelta: Patcher, ts: seq<Transfer>, i: nat)
    requires i < |ts| && DistinctUrls(entries) && Staged(entries, applyDelta, ts[i]).Some?
    requires forall j :: i < j < |ts| ==> ts[j].hash != ts[i].hash
    ensures var url := entries[ts[i].hash].url;
            var all := StageAll(entries, applyDelta, ts);
            url in all && Some(all[url]) == Staged(entries, applyDelta, ts[i])
    decreases |ts|
  {
    var n := |ts| - 1;
    if i < n {
      StagedIsKept(entries, applyDelta, ts[..n], i);
    }
  }

  lemma {:induction false} StagedComesFrom(entries: map<string, PathEntry>, applyDelta: Patcher, ts: seq<Transfer>,
                                           url: string)
    requires url in StageAll(entries, applyDelta, ts)
    ensures exists t :: t in ts && t.hash in entries && entries[t.hash].url == url
                        && Staged(entries, applyDelta, t).Some?
    decreases |ts|
  {
    var n := |ts| - 1;
    if url in StageAll(entries, applyDelta, ts[..n]) {
      StagedComesFrom(entries, applyDelta, ts[..n], url);
    } else {
      assert ts[n] in ts;
    }
  }

  lemma {:induction false} TransfersExact(items: seq<Item>, i: nat) returns (k: nat)
    requires i < |items| && !items[i].Unavailable?
    requires forall i, j :: 0 <= i < j < |items| ==> items[i].hash != items[j].hash
    ensures k < |Transfers(items)|
    ensures Transfers(items)[k] == Transfer(items[i].hash, PayloadOf(items[i]), items[i].Delta?)
    ensures forall j :: k < j < |Transfers(items)| ==> Transfers(items)[j].hash != items[i].hash
    decreases |items|
  {
    if i == 0 {
      k := 0;
      forall t | t in Transfers(items[1..])
        ensures t.hash != items[0].hash
      {
        TransfersAreOf(items[1..]);
        var j :| 0 <= j < |items| - 1 && !items[1..][j].Unavailable? && t.hash == items[1..][j].hash;
        assert items[j + 1] == items[1..][j];
      }
    } else {
      k := TransfersExact(items[1..], i - 1);
      k := if items[0].Unavailable? then k else k + 1;
    }
  }

  lemma {:induction false} TransfersAreOf(items: seq<Item>)
    ensures forall t :: t in Transfers(items) ==>
              exists i :: 0 <= i < |items| && !items[i].Unavailable?
                          && t == Transfer(items[i].hash, PayloadOf(items[i]), items[i].Delta?)
    decreases |items|
  {
    if items != [] {
      TransfersAreOf(items[1..]);
      forall t | t in Transfers(items[1..])
        ensures exists i :: 0 <= i < |items| && !items[i].Unavailable?
                            && t == Transfer(items[i].hash, PayloadOf(items[i]), items[i].Delta?)
      {
        var j :| 0 <= j < |items| - 1 && !items[1..][j].Unavailable?
                 && t == Transfer(items[1..][j].hash, PayloadOf(items[1..][j]), items[1..][j].Delta?);
        assert items[j + 1] == items[1..][j];
      }
    }
  }

  /** Nothing is staged for a path that the server does not have. */
  lemma UnavailableIsNotStaged(items: seq<Item>, frames: seq<seq<NarChunk>>, entries: map<string, PathEntry>,
                               applyDelta: Patcher, i: nat)
    requires Framing(items, frames) && DistinctHashes(items) && DistinctUrls(entries)
    requires i < |items| && items[i].Unavailable? && items[i].hash in entries
    ensures entries[items[i].hash].url !in StageAll(entries, applyDelta, ReceiveAll(START, Flatten(frames)).received)
  {
    DistinctRoundTrip(items, frames);
    var url := entries[items[i].hash].url;
    forall t | t in Transfers(items)
      ensures t.hash != items[i].hash
    {
      TransfersAreOf(items);
      var j :| 0 <= j < |items| && !items[j].Unavailable?
               && t == Transfer(items[j].hash, PayloadOf(items[j]), items[j].Delta?);
    }
    if url in StageAll(entries, applyDelta, Transfers(items)) {
      StagedComesFrom(entries, applyDelta, Transfers(items), url);
      assert false;
    }
  }

  /** Every completely written archive and every applicable delta ends up under its own url. */
  lemma EveryPathIsStaged(items: seq<Item>, frames: seq<seq<NarChunk>>, entries: map<string, PathEntry>,
                          applyDelta: Patcher, i: nat)
    requires Framing(items, frames) && DistinctHashes(items) && DistinctUrls(entries)
    requires i < |items| && !items[i].Unavailable?
    ensures var t := Transfer(items[i].hash, PayloadOf(items[i]), items[i].Delta?);
            var staged := StageAll(entries, applyDelta, ReceiveAll(START, Flatten(frames)).received);
            Staged(entries, applyDelta, t).Some? ==>
              && entries[t.hash].url in staged
              && Some(staged[entries[t.hash].url]) == Staged(entries, applyDelta, t)
  {
    DistinctRoundTrip(items, frames);
    var k := TransfersExact(items, i);
    if Staged(entries, applyDelta, Transfers(items)[k]).Some? {
      StagedIsKept(entries, applyDelta, Transfers(items), k);
    }
  }

  /** A path's url holds what was sent for it: the payload as it is, or patched if it is a delta and the path
      has a base. An inapplicable delta and a path that the server does not have leave the url alone. */
  lemma StagedExactly(items: seq<Item>, frames: seq<seq<NarChunk>>, entries: map<string, PathEntry>,
                      applyDelta: Patcher, i: nat)
    requires Framing(items, frames) && DistinctHashes(items) && DistinctUrls(entries)
    requires i < |items| && items[i].hash in entries
    ensures var entry := entries[items[i].hash];
            var staged := StageAll(entries, applyDelta, ReceiveAll(START, Flatten(frames)).received);
            var there := if entry.url in staged then Some(staged[entry.url]) else None;
            match items[i]
            case Unavailable(_) => there == None
            case Nar(_, _, _, _) => there == Some(PayloadOf(items[i]))
            case Delta(_, delta) =>
              there == if entry.deltaBaseHash == "" then Some(delta) else applyDelta(delta, entry.deltaBaseHash)
  {
    if items[i].Unavailable? {
      UnavailableIsNotStaged(items, frames, entries, applyDelta, i);
    } else {
      EveryPathIsStaged(items, frames, entries, applyDelta, i);
      if Staged(entries, applyDelta, Transfer(items[i].hash, PayloadOf(items[i]), items[i].Delta?)).None? {
        RefusedIsNotStaged(items, frames, entries, applyDelta, i);
      }
    }
  }

  lemma RefusedIsNotStaged(items: seq<Item>, frames: seq<seq<NarChunk>>, entries: map<string, PathEntry>,
                           applyDelta: Patcher, i: nat)
    requires Framing(items, frames) && DistinctHashes(items) && DistinctUrls(entries)
    requires i < |items| && !items[i].Unavailable? && items[i].hash in entries
    requires Staged(entries, applyDelta, Transfer(items[i].hash, PayloadOf(items[i]), items[i].Delta?)).None?
    ensures entries[items[i].hash].url !in StageAll(entries, applyDelta, ReceiveAll(START, Flatten(frames)).received)
  {
    DistinctRoundTrip(items, frames);
    var url, ts := entries[items[i].hash].url, Transfers(items);
    forall t | t in ts && Staged(entries, applyDelta, t).Some?
      ensures t.hash != items[i].hash
    {
      TransfersAreOf(items);
      var j :| 0 <= j < |items| && !items[j].Unavailable?
               && t == Transfer(items[j].hash, PayloadOf(items[j]), items[j].Delta?);
      assert j != i;
    }
    if url in StageAll(entries, applyDelta, ts) {
      StagedComesFrom(entries, applyDelta, ts, url);
      assert false;
    }
  }

  /** The client gets what was written exactly if writing it did not fail, or failed at a multiple of the block
      size; otherwise it gets a shorter payload, and in no case can it tell. */
  lemma DeliveredIffWritten(hash: string, narSize: nat, writes: seq<Bytes>, complete: bool, frames: seq<NarChunk>)
    requires Frames(Nar(hash, narSize, writes, complete), frames)
    ensures ReceiveAll(START, frames).received == [Transfer(hash, Flatten(writes), false)]
            <==> complete || |Flatten(writes)| % NAR_CHUNK_SIZE == 0
    ensures ReceiveAll(START, frames).received
            == [Transfer(hash, PayloadOf(Nar(hash, narSize, writes, complete)), false)]
  {
    var item := Nar(hash, narSize, writes, complete);
    ItemIsReceived(START, item, frames);
    var received := ReceiveAll(START, frames).received;
    assert received == [Transfer(hash, PayloadOf(item), false)];
    assert received == [Transfer(hash, Flatten(writes), false)] <==> PayloadOf(item) == Flatten(writes) by {
      assert received[0].payload == PayloadOf(item);
    }
    CutIsWhole(item);
  }

  lemma CutIsWhole(item: Item)
    requires item.Nar?
    ensures PayloadOf(item) == Flatten(item.writes)
            <==> item.complete || |Flatten(item.writes)| % NAR_CHUNK_SIZE == 0
  {
    var all := Flatten(item.writes);
    var rest := |all| % NAR_CHUNK_SIZE;
    assert rest == 0 ==> all[..|all| - rest] == all;
    assert |all[..|all| - rest]| == |all| - rest;
  }
}
