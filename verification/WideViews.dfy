/** Accepted blobs that name more tiles than the swarm's tables hold: how small they can be, and the sizes at which
    baking keeps to its memory whatever the bytes. */
module WideViews {
  import opened Machine
  import opened Bytes
  import opened BakeFormat
  import opened BakeParser
  import opened BakeWriter
  import opened Overrun

  predicate Wide(a: Acc) { a.topology && a.view.tileCount > TILE_COUNT }

  /** How many of the three required per-tile records are missing. */
  function Missing(a: Acc): nat {
    (if a.params then 0 else 1) + (if a.routing then 0 else 1) + (if a.weights then 0 else 1)
  }

  /** Per-tile records count only after a topology. */
  predicate InOrder(a: Acc) { !a.topology ==> Missing(a) == 3 }

  /** Bytes that are needed at least to be accepted with too many tiles: a small topology for the missing per-tile
      records, those records, a large topology, and the checksum. */
  function Need(a: Acc): nat {
    (if a.crc then 0 else 12) +
    if Wide(a) then (if Missing(a) == 0 then 0 else 48 + 8 * Missing(a))
    else if a.topology then 24 + 8 * Missing(a)
    else 72
  }

  /** What the room beyond the need can be. Nothing fits into four bytes; only a routing record can take four bytes
      more than it has to. */
  predicate Slack(a: Acc, extra: int) {
    if Wide(a) && Missing(a) > 0 then 0 <= extra
    else if a.topology && !Wide(a) && a.view.tileCount > 0 && (!a.params || !a.weights) then 8 <= extra
    else if a.topology && !Wide(a) && a.view.tileCount > 0 && !a.routing then 4 <= extra
    else extra == 0 || 8 <= extra
  }

  /** The size of a record with so many bytes for each tile. */
  predicate Sized(a: Acc, size: nat, bytes: nat) {
    && a.topology && !Wide(a) && size % 4 == 0
    && 8 + bytes * a.view.tileCount <= size && (a.view.tileCount == 0 ==> size == 8)
  }

  /** One record: how long it is, and what it does to the registers that matter. */
  ghost predicate Moves(a: Acc, next: Acc, size: nat) {
    var same := a.(view := next.view);
    && size >= 8
    && (|| (size == 24 && next == same.(topology := true))
        || (next.view.tileCount == a.view.tileCount &&
            (|| (Sized(a, size, 13) && next == same.(params := true))
             || (Sized(a, size, 2) && next == same.(routing := true))
             || (Sized(a, size, 40) && next == same.(weights := true))
             || next == same
             || (size == 12 && next == same.(crc := true)))))
  }

  lemma MovesKeepSlack(a: Acc, next: Acc, size: nat, room: nat)
    requires InOrder(a) && Moves(a, next, size) && size <= room && Slack(next, room - size - Need(next))
    ensures Slack(a, room - Need(a))
  {
    hide Slack, Need, Sized;
    if size == 24 && next == a.(view := next.view, topology := true) {
      TopologyKeepsSlack(a, next, room);
    } else if next == a.(view := next.view, crc := true) && !a.crc {
      ChecksumKeepsSlack(a, next, room);
    } else if next == a.(view := next.view) {
      SkippedKeepsSlack(a, next, size, room);
    } else {
      TilesKeepSlack(a, next, size, room);
    }
  }

  lemma TopologyKeepsSlack(a: Acc, next: Acc, room: nat)
    requires InOrder(a) && next == a.(view := next.view, topology := true) && Slack(next, room - 24 - Need(next))
    ensures Slack(a, room - Need(a))
  {
  }

  lemma ChecksumKeepsSlack(a: Acc, next: Acc, room: nat)
    requires next == a.(view := next.view, crc := true) && !a.crc && next.view.tileCount == a.view.tileCount
    requires Slack(next, room - 12 - Need(next))
    ensures Slack(a, room - Need(a))
  {
  }

  lemma SkippedKeepsSlack(a: Acc, next: Acc, size: nat, room: nat)
    requires next == a.(view := next.view) && next.view.tileCount == a.view.tileCount && size >= 8
    requires Slack(next, room - size - Need(next))
    ensures Slack(a, room - Need(a))
  {
  }

  lemma TilesKeepSlack(a: Acc, next: Acc, size: nat, room: nat)
    requires Slack(next, room - size - Need(next)) && next.view.tileCount == a.view.tileCount
    requires || (Sized(a, size, 13) && !a.params && next == a.(view := next.view, params := true))
             || (Sized(a, size, 2) && !a.routing && next == a.(view := next.view, routing := true))
             || (Sized(a, size, 40) && !a.weights && next == a.(view := next.view, weights := true))
    ensures Slack(a, room - Need(a))
  {
  }

  lemma TilesMove(k: Kind, v: Blob, a: Acc)
    requires |v| < 0x1_0000_0000 && ViewOk(a.view) && TakeTiles(k, v, a).Go?
    ensures Moves(a, TakeTiles(k, v, a).acc, 8 + |v| + Padding(|v|))
  {
    hide FirstBad, DecodeTiles, Padding;
    PaddedInWords(|v|);
    InWords(2 + (|v| + 3) / 4, 8 + |v| + Padding(|v|));
    NoPadding();
  }

  lemma NoPadding()
    ensures Padding(0) == 0 && Padding(4) == 0 && Padding(12) == 0 && Padding(16) == 0
  {
  }

  lemma TakeMoves(blob: Blob, ty: u16, v: Blob, a: Acc)
    requires |v| < 0x1_0000_0000 && 12 <= |blob| && ViewOk(a.view) && Take(blob, ty, v, a).Go?
    ensures Moves(a, Take(blob, ty, v, a).acc, 8 + |v| + Padding(|v|))
  {
    hide TakeTiles, ReadTopology, ReadReadout, Crc.Crc32, Padding;
    NoPadding();
    if ty == TLV_TILE_PARAMS_V2 {
      TilesMove(Params, v, a);
    } else if ty == TLV_TILE_ROUTING_FLAGS16 {
      TilesMove(Routing, v, a);
    } else if ty == TLV_TILE_WEIGHTS_PACKED {
      TilesMove(Weights, v, a);
    } else if ty == TLV_RESET_ON_FIRE_MASK16 {
      TilesMove(ResetMasks, v, a);
    }
  }

  /** The parser spends the room on records, and what is left over at the end is nothing. */
  lemma {:induction false} WideTakesRoom(blob: Blob, pos: nat, a: Acc)
    requires 28 <= pos <= |blob| && ViewOk(a.view) && InOrder(a)
    requires ParseFrom(blob, pos, a).Accepted? && ParseFrom(blob, pos, a).view.tileCount > TILE_COUNT
    ensures Slack(a, |blob| - pos - Need(a))
    decreases |blob| - pos
  {
    hide Take, HasRecord, TypeAt, ValueAt, NextPos, Moves, Slack, Need, InOrder;
    if pos == |blob| {
      NothingNeeded(a);
    } else {
      RecordRoom(blob, pos);
      var v := ValueAt(blob, pos);
      TakeMoves(blob, TypeAt(blob, pos), v, a);
      var next := Take(blob, TypeAt(blob, pos), v, a).acc;
      var size := NextPos(blob, pos) - pos;
      SizeOfRecord(blob, pos);
      NextInOrder(a, next, size);
      WideTakesRoom(blob, NextPos(blob, pos), next);
      MovesKeepSlack(a, next, size, |blob| - pos);
    }
  }

  lemma NextInOrder(a: Acc, next: Acc, size: nat)
    requires InOrder(a) && Moves(a, next, size)
    ensures InOrder(next)
  {
  }

  lemma NothingNeeded(a: Acc)
    requires BakeParser.Finish(a).Accepted? && a.view.tileCount > TILE_COUNT
    ensures Slack(a, 0 - Need(a))
  {
  }

  lemma SizeOfRecord(blob: Blob, pos: nat)
    requires pos <= |blob| && HasRecord(blob, pos)
    ensures NextPos(blob, pos) - pos == 8 + |ValueAt(blob, pos)| + Padding(|ValueAt(blob, pos)|)
  {
  }

  /** An accepted blob that names too many tiles has 112 bytes, or 120 or more. */
  lemma WideIsLong(b: Blob)
    requires |b| < 0x1_0000_0000 && Parse(b).Accepted? && Parse(b).view.tileCount > TILE_COUNT
    ensures |b| == 112 || 120 <= |b|
  {
    hide ParseFrom;
    WideTakesRoom(b, 28, EmptyAcc(ReadLe32(b, 16), ReadLe32(b, 20), ReadLe32(b, 8)));
  }

  // ---------- Blobs that do it ----------

  function TopologyOf(count: u32): (r: Record)
    ensures r.ty == TLV_TOPOLOGY && |r.value| == 16
  {
    Record(TLV_TOPOLOGY, TopologyBytes(count, 1, 1, 8, 16, 0))
  }

  /** A topology of no tiles, its three empty records, and a second topology; then a record of unknown type, if there
      is room for it. */
  function WideRecords(n: u32): (rs: seq<Record>)
    ensures |rs| >= 5
  {
    [TopologyOf(0), Record(TLV_TILE_PARAMS_V2, []), Record(TLV_TILE_ROUTING_FLAGS16, []),
     Record(TLV_TILE_WEIGHTS_PACKED, []), TopologyOf(4097)]
    + if n < 120 then [] else [Record(7, Zeros(n - 120))]
  }

  lemma {:induction false} PaddedConcat(rs: seq<Record>, more: seq<Record>)
    ensures Padded(rs + more) == Padded(rs) + Padded(more)
    decreases |rs|
  {
    hide Aligned;
    if rs == [] {
      assert rs + more == more;
    } else {
      assert (rs + more)[1..] == rs[1..] + more;
      PaddedConcat(rs[1..], more);
    }
  }

  lemma PaddedOne(r: Record)
    requires |r.value| % 4 == 0
    ensures |Padded([r])| == 8 + |r.value|
  {
    hide Bare;
    assert [r][1..] == [];
  }

  lemma WideLength(n: u32)
    requires n % 4 == 0 && (n == 112 || 120 <= n)
    ensures |Padded(WideRecords(n))| == n - 40
  {
    hide Padded, Zeros, TopologyOf;
    var rs := WideRecords(n);
    var p, r, w := Record(TLV_TILE_PARAMS_V2, []), Record(TLV_TILE_ROUTING_FLAGS16, []), Record(TLV_TILE_WEIGHTS_PACKED, []);
    var fill := if n < 120 then [] else [Record(7, Zeros(n - 120))];
    PaddedConcat([TopologyOf(0)], [p] + ([r] + ([w] + ([TopologyOf(4097)] + fill))));
    PaddedConcat([p], [r] + ([w] + ([TopologyOf(4097)] + fill)));
    PaddedConcat([r], [w] + ([TopologyOf(4097)] + fill));
    PaddedConcat([w], [TopologyOf(4097)] + fill);
    PaddedConcat([TopologyOf(4097)], fill);
    assert rs == [TopologyOf(0)] + ([p] + ([r] + ([w] + ([TopologyOf(4097)] + fill))));
    PaddedOne(TopologyOf(0));
    PaddedOne(p);
    PaddedOne(r);
    PaddedOne(w);
    PaddedOne(TopologyOf(4097));
    if 120 <= n {
      PaddedOne(Record(7, Zeros(n - 120)));
    } else {
      PaddedNone();
    }
  }

  lemma PaddedNone()
    ensures Padded([]) == []
  {
  }

  function WideBlob(n: u32): Blob
    requires n % 4 == 0 && (n == 112 || 120 <= n)
  {
    WideLength(n);
    Written(WideRecords(n), 1, 1, 0)
  }

  lemma TakesTopologyOf(blob: Blob, count: u32, a: Acc)
    requires 12 <= |blob| && ViewOk(a.view)
    ensures Take(blob, TLV_TOPOLOGY, TopologyOf(count).value, a) ==
            Go(a.(view := a.view.(topo := Topology(count, 1, 1, 8, 16, 0, 0), tileCount := count), topology := true))
  {
    hide TopologyBytes, ReadTopology;
    TopologyRoundTrip(count, 1, 1, 8, 16, 0);
  }

  /** A record for no tiles is taken and changes no tile. */
  lemma TakesEmpty(blob: Blob, k: Kind, a: Acc)
    requires 12 <= |blob| && ViewOk(a.view) && a.topology && a.view.tileCount == 0 && k != ResetMasks
    ensures Take(blob, TypeOf(k), [], a).Go?
    ensures var next := Take(blob, TypeOf(k), [], a).acc;
            ViewOk(next.view) && next == Flagged(k, a.(view := next.view)) && next.view.tileCount == 0
  {
    hide DecodeTiles;
  }

  /** All of the blob's records are taken from the i-th on. */
  ghost predicate WideEnd(blob: Blob, n: u32, i: nat, a: Acc)
    requires 12 <= |blob| && ViewOk(a.view) && i <= 5
  {
    var s := Feed(blob, WideRecords(n)[i..], a);
    s.Go? && s.acc.topology && Missing(s.acc) == 0 && s.acc.view.tileCount == 4097
  }

  lemma WideFeed(blob: Blob, n: u32)
    requires 12 <= |blob|
    ensures ViewOk(EmptyAcc(1, 1, 0).view) && WideEnd(blob, n, 0, EmptyAcc(1, 1, 0))
  {
    hide Take, Feed, EmptyAcc, TopologyOf, Zeros, WideEnd;
    var a := EmptyAcc(1, 1, 0);
    EmptyView(1, 1, 0);
    TakesTopologyOf(blob, 0, a);
    FeedKind(blob, n, 1, Take(blob, TLV_TOPOLOGY, TopologyOf(0).value, a).acc);
    WideStep(blob, n, 0, a);
  }

  lemma WideStep(blob: Blob, n: u32, i: nat, a: Acc)
    requires 12 <= |blob| && ViewOk(a.view) && i < 5
    requires var r := WideRecords(n)[i];
             Take(blob, r.ty, r.value, a).Go? && WideEnd(blob, n, i + 1, Take(blob, r.ty, r.value, a).acc)
    ensures WideEnd(blob, n, i, a)
  {
    hide Take, Feed, WideRecords;
    FeedStep(blob, WideRecords(n), i, a);
  }

  function WideKind(i: nat): Kind { if i == 1 then Params else if i == 2 then Routing else Weights }

  lemma {:induction false} FeedKind(blob: Blob, n: u32, i: nat, a: Acc)
    requires 12 <= |blob| && ViewOk(a.view) && 1 <= i <= 4 && a.topology && a.view.tileCount == 0
    requires (i > 1 ==> a.params) && (i > 2 ==> a.routing) && (i > 3 ==> a.weights)
    ensures WideEnd(blob, n, i, a)
    decreases 4 - i
  {
    hide Take, Feed, TopologyOf, Zeros, WideEnd;
    if i == 4 {
      TakesTopologyOf(blob, 4097, a);
      WideLast(blob, n, Take(blob, TLV_TOPOLOGY, TopologyOf(4097).value, a).acc);
    } else {
      TakesEmpty(blob, WideKind(i), a);
      FeedKind(blob, n, i + 1, Take(blob, TypeOf(WideKind(i)), [], a).acc);
    }
    WideStep(blob, n, i, a);
  }

  lemma WideLast(blob: Blob, n: u32, a: Acc)
    requires 12 <= |blob| && ViewOk(a.view) && a.topology && Missing(a) == 0 && a.view.tileCount == 4097
    ensures WideEnd(blob, n, 5, a)
  {
    hide WideRecords, Feed;
    FeedRest(blob, WideRecords(n), n, a);
  }

  lemma FeedRest(blob: Blob, rs: seq<Record>, n: u32, a: Acc)
    requires 12 <= |blob| && ViewOk(a.view) && rs == WideRecords(n)
    ensures Feed(blob, rs[5..], a) == Go(a)
  {
    hide Take, TopologyOf, Zeros;
    if 120 <= n {
      FeedStep(blob, rs, 5, a);
      TakesUnknown(blob, 7, rs[5].value, a);
      assert rs[6..] == [];
    } else {
      assert rs[5..] == [];
    }
  }

  lemma WideBlobLength(n: u32)
    requires n % 4 == 0 && (n == 112 || 120 <= n)
    ensures |WideBlob(n)| == n
  {
    hide Padded, WideRecords, Written;
    WideLength(n);
    WrittenLength(WideRecords(n), 1, 1, 0);
  }

  lemma WideBlobIsAccepted(n: u32)
    requires n % 4 == 0 && (n == 112 || 120 <= n)
    ensures |WideBlob(n)| == n
    ensures Parse(WideBlob(n)).Accepted? && Parse(WideBlob(n)).view.tileCount == 4097
  {
    hide Parse, Feed, WideRecords, Padded, EmptyAcc, Sealed, Header;
    WideLength(n);
    WideBlobLength(n);
    ParseWritten(WideRecords(n), 1, 1, 0);
    WideFeed(WideBlob(n), n);
    assert WideRecords(n)[0..] == WideRecords(n);
  }

  // ---------- The exact sizes ----------

  /** Accepted, with more tiles than the swarm's tables hold. */
  ghost predicate TooManyTiles(blob: Blob)
    requires |blob| < 0x1_0000_0000
  {
    Parse(blob).Accepted? && Parse(blob).view.tileCount > TILE_COUNT
  }

  /** What is accepted fits the tables, for all blobs of n bytes, exactly when n is below 112, is 116, or is no multiple
      of four. */
  lemma AcceptedFitsExactly(n: u32)
    ensures (forall b: Blob | |b| == n :: !TooManyTiles(b)) <==> n % 4 != 0 || n < 112 || n == 116
  {
    hide Parse;
    if n % 4 != 0 || n < 112 || n == 116 {
      forall b: Blob | |b| == n
        ensures !TooManyTiles(b)
      {
        ParserAlignment(b);
        if TooManyTiles(b) {
          WideIsLong(b);
        }
      }
    } else {
      WideIsWide(n);
    }
  }

  /** Baking would leave its memory: the blob while parsing, the view while parsing, or the tables afterwards. */
  ghost predicate BakeLeaves(blob: Blob)
    requires |blob| < 0x1_0000_0000
  {
    Parse(blob) == PastBlob || Parse(blob) == PastArrays || TooManyTiles(blob)
  }

  /** Baking keeps to its memory for all blobs of n bytes exactly when n is below 37, or a multiple of four that is below
      112 or 116. */
  lemma BakeSafeExactly(n: u32)
    ensures (forall b: Blob | |b| == n :: !BakeLeaves(b)) <==> n < 37 || (n % 4 == 0 && n < 112) || n == 116
  {
    hide Parse, TooManyTiles;
    CursorSafeExactly(n);
    ArraysSafeExactly(n);
    AcceptedFitsExactly(n);
    if n < 37 || (n % 4 == 0 && n < 112) || n == 116 {
      forall b: Blob | |b| == n
        ensures !BakeLeaves(b)
      {
      }
    } else if n % 4 != 0 {
      OneRecordOverruns(n);
      assert BakeLeaves(OneRecord(n));
    } else {
      WideIsWide(n);
      assert BakeLeaves(WideBlob(n));
    }
  }

  lemma WideIsWide(n: u32)
    requires n % 4 == 0 && (n == 112 || 120 <= n)
    ensures |WideBlob(n)| == n && TooManyTiles(WideBlob(n))
  {
    hide Parse;
    WideBlobIsAccepted(n);
  }
}
