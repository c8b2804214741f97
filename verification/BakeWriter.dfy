/** Blobs as lists of records: what any writer that lays out a header, records and a checksum produces, and
    how the parser reads it. */
module BakeWriter {
  import opened Machine
  import opened Bytes
  import opened BakeFormat
  import opened BakeParser
  import opened Crc

  datatype RecordData = Record(ty: u16, value: Blob)

  type Record = r: RecordData | |r.value| < 0x1_0000_0000 witness Record(0, [])

  function Bare(r: Record): (b: Blob)
    ensures |b| == 8 + |r.value|
  {
    Tlv(r.ty, r.value)
  }

  function Aligned(r: Record): Blob { Bare(r) + Zeros(Padding(|r.value|)) }

  /** Records one after another, without padding. */
  function Packed(rs: seq<Record>): Blob {
    if rs == [] then [] else Bare(rs[0]) + Packed(rs[1..])
  }

  /** Records one after another, each padded to four bytes. */
  function Padded(rs: seq<Record>): Blob {
    if rs == [] then [] else Aligned(rs[0]) + Padded(rs[1..])
  }

  function Header(total: u32, bakeId: u32, profileId: u32, flags: u32): (h: Blob)
    ensures |h| == 28
  {
    [68, 56, 66, 75] + Le16(2) + Le16(0) + Le32(flags) + Le32(total) + Le32(bakeId) + Le32(profileId) + Le32(0)
  }

  /** A body followed by its checksum record. */
  function Sealed(body: Blob): (b: Blob)
    ensures |b| == |body| + 12
  {
    body + Tlv(TLV_CRC32, Le32(Crc32(body)))
  }

  /** Records are whole words when every value is. */
  lemma {:induction false} PackedIsPadded(rs: seq<Record>)
    requires forall i | 0 <= i < |rs| :: |rs[i].value| % 4 == 0
    ensures Packed(rs) == Padded(rs)
  {
    if rs != [] {
      PackedIsPadded(rs[1..]);
      assert Zeros(0) == [];
      assert Aligned(rs[0]) == Bare(rs[0]);
    }
  }

  // ---------- Reading records back ----------

  /** The record loop's effect on a list of records. */
  function Feed(blob: Blob, rs: seq<Record>, a: Acc): (s: Step)
    requires 12 <= |blob| && ViewOk(a.view)
    ensures Fine(s)
  {
    if rs == [] then Go(a)
    else
      match Take(blob, rs[0].ty, rs[0].value, a)
      case Stop(out) => Stop(out)
      case Go(next) => Feed(blob, rs[1..], next)
  }

  lemma FeedStep(blob: Blob, rs: seq<Record>, i: nat, a: Acc)
    requires i < |rs| && 12 <= |blob| && ViewOk(a.view)
    ensures Feed(blob, rs[i..], a) ==
            match Take(blob, rs[i].ty, rs[i].value, a)
            case Stop(out) => Stop(out)
            case Go(next) => Feed(blob, rs[i + 1..], next)
  {
    hide Take;
    assert rs[i..][1..] == rs[i + 1..];
  }

  lemma BareFields(r: Record)
    ensures var w, len := Bare(r), |r.value|;
            ReadLe16(w, 0) == r.ty && ReadLe32(w, 4) == len && w[8..] == r.value
  {
    hide Le16, Le32, ReadLe16, ReadLe32;
    var w, len := Bare(r), |r.value|;
    assert w[0..2] == Le16(r.ty);
    assert w[4..8] == Le32(len);
    assert w[8..] == r.value;
    ReadInside(w, 0, 2, 0);
    ReadInside(w, 4, 8, 0);
    Word16RoundTrip(r.ty);
    Word32RoundTrip(len);
  }

  /** At the start of a record the parser sees that record, and then skips padding whether it was written or
      not. */
  lemma RecordAt(blob: Blob, pos: nat, r: Record)
    requires pos + 8 + |r.value| <= |blob| && blob[pos..pos + 8 + |r.value|] == Bare(r)
    ensures HasRecord(blob, pos) && TypeAt(blob, pos) == r.ty && ValueAt(blob, pos) == r.value
    ensures NextPos(blob, pos) == pos + 8 + |r.value| + Padding(|r.value|)
  {
    hide Bare, Padding;
    var w, n := Bare(r), 8 + |r.value|;
    forall i | 0 <= i < n
      ensures blob[pos + i] == w[i]
    {
      assert blob[pos..pos + n][i] == w[i];
    }
    BareFields(r);
    assert ReadLe16(blob, pos) == ReadLe16(w, 0);
    assert ReadLe32(blob, pos + 4) == ReadLe32(w, 4);
    assert blob[pos + 8..pos + n] == w[8..];
  }

  lemma AlignedAt(blob: Blob, pos: nat, r: Record)
    requires pos + |Aligned(r)| <= |blob| && blob[pos..pos + |Aligned(r)|] == Aligned(r)
    ensures HasRecord(blob, pos) && TypeAt(blob, pos) == r.ty && ValueAt(blob, pos) == r.value
    ensures NextPos(blob, pos) == pos + |Aligned(r)|
  {
    hide Bare, Padding, HasRecord, TypeAt, ValueAt, NextPos;
    var n := |Aligned(r)|;
    assert blob[pos..pos + 8 + |r.value|] == blob[pos..pos + n][..8 + |r.value|] == Bare(r);
    RecordAt(blob, pos, r);
  }

  /** The parser walks through aligned records one by one. */
  lemma {:induction false} ParseRecordList(blob: Blob, pos: nat, rs: seq<Record>, a: Acc)
    requires 28 <= pos && pos + |Padded(rs)| <= |blob| && ViewOk(a.view)
    requires blob[pos..pos + |Padded(rs)|] == Padded(rs)
    ensures ParseFrom(blob, pos, a) ==
            match Feed(blob, rs, a)
            case Stop(out) => out
            case Go(next) => ParseFrom(blob, pos + |Padded(rs)|, next)
    decreases |rs|
  {
    hide Take, HasRecord, TypeAt, ValueAt, NextPos, BakeParser.Finish;
    if rs != [] {
      var n := |Aligned(rs[0])|;
      var whole := blob[pos..pos + |Padded(rs)|];
      assert blob[pos..pos + n] == whole[..n];
      assert blob[pos + n..pos + |Padded(rs)|] == whole[n..];
      AlignedAt(blob, pos, rs[0]);
      var step := Take(blob, rs[0].ty, rs[0].value, a);
      if step.Go? {
        ParseRecordList(blob, pos + n, rs[1..], step.acc);
      }
    }
  }

  lemma SealTaken(body: Blob, a: Acc)
    requires 28 <= |body| && ViewOk(a.view)
    ensures Take(Sealed(body), TLV_CRC32, Le32(Crc32(body)), a) == Go(a.(crc := true))
  {
    hide Crc32, TakeTiles, TakeTopology, TakeReadout, TakeLimit, ReadLe32;
    assert Sealed(body)[..|body|] == body;
    Word32RoundTrip(Crc32(body));
  }

  /** The checksum record of a sealed body is accepted, and it ends the blob. */
  lemma ParseSeal(body: Blob, a: Acc)
    requires 28 <= |body| && ViewOk(a.view)
    ensures ParseFrom(Sealed(body), |body|, a) == BakeParser.Finish(a.(crc := true))
  {
    hide Crc32, Take, HasRecord, TypeAt, ValueAt, NextPos, BakeParser.Finish, Sealed, Aligned;
    SealRecord(body);
    AlignedAt(Sealed(body), |body|, Record(TLV_CRC32, Le32(Crc32(body))));
    SealTaken(body, a);
  }

  lemma SealRecord(body: Blob)
    ensures var r := Record(TLV_CRC32, Le32(Crc32(body)));
            |Aligned(r)| == 12 && Sealed(body)[|body|..|body| + 12] == Aligned(r)
  {
    hide Crc32;
    assert Zeros(0) == [];
  }

  lemma HeaderFields(total: u32, bakeId: u32, profileId: u32, flags: u32, rest: Blob)
    ensures var b := Header(total, bakeId, profileId, flags) + rest;
            && b[0] == 68 && b[1] == 56 && b[2] == 66 && b[3] == 75 && ReadLe16(b, 4) == 2
            && ReadLe32(b, 8) == flags && ReadLe32(b, 12) == total && ReadLe32(b, 16) == bakeId
            && ReadLe32(b, 20) == profileId && ReadLe32(b, 24) == 0
  {
    var b := Header(total, bakeId, profileId, flags) + rest;
    assert b[8..12] == Le32(flags) && b[12..16] == Le32(total) && b[16..20] == Le32(bakeId)
           && b[20..24] == Le32(profileId) && b[24..28] == Le32(0);
    Word32At(b, 8, flags);
    Word32At(b, 12, total);
    Word32At(b, 16, bakeId);
    Word32At(b, 20, profileId);
    Word32At(b, 24, 0);
  }

  lemma Word32At(b: Blob, i: nat, v: u32)
    requires i + 4 <= |b| && b[i..i + 4] == Le32(v)
    ensures ReadLe32(b, i) == v
  {
    ReadInside(b, i, i + 4, 0);
    Word32RoundTrip(v);
  }

  /** A blob laid out by a writer: header with its own total length, aligned records, checksum. */
  function Written(rs: seq<Record>, bakeId: u32, profileId: u32, flags: u32): Blob
    requires 28 + |Padded(rs)| + 12 < 0x1_0000_0000
  {
    Sealed(Header(28 + |Padded(rs)| + 12, bakeId, profileId, flags) + Padded(rs))
  }

  lemma WrittenLength(rs: seq<Record>, bakeId: u32, profileId: u32, flags: u32)
    requires 28 + |Padded(rs)| + 12 < 0x1_0000_0000
    ensures |Written(rs, bakeId, profileId, flags)| == 28 + |Padded(rs)| + 12
  {
    hide Padded, Header, Crc32;
  }

  /** Parsing such a blob is feeding its records: header, framing and checksum are all in order. */
  lemma ParseWritten(rs: seq<Record>, bakeId: u32, profileId: u32, flags: u32)
    requires 28 + |Padded(rs)| + 12 < 0x1_0000_0000
    ensures Parse(Written(rs, bakeId, profileId, flags)) ==
            match Feed(Written(rs, bakeId, profileId, flags), rs, EmptyAcc(bakeId, profileId, flags))
            case Stop(out) => out
            case Go(a) => BakeParser.Finish(a.(crc := true))
  {
    hide Feed, ParseFrom, BakeParser.Finish, Header, Padded, Sealed;
    var total := 28 + |Padded(rs)| + 12;
    var head := Header(total, bakeId, profileId, flags);
    var body := head + Padded(rs);
    var blob := Sealed(body);
    SealedIs(body, head, Padded(rs));
    HeaderFields(total, bakeId, profileId, flags, blob[28..]);
    assert blob == head + blob[28..];
    var a0 := EmptyAcc(bakeId, profileId, flags);
    assert Parse(blob) == ParseFrom(blob, 28, a0);
    ParseRecordList(blob, 28, rs, a0);
    var fed := Feed(blob, rs, a0);
    if fed.Go? {
      ParseSeal(body, fed.acc);
    }
  }

  lemma SealedIs(body: Blob, head: Blob, records: Blob)
    requires body == head + records && |head| == 28
    ensures Sealed(body)[..28] == head && Sealed(body)[28..28 + |records|] == records
  {
    hide Crc32;
  }

  // ---------- The fixed-size records ----------

  function TopologyBytes(tileCount: u32, tileW: u16, tileH: u16, lanes: u8, domains: u8, limit: u32): Blob {
    Le32(tileCount) + Le16(tileW) + Le16(tileH) + [lanes, domains] + Le16(0) + Le32(limit)
  }

  function ReadoutBytes(r: Readout): Blob {
    [r.mode, 0] + Le16(r.winnerMask) + Le16(r.settleNs) + Le16(r.reserved1) + Le32(r.reserved2)
  }

  lemma Word16At(b: Blob, i: nat, v: u16)
    requires i + 2 <= |b| && b[i..i + 2] == Le16(v)
    ensures ReadLe16(b, i) == v
  {
    ReadInside(b, i, i + 2, 0);
    Word16RoundTrip(v);
  }

  lemma TopologyRoundTrip(tileCount: u32, tileW: u16, tileH: u16, lanes: u8, domains: u8, limit: u32)
    ensures var v := TopologyBytes(tileCount, tileW, tileH, lanes, domains, limit);
            |v| == 16 && ReadTopology(v) == Topology(tileCount, tileW, tileH, lanes, domains, 0, limit)
  {
    var v := TopologyBytes(tileCount, tileW, tileH, lanes, domains, limit);
    assert v[0..4] == Le32(tileCount) && v[4..6] == Le16(tileW) && v[6..8] == Le16(tileH)
           && v[10..12] == Le16(0) && v[12..16] == Le32(limit);
    Word32At(v, 0, tileCount);
    Word16At(v, 4, tileW);
    Word16At(v, 6, tileH);
    Word16At(v, 10, 0);
    Word32At(v, 12, limit);
  }

  lemma ReadoutRoundTrip(r: Readout)
    ensures |ReadoutBytes(r)| == 12 && ReadReadout(ReadoutBytes(r)) == r.(reserved0 := 0)
  {
    var v := ReadoutBytes(r);
    assert v[2..4] == Le16(r.winnerMask) && v[4..6] == Le16(r.settleNs) && v[6..8] == Le16(r.reserved1)
           && v[8..12] == Le32(r.reserved2);
    Word16At(v, 2, r.winnerMask);
    Word16At(v, 4, r.settleNs);
    Word16At(v, 6, r.reserved1);
    Word32At(v, 8, r.reserved2);
  }
}
