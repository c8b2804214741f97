/** Damage to a single byte, wherever it is: exactly two bytes of a well laid out blob can change unnoticed. */
module OneByte {
  import opened Machine
  import opened Bytes
  import opened BakeFormat
  import opened BakeParser
  import opened BakeWriter
  import opened Serializer
  import opened Crc
  import opened Overrun
  import opened Corruption
  import opened BakeGen

  /** The types whose length the parser checks, the checksum's aside. */
  predicate Checked(ty: u16) { !Unknown(ty) && ty != TLV_CRC32 }

  /** From pos on: records of checked types, and then one checksum record that ends the blob. */
  predicate Orderly(blob: Blob, pos: nat)
    requires pos <= |blob|
    decreases |blob| - pos
  {
    HasRecord(blob, pos) &&
    if TypeAt(blob, pos) == TLV_CRC32 then pos + 12 == NextPos(blob, pos) == |blob|
    else Checked(TypeAt(blob, pos)) && NextPos(blob, pos) + 12 <= |blob| && Orderly(blob, NextPos(blob, pos))
  }

  ghost predicate DifferAt(blob: Blob, other: Blob, k: nat) {
    |blob| == |other| && k < |blob| && blob[k] != other[k] && forall j | 0 <= j < |blob| && j != k :: blob[j] == other[j]
  }

  /** The ignored flag word of the closing checksum record. */
  predicate Ignored(blob: Blob, k: nat) { k + 10 == |blob| || k + 9 == |blob| }

  lemma CoverDiffers(blob: Blob, other: Blob, k: nat)
    requires DifferAt(blob, other, k) && k + 12 < |blob|
    ensures Crc32(blob[..|blob| - 12]) != Crc32(other[..|blob| - 12])
  {
    hide Crc32;
    var n := |blob| - 12;
    assert blob[..n][k] != other[..n][k];
    if Crc32(blob[..n]) == Crc32(other[..n]) {
      WindowDetected(blob[..n], other[..n], k);
    }
  }

  // ---------- The record that holds the byte ----------

  lemma RecordBytes(blob: Blob, other: Blob, pos: nat, k: nat)
    requires DifferAt(blob, other, k) && pos <= |blob| && HasRecord(blob, pos) && !(pos + 4 <= k < pos + 8)
    ensures HasRecord(other, pos) && NextPos(other, pos) == NextPos(blob, pos)
    ensures |ValueAt(other, pos)| == |ValueAt(blob, pos)|
    ensures k >= pos + 2 ==> TypeAt(other, pos) == TypeAt(blob, pos)
    ensures k < pos + 8 || pos + 8 + |ValueAt(blob, pos)| <= k ==> ValueAt(other, pos) == ValueAt(blob, pos)
  {
  }

  /** A wrong length is refused at once. */
  lemma WrongLength(blob: Blob, other: Blob, ty: u16, v: Blob, v': Blob, a: Acc)
    requires |v| < 0x1_0000_0000 && |v'| < 0x1_0000_0000 && |v| != |v'| && 12 <= |blob| && 12 <= |other| && ViewOk(a.view)
    requires Checked(ty) && Take(blob, ty, v, a).Go?
    ensures Take(other, ty, v', a).Stop? && Take(other, ty, v', a).out.Rejected?
  {
    hide FirstBad, DecodeTiles, ReadTopology, ReadReadout;
  }

  lemma LengthDamage(blob: Blob, other: Blob, pos: nat, a: Acc, k: nat)
    requires 28 <= pos && pos + 12 <= |blob| && ViewOk(a.view) && DifferAt(blob, other, k) && pos + 4 <= k < pos + 8
    requires HasRecord(blob, pos) && Checked(TypeAt(blob, pos)) && Take(blob, TypeAt(blob, pos), ValueAt(blob, pos), a).Go?
    ensures ParseFrom(other, pos, a).Rejected?
  {
    hide Take, Checked, NextPos;
    LengthDiffers(blob, other, pos, k);
    if HasRecord(other, pos) {
      WrongLength(blob, other, TypeAt(blob, pos), ValueAt(blob, pos), ValueAt(other, pos), a);
    }
  }

  lemma LengthDiffers(blob: Blob, other: Blob, pos: nat, k: nat)
    requires DifferAt(blob, other, k) && pos + 8 <= |blob| && HasRecord(blob, pos) && pos + 4 <= k < pos + 8
    ensures ReadLe32(blob, pos + 4) != ReadLe32(other, pos + 4)
    ensures HasRecord(other, pos) ==>
              TypeAt(other, pos) == TypeAt(blob, pos) && |ValueAt(other, pos)| != |ValueAt(blob, pos)|
  {
    WordDiffers(blob, other, pos + 4, k);
  }

  lemma WordDiffers(s: Blob, s': Blob, i: nat, k: nat)
    requires DifferAt(s, s', k) && i + 4 <= |s| && i <= k < i + 4
    ensures ReadLe32(s, i) != ReadLe32(s', i)
  {
  }

  /** Before the last record a damaged type, flag, value or padding byte changes the covered bytes only. */
  lemma CoveredDamage(blob: Blob, other: Blob, pos: nat, a: Acc, k: nat)
    requires 28 <= pos <= |blob| && ViewOk(a.view) && !a.crc && a.view.tileCount <= TILE_COUNT
    requires DifferAt(blob, other, k) && HasRecord(blob, pos) && TypeAt(blob, pos) != TLV_CRC32
    requires pos <= k < NextPos(blob, pos) && k + 12 < |blob| && !(pos + 4 <= k < pos + 8)
    requires ParseFrom(blob, pos, a).Accepted?
    ensures ParseFrom(other, pos, a).Rejected?
  {
    hide Take, HasRecord, TypeAt, ValueAt, NextPos, Crc32;
    CoverDiffers(blob, other, k);
    RecordBytes(blob, other, pos, k);
    if pos + 2 <= k {
      assert SameFraming(blob, other, pos, false);
      InStep(blob, other, pos, a, a, false);
    } else {
      var ty, ty' := TypeAt(blob, pos), TypeAt(other, pos);
      TakeAndCrc(blob, ty, ValueAt(blob, pos), a);
      TakeAndCount(other, ty', ValueAt(other, pos), a);
      var step := Take(other, ty', ValueAt(other, pos), a);
      if step.Go? {
        assert SameFraming(blob, other, NextPos(blob, pos), false);
        InStep(blob, other, NextPos(blob, pos), Take(blob, ty, ValueAt(blob, pos), a).acc, step.acc, false);
      }
    }
  }

  /** The closing checksum record: only its flag word is free. */
  lemma ClosingDamage(blob: Blob, other: Blob, a: Acc, k: nat)
    requires 40 <= |blob| && ViewOk(a.view) && !a.crc && DifferAt(blob, other, k) && |blob| - 12 <= k
    requires HasRecord(blob, |blob| - 12) && TypeAt(blob, |blob| - 12) == TLV_CRC32 && NextPos(blob, |blob| - 12) == |blob|
    requires ParseFrom(blob, |blob| - 12, a).Accepted?
    ensures if Ignored(blob, k) then ParseFrom(other, |blob| - 12, a) == ParseFrom(blob, |blob| - 12, a)
            else ParseFrom(other, |blob| - 12, a).Rejected?
  {
    hide Crc32, Take, HasRecord, TypeAt, ValueAt, NextPos, BakeParser.Finish;
    var pos := |blob| - 12;
    assert blob[..pos] == other[..pos];
    var v := ValueAt(blob, pos);
    TakeAndCrc(blob, TLV_CRC32, v, a);
    if pos + 4 <= k < pos + 8 {
      LengthDiffers(blob, other, pos, k);
      ValueLength(blob, pos);
      ClosingLength(other, pos, a);
    } else {
      RecordBytes(blob, other, pos, k);
      SameChecksum(blob, other, v, a);
      if k < pos + 2 {
        TypeDamage(blob, other, pos, k);
        TakesUnknown(other, TypeAt(other, pos), ValueAt(other, pos), a);
        NoChecksum(a);
      } else if pos + 8 <= k {
        ValueDamage(blob, other, pos, k);
        WrongChecksum(other, ValueAt(other, pos), a);
      }
    }
  }

  lemma ValueLength(blob: Blob, pos: nat)
    requires pos <= |blob| && HasRecord(blob, pos)
    ensures |ValueAt(blob, pos)| == ReadLe32(blob, pos + 4)
  {
  }

  lemma NoChecksum(a: Acc)
    requires !a.crc
    ensures BakeParser.Finish(a).Rejected?
  {
  }

  lemma SameChecksum(blob: Blob, other: Blob, v: Blob, a: Acc)
    requires |v| < 0x1_0000_0000 && 12 <= |blob| == |other| && ViewOk(a.view) && blob[..|blob| - 12] == other[..|blob| - 12]
    ensures Take(other, TLV_CRC32, v, a) == Take(blob, TLV_CRC32, v, a)
  {
    hide Crc32;
  }

  lemma ClosingLength(other: Blob, pos: nat, a: Acc)
    requires 28 <= pos && pos + 12 == |other| && ViewOk(a.view) && ReadLe32(other, pos + 4) != 4
    requires HasRecord(other, pos) ==> TypeAt(other, pos) == TLV_CRC32
    ensures ParseFrom(other, pos, a).Rejected?
  {
    hide Crc32, ReadLe32;
  }

  /** One byte of the checksum type makes it no other type that the parser knows. */
  lemma TypeDamage(blob: Blob, other: Blob, pos: nat, k: nat)
    requires DifferAt(blob, other, k) && pos <= |blob| && HasRecord(blob, pos) && HasRecord(other, pos)
    requires TypeAt(blob, pos) == TLV_CRC32 && pos <= k < pos + 2
    ensures Unknown(TypeAt(other, pos))
  {
    assert blob[pos] == 0xFE && blob[pos + 1] == 0xFF;
  }

  lemma ValueDamage(blob: Blob, other: Blob, pos: nat, k: nat)
    requires DifferAt(blob, other, k) && pos + 12 == |blob| && HasRecord(blob, pos) && HasRecord(other, pos)
    requires |ValueAt(blob, pos)| == |ValueAt(other, pos)| == 4 && pos + 8 <= k
    ensures ReadLe32(ValueAt(blob, pos), 0) != ReadLe32(ValueAt(other, pos), 0)
  {
    WordDiffers(blob, other, pos + 8, k);
    ReadInside(blob, pos + 8, pos + 12, 0);
    ReadInside(other, pos + 8, pos + 12, 0);
  }

  // ---------- The walk to that record ----------

  lemma {:induction false} OneByteFrom(blob: Blob, other: Blob, pos: nat, a: Acc, k: nat)
    requires 28 <= pos <= k && 40 <= |blob| && pos <= |blob| && ViewOk(a.view) && !a.crc && a.view.tileCount <= TILE_COUNT
    requires DifferAt(blob, other, k) && Orderly(blob, pos) && SmallTables(blob, pos)
    requires ParseFrom(blob, pos, a).Accepted?
    ensures if Ignored(blob, k) then ParseFrom(other, pos, a) == ParseFrom(blob, pos, a) else ParseFrom(other, pos, a).Rejected?
    decreases |blob| - pos
  {
    hide Take, HasRecord, TypeAt, ValueAt, NextPos, Crc32, Checked, ReadTopology, DifferAt;
    if TypeAt(blob, pos) == TLV_CRC32 {
      ClosingDamage(blob, other, a, k);
    } else {
      var ty, v, next := TypeAt(blob, pos), ValueAt(blob, pos), NextPos(blob, pos);
      TakeAndCrc(blob, ty, v, a);
      TakeAndCount(blob, ty, v, a);
      RecordRoom(blob, pos);
      if pos + 4 <= k < pos + 8 {
        LengthDamage(blob, other, pos, a, k);
      } else if k < next {
        CoveredDamage(blob, other, pos, a, k);
      } else {
        RecordBytes(blob, other, pos, k);
        SameLengths(blob, other, k);
        TakeElsewhere(blob, other, ty, v, a);
        OneByteFrom(blob, other, next, Take(blob, ty, v, a).acc, k);
      }
    }
  }

  lemma SameLengths(blob: Blob, other: Blob, k: nat)
    requires DifferAt(blob, other, k)
    ensures |blob| == |other|
  {
  }

  lemma TakeElsewhere(blob: Blob, other: Blob, ty: u16, v: Blob, a: Acc)
    requires |v| < 0x1_0000_0000 && 12 <= |blob| && 12 <= |other| && ViewOk(a.view) && ty != TLV_CRC32
    ensures Take(other, ty, v, a) == Take(blob, ty, v, a)
  {
    hide TakeTopology, TakeTiles, TakeReadout, TakeLimit;
  }

  /** If one byte of an accepted, orderly blob changes, the blob still means the same if that byte is one of the two of
      the closing record's flag word, and it is rejected otherwise. */
  lemma OneByteExactly(blob: Blob, other: Blob, k: nat)
    requires |blob| < 0x1_0000_0000 && 28 <= |blob| && Parse(blob).Accepted? && DifferAt(blob, other, k)
    requires Orderly(blob, 28) && SmallTables(blob, 28)
    ensures if Ignored(blob, k) then Parse(other) == Parse(blob) else Parse(other).Rejected?
  {
    hide ParseFrom, Crc32, Orderly, SmallTables, EmptyAcc, Payload, ReadLe16, ReadLe32;
    ParseFromHeader(blob);
    if k < 28 {
      DamageIsRejected(blob, other, k);
    } else {
      SameHeaderWords(blob, other, k);
      EmptyView(ReadLe32(blob, 16), ReadLe32(blob, 20), ReadLe32(blob, 8));
      EmptyCount(ReadLe32(blob, 16), ReadLe32(blob, 20), ReadLe32(blob, 8));
      OneByteFrom(blob, other, 28, EmptyAcc(ReadLe32(blob, 16), ReadLe32(blob, 20), ReadLe32(blob, 8)), k);
    }
  }

  lemma EmptyCount(bakeId: u32, profileId: u32, flags: u32)
    ensures EmptyAcc(bakeId, profileId, flags).view.tileCount == 0
  {
  }

  lemma SameHeaderWords(blob: Blob, other: Blob, k: nat)
    requires DifferAt(blob, other, k) && 28 <= k
    ensures ReadLe16(blob, 4) == ReadLe16(other, 4) && ReadLe32(blob, 8) == ReadLe32(other, 8)
    ensures ReadLe32(blob, 12) == ReadLe32(other, 12) && ReadLe32(blob, 16) == ReadLe32(other, 16)
    ensures ReadLe32(blob, 20) == ReadLe32(other, 20) && ReadLe32(blob, 24) == ReadLe32(other, 24)
  {
  }

  // ---------- What the writers lay out ----------

  /** Records as the writers use them: of checked types, and topologies for tables that exist. */
  ghost predicate Proper(rs: seq<Record>) {
    forall r | r in rs ::
      Checked(r.ty) && (r.ty == TLV_TOPOLOGY && |r.value| == 16 ==> ReadTopology(r.value).tileCount <= TILE_COUNT)
  }

  lemma {:induction false} ProperIsOrderly(blob: Blob, pos: nat, rs: seq<Record>)
    requires pos + |Padded(rs)| + 12 == |blob| && blob[pos..pos + |Padded(rs)|] == Padded(rs) && Proper(rs)
    requires HasRecord(blob, |blob| - 12) && TypeAt(blob, |blob| - 12) == TLV_CRC32 && NextPos(blob, |blob| - 12) == |blob|
    ensures Orderly(blob, pos) && SmallTables(blob, pos)
    decreases |rs|
  {
    hide HasRecord, TypeAt, ValueAt, NextPos, Checked, ReadTopology;
    if rs == [] {
      ClosingIsOrderly(blob, pos);
    } else {
      var n := |Aligned(rs[0])|;
      var whole := blob[pos..pos + |Padded(rs)|];
      assert blob[pos..pos + n] == whole[..n];
      assert blob[pos + n..pos + |Padded(rs)|] == whole[n..];
      AlignedAt(blob, pos, rs[0]);
      ProperIsOrderly(blob, pos + n, rs[1..]);
      assert rs[0] in rs;
      CheckedIsNoChecksum(rs[0].ty);
    }
  }

  lemma CheckedIsNoChecksum(ty: u16)
    ensures Checked(ty) ==> ty != TLV_CRC32
  {
  }

  lemma ClosingIsOrderly(blob: Blob, pos: nat)
    requires pos + 12 == |blob| && HasRecord(blob, pos) && TypeAt(blob, pos) == TLV_CRC32 && NextPos(blob, pos) == |blob|
    ensures Orderly(blob, pos) && SmallTables(blob, pos)
  {
  }

  /** A blob laid out by a writer and accepted: one changed byte goes unnoticed exactly in the flag word of the closing
      checksum record. */
  lemma WrittenOneByte(rs: seq<Record>, bakeId: u32, profileId: u32, flags: u32, other: Blob, k: nat)
    requires 28 + |Padded(rs)| + 12 < 0x1_0000_0000 && Proper(rs)
    requires var blob := Written(rs, bakeId, profileId, flags); Parse(blob).Accepted? && DifferAt(blob, other, k)
    ensures var blob := Written(rs, bakeId, profileId, flags);
            if Ignored(blob, k) then Parse(other) == Parse(blob) else Parse(other).Rejected?
  {
    hide Parse, Header, Padded, Sealed, Proper, Orderly, SmallTables, Aligned;
    var blob := Written(rs, bakeId, profileId, flags);
    var head := Header(28 + |Padded(rs)| + 12, bakeId, profileId, flags);
    WrittenLength(rs, bakeId, profileId, flags);
    SealedIs(head + Padded(rs), head, Padded(rs));
    SealRecord(head + Padded(rs));
    AlignedAt(blob, |blob| - 12, Record(TLV_CRC32, Le32(Crc32(head + Padded(rs)))));
    ProperIsOrderly(blob, 28, rs);
    OneByteExactly(blob, other, k);
  }

  lemma SavedIsProper(b: Baked)
    requires BakedOk(b)
    ensures Proper(SavedRecords(b))
  {
    hide Entries, Saved, TopologyBytes, ReadoutBytes, Le32, ReadTopology;
    TopologyRoundTrip(SaveCount(b), b.topo.tileW, b.topo.tileH, b.topo.lanes, b.topo.domains, b.count);
  }

  /** So it is for every saved bake that comes back at all. */
  lemma SavedOneByte(b: Baked, other: Blob, k: nat)
    requires BakedOk(b) && Savable(b) && DifferAt(Serialize(b), other, k)
    ensures if Ignored(Serialize(b), k) then Parse(other) == Accepted(ViewOf(b)) else Parse(other).Rejected?
  {
    hide Parse, Serialize, Written, SavedRecords, Proper, ViewOf;
    RoundTripExactly(b);
    SerializeIsWritten(b);
    SavedIsProper(b);
    WrittenOneByte(SavedRecords(b), b.bakeId, b.profileId, b.flags, other, k);
  }

  /** And for every generated one. */
  lemma GeneratedOneByte(n: nat, lo: i16, hi: i16, decay: u16, other: Blob, k: nat)
    requires 0 < n <= TILE_COUNT && lo <= hi && DifferAt(GenBlob(n, lo, hi, decay), other, k)
    ensures |other| == |GenBlob(n, lo, hi, decay)| < 0x1_0000_0000
    ensures if Ignored(other, k) then Parse(other) == Accepted(ViewOf(Generated(n, lo, hi, decay)))
            else Parse(other).Rejected?
  {
    hide Parse, Written, GenRecords, GenBlob, Generated, Proper, ViewOf, Padded, EstimateSize;
    var b := Generated(n, lo, hi, decay);
    GeneratorAndParserAgree(n, lo, hi, decay);
    GeneratedIsProper(b);
    GeneratedIsWritten(n, lo, hi, decay);
    WrittenOneByte(GenRecords(b), 1, 1, 0, other, k);
  }

  lemma GeneratedIsWritten(n: nat, lo: i16, hi: i16, decay: u16)
    requires 0 < n <= TILE_COUNT
    ensures var b := Generated(n, lo, hi, decay);
            28 + |Padded(GenRecords(b))| + 12 < 0x1_0000_0000 && GenBlob(n, lo, hi, decay) == Written(GenRecords(b), 1, 1, 0)
    ensures |GenBlob(n, lo, hi, decay)| < 0x1_0000_0000
  {
    hide Written, GenRecords, Padded, EstimateSize;
    PaddedLength(Generated(n, lo, hi, decay));
    WrittenLength(GenRecords(Generated(n, lo, hi, decay)), 1, 1, 0);
  }

  lemma GeneratedIsProper(b: Baked)
    requires BakedOk(b)
    ensures Proper(GenRecords(b))
  {
    hide EntriesRecord, TopologyRecord, ReadoutRecord, LimitRecord, Proper;
    SavedIsProper(b);
    SameRecords(GenRecords(b), SavedRecords(b));
  }

  lemma SameRecords(rs: seq<Record>, more: seq<Record>)
    requires Proper(more) && forall r | r in rs :: r in more
    ensures Proper(rs)
  {
  }
}
