/** What the checksum buys: a damaged value in an accepted blob is never accepted. */
module Corruption {
  import opened Machine
  import opened Bytes
  import opened BakeFormat
  import opened BakeParser
  import opened Crc
  import opened Overrun

  datatype Found = Nothing | Stored(crc: u32)

  /** The value of the first checksum record along the record framing. */
  function StoredCrc(blob: Blob, pos: nat): Found
    requires pos <= |blob|
    decreases |blob| - pos
  {
    if !HasRecord(blob, pos) then Nothing
    else if TypeAt(blob, pos) == TLV_CRC32 then
      if |ValueAt(blob, pos)| == 4 then Stored(ReadLe32(ValueAt(blob, pos), 0)) else Nothing
    else if NextPos(blob, pos) > |blob| then Nothing
    else StoredCrc(blob, NextPos(blob, pos))
  }

  lemma TakeAndCrc(blob: Blob, ty: u16, v: Blob, a: Acc)
    requires |v| < 0x1_0000_0000 && 12 <= |blob| && ViewOk(a.view) && Take(blob, ty, v, a).Go?
    ensures ty == TLV_CRC32 ==> |v| == 4 && ReadLe32(v, 0) == Crc32(blob[..|blob| - 12])
    ensures ty != TLV_CRC32 ==> Take(blob, ty, v, a).acc.crc == a.crc
  {
    hide FirstBad, DecodeTiles, Crc32;
  }

  /** An accepted blob carries its own checksum. */
  lemma {:induction false} AcceptedMatches(blob: Blob, pos: nat, a: Acc)
    requires 28 <= pos <= |blob| && ViewOk(a.view) && !a.crc
    requires ParseFrom(blob, pos, a).Accepted?
    ensures StoredCrc(blob, pos) == Stored(Crc32(blob[..|blob| - 12]))
    decreases |blob| - pos
  {
    hide Take, HasRecord, TypeAt, ValueAt, NextPos, Crc32;
    if pos < |blob| {
      TakeAndCrc(blob, TypeAt(blob, pos), ValueAt(blob, pos), a);
      if TypeAt(blob, pos) != TLV_CRC32 {
        AcceptedMatches(blob, NextPos(blob, pos), Take(blob, TypeAt(blob, pos), ValueAt(blob, pos), a).acc);
      }
    }
  }

  /** Byte k may be damaged without moving a record: it lies in the value or the padding of a record that is not a
      checksum, in a record's ignored flag word or, if types says so, in the type of a record that is not a
      checksum. */
  predicate Payload(blob: Blob, pos: nat, k: nat, types: bool)
    requires pos <= |blob|
    decreases |blob| - pos
  {
    HasRecord(blob, pos) &&
    (pos + 2 <= k < pos + 4
     || (TypeAt(blob, pos) != TLV_CRC32 && pos + 8 <= k < NextPos(blob, pos))
     || (TypeAt(blob, pos) != TLV_CRC32 && types && pos <= k < pos + 2)
     || (NextPos(blob, pos) <= |blob| && Payload(blob, NextPos(blob, pos), k, types)))
  }

  lemma {:induction false} PayloadStart(blob: Blob, pos: nat, k: nat, types: bool)
    requires pos <= |blob| && Payload(blob, pos, k, types)
    ensures HasRecord(blob, pos) && k >= pos && !(pos + 4 <= k < pos + 8)
    ensures TypeAt(blob, pos) == TLV_CRC32 || !types ==> k >= pos + 2
    ensures TypeAt(blob, pos) == TLV_CRC32 ==> !(pos + 8 <= k < pos + 8 + |ValueAt(blob, pos)|)
    decreases |blob| - pos
  {
    hide TypeAt, HasRecord;
    if NextPos(blob, pos) <= |blob| && Payload(blob, NextPos(blob, pos), k, types) {
      PayloadStart(blob, NextPos(blob, pos), k, types);
    }
  }

  /** From pos on, the two blobs differ at most in payload of the first one. */
  ghost predicate SameFraming(blob: Blob, other: Blob, pos: nat, types: bool)
    requires pos <= |blob|
  {
    && |blob| == |other|
    && forall k | pos <= k < |blob| && blob[k] != other[k] :: Payload(blob, pos, k, types)
  }

  lemma SameHeader(blob: Blob, other: Blob, pos: nat, types: bool)
    requires pos <= |blob| && SameFraming(blob, other, pos, types) && HasRecord(blob, pos)
    ensures HasRecord(other, pos) && NextPos(blob, pos) == NextPos(other, pos)
    ensures |ValueAt(blob, pos)| == |ValueAt(other, pos)|
    ensures TypeAt(blob, pos) == TLV_CRC32 || !types ==> TypeAt(blob, pos) == TypeAt(other, pos)
    ensures TypeAt(blob, pos) == TLV_CRC32 ==> ValueAt(blob, pos) == ValueAt(other, pos)
  {
    hide Payload;
    forall k | pos <= k < |blob| && blob[k] != other[k]
      ensures !(pos + 4 <= k < pos + 8)
      ensures TypeAt(blob, pos) == TLV_CRC32 || !types ==> k >= pos + 2
      ensures TypeAt(blob, pos) == TLV_CRC32 ==> !(pos + 8 <= k < pos + 8 + |ValueAt(blob, pos)|)
    {
      PayloadStart(blob, pos, k, types);
    }
  }

  lemma SameFramingNext(blob: Blob, other: Blob, pos: nat, types: bool)
    requires pos <= |blob| && SameFraming(blob, other, pos, types)
    requires HasRecord(blob, pos) && NextPos(blob, pos) <= |blob|
    ensures SameFraming(blob, other, NextPos(blob, pos), types)
  {
  }

  /** A per-tile record that was taken once never overruns the arrays with other contents. */
  lemma NoOverrun(k: Kind, v: Blob, v': Blob, a: Acc, a': Acc)
    requires |v| == |v'| < 0x1_0000_0000 && ViewOk(a.view) && ViewOk(a'.view)
    requires TakeTiles(k, v, a).Go?
    ensures TakeTiles(k, v', a') != Stop(PastArrays)
  {
    hide FirstBad, DecodeTiles;
    if |v| == Size(k) * a'.view.tileCount {
      assert a'.view.tileCount == a.view.tileCount;
    }
  }

  lemma TypeDecides(blob: Blob, other: Blob, ty: u16, v: Blob, v': Blob, a: Acc, a': Acc)
    requires |v| == |v'| < 0x1_0000_0000 && 12 <= |blob| && 12 <= |other| && ViewOk(a.view) && ViewOk(a'.view)
    requires Take(blob, ty, v, a).Go?
    ensures Take(other, ty, v', a') != Stop(PastArrays)
  {
    hide TakeTiles, Crc32;
    if ty == TLV_TILE_PARAMS_V2 {
      NoOverrun(Params, v, v', a, a');
    } else if ty == TLV_TILE_ROUTING_FLAGS16 {
      NoOverrun(Routing, v, v', a, a');
    } else if ty == TLV_TILE_WEIGHTS_PACKED {
      NoOverrun(Weights, v, v', a, a');
    } else if ty == TLV_RESET_ON_FIRE_MASK16 {
      NoOverrun(ResetMasks, v, v', a, a');
    }
  }

  /** The parser walks through both blobs in step, up to the checksum record at the latest. */
  lemma {:induction false} InStep(blob: Blob, other: Blob, pos: nat, a: Acc, a': Acc, types: bool)
    requires 28 <= pos <= |blob| && SameFraming(blob, other, pos, types) && ViewOk(a.view) && ViewOk(a'.view)
    requires ParseFrom(blob, pos, a).Accepted? && !a.crc
    requires Crc32(blob[..|blob| - 12]) != Crc32(other[..|blob| - 12])
    ensures !ParseFrom(other, pos, a').Accepted? && ParseFrom(other, pos, a') != PastBlob
    ensures !types ==> ParseFrom(other, pos, a').Rejected?
    decreases |blob| - pos
  {
    hide Take, Crc32, HasRecord, TypeAt, ValueAt, NextPos, Payload, SameFraming;
    if pos < |blob| {
      SameLength(blob, other, pos, types);
      SameHeader(blob, other, pos, types);
      var ty, v, ty', v' := TypeAt(blob, pos), ValueAt(blob, pos), TypeAt(other, pos), ValueAt(other, pos);
      TakeAndCrc(blob, ty, v, a);
      if ty == TLV_CRC32 {
        WrongChecksum(other, v, a');
      } else {
        var step := Take(other, ty', v', a');
        if !types {
          TypeDecides(blob, other, ty, v, v', a, a');
        }
        if step.Go? {
          SameFramingNext(blob, other, pos, types);
          InStep(blob, other, NextPos(blob, pos), Take(blob, ty, v, a).acc, step.acc, types);
        }
      }
    }
  }

  lemma SameLength(blob: Blob, other: Blob, pos: nat, types: bool)
    requires pos <= |blob| && SameFraming(blob, other, pos, types)
    ensures |blob| == |other|
  {
  }

  lemma WrongChecksum(other: Blob, v: Blob, a': Acc)
    requires |v| == 4 && 12 <= |other| && ViewOk(a'.view) && ReadLe32(v, 0) != Crc32(other[..|other| - 12])
    ensures Take(other, TLV_CRC32, v, a').Stop? && Take(other, TLV_CRC32, v, a').out.Rejected?
  {
    hide Crc32;
  }

  lemma ParseFromHeader(blob: Blob)
    requires |blob| < 0x1_0000_0000 && Parse(blob).Accepted?
    ensures 40 <= |blob|
    ensures StoredCrc(blob, 28) == Stored(Crc32(blob[..|blob| - 12]))
  {
    hide ParseFrom, Crc32;
    AcceptedMatches(blob, 28, EmptyAcc(ReadLe32(blob, 16), ReadLe32(blob, 20), ReadLe32(blob, 8)));
    FoundFits(blob, 28);
  }

  lemma FoundFits(blob: Blob, pos: nat)
    requires pos <= |blob| && StoredCrc(blob, pos).Stored?
    ensures pos + 12 <= |blob|
    decreases |blob| - pos
  {
    if TypeAt(blob, pos) != TLV_CRC32 {
      FoundFits(blob, NextPos(blob, pos));
    }
  }

  /** Damage to at most four consecutive bytes of a blob: header bytes, or payload of its records, and none of the
      last twelve bytes. */
  ghost predicate Damaged(blob: Blob, damaged: Blob, i: nat, types: bool) {
    && 28 <= |blob| && DifferWithin(blob, damaged, i) && blob != damaged
    && forall k | 0 <= k < |blob| && blob[k] != damaged[k] :: k < |blob| - 12 && (k < 28 || Payload(blob, 28, k, types))
  }

  lemma DamageShows(blob: Blob, damaged: Blob, i: nat, types: bool)
    requires |blob| < 0x1_0000_0000 && Parse(blob).Accepted? && Damaged(blob, damaged, i, types)
    ensures !Parse(damaged).Accepted? && Parse(damaged) != PastBlob
    ensures !types ==> Parse(damaged).Rejected?
  {
    hide ParseFrom, Crc32, Payload, EmptyAcc;
    ParseFromHeader(blob);
    var n := |blob| - 12;
    if Crc32(blob[..n]) == Crc32(damaged[..n]) {
      WindowDetected(blob[..n], damaged[..n], i);
      assert forall k | 0 <= k < n :: blob[k] == blob[..n][k] && damaged[k] == damaged[..n][k];
    }
    var a := EmptyAcc(ReadLe32(blob, 16), ReadLe32(blob, 20), ReadLe32(blob, 8));
    var a' := EmptyAcc(ReadLe32(damaged, 16), ReadLe32(damaged, 20), ReadLe32(damaged, 8));
    EmptyView(ReadLe32(blob, 16), ReadLe32(blob, 20), ReadLe32(blob, 8));
    EmptyView(ReadLe32(damaged, 16), ReadLe32(damaged, 20), ReadLe32(damaged, 8));
    InStep(blob, damaged, 28, a, a', types);
  }

  /** Such damage to the header, to values, padding or flag words makes the parser reject the blob ... */
  lemma DamageIsRejected(blob: Blob, damaged: Blob, i: nat)
    requires |blob| < 0x1_0000_0000 && Parse(blob).Accepted? && Damaged(blob, damaged, i, false)
    ensures Parse(damaged).Rejected?
  {
    DamageShows(blob, damaged, i, false);
  }

  /** ... and with record types damaged as well it is still not accepted, the cursor stays inside, and the blob is
      rejected unless it names more tiles than the view holds. */
  lemma DamagedTypesShow(blob: Blob, damaged: Blob, i: nat)
    requires |blob| < 0x1_0000_0000 && Parse(blob).Accepted? && Damaged(blob, damaged, i, true)
    ensures !Parse(damaged).Accepted? && Parse(damaged) != PastBlob
    ensures SmallTables(damaged, 28) ==> Parse(damaged).Rejected?
  {
    hide ParseFrom, SmallTables, Payload;
    DamageShows(blob, damaged, i, true);
    if SmallTables(damaged, 28) {
      SmallTablesFit(damaged, 28, EmptyAcc(ReadLe32(damaged, 16), ReadLe32(damaged, 20), ReadLe32(damaged, 8)));
    }
  }
}
