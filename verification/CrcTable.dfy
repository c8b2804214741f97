/** The 256-entry checksum table, and the polynomial it tabulates: CRC-32 as described in section 8 of
    RFC 1952. Word operations carry names so that proofs can hide them. */
module CrcTable {

  function Quad(i: bv8, a: bv32, b: bv32, c: bv32, d: bv32): bv32 {
    if i & 3 == 0 then a else if i & 3 == 1 then b else if i & 3 == 2 then c else d
  }

  function Row00(i: bv8): bv32 {
    if i < 0x04 then Quad(i, 0x00000000, 0x77073096, 0xEE0E612C, 0x990951BA)
    else if i < 0x08 then Quad(i, 0x076DC419, 0x706AF48F, 0xE963A535, 0x9E6495A3)
    else if i < 0x0C then Quad(i, 0x0EDB8832, 0x79DCB8A4, 0xE0D5E91E, 0x97D2D988)
    else Quad(i, 0x09B64C2B, 0x7EB17CBD, 0xE7B82D07, 0x90BF1D91)
  }

  function Row10(i: bv8): bv32 {
    if i < 0x14 then Quad(i, 0x1DB71064, 0x6AB020F2, 0xF3B97148, 0x84BE41DE)
    else if i < 0x18 then Quad(i, 0x1ADAD47D, 0x6DDDE4EB, 0xF4D4B551, 0x83D385C7)
    else if i < 0x1C then Quad(i, 0x136C9856, 0x646BA8C0, 0xFD62F97A, 0x8A65C9EC)
    else Quad(i, 0x14015C4F, 0x63066CD9, 0xFA0F3D63, 0x8D080DF5)
  }

  function Row20(i: bv8): bv32 {
    if i < 0x24 then Quad(i, 0x3B6E20C8, 0x4C69105E, 0xD56041E4, 0xA2677172)
    else if i < 0x28 then Quad(i, 0x3C03E4D1, 0x4B04D447, 0xD20D85FD, 0xA50AB56B)
    else if i < 0x2C then Quad(i, 0x35B5A8FA, 0x42B2986C, 0xDBBBC9D6, 0xACBCF940)
    else Quad(i, 0x32D86CE3, 0x45DF5C75, 0xDCD60DCF, 0xABD13D59)
  }

  function Row30(i: bv8): bv32 {
    if i < 0x34 then Quad(i, 0x26D930AC, 0x51DE003A, 0xC8D75180, 0xBFD06116)
    else if i < 0x38 then Quad(i, 0x21B4F4B5, 0x56B3C423, 0xCFBA9599, 0xB8BDA50F)
    else if i < 0x3C then Quad(i, 0x2802B89E, 0x5F058808, 0xC60CD9B2, 0xB10BE924)
    else Quad(i, 0x2F6F7C87, 0x58684C11, 0xC1611DAB, 0xB6662D3D)
  }

  function Row40(i: bv8): bv32 {
    if i < 0x44 then Quad(i, 0x76DC4190, 0x01DB7106, 0x98D220BC, 0xEFD5102A)
    else if i < 0x48 then Quad(i, 0x71B18589, 0x06B6B51F, 0x9FBFE4A5, 0xE8B8D433)
    else if i < 0x4C then Quad(i, 0x7807C9A2, 0x0F00F934, 0x9609A88E, 0xE10E9818)
    else Quad(i, 0x7F6A0DBB, 0x086D3D2D, 0x91646C97, 0xE6635C01)
  }

  function Row50(i: bv8): bv32 {
    if i < 0x54 then Quad(i, 0x6B6B51F4, 0x1C6C6162, 0x856530D8, 0xF262004E)
    else if i < 0x58 then Quad(i, 0x6C0695ED, 0x1B01A57B, 0x8208F4C1, 0xF50FC457)
    else if i < 0x5C then Quad(i, 0x65B0D9C6, 0x12B7E950, 0x8BBEB8EA, 0xFCB9887C)
    else Quad(i, 0x62DD1DDF, 0x15DA2D49, 0x8CD37CF3, 0xFBD44C65)
  }

  function Row60(i: bv8): bv32 {
    if i < 0x64 then Quad(i, 0x4DB26158, 0x3AB551CE, 0xA3BC0074, 0xD4BB30E2)
    else if i < 0x68 then Quad(i, 0x4ADFA541, 0x3DD895D7, 0xA4D1C46D, 0xD3D6F4FB)
    else if i < 0x6C then Quad(i, 0x4369E96A, 0x346ED9FC, 0xAD678846, 0xDA60B8D0)
    else Quad(i, 0x44042D73, 0x33031DE5, 0xAA0A4C5F, 0xDD0D7CC9)
  }

  function Row70(i: bv8): bv32 {
    if i < 0x74 then Quad(i, 0x5005713C, 0x270241AA, 0xBE0B1010, 0xC90C2086)
    else if i < 0x78 then Quad(i, 0x5768B525, 0x206F85B3, 0xB966D409, 0xCE61E49F)
    else if i < 0x7C then Quad(i, 0x5EDEF90E, 0x29D9C998, 0xB0D09822, 0xC7D7A8B4)
    else Quad(i, 0x59B33D17, 0x2EB40D81, 0xB7BD5C3B, 0xC0BA6CAD)
  }

  function Row80(i: bv8): bv32 {
    if i < 0x84 then Quad(i, 0xEDB88320, 0x9ABFB3B6, 0x03B6E20C, 0x74B1D29A)
    else if i < 0x88 then Quad(i, 0xEAD54739, 0x9DD277AF, 0x04DB2615, 0x73DC1683)
    else if i < 0x8C then Quad(i, 0xE3630B12, 0x94643B84, 0x0D6D6A3E, 0x7A6A5AA8)
    else Quad(i, 0xE40ECF0B, 0x9309FF9D, 0x0A00AE27, 0x7D079EB1)
  }

  function Row90(i: bv8): bv32 {
    if i < 0x94 then Quad(i, 0xF00F9344, 0x8708A3D2, 0x1E01F268, 0x6906C2FE)
    else if i < 0x98 then Quad(i, 0xF762575D, 0x806567CB, 0x196C3671, 0x6E6B06E7)
    else if i < 0x9C then Quad(i, 0xFED41B76, 0x89D32BE0, 0x10DA7A5A, 0x67DD4ACC)
    else Quad(i, 0xF9B9DF6F, 0x8EBEEFF9, 0x17B7BE43, 0x60B08ED5)
  }

  function RowA0(i: bv8): bv32 {
    if i < 0xA4 then Quad(i, 0xD6D6A3E8, 0xA1D1937E, 0x38D8C2C4, 0x4FDFF252)
    else if i < 0xA8 then Quad(i, 0xD1BB67F1, 0xA6BC5767, 0x3FB506DD, 0x48B2364B)
    else if i < 0xAC then Quad(i, 0xD80D2BDA, 0xAF0A1B4C, 0x36034AF6, 0x41047A60)
    else Quad(i, 0xDF60EFC3, 0xA867DF55, 0x316E8EEF, 0x4669BE79)
  }

  function RowB0(i: bv8): bv32 {
    if i < 0xB4 then Quad(i, 0xCB61B38C, 0xBC66831A, 0x256FD2A0, 0x5268E236)
    else if i < 0xB8 then Quad(i, 0xCC0C7795, 0xBB0B4703, 0x220216B9, 0x5505262F)
    else if i < 0xBC then Quad(i, 0xC5BA3BBE, 0xB2BD0B28, 0x2BB45A92, 0x5CB36A04)
    else Quad(i, 0xC2D7FFA7, 0xB5D0CF31, 0x2CD99E8B, 0x5BDEAE1D)
  }

  function RowC0(i: bv8): bv32 {
    if i < 0xC4 then Quad(i, 0x9B64C2B0, 0xEC63F226, 0x756AA39C, 0x026D930A)
    else if i < 0xC8 then Quad(i, 0x9C0906A9, 0xEB0E363F, 0x72076785, 0x05005713)
    else if i < 0xCC then Quad(i, 0x95BF4A82, 0xE2B87A14, 0x7BB12BAE, 0x0CB61B38)
    else Quad(i, 0x92D28E9B, 0xE5D5BE0D, 0x7CDCEFB7, 0x0BDBDF21)
  }

  function RowD0(i: bv8): bv32 {
    if i < 0xD4 then Quad(i, 0x86D3D2D4, 0xF1D4E242, 0x68DDB3F8, 0x1FDA836E)
    else if i < 0xD8 then Quad(i, 0x81BE16CD, 0xF6B9265B, 0x6FB077E1, 0x18B74777)
    else if i < 0xDC then Quad(i, 0x88085AE6, 0xFF0F6A70, 0x66063BCA, 0x11010B5C)
    else Quad(i, 0x8F659EFF, 0xF862AE69, 0x616BFFD3, 0x166CCF45)
  }

  function RowE0(i: bv8): bv32 {
    if i < 0xE4 then Quad(i, 0xA00AE278, 0xD70DD2EE, 0x4E048354, 0x3903B3C2)
    else if i < 0xE8 then Quad(i, 0xA7672661, 0xD06016F7, 0x4969474D, 0x3E6E77DB)
    else if i < 0xEC then Quad(i, 0xAED16A4A, 0xD9D65ADC, 0x40DF0B66, 0x37D83BF0)
    else Quad(i, 0xA9BCAE53, 0xDEBB9EC5, 0x47B2CF7F, 0x30B5FFE9)
  }

  function RowF0(i: bv8): bv32 {
    if i < 0xF4 then Quad(i, 0xBDBDF21C, 0xCABAC28A, 0x53B39330, 0x24B4A3A6)
    else if i < 0xF8 then Quad(i, 0xBAD03605, 0xCDD706B3, 0x54DE5729, 0x23D967BF)
    else if i < 0xFC then Quad(i, 0xB3667A2E, 0xC4614AB8, 0x5D681B02, 0x2A6F2B94)
    else Quad(i, 0xB40BBE37, 0xC30C8EA1, 0x5A05DF1B, 0x2D02EF8D)
  }

  /** The 256-entry table. */
  function Table(i: bv8): bv32 {
    if i < 0x10 then Row00(i)
    else if i < 0x20 then Row10(i)
    else if i < 0x30 then Row20(i)
    else if i < 0x40 then Row30(i)
    else if i < 0x50 then Row40(i)
    else if i < 0x60 then Row50(i)
    else if i < 0x70 then Row60(i)
    else if i < 0x80 then Row70(i)
    else if i < 0x90 then Row80(i)
    else if i < 0xA0 then Row90(i)
    else if i < 0xB0 then RowA0(i)
    else if i < 0xC0 then RowB0(i)
    else if i < 0xD0 then RowC0(i)
    else if i < 0xE0 then RowD0(i)
    else if i < 0xF0 then RowE0(i)
    else RowF0(i)
  }

  // ---------- Word operations ----------

  function Xor(x: bv32, y: bv32): bv32 { x ^ y }

  function Down(x: bv32): bv32 { x >> 8 }

  function High8(x: bv32): bv32 { x >> 24 }

  function High16(x: bv32): bv32 { x >> 16 }

  function Upper(x: bv32): bv32 { x & 0xFFFF_FF00 }

  function Lower(x: bv32): bv8 { (x & 0xFF) as bv8 }

  function Widen(b: bv8): bv32 { b as bv32 }

  function Join(high: bv4, low: bv4): bv8 { ((high as bv8) << 4) | (low as bv8) }

  lemma JoinInjective(h: bv4, l: bv4, h': bv4, l': bv4)
    ensures Join(h, l) == Join(h', l') ==> h == h' && l == l'
  {
  }

  lemma NibbleValue(n: int)
    requires 0 <= n < 16
    ensures (n as bv4) as int == n
  {
  }

  // ---------- The polynomial, bit by bit ----------

  /** One bit of the reversed polynomial division. */
  function Shift(x: bv32): bv32 { if x & 1 == 1 then (x >> 1) ^ 0xEDB8_8320 else x >> 1 }

  function Shift2(x: bv32): bv32 { Shift(Shift(x)) }

  function Shift4(x: bv32): bv32 { Shift2(Shift2(x)) }

  /** One byte of it. */
  function Shift8(x: bv32): bv32 { Shift4(Shift4(x)) }

  /** The table entry the polynomial asks for. */
  function Entry(i: bv8): bv32 { Shift8(i as bv32) }

  lemma Row00IsCrc(i: bv8)
    requires 0x00 <= i < 0x10
    ensures Row00(i) == Entry(i)
  {
  }

  lemma Row10IsCrc(i: bv8)
    requires 0x10 <= i < 0x20
    ensures Row10(i) == Entry(i)
  {
  }

  lemma Row20IsCrc(i: bv8)
    requires 0x20 <= i < 0x30
    ensures Row20(i) == Entry(i)
  {
  }

  lemma Row30IsCrc(i: bv8)
    requires 0x30 <= i < 0x40
    ensures Row30(i) == Entry(i)
  {
  }

  lemma Row40IsCrc(i: bv8)
    requires 0x40 <= i < 0x50
    ensures Row40(i) == Entry(i)
  {
    if i < 0x44 {
    } else if i < 0x48 {
    } else if i < 0x4C {
    } else {
    }
  }

  lemma Row50IsCrc(i: bv8)
    requires 0x50 <= i < 0x60
    ensures Row50(i) == Entry(i)
  {
  }

  lemma Row60IsCrc(i: bv8)
    requires 0x60 <= i < 0x70
    ensures Row60(i) == Entry(i)
  {
  }

  lemma Row70IsCrc(i: bv8)
    requires 0x70 <= i < 0x80
    ensures Row70(i) == Entry(i)
  {
  }

  lemma Row80IsCrc(i: bv8)
    requires 0x80 <= i < 0x90
    ensures Row80(i) == Entry(i)
  {
  }

  lemma Row90IsCrc(i: bv8)
    requires 0x90 <= i < 0xA0
    ensures Row90(i) == Entry(i)
  {
  }

  lemma RowA0IsCrc(i: bv8)
    requires 0xA0 <= i < 0xB0
    ensures RowA0(i) == Entry(i)
  {
  }

  lemma RowB0IsCrc(i: bv8)
    requires 0xB0 <= i < 0xC0
    ensures RowB0(i) == Entry(i)
  {
  }

  lemma RowC0IsCrc(i: bv8)
    requires 0xC0 <= i < 0xD0
    ensures RowC0(i) == Entry(i)
  {
  }

  lemma RowD0IsCrc(i: bv8)
    requires 0xD0 <= i < 0xE0
    ensures RowD0(i) == Entry(i)
  {
  }

  lemma RowE0IsCrc(i: bv8)
    requires 0xE0 <= i < 0xF0
    ensures RowE0(i) == Entry(i)
  {
  }

  lemma RowF0IsCrc(i: bv8)
    requires 0xF0 <= i
    ensures RowF0(i) == Entry(i) <==> i != 0xF5
  {
  }

  /** Every table entry is the polynomial's, except entry 0xF5. */
  lemma TableIsCrc(i: bv8)
    ensures Table(i) == Entry(i) <==> i != 0xF5
  {
    hide Entry;
    if i < 0x10 {
      Row00IsCrc(i);
    } else if i < 0x20 {
      Row10IsCrc(i);
    } else if i < 0x30 {
      Row20IsCrc(i);
    } else if i < 0x40 {
      Row30IsCrc(i);
    } else if i < 0x50 {
      Row40IsCrc(i);
    } else if i < 0x60 {
      Row50IsCrc(i);
    } else if i < 0x70 {
      Row60IsCrc(i);
    } else if i < 0x80 {
      Row70IsCrc(i);
    } else if i < 0x90 {
      Row80IsCrc(i);
    } else if i < 0xA0 {
      Row90IsCrc(i);
    } else if i < 0xB0 {
      RowA0IsCrc(i);
    } else if i < 0xC0 {
      RowB0IsCrc(i);
    } else if i < 0xD0 {
      RowC0IsCrc(i);
    } else if i < 0xE0 {
      RowD0IsCrc(i);
    } else if i < 0xF0 {
      RowE0IsCrc(i);
    } else {
      RowF0IsCrc(i);
    }
  }

  lemma EntryTops(i: bv8, j: bv8)
    ensures High8(Entry(i)) == High8(Entry(j)) ==> i == j
  {
  }

  lemma OddEntryTop()
    ensures High8(Table(0xF5)) == High8(Entry(0xF5))
  {
  }

  /** The top bytes of the entries are pairwise distinct, the odd one included. */
  lemma TableTops(i: bv8, j: bv8)
    ensures High8(Table(i)) == High8(Table(j)) ==> i == j
  {
    hide Table, Entry, High8;
    TableIsCrc(i);
    TableIsCrc(j);
    OddEntryTop();
    EntryTops(i, j);
  }

  // ---------- The bitwise step is linear ----------

  lemma ShiftRightXor(x: bv32, y: bv32)
    ensures (x ^ y) >> 1 == (x >> 1) ^ (y >> 1)
  {
  }

  lemma LowBitXor(x: bv32, y: bv32)
    ensures (x ^ y) & 1 == 1 <==> ((x & 1 == 1) != (y & 1 == 1))
  {
  }

  lemma XorMoves(a: bv32, b: bv32, p: bv32)
    ensures (a ^ p) ^ (b ^ p) == a ^ b && (a ^ b) ^ p == (a ^ p) ^ b && (a ^ b) ^ p == a ^ (b ^ p)
  {
  }

  lemma ShiftXor(x: bv32, y: bv32)
    ensures Shift(Xor(x, y)) == Xor(Shift(x), Shift(y))
  {
    ShiftRightXor(x, y);
    LowBitXor(x, y);
    XorMoves(x >> 1, y >> 1, 0xEDB8_8320);
  }

  lemma Shift2Xor(x: bv32, y: bv32)
    ensures Shift2(Xor(x, y)) == Xor(Shift2(x), Shift2(y))
  {
    hide Shift, Xor;
    ShiftXor(x, y);
    ShiftXor(Shift(x), Shift(y));
  }

  lemma Shift4Xor(x: bv32, y: bv32)
    ensures Shift4(Xor(x, y)) == Xor(Shift4(x), Shift4(y))
  {
    hide Shift2, Xor;
    Shift2Xor(x, y);
    Shift2Xor(Shift2(x), Shift2(y));
  }

  lemma Shift8Xor(x: bv32, y: bv32)
    ensures Shift8(Xor(x, y)) == Xor(Shift8(x), Shift8(y))
  {
    hide Shift4, Xor;
    Shift4Xor(x, y);
    Shift4Xor(Shift4(x), Shift4(y));
  }

  lemma Shift8High(x: bv32)
    ensures Shift8(Upper(x)) == Down(x)
  {
  }

  lemma Split(x: bv32)
    ensures x == Xor(Upper(x), Widen(Lower(x)))
  {
  }

  lemma EntryOf(b: bv8)
    ensures Entry(b) == Shift8(Widen(b))
  {
    hide Shift8;
  }

  /** The bitwise step shifts the upper bytes down and mixes in the lowest byte's entry. */
  lemma ShiftOfWord(x: bv32)
    ensures Shift8(x) == Xor(Down(x), Entry(Lower(x)))
  {
    hide *;
    Split(x);
    Shift8Xor(Upper(x), Widen(Lower(x)));
    Shift8High(x);
    EntryOf(Lower(x));
  }
}
