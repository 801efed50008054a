/** The two tables of the check-sum routine, and the recurrences by which one entry follows from another. */
module CrcTables {
  import opened Bytes

  /** x times the indeterminate, reduced modulo x^16 + x^12 + x^5 + 1. */
  function Times(x: bv16): bv16 {
    if x >= 0x8000 then (x << 1) ^ 0x1021 else x << 1
  }

  /** What entry i of crctab16 should be: the polynomial i, times x^16, reduced. */
  function Reduced(i: nat): bv16 {
    if i == 0 then 0 else CrcNext(Reduced(i / 2), i % 2)
  }

  function CrcNext(x: bv16, bit: nat): bv16 {
    PlusGenerator(Times(x), bit)
  }

  function PlusGenerator(t: bv16, bit: nat): bv16 {
    if bit == 0 then t else t ^ 0x1021
  }

  function Half(x: bv16): bv16 {
    x >> 1
  }

  /** What entry i of BitTable should be: the eight bits of i in the opposite order. */
  function Mirrored(i: nat): bv16 {
    if i == 0 then 0 else BitNext(Mirrored(i / 2), i % 2)
  }

  function BitNext(x: bv16, bit: nat): bv16 {
    if bit == 0 then Half(x) else Half(x) ^ 0x80
  }

  /** Places 2j and 2j + 1 of row t follow from place j of row half, counted from off. */
  predicate CrcPair(t: seq<bv16>, half: seq<bv16>, off: nat, j: nat)
    requires |t| == 16 && |half| >= off + 8 && j < 8
  {
    t[2 * j] == Times(half[off + j]) && t[2 * j + 1] == Times(half[off + j]) ^ 0x1021
  }

  predicate BitPair(t: seq<bv16>, half: seq<bv16>, off: nat, j: nat)
    requires |t| == 16 && |half| >= off + 8 && j < 8
  {
    t[2 * j] == Half(half[off + j]) && t[2 * j + 1] == Half(half[off + j]) ^ 0x80
  }

  predicate CrcRow(t: seq<bv16>, half: seq<bv16>, off: nat) {
    |t| == 16 && |half| >= off + 8
    && CrcPair(t, half, off, 0) && CrcPair(t, half, off, 1) && CrcPair(t, half, off, 2)
    && CrcPair(t, half, off, 3) && CrcPair(t, half, off, 4) && CrcPair(t, half, off, 5)
    && CrcPair(t, half, off, 6) && CrcPair(t, half, off, 7)
  }

  predicate BitRow(t: seq<bv16>, half: seq<bv16>, off: nat) {
    |t| == 16 && |half| >= off + 8
    && BitPair(t, half, off, 0) && BitPair(t, half, off, 1) && BitPair(t, half, off, 2)
    && BitPair(t, half, off, 3) && BitPair(t, half, off, 4) && BitPair(t, half, off, 5)
    && BitPair(t, half, off, 6) && BitPair(t, half, off, 7)
  }

  ghost predicate CrcRows(rows: seq<seq<bv16>>) {
    |rows| == 16 && forall k :: 0 <= k < 16 ==> CrcRow(rows[k], rows[k / 2], 8 * (k % 2))
  }

  lemma CrcAssemble(rows: seq<seq<bv16>>)
    requires |rows| == 16
    requires CrcRow(rows[0], rows[0], 0)
    requires CrcRow(rows[1], rows[0], 8)
    requires CrcRow(rows[2], rows[1], 0)
    requires CrcRow(rows[3], rows[1], 8)
    requires CrcRow(rows[4], rows[2], 0)
    requires CrcRow(rows[5], rows[2], 8)
    requires CrcRow(rows[6], rows[3], 0)
    requires CrcRow(rows[7], rows[3], 8)
    requires CrcRow(rows[8], rows[4], 0)
    requires CrcRow(rows[9], rows[4], 8)
    requires CrcRow(rows[10], rows[5], 0)
    requires CrcRow(rows[11], rows[5], 8)
    requires CrcRow(rows[12], rows[6], 0)
    requires CrcRow(rows[13], rows[6], 8)
    requires CrcRow(rows[14], rows[7], 0)
    requires CrcRow(rows[15], rows[7], 8)
    ensures CrcRows(rows)
  {
  }

  ghost predicate BitRows(rows: seq<seq<bv16>>) {
    |rows| == 16 && forall k :: 0 <= k < 16 ==> BitRow(rows[k], rows[k / 2], 8 * (k % 2))
  }

  lemma BitAssemble(rows: seq<seq<bv16>>)
    requires |rows| == 16
    requires BitRow(rows[0], rows[0], 0)
    requires BitRow(rows[1], rows[0], 8)
    requires BitRow(rows[2], rows[1], 0)
    requires BitRow(rows[3], rows[1], 8)
    requires BitRow(rows[4], rows[2], 0)
    requires BitRow(rows[5], rows[2], 8)
    requires BitRow(rows[6], rows[3], 0)
    requires BitRow(rows[7], rows[3], 8)
    requires BitRow(rows[8], rows[4], 0)
    requires BitRow(rows[9], rows[4], 8)
    requires BitRow(rows[10], rows[5], 0)
    requires BitRow(rows[11], rows[5], 8)
    requires BitRow(rows[12], rows[6], 0)
    requires BitRow(rows[13], rows[6], 8)
    requires BitRow(rows[14], rows[7], 0)
    requires BitRow(rows[15], rows[7], 8)
    ensures BitRows(rows)
  {
  }

  predicate IsTable(rows: seq<seq<bv16>>) {
    |rows| == 16 && forall k :: 0 <= k < 16 ==> |rows[k]| == 16
  }

  function At(rows: seq<seq<bv16>>, i: byte): bv16
    requires IsTable(rows)
  {
    rows[i / 16][i % 16]
  }

  /** Entry i is one of the pair j in row k, which follows from the half row p, off of entry i / 2. */
  lemma Places(rows: seq<seq<bv16>>, i: byte) returns (k: nat, p: nat, off: nat, j: nat, bit: nat)
    requires IsTable(rows) && i > 0
    ensures k < 16 && p == k / 2 && off == 8 * (k % 2) && j < 8 && bit == i % 2 < 2
    ensures At(rows, i / 2) == rows[p][off + j] && At(rows, i) == rows[k][2 * j + bit]
  {
    k, j, bit := i / 16, i / 2 % 8, i % 2;
    p, off := k / 2, 8 * (k % 2);
    SamePlaces(i, i / 2, k, j);
  }

  lemma SamePlaces(i: nat, h: nat, k: nat, j: nat)
    requires h == i / 2 && k == i / 16 && j == h % 8
    ensures h / 16 == k / 2 && h % 16 == 8 * (k % 2) + j && i % 16 == 2 * j + i % 2
  {
  }

  lemma CrcPlace(t: seq<bv16>, half: seq<bv16>, off: nat, j: nat, bit: nat)
    requires CrcRow(t, half, off) && j < 8 && bit < 2
    ensures t[2 * j + bit] == CrcNext(half[off + j], bit)
  {
    assert CrcPair(t, half, off, j);
  }

  lemma CrcRecurrence(rows: seq<seq<bv16>>, i: byte)
    requires IsTable(rows) && CrcRows(rows) && i > 0
    ensures At(rows, i) == CrcNext(At(rows, i / 2), i % 2)
  {
    var k, p, off, j, bit := Places(rows, i);
    CrcPlace(rows[k], rows[p], off, j, bit);
  }

  lemma {:induction false} CrcEntry(rows: seq<seq<bv16>>, i: byte)
    requires IsTable(rows) && CrcRows(rows) && rows[0][0] == 0
    ensures At(rows, i) == Reduced(i)
  {
    if i > 0 {
      CrcEntry(rows, i / 2);
      CrcRecurrence(rows, i);
    }
  }

  lemma BitPlace(t: seq<bv16>, half: seq<bv16>, off: nat, j: nat, bit: nat)
    requires BitRow(t, half, off) && j < 8 && bit < 2
    ensures t[2 * j + bit] == BitNext(half[off + j], bit)
  {
    assert BitPair(t, half, off, j);
  }

  lemma BitRecurrence(rows: seq<seq<bv16>>, i: byte)
    requires IsTable(rows) && BitRows(rows) && i > 0
    ensures At(rows, i) == BitNext(At(rows, i / 2), i % 2)
  {
    var k, p, off, j, bit := Places(rows, i);
    BitPlace(rows[k], rows[p], off, j, bit);
  }

  lemma {:induction false} BitEntry(rows: seq<seq<bv16>>, i: byte)
    requires IsTable(rows) && BitRows(rows) && rows[0][0] == 0
    ensures At(rows, i) == Mirrored(i)
  {
    if i > 0 {
      BitEntry(rows, i / 2);
      BitRecurrence(rows, i);
    }
  }

  lemma CrcRow0() ensures CrcRow(CrcTableRow(0), CrcTableRow(0), 0) {}
  lemma CrcRow1() ensures CrcRow(CrcTableRow(1), CrcTableRow(0), 8) {}
  lemma CrcRow2() ensures CrcRow(CrcTableRow(2), CrcTableRow(1), 0) {}
  lemma CrcRow3() ensures CrcRow(CrcTableRow(3), CrcTableRow(1), 8) {}
  lemma CrcRow4() ensures CrcRow(CrcTableRow(4), CrcTableRow(2), 0) {}
  lemma CrcRow5() ensures CrcRow(CrcTableRow(5), CrcTableRow(2), 8) {}
  lemma CrcRow6() ensures CrcRow(CrcTableRow(6), CrcTableRow(3), 0) {}
  lemma CrcRow7() ensures CrcRow(CrcTableRow(7), CrcTableRow(3), 8) {}
  lemma CrcRow8() ensures CrcRow(CrcTableRow(8), CrcTableRow(4), 0) {}
  lemma CrcRow9() ensures CrcRow(CrcTableRow(9), CrcTableRow(4), 8) {}
  lemma CrcRow10() ensures CrcRow(CrcTableRow(10), CrcTableRow(5), 0) {}
  lemma CrcRow11() ensures CrcRow(CrcTableRow(11), CrcTableRow(5), 8) {}
  lemma CrcRow12() ensures CrcRow(CrcTableRow(12), CrcTableRow(6), 0) {}
  lemma CrcRow13() ensures CrcRow(CrcTableRow(13), CrcTableRow(6), 8) {}
  lemma CrcRow14() ensures CrcRow(CrcTableRow(14), CrcTableRow(7), 0) {}
  lemma CrcRow15() ensures CrcRow(CrcTableRow(15), CrcTableRow(7), 8) {}

  lemma BitRow0() ensures BitRow(BitTableRow(0), BitTableRow(0), 0) {}
  lemma BitRow1() ensures BitRow(BitTableRow(1), BitTableRow(0), 8) {}
  lemma BitRow2() ensures BitRow(BitTableRow(2), BitTableRow(1), 0) {}
  lemma BitRow3() ensures BitRow(BitTableRow(3), BitTableRow(1), 8) {}
  lemma BitRow4() ensures BitRow(BitTableRow(4), BitTableRow(2), 0) {}
  lemma BitRow5() ensures BitRow(BitTableRow(5), BitTableRow(2), 8) {}
  lemma BitRow6() ensures BitRow(BitTableRow(6), BitTableRow(3), 0) {}
  lemma BitRow7() ensures BitRow(BitTableRow(7), BitTableRow(3), 8) {}
  lemma BitRow8() ensures BitRow(BitTableRow(8), BitTableRow(4), 0) {}
  lemma BitRow9() ensures BitRow(BitTableRow(9), BitTableRow(4), 8) {}
  lemma BitRow10() ensures BitRow(BitTableRow(10), BitTableRow(5), 0) {}
  lemma BitRow11() ensures BitRow(BitTableRow(11), BitTableRow(5), 8) {}
  lemma BitRow12() ensures BitRow(BitTableRow(12), BitTableRow(6), 0) {}
  lemma BitRow13() ensures BitRow(BitTableRow(13), BitTableRow(6), 8) {}
  lemma BitRow14() ensures BitRow(BitTableRow(14), BitTableRow(7), 0) {}
  lemma BitRow15() ensures BitRow(BitTableRow(15), BitTableRow(7), 8) {}

  function CrcTab16Rows(): (rows: seq<seq<bv16>>)
    ensures IsTable(rows)
  {
    [CrcTableRow(0), CrcTableRow(1), CrcTableRow(2), CrcTableRow(3),
     CrcTableRow(4), CrcTableRow(5), CrcTableRow(6), CrcTableRow(7),
     CrcTableRow(8), CrcTableRow(9), CrcTableRow(10), CrcTableRow(11),
     CrcTableRow(12), CrcTableRow(13), CrcTableRow(14), CrcTableRow(15)]
  }

  lemma CrcTab16RowsOk()
    ensures CrcRows(CrcTab16Rows()) && CrcTab16Rows()[0][0] == 0
  {
    CrcRow0(); CrcRow1(); CrcRow2(); CrcRow3(); CrcRow4(); CrcRow5(); CrcRow6(); CrcRow7();
    CrcRow8(); CrcRow9(); CrcRow10(); CrcRow11(); CrcRow12(); CrcRow13(); CrcRow14(); CrcRow15();
    CrcAssemble(CrcTab16Rows());
  }

  /** Every entry of the table is the one it should be. */
  lemma CrcTab16Entries(i: byte)
    ensures At(CrcTab16Rows(), i) == Reduced(i)
  {
    CrcTab16RowsOk();
    CrcEntry(CrcTab16Rows(), i);
  }

  function BitTableRows(): (rows: seq<seq<bv16>>)
    ensures IsTable(rows)
  {
    [BitTableRow(0), BitTableRow(1), BitTableRow(2), BitTableRow(3),
     BitTableRow(4), BitTableRow(5), BitTableRow(6), BitTableRow(7),
     BitTableRow(8), BitTableRow(9), BitTableRow(10), BitTableRow(11),
     BitTableRow(12), BitTableRow(13), BitTableRow(14), BitTableRow(15)]
  }

  lemma BitTableRowsOk()
    ensures BitRows(BitTableRows()) && BitTableRows()[0][0] == 0
  {
    BitRow0(); BitRow1(); BitRow2(); BitRow3(); BitRow4(); BitRow5(); BitRow6(); BitRow7();
    BitRow8(); BitRow9(); BitRow10(); BitRow11(); BitRow12(); BitRow13(); BitRow14(); BitRow15();
    BitAssemble(BitTableRows());
  }

  /** Every entry of the table is the one it should be. */
  lemma BitTableEntries(i: byte)
    ensures At(BitTableRows(), i) == Mirrored(i)
  {
    BitTableRowsOk();
    BitEntry(BitTableRows(), i);
  }

  /** Row k of BitTable, sixteen entries a row. */
  function BitTableRow(k: nat): seq<bv16> {
    match k
    case 0 => [0x00, 0x80, 0x40, 0xc0, 0x20, 0xa0, 0x60, 0xe0, 0x10, 0x90, 0x50, 0xd0, 0x30, 0xb0, 0x70, 0xf0]
    case 1 => [0x08, 0x88, 0x48, 0xc8, 0x28, 0xa8, 0x68, 0xe8, 0x18, 0x98, 0x58, 0xd8, 0x38, 0xb8, 0x78, 0xf8]
    case 2 => [0x04, 0x84, 0x44, 0xc4, 0x24, 0xa4, 0x64, 0xe4, 0x14, 0x94, 0x54, 0xd4, 0x34, 0xb4, 0x74, 0xf4]
    case 3 => [0x0c, 0x8c, 0x4c, 0xcc, 0x2c, 0xac, 0x6c, 0xec, 0x1c, 0x9c, 0x5c, 0xdc, 0x3c, 0xbc, 0x7c, 0xfc]
    case 4 => [0x02, 0x82, 0x42, 0xc2, 0x22, 0xa2, 0x62, 0xe2, 0x12, 0x92, 0x52, 0xd2, 0x32, 0xb2, 0x72, 0xf2]
    case 5 => [0x0a, 0x8a, 0x4a, 0xca, 0x2a, 0xaa, 0x6a, 0xea, 0x1a, 0x9a, 0x5a, 0xda, 0x3a, 0xba, 0x7a, 0xfa]
    case 6 => [0x06, 0x86, 0x46, 0xc6, 0x26, 0xa6, 0x66, 0xe6, 0x16, 0x96, 0x56, 0xd6, 0x36, 0xb6, 0x76, 0xf6]
    case 7 => [0x0e, 0x8e, 0x4e, 0xce, 0x2e, 0xae, 0x6e, 0xee, 0x1e, 0x9e, 0x5e, 0xde, 0x3e, 0xbe, 0x7e, 0xfe]
    case 8 => [0x01, 0x81, 0x41, 0xc1, 0x21, 0xa1, 0x61, 0xe1, 0x11, 0x91, 0x51, 0xd1, 0x31, 0xb1, 0x71, 0xf1]
    case 9 => [0x09, 0x89, 0x49, 0xc9, 0x29, 0xa9, 0x69, 0xe9, 0x19, 0x99, 0x59, 0xd9, 0x39, 0xb9, 0x79, 0xf9]
    case 10 => [0x05, 0x85, 0x45, 0xc5, 0x25, 0xa5, 0x65, 0xe5, 0x15, 0x95, 0x55, 0xd5, 0x35, 0xb5, 0x75, 0xf5]
    case 11 => [0x0d, 0x8d, 0x4d, 0xcd, 0x2d, 0xad, 0x6d, 0xed, 0x1d, 0x9d, 0x5d, 0xdd, 0x3d, 0xbd, 0x7d, 0xfd]
    case 12 => [0x03, 0x83, 0x43, 0xc3, 0x23, 0xa3, 0x63, 0xe3, 0x13, 0x93, 0x53, 0xd3, 0x33, 0xb3, 0x73, 0xf3]
    case 13 => [0x0b, 0x8b, 0x4b, 0xcb, 0x2b, 0xab, 0x6b, 0xeb, 0x1b, 0x9b, 0x5b, 0xdb, 0x3b, 0xbb, 0x7b, 0xfb]
    case 14 => [0x07, 0x87, 0x47, 0xc7, 0x27, 0xa7, 0x67, 0xe7, 0x17, 0x97, 0x57, 0xd7, 0x37, 0xb7, 0x77, 0xf7]
    case _ => [0x0f, 0x8f, 0x4f, 0xcf, 0x2f, 0xaf, 0x6f, 0xef, 0x1f, 0x9f, 0x5f, 0xdf, 0x3f, 0xbf, 0x7f, 0xff]
  }

  /** Row k of crctab16, sixteen entries a row. */
  function CrcTableRow(k: nat): seq<bv16> {
    match k
    case 0 => [0x0000, 0x1021, 0x2042, 0x3063, 0x4084, 0x50a5, 0x60c6, 0x70e7,
      0x8108, 0x9129, 0xa14a, 0xb16b, 0xc18c, 0xd1ad, 0xe1ce, 0xf1ef]
    case 1 => [0x1231, 0x0210, 0x3273, 0x2252, 0x52b5, 0x4294, 0x72f7, 0x62d6,
      0x9339, 0x8318, 0xb37b, 0xa35a, 0xd3bd, 0xc39c, 0xf3ff, 0xe3de]
    case 2 => [0x2462, 0x3443, 0x0420, 0x1401, 0x64e6, 0x74c7, 0x44a4, 0x5485,
      0xa56a, 0xb54b, 0x8528, 0x9509, 0xe5ee, 0xf5cf, 0xc5ac, 0xd58d]
    case 3 => [0x3653, 0x2672, 0x1611, 0x0630, 0x76d7, 0x66f6, 0x5695, 0x46b4,
      0xb75b, 0xa77a, 0x9719, 0x8738, 0xf7df, 0xe7fe, 0xd79d, 0xc7bc]
    case 4 => [0x48c4, 0x58e5, 0x6886, 0x78a7, 0x0840, 0x1861, 0x2802, 0x3823,
      0xc9cc, 0xd9ed, 0xe98e, 0xf9af, 0x8948, 0x9969, 0xa90a, 0xb92b]
    case 5 => [0x5af5, 0x4ad4, 0x7ab7, 0x6a96, 0x1a71, 0x0a50, 0x3a33, 0x2a12,
      0xdbfd, 0xcbdc, 0xfbbf, 0xeb9e, 0x9b79, 0x8b58, 0xbb3b, 0xab1a]
    case 6 => [0x6ca6, 0x7c87, 0x4ce4, 0x5cc5, 0x2c22, 0x3c03, 0x0c60, 0x1c41,
      0xedae, 0xfd8f, 0xcdec, 0xddcd, 0xad2a, 0xbd0b, 0x8d68, 0x9d49]
    case 7 => [0x7e97, 0x6eb6, 0x5ed5, 0x4ef4, 0x3e13, 0x2e32, 0x1e51, 0x0e70,
      0xff9f, 0xefbe, 0xdfdd, 0xcffc, 0xbf1b, 0xaf3a, 0x9f59, 0x8f78]
    case 8 => [0x9188, 0x81a9, 0xb1ca, 0xa1eb, 0xd10c, 0xc12d, 0xf14e, 0xe16f,
      0x1080, 0x00a1, 0x30c2, 0x20e3, 0x5004, 0x4025, 0x7046, 0x6067]
    case 9 => [0x83b9, 0x9398, 0xa3fb, 0xb3da, 0xc33d, 0xd31c, 0xe37f, 0xf35e,
      0x02b1, 0x1290, 0x22f3, 0x32d2, 0x4235, 0x5214, 0x6277, 0x7256]
    case 10 => [0xb5ea, 0xa5cb, 0x95a8, 0x8589, 0xf56e, 0xe54f, 0xd52c, 0xc50d,
      0x34e2, 0x24c3, 0x14a0, 0x0481, 0x7466, 0x6447, 0x5424, 0x4405]
    case 11 => [0xa7db, 0xb7fa, 0x8799, 0x97b8, 0xe75f, 0xf77e, 0xc71d, 0xd73c,
      0x26d3, 0x36f2, 0x0691, 0x16b0, 0x6657, 0x7676, 0x4615, 0x5634]
    case 12 => [0xd94c, 0xc96d, 0xf90e, 0xe92f, 0x99c8, 0x89e9, 0xb98a, 0xa9ab,
      0x5844, 0x4865, 0x7806, 0x6827, 0x18c0, 0x08e1, 0x3882, 0x28a3]
    case 13 => [0xcb7d, 0xdb5c, 0xeb3f, 0xfb1e, 0x8bf9, 0x9bd8, 0xabbb, 0xbb9a,
      0x4a75, 0x5a54, 0x6a37, 0x7a16, 0x0af1, 0x1ad0, 0x2ab3, 0x3a92]
    case 14 => [0xfd2e, 0xed0f, 0xdd6c, 0xcd4d, 0xbdaa, 0xad8b, 0x9de8, 0x8dc9,
      0x7c26, 0x6c07, 0x5c64, 0x4c45, 0x3ca2, 0x2c83, 0x1ce0, 0x0cc1]
    case _ => [0xef1f, 0xff3e, 0xcf5d, 0xdf7c, 0xaf9b, 0xbfba, 0x8fd9, 0x9ff8,
      0x6e17, 0x7e36, 0x4e55, 0x5e74, 0x2e93, 0x3eb2, 0x0ed1, 0x1ef0]
  }
}
