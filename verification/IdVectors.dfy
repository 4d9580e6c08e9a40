/** The concrete identifier examples of node_id_test.go, checked against the model of node_id.go. */
module IdVectors {
  import opened Common
  import opened Ids

  /** The identifier of TestNewNodeID (node_id_test.go:26). */
  const TestHexID: string := "c06349c2f47c837f96d782f2753b2266d548bfa3"

  /** TestNewNodeID (node_id_test.go:25-33): decoding then re-encoding gives the same text. */
  lemma NewNodeIDExample()
    ensures NewNodeID(TestHexID).Some? && String(NewNodeID(TestHexID).value) == TestHexID
  {
    assert forall i :: 0 <= i < |TestHexID| ==> IsLowerHex(TestHexID[i]);
    ParseThenString(TestHexID);
  }

  // The operands and result of TestXor (node_id_test.go:70-81), as the bytes their hex spells.
  const XorLeft: NodeID := [0x66, 0x47, 0x2d, 0xba, 0x5c, 0xf4, 0xe1, 0xcb, 0xad, 0x15,
                            0x5a, 0xd0, 0x5b, 0xeb, 0x14, 0xcb, 0x19, 0xd7, 0xc6, 0x5a]
  const XorRight: NodeID := [0x73, 0x9e, 0x8a, 0xef, 0x74, 0x9d, 0xff, 0x95, 0x11, 0x1f,
                             0x1b, 0x8b, 0xc2, 0x06, 0x2f, 0x53, 0xe1, 0x56, 0xd6, 0xe7]
  const XorResult: NodeID := [0x15, 0xd9, 0xa7, 0x55, 0x28, 0x69, 0x1e, 0x5e, 0xbc, 0x0a,
                              0x41, 0x5b, 0x99, 0xed, 0x3b, 0x98, 0xf8, 0x81, 0x10, 0xbd]

  /** TestXor (node_id_test.go:70-81): the XOR of the two operands is the expected result. */
  lemma XorExample()
    ensures Xor(XorLeft, XorRight) == XorResult
  {
    forall i | 0 <= i < IDLength ensures Xor(XorLeft, XorRight)[i] == XorResult[i] {
      if i < 10 { XorHighBytes(i); } else { XorLowBytes(i); }
    }
  }

  lemma XorHighBytes(i: int)
    requires 0 <= i < 10
    ensures XorLeft[i] ^ XorRight[i] == XorResult[i]
  {
  }

  lemma XorLowBytes(i: int)
    requires 10 <= i < IDLength
    ensures XorLeft[i] ^ XorRight[i] == XorResult[i]
  {
  }

  // The prefixTests table (node_id_test.go:83-134) on the decoded bytes: "80..00", "40..00",
  // "01..00", "0080..00" and "00..01" against all zeros give 0, 1, 7, 8 and IDBytesLength - 1,
  // and two zero identifiers give -1; every entry is symmetric.

  lemma PrefixLenTopBit()
    ensures PrefixLen(ZeroID[0 := 0x80], ZeroID) == 0 == PrefixLen(ZeroID, ZeroID[0 := 0x80])
  {
    FirstBitOfOneByte(ZeroID[0 := 0x80], 0, 0);
    PrefixLenSymmetric(ZeroID[0 := 0x80], ZeroID);
  }

  lemma PrefixLenSecondBit()
    ensures PrefixLen(ZeroID[0 := 0x40], ZeroID) == 1 == PrefixLen(ZeroID, ZeroID[0 := 0x40])
  {
    FirstBitOfOneByte(ZeroID[0 := 0x40], 0, 1);
    PrefixLenSymmetric(ZeroID[0 := 0x40], ZeroID);
  }

  lemma PrefixLenLastBitOfFirstByte()
    ensures PrefixLen(ZeroID[0 := 0x01], ZeroID) == 7 == PrefixLen(ZeroID, ZeroID[0 := 0x01])
  {
    FirstBitOfOneByte(ZeroID[0 := 0x01], 0, 7);
    PrefixLenSymmetric(ZeroID[0 := 0x01], ZeroID);
  }

  lemma PrefixLenSecondByte()
    ensures PrefixLen(ZeroID[1 := 0x80], ZeroID) == 8 == PrefixLen(ZeroID, ZeroID[1 := 0x80])
  {
    FirstBitOfOneByte(ZeroID[1 := 0x80], 1, 0);
    PrefixLenSymmetric(ZeroID[1 := 0x80], ZeroID);
  }

  lemma PrefixLenLastBit()
    ensures PrefixLen(ZeroID[19 := 0x01], ZeroID) == IDBytesLength - 1
    ensures PrefixLen(ZeroID, ZeroID[19 := 0x01]) == IDBytesLength - 1
  {
    FirstBitOfOneByte(ZeroID[19 := 0x01], 19, 7);
    PrefixLenSymmetric(ZeroID[19 := 0x01], ZeroID);
  }

  /** An identifier that is zero except for byte i, whose first set bit is bit j. */
  lemma FirstBitOfOneByte(a: NodeID, i: int, j: int)
    requires 0 <= i < IDLength && 0 <= j < 8
    requires forall k :: 0 <= k < IDLength && k != i ==> a[k] == 0
    requires BitSet(a[i], j) && forall j' :: 0 <= j' < j ==> !BitSet(a[i], j')
    ensures PrefixLen(a, ZeroID) == 8 * i + j
  {
    var d := Xor(a, ZeroID);
    ZeroIDBytes(a);
    assert forall k :: 0 <= k < IDLength ==> d[k] == a[k];
    forall m | 0 <= m < 8 * i + j ensures !IdBit(d, m) {
      if m / 8 < i { ByteHasBit(d[m / 8]); }
    }
    assert (8 * i + j) / 8 == i && (8 * i + j) % 8 == j;
    PrefixLenIsFirstBit(a, ZeroID, 8 * i + j);
  }
}
