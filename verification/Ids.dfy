/** Node identifiers, their hexadecimal text form and the XOR metric (node_id.go). */
module Ids {
  import opened Common
  import opened Wrappers

  /** A fixed 20-byte identifier, Go's [IDLength]byte (node_id.go:8). */
  type NodeID = s: seq<bv8> | |s| == IDLength witness seq(20, _ => 0 as bv8)

  /** The zero value of the Go array type: every byte 0. */
  const ZeroID: NodeID := [0, 0, 0, 0, 0, 0, 0, 0, 0, 0, 0, 0, 0, 0, 0, 0, 0, 0, 0, 0]

  /** Every byte of ZeroID is 0, and an identifier with every byte 0 is ZeroID. */
  lemma ZeroIDBytes(a: NodeID)
    ensures forall k :: 0 <= k < IDLength ==> ZeroID[k] == 0
    ensures (forall k :: 0 <= k < IDLength ==> a[k] == 0) ==> a == ZeroID
  {
  }

  // ---------------------------------------------------------------------------
  // Hexadecimal text form (the encoding/hex calls in NewNodeID and String)
  // ---------------------------------------------------------------------------

  predicate IsLowerHex(c: char) {
    '0' <= c <= '9' || 'a' <= c <= 'f'
  }

  /** The digits hex.EncodeToString writes, indexed by nibble. */
  const HexTable: string := "0123456789abcdef"

  /** The lower-case digit hex.EncodeToString writes for a nibble. */
  function HexDigit(n: bv8): (c: char)
    requires n < 16
    ensures IsLowerHex(c)
  {
    HexTable[n as int]
  }

  /** The value hex.DecodeString gives one digit; both cases are accepted, anything else is an error. */
  function HexValue(c: char): (v: Option<bv8>)
    ensures v.Some? ==> v.value < 16
    ensures v.Some? <==> IsLowerHex(c) || 'A' <= c <= 'F'
  {
    if '0' <= c <= '9' then Some((c as int - '0' as int) as bv8)
    else if 'a' <= c <= 'f' then Some((c as int - 'a' as int + 10) as bv8)
    else if 'A' <= c <= 'F' then Some((c as int - 'A' as int + 10) as bv8)
    else None
  }

  lemma HexDigitValue(n: bv8)
    requires n < 16
    ensures HexValue(HexDigit(n)) == Some(n)
  {
  }

  lemma HexValueDigit(c: char)
    requires IsLowerHex(c)
    ensures HexValue(c).Some? && HexDigit(HexValue(c).value) == c
  {
  }

  /** The byte spelled by characters 2k and 2k+1 of s, (hi << 4) | lo as hex.Decode builds it,
      or None if either character is not a hex digit. */
  function PairValue(s: string, k: nat): (v: Option<bv8>)
    requires 2 * k + 1 < |s|
    ensures v.Some? <==> HexValue(s[2 * k]).Some? && HexValue(s[2 * k + 1]).Some?
    ensures v.Some? ==> v.value >> 4 == HexValue(s[2 * k]).value && v.value & 0xf == HexValue(s[2 * k + 1]).value
  {
    match (HexValue(s[2 * k]), HexValue(s[2 * k + 1]))
    case (Some(hi), Some(lo)) => ByteSplitsIntoNibbles(hi, lo); Some((hi << 4) | lo)
    case _ => None
  }

  lemma PairValueShift(s: string, k: nat)
    requires 2 * k + 3 < |s|
    ensures PairValue(s[2..], k) == PairValue(s, k + 1)
  {
    assert s[2..][2 * k] == s[2 * k + 2] && s[2..][2 * k + 1] == s[2 * k + 3];
  }

  /** The two digits hex.EncodeToString writes for one byte, high nibble first. */
  function EncodeByte(b: bv8): (s: string)
    ensures |s| == 2 && IsLowerHex(s[0]) && IsLowerHex(s[1])
  {
    [HexDigit(b >> 4), HexDigit(b & 0xf)]
  }

  lemma NibblesRebuildByte(b: bv8)
    ensures ((b >> 4) << 4) | (b & 0xf) == b
  {
  }

  lemma ByteSplitsIntoNibbles(hi: bv8, lo: bv8)
    requires hi < 16 && lo < 16
    ensures ((hi << 4) | lo) >> 4 == hi && ((hi << 4) | lo) & 0xf == lo
  {
  }

  lemma EncodeByteDecodes(b: bv8)
    ensures PairValue(EncodeByte(b), 0) == Some(b)
  {
    HexDigitValue(b >> 4);
    HexDigitValue(b & 0xf);
    NibblesRebuildByte(b);
  }

  /** Two lower-case digits are what EncodeByte writes for the byte they spell. */
  lemma PairEncodes(c: char, d: char)
    requires IsLowerHex(c) && IsLowerHex(d)
    ensures PairValue([c, d], 0).Some?
    ensures EncodeByte(PairValue([c, d], 0).value) == [c, d]
  {
    HexValueDigit(c);
    HexValueDigit(d);
    ByteSplitsIntoNibbles(HexValue(c).value, HexValue(d).value);
  }

  /** hex.EncodeToString: two lower-case digits per byte. */
  function EncodeHex(bs: seq<bv8>): (s: string)
    ensures |s| == 2 * |bs|
  {
    if bs == [] then [] else EncodeByte(bs[0]) + EncodeHex(bs[1..])
  }

  /** EncodeHex writes only lower-case digits. */
  lemma {:induction false} EncodeHexLower(bs: seq<bv8>)
    ensures forall i :: 0 <= i < |EncodeHex(bs)| ==> IsLowerHex(EncodeHex(bs)[i])
  {
    if bs != [] {
      EncodeHexLower(bs[1..]);
      var head, tail := EncodeByte(bs[0]), EncodeHex(bs[1..]);
      assert EncodeHex(bs) == head + tail;
      forall i | 2 <= i < |EncodeHex(bs)| ensures EncodeHex(bs)[i] == tail[i - 2] { }
    }
  }

  /**
   * hex.DecodeString with its error ignored, as NewNodeID does: the bytes decoded before the
   * first pair that is not two hex digits; a trailing odd digit is dropped. This is DecodeString
   * as current Go releases define it; one that returned no bytes on malformed text would make
   * NewNodeID panic on all malformed text.
   */
  function DecodeHex(s: string): (bs: seq<bv8>)
    ensures |bs| <= |s| / 2
  {
    if |s| < 2 then []
    else match PairValue(s, 0)
      case None => []
      case Some(b) => [b] + DecodeHex(s[2..])
  }

  lemma DecodeHexCons(s: string)
    requires |s| >= 2 && PairValue(s, 0).Some?
    ensures DecodeHex(s) == [PairValue(s, 0).value] + DecodeHex(s[2..])
  {
  }

  /** What DecodeHex returns: the byte of every complete pair before the first bad pair. */
  lemma {:induction false} DecodeHexPairs(s: string)
    ensures forall k :: 0 <= k < |DecodeHex(s)| ==> PairValue(s, k) == Some(DecodeHex(s)[k])
    ensures |DecodeHex(s)| < |s| / 2 ==> PairValue(s, |DecodeHex(s)|).None?
  {
    if |s| >= 2 && PairValue(s, 0).Some? {
      var rest := DecodeHex(s[2..]);
      DecodeHexPairs(s[2..]);
      assert DecodeHex(s) == [PairValue(s, 0).value] + rest;
      forall k | 0 <= k < |rest| ensures PairValue(s, k + 1) == Some(rest[k]) {
        PairValueShift(s, k);
      }
      if |rest| < |s[2..]| / 2 { PairValueShift(s, |rest|); }
    }
  }

  /**
   * NewNodeID (node_id.go:10-16): the first IDLength bytes hex.DecodeString produced, its error
   * ignored. With fewer than IDLength bytes decoded, Go's indexing panics: None here.
   */
  function NewNodeID(data: string): (r: Option<NodeID>)
    ensures r.None? <==> |DecodeHex(data)| < IDLength
    ensures r.Some? ==> forall k :: 0 <= k < IDLength ==> PairValue(data, k) == Some(r.value[k])
  {
    if |DecodeHex(data)| < IDLength then None
    else
      DecodeHexPairs(data);
      Some(DecodeHex(data)[..IDLength])
  }

  /** NodeID.String (node_id.go:30-32): 40 lower-case hex digits. */
  function String(id: NodeID): (s: string)
    ensures |s| == 2 * IDLength
    ensures forall i :: 0 <= i < |s| ==> IsLowerHex(s[i])
  {
    EncodeHexLower(id);
    EncodeHex(id)
  }

  /** Decoding what EncodeHex wrote gives the bytes back. */
  lemma {:induction false} DecodeEncode(bs: seq<bv8>)
    ensures DecodeHex(EncodeHex(bs)) == bs
  {
    if bs != [] {
      DecodeByteThenRest(bs[0], EncodeHex(bs[1..]));
      DecodeEncode(bs[1..]);
    }
  }

  lemma DecodeByteThenRest(b: bv8, rest: string)
    ensures DecodeHex(EncodeByte(b) + rest) == [b] + DecodeHex(rest)
  {
    var s := EncodeByte(b) + rest;
    EncodeByteDecodes(b);
    assert s[0] == EncodeByte(b)[0] && s[1] == EncodeByte(b)[1];
    assert PairValue(s, 0) == PairValue(EncodeByte(b), 0);
    assert s[2..] == rest;
  }

  /** Encoding what DecodeHex read from an even-length lower-case hex string gives the string back. */
  lemma {:induction false} EncodeDecode(s: string)
    requires |s| % 2 == 0
    requires forall i :: 0 <= i < |s| ==> IsLowerHex(s[i])
    ensures |DecodeHex(s)| == |s| / 2
    ensures EncodeHex(DecodeHex(s)) == s
  {
    if |s| >= 2 {
      var tail := s[2..];
      assert forall i :: 0 <= i < |tail| ==> tail[i] == s[i + 2];
      EncodeDecode(tail);
      PairEncodesAt(s);
      var b := PairValue(s, 0).value;
      DecodeHexCons(s);
      EncodeHexCons(b, DecodeHex(tail));
      assert s == s[..2] + tail;
    }
  }

  /** The first two digits of s, if lower-case, are what EncodeByte writes for the byte they spell. */
  lemma PairEncodesAt(s: string)
    requires |s| >= 2 && IsLowerHex(s[0]) && IsLowerHex(s[1])
    ensures PairValue(s, 0).Some? && EncodeByte(PairValue(s, 0).value) == s[..2]
  {
    PairEncodes(s[0], s[1]);
    assert s[..2] == [s[0], s[1]];
    assert PairValue(s, 0) == PairValue(s[..2], 0);
  }

  lemma EncodeHexCons(b: bv8, bs: seq<bv8>)
    ensures EncodeHex([b] + bs) == EncodeByte(b) + EncodeHex(bs)
  {
    assert ([b] + bs)[1..] == bs;
  }

  /** NewNodeID(id.String()) == id for every identifier (node_id_test.go:35-43). */
  lemma StringThenParse(id: NodeID)
    ensures NewNodeID(String(id)) == Some(id)
  {
    DecodeEncode(id);
    assert DecodeHex(String(id)) == id;
    assert id[..IDLength] == id;
  }

  /** A 40-digit lower-case hex string survives NewNodeID then String (node_id_test.go:25-33). */
  lemma ParseThenString(s: string)
    requires |s| == 2 * IDLength
    requires forall i :: 0 <= i < |s| ==> IsLowerHex(s[i])
    ensures NewNodeID(s).Some? && String(NewNodeID(s).value) == s
  {
    EncodeDecode(s);
    assert DecodeHex(s)[..IDLength] == DecodeHex(s);
  }

  // ---------------------------------------------------------------------------
  // Equality and lexicographic order
  // ---------------------------------------------------------------------------

  /** The scan of Equals (node_id.go:34-41) from byte i on. */
  function EqualsFrom(a: NodeID, b: NodeID, i: nat): (r: bool)
    requires i <= IDLength
    ensures r <==> a[i..] == b[i..]
    decreases IDLength - i
  {
    if i == IDLength then true
    else if a[i] != b[i] then
      assert a[i..][0] != b[i..][0];
      false
    else
      assert a[i..] == [a[i]] + a[i + 1..] && b[i..] == [b[i]] + b[i + 1..];
      EqualsFrom(a, b, i + 1)
  }

  /** NodeID.Equals (node_id.go:34-41): true exactly when all 20 bytes agree. */
  function Equals(a: NodeID, b: NodeID): (r: bool)
    ensures r <==> a == b
  {
    assert a[0..] == a && b[0..] == b;
    EqualsFrom(a, b, 0)
  }

  /** The scan of Less (node_id.go:43-51) from byte i on: the first differing byte decides. */
  function LessFrom(a: NodeID, b: NodeID, i: nat): bool
    requires i <= IDLength
    decreases IDLength - i
  {
    if i == IDLength then false
    else if a[i] != b[i] then a[i] < b[i]
    else LessFrom(a, b, i + 1)
  }

  /** NodeID.Less (node_id.go:43-51): strict lexicographic order of the unsigned bytes. */
  function Less(a: NodeID, b: NodeID): (r: bool)
    ensures r ==> a != b
  {
    LessFromIrreflexive(a, 0);
    LessFrom(a, b, 0)
  }

  /**
   * The scan from byte i, on identifiers equal before i, is the lexicographic order: a is less
   * exactly when some byte k >= i is the first where they differ and a's byte there is smaller.
   */
  lemma {:induction false} LessFromFirstDifference(a: NodeID, b: NodeID, i: nat)
    requires i <= IDLength && a[..i] == b[..i]
    ensures LessFrom(a, b, i) <==> exists k :: i <= k < IDLength && a[..k] == b[..k] && a[k] < b[k]
    decreases IDLength - i
  {
    if i < IDLength {
      if a[i] != b[i] {
        forall k | i < k < IDLength ensures a[..k] != b[..k] {
          assert a[..k][i] != b[..k][i];
        }
      } else {
        assert a[..i + 1] == a[..i] + [a[i]] && b[..i + 1] == b[..i] + [b[i]];
        LessFromFirstDifference(a, b, i + 1);
      }
    }
  }

  /** Less is the lexicographic order on identifiers: the first differing byte decides. */
  lemma LessIsLexicographic(a: NodeID, b: NodeID)
    ensures Less(a, b) <==> exists k :: 0 <= k < IDLength && a[..k] == b[..k] && a[k] < b[k]
  {
    LessFromFirstDifference(a, b, 0);
  }

  lemma {:induction false} LessFromIrreflexive(a: NodeID, i: nat)
    requires i <= IDLength
    ensures !LessFrom(a, a, i)
    decreases IDLength - i
  {
    if i < IDLength { LessFromIrreflexive(a, i + 1); }
  }

  lemma {:induction false} LessFromAsymmetric(a: NodeID, b: NodeID, i: nat)
    requires i <= IDLength
    ensures LessFrom(a, b, i) ==> !LessFrom(b, a, i)
    decreases IDLength - i
  {
    if i < IDLength && a[i] == b[i] { LessFromAsymmetric(a, b, i + 1); }
  }

  lemma {:induction false} LessFromTotal(a: NodeID, b: NodeID, i: nat)
    requires i <= IDLength
    ensures a[i..] == b[i..] || LessFrom(a, b, i) || LessFrom(b, a, i)
    decreases IDLength - i
  {
    if i < IDLength && a[i] == b[i] {
      LessFromTotal(a, b, i + 1);
      assert a[i..] == [a[i]] + a[i + 1..] && b[i..] == [b[i]] + b[i + 1..];
    }
  }

  lemma {:induction false} LessFromTransitive(a: NodeID, b: NodeID, c: NodeID, i: nat)
    requires i <= IDLength
    ensures LessFrom(a, b, i) && LessFrom(b, c, i) ==> LessFrom(a, c, i)
    decreases IDLength - i
  {
    if i < IDLength && a[i] == b[i] && b[i] == c[i] { LessFromTransitive(a, b, c, i + 1); }
  }

  /** Less is a strict order: irreflexive (false on equal IDs), asymmetric and transitive. */
  lemma LessStrictOrder(a: NodeID, b: NodeID, c: NodeID)
    ensures !Less(a, a)
    ensures Less(a, b) ==> !Less(b, a)
    ensures Less(a, b) && Less(b, c) ==> Less(a, c)
  {
    LessFromIrreflexive(a, 0);
    LessFromAsymmetric(a, b, 0);
    LessFromTransitive(a, b, c, 0);
  }

  /** Exactly one of a < b, b < a and a == b holds (node_id_test.go:53-68, contact_test.go:42-80). */
  lemma LessTrichotomy(a: NodeID, b: NodeID)
    ensures a == b || Less(a, b) || Less(b, a)
    ensures !(Less(a, b) && Less(b, a))
    ensures a == b ==> !Less(a, b)
  {
    LessFromTotal(a, b, 0);
    assert a[0..] == a && b[0..] == b;
    LessStrictOrder(a, b, a);
  }

  /** Nothing is below the all-zero identifier. */
  lemma {:induction false} NothingBelowZero(a: NodeID, i: nat)
    requires i <= IDLength
    ensures !LessFrom(a, ZeroID, i)
    decreases IDLength - i
  {
    if i < IDLength { NothingBelowZero(a, i + 1); }
  }

  /** If a and b agree before byte k and a[k] < b[k], then a < b. */
  lemma {:induction false} LessAtFirstDifference(a: NodeID, b: NodeID, k: nat, i: nat)
    requires i <= k < IDLength
    requires forall j :: i <= j < k ==> a[j] == b[j]
    requires a[k] < b[k]
    ensures LessFrom(a, b, i)
    decreases k - i
  {
    if i < k { LessAtFirstDifference(a, b, k, i + 1); }
  }

  /** Decrementing the last non-zero byte gives a smaller identifier (node_id_test.go:53-68). */
  lemma DecrementIsLess(id: NodeID, i: nat)
    requires i < IDLength && id[i] != 0
    requires forall j :: i < j < IDLength ==> id[j] == 0
    ensures Less(id[i := id[i] - 1], id)
  {
    LessAtFirstDifference(id[i := id[i] - 1], id, i, 0);
  }

  // ---------------------------------------------------------------------------
  // XOR distance and prefix length
  // ---------------------------------------------------------------------------

  /** NodeID.Xor (node_id.go:53-58): byte-wise exclusive or. */
  function Xor(a: NodeID, b: NodeID): (r: NodeID)
    ensures forall i :: 0 <= i < IDLength ==> r[i] == a[i] ^ b[i]
  {
    seq(IDLength, i requires 0 <= i < IDLength => a[i] ^ b[i])
  }

  /** XOR is symmetric, zero on equal IDs, zero only on equal IDs, and undoes itself. */
  lemma XorProperties(a: NodeID, b: NodeID)
    ensures Xor(a, b) == Xor(b, a)
    ensures Xor(a, a) == ZeroID
    ensures Xor(a, b) == ZeroID <==> a == b
    ensures Xor(Xor(a, b), b) == a
  {
    var d := Xor(a, b);
    forall i | 0 <= i < IDLength
      ensures d[i] == 0 <==> a[i] == b[i]
      ensures d[i] ^ b[i] == a[i]
    {
      XorByte(a[i], b[i]);
    }
    assert Xor(a, b) == ZeroID ==> a == b by {
      if d == ZeroID {
        forall i | 0 <= i < IDLength ensures a[i] == b[i] {
          assert d[i] == ZeroID[i];
        }
      }
    }
  }

  lemma XorByte(x: bv8, y: bv8)
    ensures x ^ y == y ^ x
    ensures x ^ y == 0 <==> x == y
    ensures (x ^ y) ^ y == x
  {
  }

  /** Bit j of byte b, counted from the most significant bit: (b >> (7-j)) & 1 in the source. */
  predicate BitSet(b: bv8, j: int)
    requires 0 <= j < 8
  {
    (b >> (7 - j)) & 1 != 0
  }

  /** Bit n of an identifier; bit 0 is the top bit of byte 0. */
  predicate IdBit(d: NodeID, n: int)
    requires 0 <= n < IDBytesLength
  {
    BitSet(d[n / 8], n % 8)
  }

  lemma ByteHasBit(b: bv8)
    ensures b != 0 <==> BitSet(b, 0) || BitSet(b, 1) || BitSet(b, 2) || BitSet(b, 3) ||
                        BitSet(b, 4) || BitSet(b, 5) || BitSet(b, 6) || BitSet(b, 7)
  {
  }

  /**
   * The nested scan of PrefixLen (node_id.go:62-68) from byte i, bit j: the first set bit at or
   * after position 8*i+j, or -1 when there is none.
   */
  function ScanBits(d: NodeID, i: int, j: int): (r: int)
    requires 0 <= i <= IDLength && 0 <= j <= 8
    ensures r == -1 || 8 * i + j <= r < IDBytesLength
    decreases IDLength - i, 8 - j
  {
    if i == IDLength then -1
    else if j == 8 then ScanBits(d, i + 1, 0)
    else if BitSet(d[i], j) then 8 * i + j
    else ScanBits(d, i, j + 1)
  }

  /** ScanBits returns -1 exactly when no bit at or after 8*i+j is set. */
  lemma {:induction false} ScanBitsNone(d: NodeID, i: int, j: int)
    requires 0 <= i <= IDLength && 0 <= j <= 8
    ensures ScanBits(d, i, j) == -1 <==> forall m :: 8 * i + j <= m < IDBytesLength ==> !IdBit(d, m)
    decreases IDLength - i, 8 - j
  {
    if i == IDLength {
    } else if j == 8 {
      ScanBitsNone(d, i + 1, 0);
    } else {
      IdBitAt(d, i, j);
      if !BitSet(d[i], j) {
        ScanBitsNone(d, i, j + 1);
      }
    }
  }

  /** A bit ScanBits returns is set, and no bit between 8*i+j and it is. */
  lemma {:induction false} ScanBitsHit(d: NodeID, i: int, j: int)
    requires 0 <= i <= IDLength && 0 <= j <= 8
    ensures ScanBits(d, i, j) >= 0 ==>
      IdBit(d, ScanBits(d, i, j)) && forall m :: 8 * i + j <= m < ScanBits(d, i, j) ==> !IdBit(d, m)
    decreases IDLength - i, 8 - j
  {
    if i == IDLength {
    } else if j == 8 {
      ScanBitsHit(d, i + 1, 0);
    } else {
      IdBitAt(d, i, j);
      if !BitSet(d[i], j) {
        ScanBitsHit(d, i, j + 1);
        var r := ScanBits(d, i, j + 1);
        if r >= 0 {
          forall m | 8 * i + j <= m < r ensures !IdBit(d, m) {
            if m != 8 * i + j {
              assert 8 * i + j + 1 <= m;
            }
          }
        }
      }
    }
  }

  /** Bit j of byte i is bit 8*i+j of the identifier. */
  lemma IdBitAt(d: NodeID, i: int, j: int)
    requires 0 <= i < IDLength && 0 <= j < 8
    ensures IdBit(d, 8 * i + j) == BitSet(d[i], j)
  {
    var n := 8 * i + j;
    assert n / 8 == i && n % 8 == j;
  }

  /** An identifier has no set bit exactly when it is all zero. */
  lemma NoBitIsZero(d: NodeID)
    ensures (forall m :: 0 <= m < IDBytesLength ==> !IdBit(d, m)) <==> d == ZeroID
  {
    if forall m :: 0 <= m < IDBytesLength ==> !IdBit(d, m) {
      forall i | 0 <= i < IDLength ensures d[i] == 0 {
        ByteHasBit(d[i]);
        forall j | 0 <= j < 8 ensures !BitSet(d[i], j) {
          assert (8 * i + j) / 8 == i && (8 * i + j) % 8 == j;
          assert !IdBit(d, 8 * i + j);
        }
      }
    }
    if d == ZeroID {
      ByteHasBit(0);
    }
  }

  /**
   * NodeID.PrefixLen (node_id.go:60-70): the scan over the bits of a XOR b; -1 exactly when the
   * two identifiers are equal.
   */
  function PrefixLen(a: NodeID, b: NodeID): (r: int)
    ensures -1 <= r < IDBytesLength
    ensures r == -1 <==> a == b
  {
    ScanBitsNone(Xor(a, b), 0, 0);
    NoBitIsZero(Xor(a, b));
    XorProperties(a, b);
    ScanBits(Xor(a, b), 0, 0)
  }

  /** When the identifiers differ, PrefixLen is the position of the first set bit of a XOR b. */
  lemma PrefixLenFirstSetBit(a: NodeID, b: NodeID)
    ensures PrefixLen(a, b) >= 0 ==> IdBit(Xor(a, b), PrefixLen(a, b))
    ensures forall m :: 0 <= m < PrefixLen(a, b) ==> !IdBit(Xor(a, b), m)
  {
    ScanBitsHit(Xor(a, b), 0, 0);
  }

  /** PrefixLen is symmetric (node_id_test.go:130-132). */
  lemma PrefixLenSymmetric(a: NodeID, b: NodeID)
    ensures PrefixLen(a, b) == PrefixLen(b, a)
  {
    XorProperties(a, b);
  }

  /** A set bit with no set bit before it is what PrefixLen returns. */
  lemma PrefixLenIsFirstBit(a: NodeID, b: NodeID, n: int)
    requires 0 <= n < IDBytesLength
    requires IdBit(Xor(a, b), n)
    requires forall m :: 0 <= m < n ==> !IdBit(Xor(a, b), m)
    ensures PrefixLen(a, b) == n
  {
    var r := PrefixLen(a, b);
    PrefixLenFirstSetBit(a, b);
    if r == -1 {
      XorProperties(a, b);
    }
  }
}
