/** The stored layouts byte by byte: what a record must start with, and whole samples of each format. */
module Layouts {
  import opened Bytes
  import opened CanonicalBytes
  import C = Crc32c
  import CrcRemainder
  import opened Records
  import Snapshots
  import opened Topologies
  import opened TopologyCodec

  // ---------------------------------------------------------------------
  // Numbers as bytes
  // ---------------------------------------------------------------------

  function Zeros(n: nat): seq<Byte> { seq(n, _ => 0) }

  lemma {:induction false} NoughtBytes(n: nat)
    ensures PutLE(0, n) == Zeros(n)
  {
    if n > 0 {
      assert FromByte(0) == 0;
      ToFrom(0);
      hide ToByte, FromByte;
      NoughtBytes(n - 1);
      assert Zeros(n) == [0] + Zeros(n - 1);
    }
  }

  lemma SmallNumber(v: nat, n: nat)
    requires n > 0 && v < 256
    ensures PutLE(v, n) == [ToByte(v)] + Zeros(n - 1)
  {
    hide ToByte;
    NoughtBytes(n - 1);
    assert v % 256 == v && v / 256 == 0;
  }

  /** A number below 256 is its byte and zeros. */
  lemma SmallBytes(b: Byte, n: nat)
    requires n > 0
    ensures PutLE(FromByte(b), n) == [b] + Zeros(n - 1)
  {
    hide *;
    ToFrom(b);
    SmallNumber(FromByte(b), n);
  }

  /** In each width. */
  lemma Widths(b: Byte)
    ensures PutLE(FromByte(b), 1) == [b] && PutLE(FromByte(b), 2) == [b, 0] && PutLE(FromByte(b), 4) == [b, 0, 0, 0]
    ensures PutLE(FromByte(b), 8) == [b, 0, 0, 0, 0, 0, 0, 0]
  {
    assert [b] + Zeros(0) == [b] && [b] + Zeros(1) == [b, 0] && [b] + Zeros(3) == [b, 0, 0, 0];
    assert [b] + Zeros(7) == [b, 0, 0, 0, 0, 0, 0, 0];
    hide *;
    SmallBytes(b, 1);
    SmallBytes(b, 2);
    SmallBytes(b, 4);
    SmallBytes(b, 8);
  }

  lemma FourRead(b0: Byte, b1: Byte, b2: Byte, b3: Byte)
    ensures GetLE([b0, b1, b2, b3]) ==
      FromByte(b0) + 0x100 * FromByte(b1) + 0x1_0000 * FromByte(b2) + 0x100_0000 * FromByte(b3)
  {
    hide FromByte;
    assert [b0, b1, b2, b3][1..] == [b1, b2, b3] && [b1, b2, b3][1..] == [b2, b3];
    assert [b2, b3][1..] == [b3] && [b3][1..] == [];
    assert GetLE([b3]) == FromByte(b3);
    assert GetLE([b2, b3]) == FromByte(b2) + 256 * FromByte(b3);
    assert GetLE([b1, b2, b3]) == FromByte(b1) + 256 * GetLE([b2, b3]);
  }

  lemma FourBytes(b0: Byte, b1: Byte, b2: Byte, b3: Byte)
    ensures PutLE(FromByte(b0) + 0x100 * FromByte(b1) + 0x1_0000 * FromByte(b2) + 0x100_0000 * FromByte(b3), 4)
            == [b0, b1, b2, b3]
  {
    hide *;
    FourRead(b0, b1, b2, b3);
    PutGet([b0, b1, b2, b3]);
  }

  // ---------------------------------------------------------------------
  // Records
  // ---------------------------------------------------------------------

  /** "FCFN". */
  const RECORD_MARK: seq<Byte> := [0x46, 0x43, 0x46, 0x4e]

  lemma RecordMark()
    ensures PutLE(RECORD_MAGIC, 4) == RECORD_MARK
  {
    assert FromByte(0x46) == 0x46 && FromByte(0x43) == 0x43 && FromByte(0x4e) == 0x4e;
    hide PutLE, FromByte;
    FourBytes(0x46, 0x43, 0x46, 0x4e);
  }

  lemma VersionMark()
    ensures PutLE(FORMAT_VERSION, 2) == [1, 0]
  {
    assert FromByte(1) == 1;
    hide PutLE, FromByte;
    SmallBytes(1, 2);
  }

  /** A full header without the mark is damage; with the mark but another version it is that, whatever follows; and with
      both, a kind outside the enumeration is that. */
  lemma HeaderRefused(bytes: seq<Byte>)
    requires |bytes| >= 28
    ensures bytes[..4] != RECORD_MARK ==> DecodeRecord(bytes) == Outcome.Refused(Corrupt)
    ensures bytes[..4] == RECORD_MARK && bytes[4..6] != [1, 0] ==> DecodeRecord(bytes) == Outcome.Refused(UnsupportedVersion)
    ensures bytes[..4] == RECORD_MARK && bytes[4..6] == [1, 0] && !(1 <= GetLE(bytes[6..8]) <= 16) ==>
              DecodeRecord(bytes) == Outcome.Refused(InvalidType)
  {
    hide C.CrcOf, CrcField, PutLE, GetLE;
    RecordMark();
    VersionMark();
    PutGet(bytes[0..4]);
    PutGet(bytes[4..6]);
    FieldBounds();
    GetPut(RECORD_MAGIC, 4);
    GetPut(FORMAT_VERSION, 2);
    assert bytes[..4] == bytes[0..4];
  }

  const DIGITS_CHECKSUM: seq<Byte> := [0x83, 0x92, 0x06, 0xe3]

  lemma DigitsSealed()
    ensures C.PutCrc(C.CrcOf(CrcRemainder.NINE_DIGITS)) == DIGITS_CHECKSUM
  {
    CrcRemainder.NineDigits();
    hide C.CrcOf;
  }

  const MARK_AND_KIND: seq<Byte> := [0x46, 0x43, 0x46, 0x4e, 0x01, 0x00, 0x03, 0x00]
  const LENGTH_AND_NUMBER: seq<Byte> := [0x09, 0x00, 0x00, 0x00, 0x02, 0x00, 0x00, 0x00]
  const NUMBER_AND_CHECKSUM: seq<Byte> := [0x00, 0x00, 0x00, 0x00, 0x83, 0x92, 0x06, 0xe3]
  const HEADER := MARK_AND_KIND + LENGTH_AND_NUMBER + NUMBER_AND_CHECKSUM

  lemma MarkAndKind()
    ensures C.Fold(0xffffffff, MARK_AND_KIND) == 0xf48e42ef
  {
    assert C.ByteStep(0xffffffff, 0x46) == 0xca5856fa;
    assert C.ByteStep(0xca5856fa, 0x43) == 0xca6df153;
    assert C.ByteStep(0xca6df153, 0x46) == 0x2565be82;
    assert C.ByteStep(0x2565be82, 0x4e) == 0x8eeb8caa;
    assert C.ByteStep(0x8eeb8caa, 0x01) == 0x3b4cf511;
    assert C.ByteStep(0x3b4cf511, 0x00) == 0xe20e0899;
    assert C.ByteStep(0xe20e0899, 0x03) == 0xf9a8da27;
    assert C.ByteStep(0xf9a8da27, 0x00) == 0xf48e42ef;
    hide C.ByteStep, C.Fold;
    CrcRemainder.Following([0xffffffff, 0xca5856fa, 0xca6df153, 0x2565be82, 0x8eeb8caa,
               0x3b4cf511, 0xe20e0899, 0xf9a8da27, 0xf48e42ef], MARK_AND_KIND);
  }

  lemma LengthAndNumber()
    ensures C.Fold(0xf48e42ef, LENGTH_AND_NUMBER) == 0xbdf9d03c
  {
    assert C.ByteStep(0xf48e42ef, 0x09) == 0xc565c1b0;
    assert C.ByteStep(0xc565c1b0, 0x00) == 0xb2d01708;
    assert C.ByteStep(0xb2d01708, 0x00) == 0x8a6b88d8;
    assert C.ByteStep(0x8a6b88d8, 0x00) == 0x5980d2ec;
    assert C.ByteStep(0x5980d2ec, 0x02) == 0x4f1197ef;
    assert C.ByteStep(0x4f1197ef, 0x00) == 0xbd6c85a9;
    assert C.ByteStep(0xbd6c85a9, 0x00) == 0xda4402ef;
    assert C.ByteStep(0xda4402ef, 0x00) == 0xbdf9d03c;
    hide C.ByteStep, C.Fold;
    CrcRemainder.Following([0xf48e42ef, 0xc565c1b0, 0xb2d01708, 0x8a6b88d8, 0x5980d2ec,
               0x4f1197ef, 0xbd6c85a9, 0xda4402ef, 0xbdf9d03c], LENGTH_AND_NUMBER);
  }

  lemma NumberAndChecksum()
    ensures C.Fold(0xbdf9d03c, NUMBER_AND_CHECKSUM) == 0xdbcc6971
  {
    assert C.ByteStep(0xbdf9d03c, 0x00) == 0x7d1d7fb1;
    assert C.ByteStep(0x7d1d7fb1, 0x00) == 0x4003ecb5;
    assert C.ByteStep(0x4003ecb5, 0x00) == 0x87a46539;
    assert C.ByteStep(0x87a46539, 0x00) == 0x48d63618;
    assert C.ByteStep(0x48d63618, 0x83) == 0x0b69811a;
    assert C.ByteStep(0x0b69811a, 0x92) == 0x08240a36;
    assert C.ByteStep(0x08240a36, 0x06) == 0x30eb6dbb;
    assert C.ByteStep(0x30eb6dbb, 0xe3) == 0xdbcc6971;
    hide C.ByteStep, C.Fold;
    CrcRemainder.Following([0xbdf9d03c, 0x7d1d7fb1, 0x4003ecb5, 0x87a46539, 0x48d63618,
               0x0b69811a, 0x08240a36, 0x30eb6dbb, 0xdbcc6971], NUMBER_AND_CHECKSUM);
  }

  /** A detection record, number 2, holding the nine digits. */
  const SAMPLE := Frame(3, 2, CrcRemainder.NINE_DIGITS)

  lemma SmallValues()
    ensures FromByte(0) == 0 && FromByte(1) == 1 && FromByte(2) == 2 && FromByte(3) == 3 && FromByte(9) == 9
  {
  }

  lemma SmallFields()
    ensures PutLE(3, 2) == [3, 0] && PutLE(9, 4) == [9, 0, 0, 0] && PutLE(2, 8) == [2, 0, 0, 0, 0, 0, 0, 0]
  {
    SmallValues();
    hide *;
    Widths(3);
    Widths(9);
    Widths(2);
  }

  lemma HeaderJoined()
    ensures RECORD_MARK + [1, 0] + [3, 0] + [9, 0, 0, 0] + [2, 0, 0, 0, 0, 0, 0, 0] + DIGITS_CHECKSUM == HEADER
  {
  }

  lemma SamplePreamble()
    ensures Preamble(SAMPLE) == HEADER
  {
    hide PutLE, C.CrcOf, C.PutCrc;
    assert SAMPLE.kind == 3 && SAMPLE.sequence == 2 && SAMPLE.payload == CrcRemainder.NINE_DIGITS;
    assert |SAMPLE.payload| % U32_BOUND == 9;
    RecordMark();
    VersionMark();
    SmallFields();
    DigitsSealed();
    HeaderJoined();
    PreambleOf(SAMPLE);
    hide *;
  }

  lemma PreambleOf(f: Frame)
    ensures Preamble(f) ==
      PutLE(RECORD_MAGIC, 4) + PutLE(FORMAT_VERSION, 2) + PutLE(f.kind, 2)
      + PutLE(|f.payload| % U32_BOUND, 4) + PutLE(f.sequence, 8) + C.PutCrc(C.CrcOf(f.payload))
  {
    hide PutLE, C.CrcOf, C.PutCrc;
  }

  lemma HeaderSealed()
    ensures C.PutCrc(C.CrcOf(HEADER)) == [0x8e, 0x96, 0x33, 0x24]
  {
    MarkAndKind();
    LengthAndNumber();
    NumberAndChecksum();
    C.FoldAppend(C.ALL_ONES, MARK_AND_KIND, LENGTH_AND_NUMBER);
    C.FoldAppend(C.ALL_ONES, MARK_AND_KIND + LENGTH_AND_NUMBER, NUMBER_AND_CHECKSUM);
    hide C.Fold;
  }

  /** The sample record: 28 bytes of header and checksums, then the payload. */
  lemma SampleRecord()
    ensures Encoded(SAMPLE) ==
      [0x46, 0x43, 0x46, 0x4e, 1, 0, 3, 0, 9, 0, 0, 0, 2, 0, 0, 0, 0, 0, 0, 0,
       0x83, 0x92, 0x06, 0xe3, 0x8e, 0x96, 0x33, 0x24,
       0x31, 0x32, 0x33, 0x34, 0x35, 0x36, 0x37, 0x38, 0x39]
  {
    SamplePreamble();
    HeaderSealed();
    hide Preamble, C.CrcOf, C.PutCrc;
  }

  // ---------------------------------------------------------------------
  // Snapshot files
  // ---------------------------------------------------------------------

  /** "FCFNSNAP", the version, the length, the checksum, the payload. */
  lemma SampleSnapshot()
    ensures Snapshots.EncodeSnapshotFile(CrcRemainder.NINE_DIGITS) ==
      [0x46, 0x43, 0x46, 0x4e, 0x53, 0x4e, 0x41, 0x50, 1, 0, 9, 0, 0, 0, 0x83, 0x92, 0x06, 0xe3,
       0x31, 0x32, 0x33, 0x34, 0x35, 0x36, 0x37, 0x38, 0x39]
  {
    hide PutLE, C.CrcOf, C.PutCrc;
    VersionMark();
    SmallFields();
    DigitsSealed();
  }

  // ---------------------------------------------------------------------
  // Topologies
  // ---------------------------------------------------------------------

  const SAMPLE_TOPOLOGY := Topology(2,
    [NodeSpec("a", true, 3, false, Complete), NodeSpec("b", false, 9, true, Partial), NodeSpec("c", true, 2, false, Undetermined)],
    [Edge(0, 1, Proven, 9), Edge(0, 2, Unknown, 2), Edge(1, 2, Refuted, 3)])

  lemma TopologyFields()
    ensures PutLE(0, 1) == [0] && PutLE(1, 1) == [1] && PutLE(2, 1) == [2]
    ensures PutLE(0, 4) == [0, 0, 0, 0] && PutLE(1, 4) == [1, 0, 0, 0]
    ensures PutLE(2, 4) == [2, 0, 0, 0] && PutLE(3, 4) == [3, 0, 0, 0]
    ensures PutLE(2, 8) == [2, 0, 0, 0, 0, 0, 0, 0] && PutLE(3, 8) == [3, 0, 0, 0, 0, 0, 0, 0]
    ensures PutLE(9, 8) == [9, 0, 0, 0, 0, 0, 0, 0]
  {
    SmallValues();
    hide *;
    Widths(0);
    Widths(1);
    Widths(2);
    Widths(3);
    Widths(9);
  }

  lemma LetterBytes(c: char, b: Byte)
    requires FromByte(b) == c as int
    ensures PutText([c]) == [1, 0, 0, 0] + [b]
  {
    TopologyFields();
    ToFrom(b);
    hide PutLE, FromByte, ToByte;
    assert CharBytes([c]) == [b];
  }

  lemma Letters()
    ensures PutText("a") == [1, 0, 0, 0] + [0x61] && PutText("b") == [1, 0, 0, 0] + [0x62] && PutText("c") == [1, 0, 0, 0] + [0x63]
  {
    assert FromByte(0x61) == 'a' as int && FromByte(0x62) == 'b' as int && FromByte(0x63) == 'c' as int;
    hide *;
    LetterBytes('a', 0x61);
    LetterBytes('b', 0x62);
    LetterBytes('c', 0x63);
  }

  lemma SampleNodes()
    ensures PrintNode(SAMPLE_TOPOLOGY.nodes[0]) == [1, 0, 0, 0] + [0x61] + ([1] + ([3, 0, 0, 0, 0, 0, 0, 0] + ([0] + [0])))
    ensures PrintNode(SAMPLE_TOPOLOGY.nodes[1]) == [1, 0, 0, 0] + [0x62] + ([0] + ([9, 0, 0, 0, 0, 0, 0, 0] + ([1] + [1])))
    ensures PrintNode(SAMPLE_TOPOLOGY.nodes[2]) == [1, 0, 0, 0] + [0x63] + ([1] + ([2, 0, 0, 0, 0, 0, 0, 0] + ([0] + [2])))
  {
    TopologyFields();
    Letters();
    hide PutLE, PutText;
  }

  lemma SampleEdges()
    ensures PrintEdge(SAMPLE_TOPOLOGY.edges[0]) == [0, 0, 0, 0] + ([1, 0, 0, 0] + ([0] + [9, 0, 0, 0, 0, 0, 0, 0]))
    ensures PrintEdge(SAMPLE_TOPOLOGY.edges[1]) == [0, 0, 0, 0] + ([2, 0, 0, 0] + ([1] + [2, 0, 0, 0, 0, 0, 0, 0]))
    ensures PrintEdge(SAMPLE_TOPOLOGY.edges[2]) == [1, 0, 0, 0] + ([2, 0, 0, 0] + ([2] + [3, 0, 0, 0, 0, 0, 0, 0]))
  {
    TopologyFields();
    hide PutLE;
  }

  lemma ThreeNodes(nodes: seq<NodeSpec>)
    requires |nodes| == 3
    ensures PrintNodes(nodes) == PrintNode(nodes[0]) + (PrintNode(nodes[1]) + PrintNode(nodes[2]))
  {
    hide PrintNode;
    assert PrintNodes(nodes[1..][1..]) == PrintNode(nodes[2]) + PrintNodes([]);
  }

  lemma ThreeEdges(edges: seq<Edge>)
    requires |edges| == 3
    ensures PrintEdges(edges) == PrintEdge(edges[0]) + (PrintEdge(edges[1]) + PrintEdge(edges[2]))
  {
    hide PrintEdge;
    assert PrintEdges(edges[1..][1..]) == PrintEdge(edges[2]) + PrintEdges([]);
  }

  /** A sample document: generation, the count and the nodes, the count and the edges. */
  lemma SampleTopology()
    ensures Print(SAMPLE_TOPOLOGY) ==
      [2, 0, 0, 0, 0, 0, 0, 0] + ([3, 0, 0, 0] + (
      ([1, 0, 0, 0] + [0x61] + ([1] + ([3, 0, 0, 0, 0, 0, 0, 0] + ([0] + [0])))
      + ([1, 0, 0, 0] + [0x62] + ([0] + ([9, 0, 0, 0, 0, 0, 0, 0] + ([1] + [1])))
      + ([1, 0, 0, 0] + [0x63] + ([1] + ([2, 0, 0, 0, 0, 0, 0, 0] + ([0] + [2]))))))
      + ([3, 0, 0, 0] +
      ([0, 0, 0, 0] + ([1, 0, 0, 0] + ([0] + [9, 0, 0, 0, 0, 0, 0, 0]))
      + ([0, 0, 0, 0] + ([2, 0, 0, 0] + ([1] + [2, 0, 0, 0, 0, 0, 0, 0]))
      + ([1, 0, 0, 0] + ([2, 0, 0, 0] + ([2] + [3, 0, 0, 0, 0, 0, 0, 0]))))))))
  {
    TopologyFields();
    SampleNodes();
    SampleEdges();
    ThreeNodes(SAMPLE_TOPOLOGY.nodes);
    ThreeEdges(SAMPLE_TOPOLOGY.edges);
    hide PutLE, PrintNode, PrintEdge, PrintNodes, PrintEdges;
  }
}
