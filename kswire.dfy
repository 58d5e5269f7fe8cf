/** Wire formats of the kernel-streaming structures the filter reads and
    writes: octets, little-endian `ULONG`s, GUIDs, the `KSPROPERTY` request
    header and the `KSMULTIPLE_ITEM` response header. Also the `NTSTATUS`
    convention used by every completion. */
module KsWire {

  /** One octet of a raw buffer. */
  type byte = x: int | 0 <= x < 0x100

  /** A C `ULONG`: 32 bits, unsigned. */
  type uint32 = x: int | 0 <= x < 0x1_0000_0000

  /** An `NTSTATUS`: a signed 32-bit value. */
  type NtStatus = x: int | -0x8000_0000 <= x < 0x8000_0000

  /** `NT_SUCCESS`: success and informational codes are non-negative;
      warnings and errors have the top bit set. */
  predicate NtSuccess(s: NtStatus) { s >= 0 }

  const STATUS_SUCCESS: NtStatus := 0
  /** 0xC0000023, as a signed 32-bit value. */
  const STATUS_BUFFER_TOO_SMALL: NtStatus := 0xC000_0023 - 0x1_0000_0000

  // ---------------------------------------------------------------------
  // Little-endian ULONG

  function DecodeU32(b: seq<byte>): (x: uint32)
    requires |b| == 4
  {
    b[0] as int + 0x100 * b[1] as int + 0x1_0000 * b[2] as int + 0x100_0000 * b[3] as int
  }

  function EncodeU32(x: uint32): (b: seq<byte>)
    ensures |b| == 4
  {
    var x1 := x / 0x100;
    var x2 := x1 / 0x100;
    [x % 0x100, x1 % 0x100, x2 % 0x100, x2 / 0x100]
  }

  lemma DecodeEncodeU32(x: uint32)
    ensures DecodeU32(EncodeU32(x)) == x
  {
  }

  /** Splitting off the low octet of `lo + 0x100 * hi`. */
  lemma SplitOctet(lo: byte, hi: nat)
    ensures (lo + 0x100 * hi) % 0x100 == lo
    ensures (lo + 0x100 * hi) / 0x100 == hi
  {
  }

  lemma EncodeDecodeU32(b: seq<byte>)
    requires |b| == 4
    ensures EncodeU32(DecodeU32(b)) == b
  {
    var y2 := b[2] as int + 0x100 * b[3] as int;
    var y1 := b[1] as int + 0x100 * y2;
    assert DecodeU32(b) == b[0] as int + 0x100 * y1;
    SplitOctet(b[0], y1);
    SplitOctet(b[1], y2);
    SplitOctet(b[2], b[3]);
  }

  // ---------------------------------------------------------------------
  // GUID: 16 bytes in memory order. `IsEqualGUID` is a byte comparison,
  // so GUID equality is sequence equality.

  const GUID_SIZE: nat := 16

  type Guid = s: seq<byte> | |s| == GUID_SIZE
    witness [0, 0, 0, 0, 0, 0, 0, 0, 0, 0, 0, 0, 0, 0, 0, 0]

  /** `GUID_NULL`, {00000000-0000-0000-0000-000000000000}. */
  const GUID_NULL: Guid := [0, 0, 0, 0, 0, 0, 0, 0, 0, 0, 0, 0, 0, 0, 0, 0]

  /** `KSNODETYPE_VOLUME`, {3A5ACC00-C557-11D0-8A2B-00A0C9255AC1}; the first
      three fields are stored little-endian. */
  const KSNODETYPE_VOLUME: Guid :=
    [0x00, 0xCC, 0x5A, 0x3A, 0x57, 0xC5, 0xD0, 0x11,
     0x8A, 0x2B, 0x00, 0xA0, 0xC9, 0x25, 0x5A, 0xC1]

  /** `KSPROPSETID_Topology`, {720D4AC0-7533-11D0-A5D6-28DB04C10000}. */
  const KSPROPSETID_TOPOLOGY: Guid :=
    [0xC0, 0x4A, 0x0D, 0x72, 0x33, 0x75, 0xD0, 0x11,
     0xA5, 0xD6, 0x28, 0xDB, 0x04, 0xC1, 0x00, 0x00]

  lemma VolumeIsNotNull()
    ensures KSNODETYPE_VOLUME != GUID_NULL
  {
    assert KSNODETYPE_VOLUME[1] != GUID_NULL[1];
  }

  // ---------------------------------------------------------------------
  // KSPROPERTY: { GUID Set; ULONG Id; ULONG Flags; }, 24 bytes.

  const KSPROPERTY_SIZE: nat := 24

  /** `IOCTL_KS_PROPERTY` = CTL_CODE(FILE_DEVICE_KS (0x2F), 0, METHOD_NEITHER (3), FILE_ANY_ACCESS (0)). */
  const IOCTL_KS_PROPERTY: uint32 := 0x002F_0003
  /** Second member of the `KSPROPERTY_TOPOLOGY` enumeration. */
  const KSPROPERTY_TOPOLOGY_NODES: uint32 := 1
  const KSPROPERTY_TYPE_GET: bv32 := 0x0000_0001

  datatype KsProperty = KsProperty(setId: Guid, id: uint32, flags: uint32)

  /** Reads a `KSPROPERTY` from the first 24 bytes of `b`; later bytes are ignored. */
  function DecodeKsProperty(b: seq<byte>): (p: KsProperty)
    requires |b| >= KSPROPERTY_SIZE
    ensures p.setId == b[..GUID_SIZE]
  {
    KsProperty(b[..16], DecodeU32(b[16..20]), DecodeU32(b[20..24]))
  }

  function EncodeKsProperty(p: KsProperty): (b: seq<byte>)
    ensures |b| == KSPROPERTY_SIZE
    ensures b[..GUID_SIZE] == p.setId
  {
    p.setId + EncodeU32(p.id) + EncodeU32(p.flags)
  }

  /** Decoding reads back what encoding wrote, whatever follows the header. */
  lemma DecodeEncodeKsProperty(p: KsProperty, tail: seq<byte>)
    ensures DecodeKsProperty(EncodeKsProperty(p) + tail) == p
  {
    var b := EncodeKsProperty(p) + tail;
    assert b[16..20] == EncodeU32(p.id);
    assert b[20..24] == EncodeU32(p.flags);
    DecodeEncodeU32(p.id);
    DecodeEncodeU32(p.flags);
  }

  /** Every 24-byte header is the encoding of the record it decodes to. */
  lemma EncodeDecodeKsProperty(b: seq<byte>)
    requires |b| == KSPROPERTY_SIZE
    ensures EncodeKsProperty(DecodeKsProperty(b)) == b
  {
    EncodeDecodeU32(b[16..20]);
    EncodeDecodeU32(b[20..24]);
    assert b == b[..16] + b[16..20] + b[20..24];
  }

  // ---------------------------------------------------------------------
  // KSMULTIPLE_ITEM: { ULONG Size; ULONG Count; }, 8 bytes, followed in a
  // topology-nodes reply by Count GUIDs.

  const MULTIPLE_ITEM_HEADER_SIZE: nat := 8

  datatype KsMultipleItem = KsMultipleItem(size: uint32, count: uint32)

  function DecodeMultipleItem(b: seq<byte>): (h: KsMultipleItem)
    requires |b| >= MULTIPLE_ITEM_HEADER_SIZE
  {
    KsMultipleItem(DecodeU32(b[..4]), DecodeU32(b[4..8]))
  }

  function EncodeMultipleItem(h: KsMultipleItem): (b: seq<byte>)
    ensures |b| == MULTIPLE_ITEM_HEADER_SIZE
  {
    EncodeU32(h.size) + EncodeU32(h.count)
  }

  lemma DecodeEncodeMultipleItem(h: KsMultipleItem, tail: seq<byte>)
    ensures DecodeMultipleItem(EncodeMultipleItem(h) + tail) == h
  {
    var b := EncodeMultipleItem(h) + tail;
    assert b[..4] == EncodeU32(h.size);
    assert b[4..8] == EncodeU32(h.count);
    DecodeEncodeU32(h.size);
    DecodeEncodeU32(h.count);
  }

  /** Every 8-byte header is the encoding of the record it decodes to. */
  lemma EncodeDecodeMultipleItem(b: seq<byte>)
    requires |b| == MULTIPLE_ITEM_HEADER_SIZE
    ensures EncodeMultipleItem(DecodeMultipleItem(b)) == b
  {
    EncodeDecodeU32(b[..4]);
    EncodeDecodeU32(b[4..8]);
    assert b == b[..4] + b[4..8];
  }

  /** The header is a function of its 8 bytes alone. */
  lemma DecodeMultipleItemPrefix(b: seq<byte>, c: seq<byte>)
    requires |b| >= MULTIPLE_ITEM_HEADER_SIZE && |c| >= MULTIPLE_ITEM_HEADER_SIZE
    requires b[..MULTIPLE_ITEM_HEADER_SIZE] == c[..MULTIPLE_ITEM_HEADER_SIZE]
    ensures DecodeMultipleItem(b) == DecodeMultipleItem(c)
  {
    assert b[..4] == b[..8][..4] && c[..4] == c[..8][..4];
    assert b[4..8] == b[..8][4..8] && c[4..8] == c[..8][4..8];
  }
}
