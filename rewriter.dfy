/** The response rewriter `WinSoftVol_OnRequestSuccess`: after the lower driver
    answers a topology-nodes query, the reply in the IRP's system buffer is a
    `KSMULTIPLE_ITEM` header followed by `Count` node-type GUIDs; every
    `KSNODETYPE_VOLUME` entry is overwritten in place with `GUID_NULL`. A reply
    whose header does not check out is left untouched. */
module Rewriter {
  import opened KsWire
  import opened Wdf

  /** The outcome of the three header checks, in the order the code makes them. */
  datatype Validation =
    | BufferTooShort        // OutputBufferLength < sizeof(KSMULTIPLE_ITEM)
    | SizeExceedsBuffer     // OutputBufferLength < Size
    | SizeMismatch          // Size != sizeof(KSMULTIPLE_ITEM) + Count * sizeof(GUID)
    | WellFormed(header: KsMultipleItem)

  /** `sizeof(KSMULTIPLE_ITEM) + itemCount * sizeof(GUID)` computed in a 64-bit
      `size_t`: a 32-bit count times 16 plus 8 cannot wrap, so the value is exact. */
  function ExpectedSize(count: uint32): nat {
    EntryOffset(count)
  }

  /** Byte offset of entry `i`: the header, then `i` GUIDs. */
  function EntryOffset(i: nat): nat {
    MULTIPLE_ITEM_HEADER_SIZE + GUID_SIZE * i
  }

  /** Entry `i` of the list that follows the header. */
  function EntryAt(b: seq<byte>, i: nat): Guid
    requires EntryOffset(i) + GUID_SIZE <= |b|
  {
    b[EntryOffset(i) .. EntryOffset(i) + GUID_SIZE]
  }

  /** The header checks on the first `outputBufferLength` bytes of `b`. A
      header that passes describes entries that all lie inside the buffer. */
  function Validate(b: seq<byte>, outputBufferLength: uint32): (v: Validation)
    requires outputBufferLength <= |b|
    ensures v.WellFormed? <==>
      && outputBufferLength >= MULTIPLE_ITEM_HEADER_SIZE
      && DecodeMultipleItem(b).size <= outputBufferLength
      && DecodeMultipleItem(b).size == ExpectedSize(DecodeMultipleItem(b).count)
    ensures v.WellFormed? ==> v.header == DecodeMultipleItem(b)
    ensures v.WellFormed? ==>
      EntryOffset(v.header.count) == v.header.size <= outputBufferLength <= |b|
  {
    if outputBufferLength < MULTIPLE_ITEM_HEADER_SIZE then BufferTooShort
    else
      var header := DecodeMultipleItem(b);
      if outputBufferLength < header.size then SizeExceedsBuffer
      else if header.size != ExpectedSize(header.count) then SizeMismatch
      else WellFormed(header)
  }

  /** What the loop leaves in the buffer after handling the first `k` entries:
      a byte changes to 0 exactly when it belongs to one of those entries and
      that entry was `KSNODETYPE_VOLUME` (`GUID_NULL` is all zeros). */
  function ScrubbedUpTo(b: seq<byte>, k: nat): (r: seq<byte>)
    requires EntryOffset(k) <= |b|
    ensures |r| == |b|
  {
    seq(|b|, j requires 0 <= j < |b| =>
      if MULTIPLE_ITEM_HEADER_SIZE <= j < EntryOffset(k)
         && EntryAt(b, (j - MULTIPLE_ITEM_HEADER_SIZE) / GUID_SIZE) == KSNODETYPE_VOLUME
      then 0 else b[j])
  }

  /** The effect of `WinSoftVol_OnRequestSuccess` on a non-NULL system buffer. */
  function Rewrite(b: seq<byte>, outputBufferLength: uint32): (r: seq<byte>)
    requires outputBufferLength <= |b|
    ensures |r| == |b|
    ensures !Validate(b, outputBufferLength).WellFormed? ==> r == b
  {
    match Validate(b, outputBufferLength)
    case WellFormed(header) => ScrubbedUpTo(b, header.count)
    case _ => b
  }

  /** The replacement applied to one entry. */
  function ScrubGuid(g: Guid): Guid {
    if g == KSNODETYPE_VOLUME then GUID_NULL else g
  }

  /** The entry list of a reply with `n` entries. */
  function Entries(b: seq<byte>, n: nat): (es: seq<Guid>)
    requires EntryOffset(n) <= |b|
    ensures |es| == n
  {
    seq(n, i requires 0 <= i < n => EntryAt(b, i))
  }

  function ScrubAll(es: seq<Guid>): (r: seq<Guid>)
    ensures |r| == |es|
  {
    seq(|es|, i requires 0 <= i < |es| => ScrubGuid(es[i]))
  }

  // ---------------------------------------------------------------------
  // The in-place method

  /** `WinSoftVol_OnRequestSuccess`: rewrites `Irp->AssociatedIrp.SystemBuffer`
      in place; a NULL buffer is left alone. */
  method OnRequestSuccess(request: Request)
    requires request.BufferFits()
    modifies request.systemBuffer
    ensures request.systemBuffer != null ==>
      request.systemBuffer[..] == Rewrite(old(request.systemBuffer[..]), request.outputBufferLength)
  {
    var outputBuffer := request.systemBuffer;
    if outputBuffer == null {
      return;
    }
    var outputBufferLength := request.outputBufferLength;
    ghost var original := outputBuffer[..];
    if outputBufferLength < MULTIPLE_ITEM_HEADER_SIZE {
      return;
    }
    var size := DecodeU32(outputBuffer[..4]);
    assert original[..4] == outputBuffer[..4];
    if outputBufferLength < size {
      return;
    }
    var itemCount := DecodeU32(outputBuffer[4..8]);
    assert original[4..8] == outputBuffer[4..8];
    var expectedSize := MULTIPLE_ITEM_HEADER_SIZE + itemCount * GUID_SIZE;
    if size != expectedSize {
      return;
    }
    assert Validate(original, outputBufferLength) == WellFormed(KsMultipleItem(size, itemCount));
    assert ScrubbedUpTo(original, 0) == original;
    for index := 0 to itemCount
      invariant outputBuffer[..] == ScrubbedUpTo(original, index)
    {
      var offset := EntryOffset(index);
      ScrubStep(original, index);
      ghost var before := outputBuffer[..];
      assert outputBuffer[offset .. offset + GUID_SIZE] == EntryAt(original, index);
      if outputBuffer[offset .. offset + GUID_SIZE] == KSNODETYPE_VOLUME {
        forall j | offset <= j < offset + GUID_SIZE {
          outputBuffer[j] := GUID_NULL[j - offset];
        }
        assert outputBuffer[..] == before[..offset] + GUID_NULL + before[offset + GUID_SIZE..];
      }
    }
  }

  /** One more turn of the loop: entry `k` is replaced by `GUID_NULL` when it
      is `KSNODETYPE_VOLUME`, and nothing else changes. */
  lemma ScrubStep(b: seq<byte>, k: nat)
    requires EntryOffset(k + 1) <= |b|
    ensures ScrubbedUpTo(b, k)[EntryOffset(k) .. EntryOffset(k) + GUID_SIZE] == EntryAt(b, k)
    ensures ScrubbedUpTo(b, k + 1) ==
      if EntryAt(b, k) == KSNODETYPE_VOLUME
      then ScrubbedUpTo(b, k)[..EntryOffset(k)] + GUID_NULL + ScrubbedUpTo(b, k)[EntryOffset(k) + GUID_SIZE..]
      else ScrubbedUpTo(b, k)
  {
    var offset := EntryOffset(k);
    var s, t := ScrubbedUpTo(b, k), ScrubbedUpTo(b, k + 1);
    forall j | offset <= j < offset + GUID_SIZE
      ensures s[j] == b[j]
      ensures t[j] == if EntryAt(b, k) == KSNODETYPE_VOLUME then 0 else b[j]
    {
      EntryIndex(k, j);
    }
    forall j | 0 <= j < |b| && !(offset <= j < offset + GUID_SIZE)
      ensures t[j] == s[j]
    {
    }
    assert s[offset .. offset + GUID_SIZE] == EntryAt(b, k);
    if EntryAt(b, k) == KSNODETYPE_VOLUME {
      assert t == s[..offset] + GUID_NULL + s[offset + GUID_SIZE..];
    } else {
      assert t == s;
    }
  }

  /** Every byte of entry `i` maps back to index `i`. */
  lemma EntryIndex(i: nat, j: int)
    requires EntryOffset(i) <= j < EntryOffset(i) + GUID_SIZE
    ensures (j - MULTIPLE_ITEM_HEADER_SIZE) / GUID_SIZE == i
  {
  }

  /** The entry that byte `j` of the list belongs to. */
  lemma EntryOf(j: int)
    requires j >= MULTIPLE_ITEM_HEADER_SIZE
    ensures var i := (j - MULTIPLE_ITEM_HEADER_SIZE) / GUID_SIZE;
      i >= 0 && EntryOffset(i) <= j < EntryOffset(i) + GUID_SIZE
  {
  }

  // ---------------------------------------------------------------------
  // Properties of the rewrite

  /** On a validated reply, entry `i` becomes `ScrubGuid` of what it was. */
  lemma RewriteEntry(b: seq<byte>, outputBufferLength: uint32, i: nat)
    requires outputBufferLength <= |b|
    requires Validate(b, outputBufferLength).WellFormed?
    requires i < Validate(b, outputBufferLength).header.count
    ensures EntryAt(Rewrite(b, outputBufferLength), i) == ScrubGuid(EntryAt(b, i))
  {
    var n := Validate(b, outputBufferLength).header.count;
    var r := Rewrite(b, outputBufferLength);
    assert r == ScrubbedUpTo(b, n);
    forall j | EntryOffset(i) <= j < EntryOffset(i) + GUID_SIZE
      ensures r[j] == ScrubGuid(EntryAt(b, i))[j - EntryOffset(i)]
    {
      EntryIndex(i, j);
    }
  }

  /** On a validated reply, an entry changes exactly when it was
      `KSNODETYPE_VOLUME`, and then it becomes `GUID_NULL`. */
  lemma RewriteChangesOnlyVolumeEntries(b: seq<byte>, outputBufferLength: uint32, i: nat)
    requires outputBufferLength <= |b|
    requires Validate(b, outputBufferLength).WellFormed?
    requires i < Validate(b, outputBufferLength).header.count
    ensures EntryAt(Rewrite(b, outputBufferLength), i) != EntryAt(b, i) <==> EntryAt(b, i) == KSNODETYPE_VOLUME
    ensures EntryAt(b, i) == KSNODETYPE_VOLUME ==> EntryAt(Rewrite(b, outputBufferLength), i) == GUID_NULL
    ensures EntryAt(Rewrite(b, outputBufferLength), i) != KSNODETYPE_VOLUME
  {
    RewriteEntry(b, outputBufferLength, i);
    VolumeIsNotNull();
  }

  /** Every byte the rewrite changes lies in `[8, Size)`, which lies inside
      `[0, OutputBufferLength)`: the header and everything from `Size` on are
      kept, and nothing changes at all unless the header validated. */
  lemma RewriteWritesBounded(b: seq<byte>, outputBufferLength: uint32)
    requires outputBufferLength <= |b|
    ensures var r := Rewrite(b, outputBufferLength);
      forall j :: 0 <= j < |b| && r[j] != b[j] ==>
        && Validate(b, outputBufferLength).WellFormed?
        && MULTIPLE_ITEM_HEADER_SIZE <= j < DecodeMultipleItem(b).size <= outputBufferLength
  {
  }

  /** The header bytes survive the rewrite, so a second run sees the same
      header as the first. */
  lemma RewriteKeepsHeader(b: seq<byte>, outputBufferLength: uint32)
    requires outputBufferLength <= |b|
    ensures Validate(Rewrite(b, outputBufferLength), outputBufferLength) == Validate(b, outputBufferLength)
  {
    var r := Rewrite(b, outputBufferLength);
    if outputBufferLength >= MULTIPLE_ITEM_HEADER_SIZE {
      RewriteWritesBounded(b, outputBufferLength);
      assert r[..MULTIPLE_ITEM_HEADER_SIZE] == b[..MULTIPLE_ITEM_HEADER_SIZE];
      DecodeMultipleItemPrefix(r, b);
    }
  }

  /** A reply with no `KSNODETYPE_VOLUME` entry among its first `n` is left as it is. */
  lemma ScrubbedUpToNoVolume(b: seq<byte>, n: nat)
    requires EntryOffset(n) <= |b|
    requires forall i :: 0 <= i < n ==> EntryAt(b, i) != KSNODETYPE_VOLUME
    ensures ScrubbedUpTo(b, n) == b
  {
    forall j | MULTIPLE_ITEM_HEADER_SIZE <= j < EntryOffset(n)
      ensures ScrubbedUpTo(b, n)[j] == b[j]
    {
      EntryOf(j);
    }
  }

  /** Running the rewrite twice changes nothing more: no entry is
      `KSNODETYPE_VOLUME` after the first run, because `GUID_NULL` is not. */
  lemma RewriteIdempotent(b: seq<byte>, outputBufferLength: uint32)
    requires outputBufferLength <= |b|
    ensures Rewrite(Rewrite(b, outputBufferLength), outputBufferLength) == Rewrite(b, outputBufferLength)
  {
    var r := Rewrite(b, outputBufferLength);
    RewriteKeepsHeader(b, outputBufferLength);
    if Validate(b, outputBufferLength).WellFormed? {
      var n := Validate(b, outputBufferLength).header.count;
      forall i | 0 <= i < n
        ensures EntryAt(r, i) != KSNODETYPE_VOLUME
      {
        RewriteChangesOnlyVolumeEntries(b, outputBufferLength, i);
      }
      ScrubbedUpToNoVolume(r, n);
    }
  }

  /** On a validated reply the entry list after the rewrite is the scrubbed
      entry list before it. */
  lemma RewriteEntries(b: seq<byte>, outputBufferLength: uint32)
    requires outputBufferLength <= |b|
    requires Validate(b, outputBufferLength).WellFormed?
    ensures var n := Validate(b, outputBufferLength).header.count;
      Entries(Rewrite(b, outputBufferLength), n) == ScrubAll(Entries(b, n))
  {
    var n := Validate(b, outputBufferLength).header.count;
    forall i | 0 <= i < n
      ensures Entries(Rewrite(b, outputBufferLength), n)[i] == ScrubAll(Entries(b, n))[i]
    {
      RewriteEntry(b, outputBufferLength, i);
    }
  }

  // ---------------------------------------------------------------------
  // Counting entries

  /** Number of entries of `es` equal to `g`. */
  function Occurrences(es: seq<Guid>, g: Guid): nat {
    if es == [] then 0 else (if es[0] == g then 1 else 0) + Occurrences(es[1..], g)
  }

  /** Of `n` entries of which `k` are `KSNODETYPE_VOLUME`: afterwards none is,
      the `k` have joined the `GUID_NULL` entries, and every other value
      occurs as often as before. */
  lemma {:induction false} ScrubAllCounts(es: seq<Guid>)
    ensures Occurrences(ScrubAll(es), KSNODETYPE_VOLUME) == 0
    ensures Occurrences(ScrubAll(es), GUID_NULL) == Occurrences(es, GUID_NULL) + Occurrences(es, KSNODETYPE_VOLUME)
    ensures forall g :: g != KSNODETYPE_VOLUME && g != GUID_NULL ==>
      Occurrences(ScrubAll(es), g) == Occurrences(es, g)
  {
    VolumeIsNotNull();
    if es != [] {
      ScrubAllCounts(es[1..]);
      assert ScrubAll(es)[1..] == ScrubAll(es[1..]);
    }
  }

  // ---------------------------------------------------------------------
  // Building replies

  /** The entries laid end to end. */
  function Flatten(es: seq<Guid>): (b: seq<byte>)
    ensures |b| == GUID_SIZE * |es|
  {
    if es == [] then [] else es[0] + Flatten(es[1..])
  }

  lemma {:induction false} FlattenAt(es: seq<Guid>, i: nat)
    requires i < |es|
    ensures Flatten(es)[GUID_SIZE * i .. GUID_SIZE * i + GUID_SIZE] == es[i]
  {
    if i > 0 {
      FlattenAt(es[1..], i - 1);
      assert Flatten(es)[GUID_SIZE * i .. GUID_SIZE * i + GUID_SIZE]
          == Flatten(es[1..])[GUID_SIZE * (i - 1) .. GUID_SIZE * (i - 1) + GUID_SIZE];
    }
  }

  /** Replies with fewer entries than this have a `Size` that fits a `ULONG`. */
  const MAX_ENTRIES: nat := 0x1000_0000

  /** A well-formed topology-nodes reply carrying `es`, as a lower driver
      would write it. */
  function EncodeReply(es: seq<Guid>): (b: seq<byte>)
    requires |es| < MAX_ENTRIES
    ensures |b| == ExpectedSize(|es|)
  {
    EncodeMultipleItem(KsMultipleItem(ExpectedSize(|es|), |es|)) + Flatten(es)
  }

  /** An encoded reply passes validation and its entries read back as `es`. */
  lemma DecodeReply(es: seq<Guid>)
    requires |es| < MAX_ENTRIES
    ensures Validate(EncodeReply(es), ExpectedSize(|es|) as uint32)
         == WellFormed(KsMultipleItem(ExpectedSize(|es|), |es|))
    ensures Entries(EncodeReply(es), |es|) == es
  {
    var h := KsMultipleItem(ExpectedSize(|es|), |es|);
    DecodeEncodeMultipleItem(h, Flatten(es));
    forall i | 0 <= i < |es|
      ensures EntryAt(EncodeReply(es), i) == es[i]
    {
      FlattenAt(es, i);
      assert EntryAt(EncodeReply(es), i) == Flatten(es)[GUID_SIZE * i .. GUID_SIZE * i + GUID_SIZE];
    }
  }

  /** Two replies of `n` entries with the same header bytes and the same
      entries are the same bytes. */
  lemma SameReply(b: seq<byte>, c: seq<byte>, n: nat)
    requires |b| == |c| == EntryOffset(n)
    requires b[..MULTIPLE_ITEM_HEADER_SIZE] == c[..MULTIPLE_ITEM_HEADER_SIZE]
    requires Entries(b, n) == Entries(c, n)
    ensures b == c
  {
    forall j | 0 <= j < |b|
      ensures b[j] == c[j]
    {
      if j >= MULTIPLE_ITEM_HEADER_SIZE {
        EntryOf(j);
        var i := (j - MULTIPLE_ITEM_HEADER_SIZE) / GUID_SIZE;
        assert Entries(b, n)[i] == Entries(c, n)[i];
        assert b[j] == EntryAt(b, i)[j - EntryOffset(i)];
      } else {
        assert b[j] == b[..MULTIPLE_ITEM_HEADER_SIZE][j];
      }
    }
  }

  /** Rewriting an encoded reply is encoding the scrubbed entries. */
  lemma RewriteEncodedReply(es: seq<Guid>)
    requires |es| < MAX_ENTRIES
    ensures Rewrite(EncodeReply(es), ExpectedSize(|es|) as uint32) == EncodeReply(ScrubAll(es))
  {
    var len := ExpectedSize(|es|) as uint32;
    var b := EncodeReply(es);
    var r := Rewrite(b, len);
    var c := EncodeReply(ScrubAll(es));
    DecodeReply(es);
    DecodeReply(ScrubAll(es));
    RewriteEntries(b, len);
    RewriteWritesBounded(b, len);
    assert r[..MULTIPLE_ITEM_HEADER_SIZE] == b[..MULTIPLE_ITEM_HEADER_SIZE];
    assert b[..MULTIPLE_ITEM_HEADER_SIZE] == c[..MULTIPLE_ITEM_HEADER_SIZE];
    SameReply(r, c, |es|);
  }

  /** A four-node reply whose entry 2 is the volume node comes back with that
      entry nulled and the rest as they were. */
  lemma TopologyScrubScenario(g0: Guid, g1: Guid, g3: Guid)
    requires g0 != KSNODETYPE_VOLUME && g1 != KSNODETYPE_VOLUME && g3 != KSNODETYPE_VOLUME
    ensures Rewrite(EncodeReply([g0, g1, KSNODETYPE_VOLUME, g3]), 72)
         == EncodeReply([g0, g1, GUID_NULL, g3])
  {
    RewriteEncodedReply([g0, g1, KSNODETYPE_VOLUME, g3]);
    assert ScrubAll([g0, g1, KSNODETYPE_VOLUME, g3]) == [g0, g1, GUID_NULL, g3];
  }

  // ---------------------------------------------------------------------
  // The size check with a 32-bit size_t

  /** `sizeof(KSMULTIPLE_ITEM) + itemCount * sizeof(GUID)` when `size_t` is 32
      bits wide: the arithmetic wraps modulo 2^32. */
  function ExpectedSize32(count: uint32): uint32 {
    (MULTIPLE_ITEM_HEADER_SIZE + count * GUID_SIZE) % 0x1_0000_0000
  }

  /** The header checks as a 32-bit build performs them. */
  function Validate32(b: seq<byte>, outputBufferLength: uint32): (v: Validation)
    requires outputBufferLength <= |b|
    ensures v.WellFormed? ==>
      outputBufferLength >= MULTIPLE_ITEM_HEADER_SIZE && v.header == DecodeMultipleItem(b)
  {
    if outputBufferLength < MULTIPLE_ITEM_HEADER_SIZE then BufferTooShort
    else
      var header := DecodeMultipleItem(b);
      if outputBufferLength < header.size then SizeExceedsBuffer
      else if header.size != ExpectedSize32(header.count) then SizeMismatch
      else WellFormed(header)
  }

  /** With a 32-bit `size_t`, an 8-byte reply declaring `Size = 8` and
      `Count = 0x10000000` passes every check (8 + 16 * 2^28 wraps to 8), yet
      its entries would reach 2^32 bytes past a buffer of 8. The 64-bit check
      rejects it. */
  lemma ExpectedSizeWrapsOn32Bit()
    ensures var b := EncodeMultipleItem(KsMultipleItem(8, 0x1000_0000));
      && Validate32(b, 8) == WellFormed(KsMultipleItem(8, 0x1000_0000))
      && EntryOffset(0x1000_0000) > |b|
      && Validate(b, 8) == SizeMismatch
  {
    DecodeEncodeMultipleItem(KsMultipleItem(8, 0x1000_0000), []);
    assert EncodeMultipleItem(KsMultipleItem(8, 0x1000_0000)) + [] == EncodeMultipleItem(KsMultipleItem(8, 0x1000_0000));
  }
}
