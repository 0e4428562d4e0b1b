/** The packed TPM event log: one TCG_PCR_EVENT that identifies the specification, followed by
    crypto-agile TCG_PCR_EVENT2 records (TCG EFI Protocol Specification, section 5.2). */
module EventLogFormat {
  import opened Bytes

  const EV_NO_ACTION: nat := 3
  const SHA1_SIZE: nat := 20
  const SIGNATURE_SIZE: nat := 16

  // "Spec ID Event02", "Spec ID Event03" and "StartupLocality", each with its final NUL.
  const SPEC_ID_02: seq<Byte> := [0x53, 0x70, 0x65, 0x63, 0x20, 0x49, 0x44, 0x20, 0x45, 0x76, 0x65, 0x6e, 0x74, 0x30,
      0x32, 0]
  const SPEC_ID_03: seq<Byte> := [0x53, 0x70, 0x65, 0x63, 0x20, 0x49, 0x44, 0x20, 0x45, 0x76, 0x65, 0x6e, 0x74, 0x30,
      0x33, 0]
  const STARTUP_LOCALITY: seq<Byte> := [0x53, 0x74, 0x61, 0x72, 0x74, 0x75, 0x70, 0x4c, 0x6f, 0x63, 0x61, 0x6c, 0x69,
      0x74, 0x79, 0]

  // Offsets of TCG_PCR_EVENT and TCG_PCR_EVENT2 fields; both structures are packed.
  const TYPE_OFFSET: nat := 4
  const COUNT_OFFSET: nat := 8
  const DIGESTS_OFFSET: nat := 12
  const SPEC_ID_SIZE_OFFSET: nat := 28
  const SPEC_ID_DATA_OFFSET: nat := 32

  datatype HashInfo = HashInfo(alg: nat, size: nat)

  const HASH_INFO: seq<HashInfo> :=
    [HashInfo(0x0004, 20), HashInfo(0x000B, 32), HashInfo(0x000C, 48), HashInfo(0x000D, 64)]

  /** The digest length of a hash algorithm that the table knows. */
  function HashSize(alg: nat): Option<nat> {
    if alg == 0x0004 then Some(20)
    else if alg == 0x000B then Some(32)
    else if alg == 0x000C then Some(48)
    else if alg == 0x000D then Some(64)
    else None
  }

  datatype Digest = Digest(alg: nat, hash: seq<Byte>)

  datatype Record =
    | SpecId(pcr: nat, sha1: seq<Byte>, data: seq<Byte>)
    | Agile(pcr: nat, eventType: nat, digests: seq<Digest>, data: seq<Byte>)

  predicate IsSpecIdSignature(s: seq<Byte>) {
    s == SPEC_ID_02 || s == SPEC_ID_03
  }

  function EncodeDigests(ds: seq<Digest>): seq<Byte> {
    if ds == [] then [] else LittleEndian(ds[0].alg, 2) + ds[0].hash + EncodeDigests(ds[1..])
  }

  function AgileHeader(pcr: nat, eventType: nat, count: nat): (s: seq<Byte>)
    ensures |s| == DIGESTS_OFFSET
  {
    LittleEndian(pcr, 4) + LittleEndian(eventType, 4) + LittleEndian(count, 4)
  }

  function Encode(r: Record): seq<Byte> {
    match r
    case SpecId(pcr, sha1, data) =>
      LittleEndian(pcr, 4) + LittleEndian(EV_NO_ACTION, 4) + sha1 + LittleEndian(|data|, 4) + data
    case Agile(pcr, eventType, digests, data) =>
      AgileHeader(pcr, eventType, |digests|) + EncodeDigests(digests) + (LittleEndian(|data|, 4) + data)
  }

  function EncodeAll(log: seq<Record>): (parts: seq<seq<Byte>>)
    ensures |parts| == |log|
  {
    seq(|log|, i requires 0 <= i < |log| => Encode(log[i]))
  }

  function EncodeLog(log: seq<Record>): seq<Byte> {
    Concat(EncodeAll(log))
  }

  predicate Known(d: Digest) {
    HashSize(d.alg).Some?
  }

  /** A digest that fits its fields; one of a known algorithm has that algorithm's length. */
  predicate EncodableDigest(d: Digest) {
    d.alg < TWO_16 && (Known(d) ==> |d.hash| == HashSize(d.alg).value)
  }

  predicate EncodableDigests(ds: seq<Digest>) {
    |ds| < TWO_32 && forall i :: 0 <= i < |ds| ==> EncodableDigest(ds[i])
  }

  predicate AllKnown(ds: seq<Digest>) {
    forall i :: 0 <= i < |ds| ==> Known(ds[i])
  }

  /** Every field fits its width in the packed structure. */
  predicate Encodable(r: Record) {
    && r.pcr < TWO_32
    && |r.data| < TWO_32
    && match r
       case SpecId(_, sha1, data) =>
         |sha1| == SHA1_SIZE && SIGNATURE_SIZE <= |data| && IsSpecIdSignature(data[..SIGNATURE_SIZE])
       case Agile(_, eventType, digests, _) =>
         eventType < TWO_32 && EncodableDigests(digests)
  }

  /** A record the walker can size: at least one digest and only known algorithms. */
  predicate Supported(r: Record) {
    r.SpecId? || (r.digests != [] && AllKnown(r.digests))
  }

  /** The record's own bytes show a specification signature where TCG_PCR_EVENT keeps its data. */
  predicate SpellsSpecId(r: Record) {
    && |Encode(r)| >= SPEC_ID_DATA_OFFSET + SIGNATURE_SIZE
    && IsSpecIdSignature(Encode(r)[SPEC_ID_DATA_OFFSET..SPEC_ID_DATA_OFFSET + SIGNATURE_SIZE])
  }

  predicate AllEncodable(log: seq<Record>) {
    forall i :: 0 <= i < |log| ==> Encodable(log[i])
  }

  /** The record's own bytes, read as the other format, give the same size. */
  predicate SameSizeAsSpecId(r: Record) {
    && |Encode(r)| >= SPEC_ID_DATA_OFFSET
    && SPEC_ID_DATA_OFFSET + FromLittleEndian(Encode(r)[SPEC_ID_SIZE_OFFSET..SPEC_ID_SIZE_OFFSET + 4]) == |Encode(r)|
  }

  /** Sum over the list of two bytes of algorithm and the digest's own length. */
  function DigestsSize(ds: seq<Digest>): nat {
    if ds == [] then 0 else 2 + |ds[0].hash| + DigestsSize(ds[1..])
  }

  lemma {:induction false} EncodedDigestsSize(ds: seq<Digest>)
    ensures |EncodeDigests(ds)| == DigestsSize(ds)
  {
    if ds != [] {
      EncodedDigestsSize(ds[1..]);
    }
  }

  lemma EncodedSize(r: Record)
    requires Encodable(r)
    ensures r.SpecId? ==> |Encode(r)| == 32 + |r.data|
    ensures r.Agile? ==> |Encode(r)| == 16 + DigestsSize(r.digests) + |r.data|
  {
    if r.Agile? {
      EncodedDigestsSize(r.digests);
    }
  }

  lemma {:induction false} KnownDigestsSize(ds: seq<Digest>)
    requires EncodableDigests(ds) && AllKnown(ds)
    ensures DigestsSize(ds) >= 22 * |ds|
    ensures DigestsSize(ds) < 34 ==> |ds| <= 1 && (|ds| == 1 ==> |ds[0].hash| == 20)
  {
    if ds != [] {
      KnownDigestsSize(ds[1..]);
    }
  }

  /** Where record `k` starts. */
  function Offset(log: seq<Record>, k: nat): nat
    requires k <= |log|
  {
    PartOffset(EncodeAll(log), k)
  }

  lemma FirstDigest(mem: Memory, a: nat, ds: seq<Digest>)
    requires ds != [] && ds[0].alg < TWO_16 && Holds(mem, a, EncodeDigests(ds))
    ensures LoadUint16(mem, a) == ds[0].alg
    ensures Holds(mem, a + 2, ds[0].hash)
    ensures Holds(mem, a + 2 + |ds[0].hash|, EncodeDigests(ds[1..]))
  {
    hide Holds, LoadUint16, LittleEndian;
    HoldsThree(mem, a, LittleEndian(ds[0].alg, 2), ds[0].hash, EncodeDigests(ds[1..]));
    LoadUint16Of(mem, a, ds[0].alg);
  }

  lemma HeaderFields(mem: Memory, a: nat, pcr: nat, eventType: nat, count: nat)
    requires pcr < TWO_32 && eventType < TWO_32 && count < TWO_32
    requires Holds(mem, a, AgileHeader(pcr, eventType, count))
    ensures LoadUint32(mem, a) == pcr
    ensures LoadUint32(mem, a + TYPE_OFFSET) == eventType
    ensures LoadUint32(mem, a + COUNT_OFFSET) == count
  {
    HoldsThree(mem, a, LittleEndian(pcr, 4), LittleEndian(eventType, 4), LittleEndian(count, 4));
    LoadUint32Of(mem, a, pcr);
    LoadUint32Of(mem, a + TYPE_OFFSET, eventType);
    LoadUint32Of(mem, a + COUNT_OFFSET, count);
  }

  lemma DataFields(mem: Memory, a: nat, data: seq<Byte>)
    requires |data| < TWO_32 && Holds(mem, a, LittleEndian(|data|, 4) + data)
    ensures LoadUint32(mem, a) == |data|
    ensures Holds(mem, a + 4, data)
  {
    HoldsConcat(mem, a, LittleEndian(|data|, 4), data);
    LoadUint32Of(mem, a, |data|);
  }

  /** What the fields of a crypto-agile record read as, at their places in memory. */
  lemma AgileFields(mem: Memory, a: nat, r: Record)
    requires r.Agile? && Encodable(r) && Holds(mem, a, Encode(r))
    ensures LoadUint32(mem, a) == r.pcr
    ensures LoadUint32(mem, a + TYPE_OFFSET) == r.eventType
    ensures LoadUint32(mem, a + COUNT_OFFSET) == |r.digests|
    ensures Holds(mem, a + DIGESTS_OFFSET, EncodeDigests(r.digests))
    ensures LoadUint32(mem, a + DIGESTS_OFFSET + DigestsSize(r.digests)) == |r.data|
    ensures Holds(mem, a + DIGESTS_OFFSET + DigestsSize(r.digests) + 4, r.data)
  {
    hide Holds, LoadUint32, LittleEndian, AgileHeader, EncodeDigests;
    EncodedDigestsSize(r.digests);
    HoldsThree(mem, a, AgileHeader(r.pcr, r.eventType, |r.digests|), EncodeDigests(r.digests),
               LittleEndian(|r.data|, 4) + r.data);
    HeaderFields(mem, a, r.pcr, r.eventType, |r.digests|);
    DataFields(mem, a + DIGESTS_OFFSET + DigestsSize(r.digests), r.data);
  }

  lemma SpecIdFields(mem: Memory, a: nat, r: Record)
    requires r.SpecId? && Encodable(r) && Holds(mem, a, Encode(r))
    ensures LoadUint32(mem, a + TYPE_OFFSET) == EV_NO_ACTION
    ensures LoadUint32(mem, a + SPEC_ID_SIZE_OFFSET) == |r.data|
    ensures Load(mem, a + SPEC_ID_DATA_OFFSET, SIGNATURE_SIZE) == r.data[..SIGNATURE_SIZE]
  {
    var pcr, ty, size := LittleEndian(r.pcr, 4), LittleEndian(EV_NO_ACTION, 4), LittleEndian(|r.data|, 4);
    HoldsThree(mem, a, pcr + ty + r.sha1, size, r.data);
    HoldsThree(mem, a, pcr, ty, r.sha1);
    LoadUint32Of(mem, a + TYPE_OFFSET, EV_NO_ACTION);
    LoadUint32Of(mem, a + SPEC_ID_SIZE_OFFSET, |r.data|);
    assert r.data == r.data[..SIGNATURE_SIZE] + r.data[SIGNATURE_SIZE..];
    HoldsConcat(mem, a + SPEC_ID_DATA_OFFSET, r.data[..SIGNATURE_SIZE], r.data[SIGNATURE_SIZE..]);
    HoldsLoad(mem, a + SPEC_ID_DATA_OFFSET, r.data[..SIGNATURE_SIZE]);
  }
}
