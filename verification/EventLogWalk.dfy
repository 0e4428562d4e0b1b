/** The digest-list walks of the event log and the test that tells the two record formats apart. */
module EventLogWalk {
  import opened Bytes
  import opened EventLogFormat

  method GetHashInfo(alg: nat) returns (r: Option<nat>)
    ensures r == HashSize(alg)
  {
    for i := 0 to |HASH_INFO|
      invariant forall j :: 0 <= j < i ==> HASH_INFO[j].alg != alg
    {
      if HASH_INFO[i].alg == alg {
        return Some(HASH_INFO[i].size);
      }
    }
    assert HASH_INFO[0].alg != alg && HASH_INFO[1].alg != alg && HASH_INFO[2].alg != alg && HASH_INFO[3].alg != alg;
    return None;
  }

  /** Passes `n` digests; `p` addresses the digest whose algorithm `alg` was read ahead.  The result
      is the address after the last algorithm read ahead. */
  function Walk(mem: Memory, p: nat, alg: nat, n: nat): (r: Option<nat>)
    ensures r.Some? ==> r.value >= p + 22 * n
    decreases n
  {
    if n == 0 then Some(p)
    else match HashSize(alg)
      case None => None
      case Some(size) => Walk(mem, p + size + 2, LoadUint16(mem, p + size), n - 1)
  }

  /** Where the digest list of the TCG_PCR_EVENT2 at `a` ends. */
  function DigestsEnd(mem: Memory, a: nat): (r: Option<nat>)
    ensures r.Some? ==> r.value >= a + DIGESTS_OFFSET
  {
    match Walk(mem, a + DIGESTS_OFFSET + 2, LoadUint16(mem, a + DIGESTS_OFFSET), LoadUint32(mem, a + COUNT_OFFSET))
    case None => None
    case Some(p) => Some(p - 2)
  }

  /** Zero stands for a list the source cannot size. */
  method GetDigestListSize(mem: Memory, a: nat) returns (size: nat)
    ensures match DigestsEnd(mem, a)
            case None => size == 0
            case Some(end) => size == end - (a + DIGESTS_OFFSET)
  {
    hide LoadUint16, LoadUint32;
    var count := LoadUint32(mem, a + COUNT_OFFSET);
    var alg := LoadUint16(mem, a + DIGESTS_OFFSET);
    var digest := a + DIGESTS_OFFSET + 2;
    ghost var whole := Walk(mem, digest, alg, count);
    for i := 0 to count
      invariant digest >= a + DIGESTS_OFFSET + 2
      invariant Walk(mem, digest, alg, count - i) == whole
    {
      var info := GetHashInfo(alg);
      if info.None? {
        return 0;
      }
      digest := digest + info.value;
      alg := LoadUint16(mem, digest);
      digest := digest + 2;
    }
    digest := digest - 2;
    size := digest - (a + DIGESTS_OFFSET);
  }

  /** The look-ahead walk over an encoded list stops right after the list, or fails exactly when some
      algorithm of the list is unknown. */
  lemma {:induction false} WalkPassesDigests(mem: Memory, a: nat, ds: seq<Digest>)
    requires EncodableDigests(ds) && Holds(mem, a, EncodeDigests(ds))
    ensures Walk(mem, a + 2, LoadUint16(mem, a), |ds|)
         == if AllKnown(ds) then Some(a + DigestsSize(ds) + 2) else None
    decreases |ds|
  {
    hide Holds, LoadUint16, EncodeDigests;
    if ds != [] {
      var d := ds[0];
      FirstDigest(mem, a, ds);
      if Known(d) {
        WalkPassesDigests(mem, a + 2 + |d.hash|, ds[1..]);
        assert AllKnown(ds) <==> AllKnown(ds[1..]) by {
          assert forall i :: 0 < i < |ds| ==> ds[i] == ds[1..][i - 1];
        }
      }
    }
  }

  /** All walks over one record end at the record's EventSize field, for every memory around it. */
  lemma DigestsEndOfRecord(mem: Memory, a: nat, r: Record)
    requires r.Agile? && Encodable(r) && Holds(mem, a, Encode(r))
    ensures DigestsEnd(mem, a)
         == if AllKnown(r.digests) then Some(a + DIGESTS_OFFSET + DigestsSize(r.digests)) else None
  {
    hide Holds, LoadUint16, LoadUint32, Encode, Walk, EncodeDigests;
    AgileFields(mem, a, r);
    WalkPassesDigests(mem, a + DIGESTS_OFFSET, r.digests);
  }

  /** The addresses where the walk reads an algorithm ahead, up to an unknown one. */
  function LookAheads(mem: Memory, p: nat, alg: nat, n: nat): seq<nat>
    decreases n
  {
    if n == 0 || HashSize(alg).None? then []
    else
      var next := p + HashSize(alg).value;
      [next] + LookAheads(mem, next + 2, LoadUint16(mem, next), n - 1)
  }

  lemma {:induction false} LookAheadsOverList(mem: Memory, a: nat, ds: seq<Digest>)
    requires EncodableDigests(ds) && AllKnown(ds) && Holds(mem, a, EncodeDigests(ds))
    ensures var ahead := LookAheads(mem, a + 2, LoadUint16(mem, a), |ds|);
            && |ahead| == |ds|
            && (ds != [] ==> ahead[|ahead| - 1] == a + DigestsSize(ds))
            && forall i :: 0 <= i < |ahead| ==> a < ahead[i] <= a + DigestsSize(ds)
    decreases |ds|
  {
    hide Holds, LoadUint16, EncodeDigests;
    if ds != [] {
      var d := ds[0];
      FirstDigest(mem, a, ds);
      assert Known(d) && EncodableDigest(d);
      LookAheadsOverList(mem, a + 2 + |d.hash|, ds[1..]);
    }
  }

  /** Every look-ahead stays inside the record, and the last one reads the first half of its EventSize. */
  lemma LookAheadsStayInside(mem: Memory, a: nat, r: Record)
    requires r.Agile? && Encodable(r) && Supported(r) && Holds(mem, a, Encode(r))
    ensures var ahead := LookAheads(mem, a + DIGESTS_OFFSET + 2, LoadUint16(mem, a + DIGESTS_OFFSET), |r.digests|);
            && ahead != [] && ahead[|ahead| - 1] == a + DIGESTS_OFFSET + DigestsSize(r.digests)
            && forall i :: 0 <= i < |ahead| ==> a <= ahead[i] && ahead[i] + 2 <= a + |Encode(r)|
  {
    hide Holds, LoadUint16, Encode, LookAheads, EncodeDigests;
    EncodedSize(r);
    AgileFields(mem, a, r);
    LookAheadsOverList(mem, a + DIGESTS_OFFSET, r.digests);
  }

  /** Sixteen bytes from offset 32 on are a specification signature. */
  predicate ShowsSignature(mem: Memory, a: nat) {
    IsSpecIdSignature(Load(mem, a + SPEC_ID_DATA_OFFSET, SIGNATURE_SIZE))
  }

  predicate IsSpecIdEvent(mem: Memory, a: nat) {
    LoadUint32(mem, a + TYPE_OFFSET) == EV_NO_ACTION && ShowsSignature(mem, a)
  }

  /** A crypto-agile record that is taken for a specification event. */
  predicate Mistaken(mem: Memory, a: nat, r: Record) {
    r.Agile? && r.eventType == EV_NO_ACTION && ShowsSignature(mem, a)
  }

  function SpecIdEventSize(mem: Memory, a: nat): nat {
    SPEC_ID_DATA_OFFSET + LoadUint32(mem, a + SPEC_ID_SIZE_OFFSET)
  }

  /** A sizable record too short to show a signature has one SHA-1 digest, so its EventSize field would
      have to spell "ec I", far more data than it has.  What follows the record cannot matter. */
  lemma ShortRecordIsNoSpecId(mem: Memory, a: nat, r: Record)
    requires r.Agile? && Encodable(r) && Supported(r) && Holds(mem, a, Encode(r))
    requires |Encode(r)| < SPEC_ID_DATA_OFFSET + SIGNATURE_SIZE
    ensures !IsSpecIdSignature(Load(mem, a + SPEC_ID_DATA_OFFSET, SIGNATURE_SIZE))
  {
    hide Encode, Holds, EncodeDigests;
    EncodedSize(r);
    KnownDigestsSize(r.digests);
    assert |r.digests| == 1 && |r.digests[0].hash| == 20;
    assert r.digests[1..] == [];
    assert DigestsSize(r.digests) == 22;
    AgileFields(mem, a, r);
    var sig := Load(mem, a + SPEC_ID_DATA_OFFSET, SIGNATURE_SIZE);
    assert LoadUint32(mem, a + 34) == |r.data| < 10;
    assert sig[5] == mem(a + 37) == 0;
  }

  /** The format test holds exactly for specification records and the crypto-agile records mistaken for one. */
  lemma SpecIdEventIff(mem: Memory, a: nat, r: Record)
    requires Encodable(r) && Holds(mem, a, Encode(r))
    ensures IsSpecIdEvent(mem, a) <==> r.SpecId? || Mistaken(mem, a, r)
  {
    hide Encode, Holds, LoadUint32;
    if r.SpecId? {
      SpecIdFields(mem, a, r);
    } else {
      AgileFields(mem, a, r);
    }
  }

  /** Whether a sizable record is mistaken is decided by its own bytes, whatever memory follows it. */
  lemma MistakenIff(mem: Memory, a: nat, r: Record)
    requires r.Agile? && Encodable(r) && Holds(mem, a, Encode(r))
    requires Supported(r) || |Encode(r)| >= SPEC_ID_DATA_OFFSET + SIGNATURE_SIZE
    ensures Mistaken(mem, a, r) <==> r.eventType == EV_NO_ACTION && SpellsSpecId(r)
  {
    hide Encode, Holds;
    if |Encode(r)| >= SPEC_ID_DATA_OFFSET + SIGNATURE_SIZE {
      SignatureInside(mem, a, Encode(r));
    } else {
      ShortRecordIsNoSpecId(mem, a, r);
    }
  }

  lemma SignatureInside(mem: Memory, a: nat, s: seq<Byte>)
    requires Holds(mem, a, s) && |s| >= SPEC_ID_DATA_OFFSET + SIGNATURE_SIZE
    ensures Load(mem, a + SPEC_ID_DATA_OFFSET, SIGNATURE_SIZE)
         == s[SPEC_ID_DATA_OFFSET..SPEC_ID_DATA_OFFSET + SIGNATURE_SIZE]
  {
    var t := Load(mem, a + SPEC_ID_DATA_OFFSET, SIGNATURE_SIZE);
    forall i | 0 <= i < SIGNATURE_SIZE ensures t[i] == s[SPEC_ID_DATA_OFFSET + i] {
      assert mem(a + (SPEC_ID_DATA_OFFSET + i)) == s[SPEC_ID_DATA_OFFSET + i];
    }
  }

  /** A TCG_EfiStartupLocalityEvent is 17 bytes: the signature and the locality. */
  predicate IsStartupLocality(mem: Memory, sizeField: nat) {
    && LoadUint32(mem, sizeField) == SIGNATURE_SIZE + 1
    && Load(mem, sizeField + 4, SIGNATURE_SIZE) == STARTUP_LOCALITY
  }

  /** What follows the digests: the data's size and place, and the locality if it is a startup-locality event. */
  datatype ShownData = ShownData(eventSize: nat, data: nat, locality: Option<Byte>)

  /** What DumpEvent shows of the TCG_PCR_EVENT2 at `a`; the data is missing after an unknown algorithm. */
  datatype Shown = Shown(pcr: nat, eventType: nat, count: nat, digests: seq<Digest>, event: Option<ShownData>)

  /** The digests the walk passes, until their number or the first unknown algorithm. */
  function DigestsAt(mem: Memory, p: nat, alg: nat, n: nat): seq<Digest>
    decreases n
  {
    if n == 0 || HashSize(alg).None? then []
    else
      var size := HashSize(alg).value;
      [Digest(alg, Load(mem, p, size))] + DigestsAt(mem, p + size + 2, LoadUint16(mem, p + size), n - 1)
  }

  function EventDigests(mem: Memory, a: nat): seq<Digest> {
    DigestsAt(mem, a + DIGESTS_OFFSET + 2, LoadUint16(mem, a + DIGESTS_OFFSET), LoadUint32(mem, a + COUNT_OFFSET))
  }

  function ShowData(mem: Memory, sizeField: nat): ShownData {
    ShownData(LoadUint32(mem, sizeField), sizeField + 4,
              if IsStartupLocality(mem, sizeField) then Some(mem(sizeField + 4 + SIGNATURE_SIZE)) else None)
  }

  function Show(mem: Memory, a: nat): Shown {
    Shown(LoadUint32(mem, a), LoadUint32(mem, a + TYPE_OFFSET), LoadUint32(mem, a + COUNT_OFFSET), EventDigests(mem, a),
          match DigestsEnd(mem, a) case None => None case Some(end) => Some(ShowData(mem, end)))
  }

  method DumpDigests(mem: Memory, a: nat) returns (digests: seq<Digest>, end: Option<nat>)
    ensures end == DigestsEnd(mem, a)
    ensures digests == EventDigests(mem, a)
  {
    hide LoadUint16, LoadUint32, Load;
    var count := LoadUint32(mem, a + COUNT_OFFSET);
    var alg := LoadUint16(mem, a + DIGESTS_OFFSET);
    var buffer := a + DIGESTS_OFFSET + 2;
    digests := [];
    ghost var whole := Walk(mem, buffer, alg, count);
    ghost var all := EventDigests(mem, a);
    for i := 0 to count
      invariant buffer >= a + DIGESTS_OFFSET + 2
      invariant Walk(mem, buffer, alg, count - i) == whole
      invariant digests + DigestsAt(mem, buffer, alg, count - i) == all
    {
      var info := GetHashInfo(alg);
      if info.None? {
        assert digests + [] == digests;
        return digests, None;
      }
      ghost var before := digests;
      var digest := Digest(alg, Load(mem, buffer, info.value));
      digests := digests + [digest];
      alg := LoadUint16(mem, buffer + info.value);
      buffer := buffer + info.value + 2;
      Regroup(before, [digest], DigestsAt(mem, buffer, alg, count - i - 1));
    }
    assert digests + [] == digests;
    end := Some(buffer - 2);
  }

  method DumpEvent(mem: Memory, a: nat) returns (shown: Shown)
    ensures shown == Show(mem, a)
  {
    hide LoadUint32, DigestsEnd, EventDigests, IsStartupLocality;
    shown := Shown(LoadUint32(mem, a), LoadUint32(mem, a + TYPE_OFFSET), LoadUint32(mem, a + COUNT_OFFSET), [], None);
    var digests, end := DumpDigests(mem, a);
    shown := shown.(digests := digests);
    if end.Some? {
      var p := end.value;
      var event := ShownData(LoadUint32(mem, p), p + 4, None);
      if IsStartupLocality(mem, p) {
        event := event.(locality := Some(mem(p + 4 + SIGNATURE_SIZE)));
      }
      shown := shown.(event := Some(event));
    }
  }

  lemma {:induction false} DigestsAtList(mem: Memory, a: nat, ds: seq<Digest>)
    requires EncodableDigests(ds) && AllKnown(ds) && Holds(mem, a, EncodeDigests(ds))
    ensures DigestsAt(mem, a + 2, LoadUint16(mem, a), |ds|) == ds
    decreases |ds|
  {
    hide Load, Holds, LoadUint16, EncodeDigests;
    if ds != [] {
      FirstDigest(mem, a, ds);
      var hash := ds[0].hash;
      HoldsLoad(mem, a + 2, hash);
      assert Known(ds[0]) && EncodableDigest(ds[0]);
      DigestsAtList(mem, a + 2 + |hash|, ds[1..]);
      assert ds == [Digest(ds[0].alg, hash)] + ds[1..];
    }
  }

  /** The locality of a startup-locality event. */
  function Locality(r: Record): Option<Byte> {
    if |r.data| == SIGNATURE_SIZE + 1 && r.data[..SIGNATURE_SIZE] == STARTUP_LOCALITY
    then Some(r.data[SIGNATURE_SIZE]) else None
  }

  lemma LocalityOfData(mem: Memory, sizeField: nat, r: Record)
    requires LoadUint32(mem, sizeField) == |r.data| && Holds(mem, sizeField + 4, r.data)
    ensures ShowData(mem, sizeField) == ShownData(|r.data|, sizeField + 4, Locality(r))
  {
    hide LoadUint32;
    if |r.data| == SIGNATURE_SIZE + 1 {
      var p := sizeField + 4;
      assert Load(mem, p, SIGNATURE_SIZE) == r.data[..SIGNATURE_SIZE];
      assert mem(p + SIGNATURE_SIZE) == r.data[SIGNATURE_SIZE];
    }
  }

  /** What is dumped for a record is the record: all its fields, all its digests, its data and its locality. */
  lemma DumpShowsRecord(mem: Memory, a: nat, r: Record)
    requires r.Agile? && Encodable(r) && Supported(r) && Holds(mem, a, Encode(r))
    ensures var shown := Show(mem, a);
            && shown.event.Some? && shown.count == |shown.digests| && shown.event.value.locality == Locality(r)
            && Agile(shown.pcr, shown.eventType, shown.digests,
                     Load(mem, shown.event.value.data, shown.event.value.eventSize)) == r
  {
    hide Holds, LoadUint16, LoadUint32, Encode, Load, DigestsEnd, DigestsAt, EncodeDigests, ShowData, Locality;
    var sizeField := a + DIGESTS_OFFSET + DigestsSize(r.digests);
    AgileFields(mem, a, r);
    DigestsEndOfRecord(mem, a, r);
    DigestsAtList(mem, a + DIGESTS_OFFSET, r.digests);
    LocalityOfData(mem, sizeField, r);
    HoldsLoad(mem, sizeField + 4, r.data);
  }

  /** Of a record with an unknown algorithm, the header and the digests before it are dumped, but no data. */
  lemma DumpStopsAtUnknown(mem: Memory, a: nat, r: Record, k: nat)
    requires r.Agile? && Encodable(r) && Holds(mem, a, Encode(r))
    requires k < |r.digests| && AllKnown(r.digests[..k]) && !Known(r.digests[k])
    ensures Show(mem, a) == Shown(r.pcr, r.eventType, |r.digests|, r.digests[..k], None)
  {
    hide Holds, LoadUint16, LoadUint32, Encode, Load, DigestsEnd, DigestsAt, EncodeDigests;
    AgileFields(mem, a, r);
    DigestsEndOfRecord(mem, a, r);
    DigestsAtUnknown(mem, a + DIGESTS_OFFSET, r.digests, k);
  }

  lemma {:induction false} DigestsAtUnknown(mem: Memory, a: nat, ds: seq<Digest>, k: nat)
    requires EncodableDigests(ds) && Holds(mem, a, EncodeDigests(ds))
    requires k < |ds| && AllKnown(ds[..k]) && !Known(ds[k])
    ensures DigestsAt(mem, a + 2, LoadUint16(mem, a), |ds|) == ds[..k]
    decreases k
  {
    hide Load, Holds, LoadUint16, EncodeDigests;
    FirstDigest(mem, a, ds);
    if k > 0 {
      var d, t := ds[0], ds[1..];
      assert ds[..k][0] == d && Known(d) && EncodableDigest(d);
      HoldsLoad(mem, a + 2, d.hash);
      assert t[..k - 1] == ds[..k][1..];
      DigestsAtUnknown(mem, a + 2 + |d.hash|, t, k - 1);
      assert ds[..k] == [Digest(d.alg, d.hash)] + t[..k - 1];
    }
  }
}
