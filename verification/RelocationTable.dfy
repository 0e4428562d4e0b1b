/** The relocation table appended to the universal payload image. */
module RelocationTable {
  import opened Bytes

  const DATA_OFFSET: nat := 0x1000
  const PAGE: nat := 0x1000
  const ENTRY_SIZE: nat := 16

  datatype Entry = Entry(kind: nat, rva: nat)

  /** An entry of type zero is not written; the fields of any other fit the eight bytes they are written to. */
  predicate Fits(e: Entry) {
    e.kind == 0 || (e.kind < TWO_64 && e.rva + DATA_OFFSET < TWO_64)
  }

  predicate AllFit(entries: seq<Entry>) {
    forall i :: 0 <= i < |entries| ==> Fits(entries[i])
  }

  function PackEntry(e: Entry): (s: seq<Byte>)
    ensures |s| == ENTRY_SIZE
  {
    LittleEndian(e.rva + DATA_OFFSET, 8) + LittleEndian(e.kind, 8)
  }

  /** The packed entries; those of type zero are padding of the PE format and left out. */
  function Pack(entries: seq<Entry>): seq<Byte> {
    if entries == [] then []
    else (if entries[0].kind == 0 then [] else PackEntry(entries[0])) + Pack(entries[1..])
  }

  function Entries(blocks: seq<seq<Entry>>): seq<Entry> {
    if blocks == [] then [] else blocks[0] + Entries(blocks[1..])
  }

  /** Zeros up to the next page; a full page when there is nothing to round up. */
  function PagePadding(length: nat): (s: seq<Byte>)
    ensures 0 < |s| <= PAGE && (length + |s|) % PAGE == 0
  {
    Zeros(PAGE - length % PAGE)
  }

  function Table(entries: seq<Entry>): seq<Byte> {
    Pack(entries) + PagePadding(|Pack(entries)|)
  }

  lemma {:induction false} PackConcat(s: seq<Entry>, t: seq<Entry>)
    ensures Pack(s + t) == Pack(s) + Pack(t)
  {
    hide PackEntry;
    if s == [] {
      assert s + t == t;
    } else {
      assert (s + t)[1..] == s[1..] + t;
      PackConcat(s[1..], t);
    }
  }

  lemma {:induction false} EntriesStep(blocks: seq<seq<Entry>>, n: nat)
    requires n < |blocks|
    ensures Entries(blocks[..n + 1]) == Entries(blocks[..n]) + blocks[n]
    decreases n
  {
    if n == 0 {
      assert blocks[..1][1..] == [];
    } else {
      EntriesStep(blocks[1..], n - 1);
      assert blocks[..n + 1][1..] == blocks[1..][..n] && blocks[..n][1..] == blocks[1..][..n - 1];
    }
  }

  lemma {:induction false} EntriesHave(blocks: seq<seq<Entry>>, n: nat, i: nat)
    requires n < |blocks| && i < |blocks[n]|
    ensures blocks[n][i] in Entries(blocks)
  {
    if n > 0 {
      EntriesHave(blocks[1..], n - 1, i);
    }
  }

  lemma {:induction false} EntryIsInBlock(blocks: seq<seq<Entry>>, e: Entry)
    requires e in Entries(blocks)
    ensures exists n :: 0 <= n < |blocks| && e in blocks[n]
  {
    if e in blocks[0] {
    } else {
      EntryIsInBlock(blocks[1..], e);
      var n :| 0 <= n < |blocks[1..]| && e in blocks[1..][n];
      assert e in blocks[n + 1];
    }
  }

  /** None when an entry does not fit its fields. */
  method BuildTable(blocks: seq<seq<Entry>>) returns (r: Option<seq<Byte>>)
    ensures r == if AllFit(Entries(blocks)) then Some(Table(Entries(blocks))) else None
  {
    hide PackEntry, Pack, Entries, PagePadding, Fits;
    var binary := [];
    NothingPacked();
    assert blocks[..0] == [];
    for n := 0 to |blocks|
      invariant binary == Pack(Entries(blocks[..n]))
      invariant forall m :: 0 <= m < n ==> AllFit(blocks[m])
    {
      var block := blocks[n];
      ghost var before := binary;
      EntriesStep(blocks, n);
      PackConcat(Entries(blocks[..n]), block);
      assert block[..0] == [];
      for i := 0 to |block|
        invariant binary == before + Pack(block[..i])
        invariant AllFit(block[..i])
      {
        var e := block[i];
        assert block[..i + 1] == block[..i] + [e];
        PackConcat(block[..i], [e]);
        PackOne(e);
        PaddingFits(e);
        if e.kind == 0 {
          continue;
        }
        if !Fits(e) {
          EntriesHave(blocks, n, i);
          return None;
        }
        binary := binary + PackEntry(e);
      }
      assert block[..|block|] == block;
    }
    assert blocks[..|blocks|] == blocks;
    BlocksFit(blocks);
    r := Some(binary + PagePadding(|binary|));
  }

  lemma PaddingFits(e: Entry)
    ensures e.kind == 0 ==> Fits(e)
  {
  }

  lemma BlocksFit(blocks: seq<seq<Entry>>)
    requires forall m :: 0 <= m < |blocks| ==> AllFit(blocks[m])
    ensures AllFit(Entries(blocks))
  {
    hide Entries, Fits;
    forall i | 0 <= i < |Entries(blocks)| ensures Fits(Entries(blocks)[i]) {
      EntryIsInBlock(blocks, Entries(blocks)[i]);
    }
  }

  lemma NothingPacked()
    ensures Pack([]) == [] && Entries([]) == []
  {
  }

  lemma PackOne(e: Entry)
    ensures Pack([e]) == if e.kind == 0 then [] else PackEntry(e)
  {
    hide PackEntry;
    assert [e][1..] == [];
  }

  datatype Image = Image(binary: seq<Byte>, relocStart: nat, dataSize: nat)

  /** The image followed by the table, and padding computed from the image alone. */
  function Assemble(image: seq<Byte>, entries: seq<Entry>): Image {
    var binary := image + Table(entries) + PagePadding(|image|);
    Image(binary, DATA_OFFSET + |image|, |binary|)
  }

  method BuildEntryBinary(image: seq<Byte>, blocks: seq<seq<Entry>>) returns (r: Option<Image>)
    ensures r == if AllFit(Entries(blocks)) then Some(Assemble(image, Entries(blocks))) else None
  {
    hide Table, PagePadding, AllFit;
    var table := BuildTable(blocks);
    if table.None? {
      return None;
    }
    var binary := image + table.value;
    binary := binary + PagePadding(|image|);
    r := Some(Image(binary, DATA_OFFSET + |image|, |binary|));
  }

  // The reader of the table.

  /** Reads pairs of an address and a type until a type of zero; none when the data ends first. */
  function Read(data: seq<Byte>): Option<seq<Entry>> {
    if |data| < ENTRY_SIZE then None
    else
      var address, kind := FromLittleEndian(data[..8]), FromLittleEndian(data[8..16]);
      if kind == 0 then Some([])
      else match Read(data[16..])
        case None => None
        case Some(rest) => Some([Entry(kind, address)] + rest)
  }

  /** The entries of a real type, at their addresses in the loaded payload. */
  function Relocations(entries: seq<Entry>): seq<Entry> {
    if entries == [] then []
    else
      var e := entries[0];
      (if e.kind == 0 then [] else [Entry(e.kind, e.rva + DATA_OFFSET)]) + Relocations(entries[1..])
  }

  lemma {:induction false} ZeroValue(s: seq<Byte>)
    requires forall i :: 0 <= i < |s| ==> s[i] == 0
    ensures FromLittleEndian(s) == 0
  {
    if s != [] {
      ZeroValue(s[1..]);
    }
  }

  lemma ReadEnd(rest: seq<Byte>)
    requires |rest| >= ENTRY_SIZE && forall i :: 0 <= i < ENTRY_SIZE ==> rest[i] == 0
    ensures Read(rest) == Some([])
  {
    ZeroValue(rest[8..16]);
  }

  lemma ReadEntry(e: Entry, rest: seq<Byte>)
    requires Fits(e) && e.kind != 0
    ensures Read(PackEntry(e) + rest)
         == if Read(rest).None? then None else Some([Entry(e.kind, e.rva + DATA_OFFSET)] + Read(rest).value)
  {
    hide LittleEndian, FromLittleEndian;
    var data := PackEntry(e) + rest;
    assert data[..8] == LittleEndian(e.rva + DATA_OFFSET, 8);
    assert data[8..16] == LittleEndian(e.kind, 8);
    assert data[16..] == rest;
    Pow256Values();
    LittleEndianRoundTrip(e.rva + DATA_OFFSET, 8);
    LittleEndianRoundTrip(e.kind, 8);
  }

  lemma {:induction false} ReadPacked(entries: seq<Entry>, rest: seq<Byte>)
    requires AllFit(entries)
    requires |rest| >= ENTRY_SIZE && forall i :: 0 <= i < ENTRY_SIZE ==> rest[i] == 0
    ensures Read(Pack(entries) + rest) == Some(Relocations(entries))
  {
    hide PackEntry, Read, Pack, Relocations;
    Unfold(entries);
    if entries == [] {
      ReadEnd(rest);
      assert [] + rest == rest;
    } else {
      var e, packed := entries[0], Pack(entries[1..]);
      ReadPacked(entries[1..], rest);
      if e.kind == 0 {
        assert [] + packed == packed;
      } else {
        ReadEntry(e, packed + rest);
        assert PackEntry(e) + packed + rest == PackEntry(e) + (packed + rest);
      }
    }
  }

  lemma Unfold(entries: seq<Entry>)
    ensures entries == [] ==> Pack(entries) == [] && Relocations(entries) == []
    ensures entries != [] && entries[0].kind == 0 ==>
              && Pack(entries) == [] + Pack(entries[1..])
              && Relocations(entries) == Relocations(entries[1..])
    ensures entries != [] && entries[0].kind != 0 ==>
              && Pack(entries) == PackEntry(entries[0]) + Pack(entries[1..])
              && Relocations(entries)
                 == [Entry(entries[0].kind, entries[0].rva + DATA_OFFSET)] + Relocations(entries[1..])
  {
    hide PackEntry;
  }

  lemma {:induction false} PackedSize(entries: seq<Entry>)
    ensures |Pack(entries)| == ENTRY_SIZE * |Relocations(entries)|
  {
    if entries != [] {
      PackedSize(entries[1..]);
    }
  }

  /** The padding after whole entries always holds a terminating entry. */
  lemma PaddingTerminates(n: nat)
    ensures |PagePadding(ENTRY_SIZE * n)| >= ENTRY_SIZE
  {
    var length := ENTRY_SIZE * n;
    var q, r := length / PAGE, length % PAGE;
    assert r == ENTRY_SIZE * (n - 256 * q);
    assert r <= PAGE - ENTRY_SIZE;
  }

  /** For every image and every table, reading from RelocStart returns exactly the entries of a real type,
      with the data offset added, and the data size is a whole number of pages. */
  lemma TableReadsBack(image: seq<Byte>, entries: seq<Entry>)
    requires AllFit(entries)
    ensures var r := Assemble(image, entries);
            && |image| == r.relocStart - DATA_OFFSET <= |r.binary| == r.dataSize
            && r.binary[..|image|] == image
            && Read(r.binary[r.relocStart - DATA_OFFSET..]) == Some(Relocations(entries))
            && r.dataSize % PAGE == 0
            && 0 < r.dataSize - |image| - ENTRY_SIZE * |Relocations(entries)| <= 2 * PAGE
  {
    hide Pack, Read, Relocations, PagePadding;
    var r := Assemble(image, entries);
    var packed := Pack(entries);
    var padding, end := PagePadding(|packed|), PagePadding(|image|);
    PackedSize(entries);
    PaddingTerminates(|Relocations(entries)|);
    assert r.binary[|image|..] == packed + (padding + end);
    PaddingIsZero(|packed|);
    ReadPacked(entries, padding + end);
    SumOfPages(|image| + |end|, |packed| + |padding|);
  }

  lemma PaddingIsZero(n: nat)
    ensures forall i :: 0 <= i < |PagePadding(n)| ==> PagePadding(n)[i] == 0
  {
  }

  lemma SumOfPages(a: nat, b: nat)
    requires a % PAGE == 0 && b % PAGE == 0
    ensures (a + b) % PAGE == 0
  {
  }
}
