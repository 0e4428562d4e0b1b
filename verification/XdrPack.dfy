/** Packing binary files into one PCD value: variable-length opaque data of section 4.10 of RFC 4506. */
module XdrPack {
  import opened Bytes

  type Data = seq<Byte>

  /** The `width` low-order bytes of `n`, most significant first. */
  function BigEndian(n: nat, width: nat): (s: Data)
    ensures |s| == width
    decreases width
  {
    if width == 0 then [] else BigEndian(n / 256, width - 1) + [n % 256]
  }

  function FromBigEndian(s: Data): nat {
    if s == [] then 0 else FromBigEndian(s[..|s| - 1]) * 256 + s[|s| - 1]
  }

  lemma {:induction false} BigEndianRoundTrip(n: nat, width: nat)
    requires n < Pow256(width)
    ensures FromBigEndian(BigEndian(n, width)) == n
    decreases width
  {
    if width != 0 {
      BigEndianRoundTrip(n / 256, width - 1);
      assert BigEndian(n, width)[..width - 1] == BigEndian(n / 256, width - 1);
    }
  }

  lemma {:induction false} BigEndianOfBytes(s: Data)
    ensures FromBigEndian(s) < Pow256(|s|)
    ensures BigEndian(FromBigEndian(s), |s|) == s
  {
    if s != [] {
      var t := s[..|s| - 1];
      BigEndianOfBytes(t);
      assert FromBigEndian(s) / 256 == FromBigEndian(t) && FromBigEndian(s) % 256 == s[|s| - 1];
      assert s == t + [s[|s| - 1]];
    }
  }

  function BigEndian32(n: nat): (s: Data)
    ensures |s| == 4
  {
    BigEndian(n, 4)
  }

  function FromBigEndian32(s: Data): nat {
    FromBigEndian(s)
  }

  lemma BigEndian32Inverse(n: nat, s: Data)
    ensures n < TWO_32 ==> FromBigEndian32(BigEndian32(n)) == n
    ensures |s| == 4 ==> FromBigEndian32(s) < TWO_32 && BigEndian32(FromBigEndian32(s)) == s
  {
    hide BigEndian, FromBigEndian;
    Pow256Values();
    if n < TWO_32 {
      BigEndianRoundTrip(n, 4);
    }
    BigEndianOfBytes(s);
  }

  /** The most significant byte comes first. */
  lemma BigEndianValue(s: Data)
    requires |s| == 4
    ensures FromBigEndian32(s)
         == 0x100_0000 * (s[0] as nat) + 0x1_0000 * (s[1] as nat) + 0x100 * (s[2] as nat) + s[3] as nat
  {
    assert s[..3][..2] == s[..2] && s[..2][..1] == s[..1] && s[..1][..0] == [];
    assert FromBigEndian(s[..1]) == s[0] as nat;
    assert FromBigEndian(s[..2]) == 0x100 * (s[0] as nat) + s[1] as nat;
    assert FromBigEndian(s[..3]) == 0x1_0000 * (s[0] as nat) + 0x100 * (s[1] as nat) + s[2] as nat;
  }

  function RoundUp4(n: nat): (r: nat)
    ensures n <= r < n + 4 && r % 4 == 0
  {
    (n + 3) / 4 * 4
  }

  function PackItem(b: Data): Data
    requires |b| < TWO_32
  {
    BigEndian32(|b|) + (b + Zeros(RoundUp4(|b|) - |b|))
  }

  predicate Packable(buffer: seq<Data>) {
    forall i :: 0 <= i < |buffer| ==> |buffer[i]| < TWO_32
  }

  function Pack(buffer: seq<Data>): Data
    requires Packable(buffer)
  {
    if buffer == [] then [] else PackItem(buffer[0]) + Pack(buffer[1..])
  }

  lemma {:induction false} PackStep(buffer: seq<Data>, n: nat)
    requires n < |buffer| && Packable(buffer)
    ensures Pack(buffer[..n + 1]) == Pack(buffer[..n]) + PackItem(buffer[n])
    decreases n
  {
    hide PackItem;
    if n == 0 {
      assert buffer[..1][1..] == [] && buffer[..0] == [];
    } else {
      PackStep(buffer[1..], n - 1);
      assert buffer[..n + 1][1..] == buffer[1..][..n] && buffer[..n][1..] == buffer[1..][..n - 1];
    }
  }

  /** A length of 2^32 or more cannot be written: the conversion fails. */
  method XdrPackBuffer(buffer: seq<Data>) returns (packed: Option<Data>)
    ensures packed.Some? <==> Packable(buffer)
    ensures packed.Some? ==> packed.value == Pack(buffer)
  {
    hide Pack;
    var bytes: Data := [];
    assert buffer[..0] == [];
    NothingPacked();
    for i := 0 to |buffer|
      invariant Packable(buffer[..i])
      invariant bytes == Pack(buffer[..i])
    {
      var data := buffer[i];
      var n := |data|;
      if n >= TWO_32 {
        return None;
      }
      assert buffer[..i + 1][..i] == buffer[..i] && buffer[..i + 1][..i + 1] == buffer[..i + 1];
      PackStep(buffer[..i + 1], i);
      bytes := bytes + BigEndian32(n);
      n := (n + 3) / 4 * 4;
      data := data + Zeros(n - |data|);
      bytes := bytes + data;
    }
    assert buffer[..|buffer|] == buffer;
    packed := Some(bytes);
  }

  lemma NothingPacked()
    ensures Pack([]) == []
  {
  }

  // The decoder of the standard.

  /** Reads items until the data ends; none when an item is cut short or its padding is not zero. */
  function Unpack(s: Data): Option<seq<Data>> {
    if s == [] then Some([])
    else if |s| < 4 then None
    else
      var n := FromBigEndian32(s[..4]);
      var m := RoundUp4(n);
      if |s| < 4 + m || s[4 + n..4 + m] != Zeros(m - n) then None
      else match Unpack(s[4 + m..])
        case None => None
        case Some(rest) => Some([s[4..4 + n]] + rest)
  }

  lemma UnpackItem(b: Data, rest: Data)
    requires |b| < TWO_32
    ensures Unpack(PackItem(b) + rest) == if Unpack(rest).None? then None else Some([b] + Unpack(rest).value)
  {
    hide BigEndian32, FromBigEndian32, RoundUp4, Zeros;
    var s := PackItem(b) + rest;
    var n, m := |b|, RoundUp4(|b|);
    BigEndian32Inverse(n, []);
    assert s[..4] == BigEndian32(n);
    assert s[4..4 + n] == b;
    assert s[4 + n..4 + m] == Zeros(m - n);
    assert s[4 + m..] == rest;
  }

  lemma NothingUnpacked()
    ensures Unpack([]) == Some([])
  {
  }

  /** Unpacking what was packed returns the same files. */
  lemma {:induction false} PackRoundTrip(buffer: seq<Data>)
    requires Packable(buffer)
    ensures Unpack(Pack(buffer)) == Some(buffer)
  {
    hide PackItem, Unpack;
    if buffer == [] {
      NothingUnpacked();
    } else {
      PackRoundTrip(buffer[1..]);
      UnpackItem(buffer[0], Pack(buffer[1..]));
      assert buffer == [buffer[0]] + buffer[1..];
    }
  }

  lemma SplitItem(s: Data, n: nat, m: nat)
    requires |s| >= 4 && n == FromBigEndian32(s[..4]) < TWO_32
    requires m == RoundUp4(n) && |s| >= 4 + m && s[4 + n..4 + m] == Zeros(m - n)
    ensures s == PackItem(s[4..4 + n]) + s[4 + m..]
  {
    hide BigEndian32, FromBigEndian32, RoundUp4, Zeros;
    BigEndian32Inverse(n, s[..4]);
    assert s == s[..4] + (s[4..4 + n] + s[4 + n..4 + m]) + s[4 + m..];
  }

  /** Only packed files unpack: the packing is the one encoding of its files. */
  lemma {:induction false} UnpackedIsPacked(s: Data)
    requires Unpack(s).Some?
    ensures Packable(Unpack(s).value) && Pack(Unpack(s).value) == s
    decreases |s|
  {
    hide FromBigEndian32, RoundUp4, Zeros, PackItem;
    if s != [] {
      var n := FromBigEndian32(s[..4]);
      var m := RoundUp4(n);
      BigEndian32Inverse(0, s[..4]);
      SplitItem(s, n, m);
      UnpackedIsPacked(s[4 + m..]);
      assert Unpack(s).value[1..] == Unpack(s[4 + m..]).value;
    }
  }

  function PackedSize(buffer: seq<Data>): nat {
    if buffer == [] then 0 else 4 + RoundUp4(|buffer[0]|) + PackedSize(buffer[1..])
  }

  lemma {:induction false} PackedLength(buffer: seq<Data>)
    requires Packable(buffer)
    ensures |Pack(buffer)| == PackedSize(buffer)
    ensures |Pack(buffer)| % 4 == 0
  {
    hide BigEndian32, RoundUp4, Zeros;
    if buffer != [] {
      PackedLength(buffer[1..]);
    }
  }

  // The value as text: {0x01, 0x02, ...}.

  function HexDigit(d: nat): char
    requires d < 16
  {
    "0123456789ABCDEF"[d]
  }

  function DigitValue(c: char): Option<nat> {
    if '0' <= c <= '9' then Some(c as nat - '0' as nat)
    else if 'A' <= c <= 'F' then Some(c as nat - 'A' as nat + 10)
    else None
  }

  lemma DigitRoundTrip(d: nat)
    requires d < 16
    ensures DigitValue(HexDigit(d)) == Some(d)
  {
  }

  function ByteText(b: Byte): (s: string)
    ensures |s| == 4
  {
    ['0', 'x', HexDigit(b / 16), HexDigit(b % 16)]
  }

  /** The bytes joined by ", ". */
  function Join(bytes: Data): string {
    if bytes == [] then ""
    else if |bytes| == 1 then ByteText(bytes[0])
    else ByteText(bytes[0]) + ", " + Join(bytes[1..])
  }

  function Text(bytes: Data): string {
    "{" + Join(bytes) + "}"
  }

  /** The text and the length in bytes; with `xdr` the files are packed, otherwise just joined. */
  method ByteArray(buffer: seq<Data>, xdr: bool) returns (r: Option<(string, nat)>)
    ensures r.Some? <==> !xdr || Packable(buffer)
    ensures r.Some? ==> var bytes := if xdr then Pack(buffer) else Concat(buffer);
                        r.value == (Text(bytes), |bytes|)
  {
    var bytes := Concat(buffer);
    if xdr {
      var packed := XdrPackBuffer(buffer);
      if packed.None? {
        return None;
      }
      bytes := packed.value;
    }
    r := Some((Text(bytes), |bytes|));
  }

  function ParseByte(s: string): Option<Byte>
    requires |s| == 4
  {
    if s[..2] != "0x" || DigitValue(s[2]).None? || DigitValue(s[3]).None? then None
    else Some(DigitValue(s[2]).value * 16 + DigitValue(s[3]).value)
  }

  function ParseJoined(s: string): Option<Data> {
    if |s| < 4 || ParseByte(s[..4]).None? then None
    else if |s| == 4 then Some([ParseByte(s).value])
    else if |s| < 6 || s[4..6] != ", " then None
    else match ParseJoined(s[6..])
      case None => None
      case Some(rest) => Some([ParseByte(s[..4]).value] + rest)
  }

  function Parse(s: string): Option<Data> {
    if |s| < 2 || s[0] != '{' || s[|s| - 1] != '}' then None
    else if |s| == 2 then Some([])
    else ParseJoined(s[1..|s| - 1])
  }

  lemma ParseByteText(b: Byte)
    ensures ParseByte(ByteText(b)) == Some(b)
  {
    hide HexDigit, DigitValue;
    DigitRoundTrip(b / 16);
    DigitRoundTrip(b % 16);
    assert ByteText(b)[..2] == "0x";
  }

  lemma {:induction false} ParseJoin(bytes: Data)
    requires bytes != []
    ensures ParseJoined(Join(bytes)) == Some(bytes)
  {
    hide ParseByte, ByteText;
    var s := Join(bytes);
    ParseByteText(bytes[0]);
    if |bytes| == 1 {
      assert s[..4] == s && bytes == [bytes[0]];
    } else {
      ParseJoin(bytes[1..]);
      assert s[..4] == ByteText(bytes[0]) && s[4..6] == ", " && s[6..] == Join(bytes[1..]);
      assert bytes == [bytes[0]] + bytes[1..];
    }
  }

  /** The printed text parses back to the same bytes. */
  lemma TextRoundTrip(bytes: Data)
    ensures Parse(Text(bytes)) == Some(bytes)
  {
    hide ParseJoined;
    var s := Text(bytes);
    assert s[1..|s| - 1] == Join(bytes);
    if bytes != [] {
      assert |Join(bytes)| >= 4;
      ParseJoin(bytes);
    }
  }
}
