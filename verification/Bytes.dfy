/** Bytes, fixed-width integers and byte-addressed memory. */
module Bytes {

  type Byte = x: int | 0 <= x < 256

  datatype Option<+T> = None | Some(value: T)

  const TWO_16: nat := 0x1_0000
  const TWO_32: nat := 0x1_0000_0000
  const TWO_64: nat := 0x1_0000_0000_0000_0000

  type Uint32 = x: int | 0 <= x < 0x1_0000_0000
  type Uint64 = x: int | 0 <= x < 0x1_0000_0000_0000_0000

  /** Sum and difference of unsigned 64-bit numbers. */
  function Add64(a: nat, b: nat): nat
    requires a < TWO_64 && b < TWO_64
  {
    if a + b < TWO_64 then a + b else a + b - TWO_64
  }

  function Subtract64(a: nat, b: nat): nat
    requires a < TWO_64 && b < TWO_64
  {
    if a >= b then a - b else a + TWO_64 - b
  }

  /** 256 to the power `width`: the number of values `width` bytes can hold. */
  function Pow256(width: nat): (p: nat)
    ensures p >= 1
  {
    if width == 0 then 1 else 256 * Pow256(width - 1)
  }

  /** The `width` low-order bytes of `n`, least significant first. */
  function LittleEndian(n: nat, width: nat): (s: seq<Byte>)
    ensures |s| == width
    decreases width
  {
    if width == 0 then [] else [n % 256] + LittleEndian(n / 256, width - 1)
  }

  function FromLittleEndian(s: seq<Byte>): nat {
    if s == [] then 0 else s[0] + 256 * FromLittleEndian(s[1..])
  }

  lemma {:induction false} LittleEndianRoundTrip(n: nat, width: nat)
    requires n < Pow256(width)
    ensures FromLittleEndian(LittleEndian(n, width)) == n
    decreases width
  {
    if width != 0 {
      var s := LittleEndian(n, width);
      assert s[1..] == LittleEndian(n / 256, width - 1);
      LittleEndianRoundTrip(n / 256, width - 1);
    }
  }

  lemma Pow256Values()
    ensures Pow256(2) == TWO_16 && Pow256(4) == TWO_32 && Pow256(8) == TWO_64
  {
    assert Pow256(1) == 256;
    assert Pow256(2) == 256 * Pow256(1);
    assert Pow256(3) == 256 * Pow256(2);
    assert Pow256(4) == 256 * Pow256(3);
    assert Pow256(5) == 256 * Pow256(4);
    assert Pow256(6) == 256 * Pow256(5);
    assert Pow256(7) == 256 * Pow256(6);
    assert Pow256(8) == 256 * Pow256(7);
  }

  function Zeros(n: nat): (s: seq<Byte>)
    ensures |s| == n
    ensures forall i :: 0 <= i < n ==> s[i] == 0
  {
    seq(n, _ => 0)
  }

  lemma Regroup<T>(s: seq<T>, t: seq<T>, u: seq<T>)
    ensures s + t + u == s + (t + u)
    ensures s + [] == [] + s == s
  {
  }

  /** Byte-addressed memory.  It is total: the modelled code checks no bound. */
  type Memory = nat -> Byte

  function Load(mem: Memory, a: nat, n: nat): (s: seq<Byte>)
    ensures |s| == n
    ensures forall i :: 0 <= i < n ==> s[i] == mem(a + i)
  {
    seq(n, (i: nat) => mem(a + i))
  }

  function LoadUint16(mem: Memory, a: nat): nat {
    mem(a) as nat + 0x100 * mem(a + 1)
  }

  function LoadUint32(mem: Memory, a: nat): nat {
    mem(a) as nat + 0x100 * mem(a + 1) + 0x1_0000 * mem(a + 2) + 0x100_0000 * mem(a + 3)
  }

  /** The bytes `s` lie in memory from address `a` on. */
  predicate Holds(mem: Memory, a: nat, s: seq<Byte>) {
    forall i :: 0 <= i < |s| ==> mem(a + i) == s[i]
  }

  lemma HoldsLoad(mem: Memory, a: nat, s: seq<Byte>)
    ensures Holds(mem, a, s) <==> Load(mem, a, |s|) == s
  {
    var t := Load(mem, a, |s|);
    if Holds(mem, a, s) {
      assert t == s;
    } else {
      var i :| 0 <= i < |s| && mem(a + i) != s[i];
      assert t[i] != s[i];
    }
  }

  lemma HoldsConcat(mem: Memory, a: nat, s: seq<Byte>, t: seq<Byte>)
    ensures Holds(mem, a, s + t) <==> Holds(mem, a, s) && Holds(mem, a + |s|, t)
  {
    var st := s + t;
    assert forall i :: 0 <= i < |s| ==> st[i] == s[i];
    if Holds(mem, a, st) {
      forall i | 0 <= i < |t| ensures mem(a + |s| + i) == t[i] {
        assert mem(a + (|s| + i)) == st[|s| + i];
      }
    }
    if Holds(mem, a, s) && Holds(mem, a + |s|, t) {
      forall i | 0 <= i < |st| ensures mem(a + i) == st[i] {
        if i >= |s| {
          assert mem(a + |s| + (i - |s|)) == t[i - |s|];
        }
      }
    }
  }

  /** The parts one after the other. */
  function Concat(parts: seq<seq<Byte>>): seq<Byte> {
    if parts == [] then [] else parts[0] + Concat(parts[1..])
  }

  lemma ConcatStep(part: seq<Byte>, parts: seq<seq<Byte>>)
    ensures Concat([]) == []
    ensures Concat([part] + parts) == part + Concat(parts)
  {
    assert ([part] + parts)[1..] == parts;
  }

  lemma {:induction false} ConcatSplit(a: seq<seq<Byte>>, b: seq<seq<Byte>>)
    ensures Concat(a + b) == Concat(a) + Concat(b)
  {
    hide Concat;
    if a == [] {
      assert a + b == b;
      ConcatStep([], []);
      Regroup(Concat(b), [], []);
    } else {
      var t := a[1..];
      ConcatSplit(t, b);
      assert a == [a[0]] + t;
      Regroup([a[0]], t, b);
      ConcatStep(a[0], t + b);
      ConcatStep(a[0], t);
      Regroup(a[0], Concat(t), Concat(b));
    }
  }

  /** Where part `k` starts. */
  function PartOffset(parts: seq<seq<Byte>>, k: nat): nat
    requires k <= |parts|
  {
    |Concat(parts[..k])|
  }

  lemma PartOffsetStep(parts: seq<seq<Byte>>, k: nat)
    requires k < |parts|
    ensures PartOffset(parts, k + 1) == PartOffset(parts, k) + |parts[k]|
    ensures PartOffset(parts, k + 1) <= |Concat(parts)|
  {
    assert parts[..k + 1] == parts[..k] + [parts[k]];
    ConcatSplit(parts[..k], [parts[k]]);
    assert Concat([parts[k]]) == parts[k];
    assert parts == parts[..k + 1] + parts[k + 1..];
    ConcatSplit(parts[..k + 1], parts[k + 1..]);
  }

  lemma {:induction false} HoldsPart(mem: Memory, a: nat, parts: seq<seq<Byte>>, k: nat)
    requires Holds(mem, a, Concat(parts)) && k < |parts|
    ensures Holds(mem, a + PartOffset(parts, k), parts[k])
    decreases k
  {
    HoldsConcat(mem, a, parts[0], Concat(parts[1..]));
    if k != 0 {
      HoldsPart(mem, a + |parts[0]|, parts[1..], k - 1);
      assert parts[..k][1..] == parts[1..][..k - 1];
    }
  }

  lemma HoldsThree(mem: Memory, a: nat, s: seq<Byte>, t: seq<Byte>, u: seq<Byte>)
    requires Holds(mem, a, s + t + u)
    ensures Holds(mem, a, s) && Holds(mem, a + |s|, t) && Holds(mem, a + |s| + |t|, u)
  {
    HoldsConcat(mem, a, s + t, u);
    HoldsConcat(mem, a, s, t);
  }

  lemma LoadUint32Bytes(mem: Memory, a: nat, s: seq<Byte>)
    requires |s| == 4 && Holds(mem, a, s)
    ensures LoadUint32(mem, a) == FromLittleEndian(s)
  {
    assert mem(a + 0) == s[0] && mem(a + 1) == s[1] && mem(a + 2) == s[2] && mem(a + 3) == s[3];
    assert s[1..][1..][1..] == [s[3]];
    assert FromLittleEndian([s[3]]) == s[3];
    assert FromLittleEndian(s[1..][1..]) == s[2] as nat + 256 * s[3] as nat;
    assert FromLittleEndian(s[1..]) == s[1] as nat + 256 * FromLittleEndian(s[1..][1..]);
  }

  lemma HoldsSlice(mem: Memory, a: nat, s: seq<Byte>, i: nat, n: nat)
    requires Holds(mem, a, s) && i + n <= |s|
    ensures Holds(mem, a + i, s[i..i + n])
  {
    assert s == s[..i] + s[i..i + n] + s[i + n..];
    HoldsThree(mem, a, s[..i], s[i..i + n], s[i + n..]);
  }

  lemma LoadUint16Of(mem: Memory, a: nat, n: nat)
    requires n < TWO_16 && Holds(mem, a, LittleEndian(n, 2))
    ensures LoadUint16(mem, a) == n
  {
    var s := LittleEndian(n, 2);
    assert s == [n % 256, n / 256 % 256];
    assert mem(a + 0) == s[0] && mem(a + 1) == s[1];
  }

  lemma LoadUint32Of(mem: Memory, a: nat, n: nat)
    requires n < TWO_32 && Holds(mem, a, LittleEndian(n, 4))
    ensures LoadUint32(mem, a) == n
  {
    var s := LittleEndian(n, 4);
    var n1 := n / 256;
    var n2 := n1 / 256;
    assert LittleEndian(n2, 2) == [n2 % 256, n2 / 256 % 256];
    assert s == [n % 256, n1 % 256] + LittleEndian(n2, 2);
    assert mem(a + 0) == s[0] && mem(a + 1) == s[1] && mem(a + 2) == s[2] && mem(a + 3) == s[3];
  }
}
