/** Python's operations on strings, as the scripts use them. */
module PythonStrings {

  predicate StartsWith(s: string, prefix: string) {
    prefix <= s
  }

  predicate EndsWith(s: string, suffix: string) {
    |suffix| <= |s| && s[|s| - |suffix|..] == suffix
  }

  predicate Contains(s: string, part: string) {
    exists i :: 0 <= i <= |s| && StartsWith(s[i..], part)
  }

  predicate IsSpace(c: char) {
    var n := c as int;
    || 0x09 <= n <= 0x0D || 0x1C <= n <= 0x20 || n == 0x85 || n == 0xA0 || n == 0x1680
    || 0x2000 <= n <= 0x200A || n == 0x2028 || n == 0x2029 || n == 0x202F || n == 0x205F || n == 0x3000
  }

  function RightStrip(s: string): (r: string)
    ensures r <= s
    ensures r == [] || !IsSpace(r[|r| - 1])
    ensures forall i :: |r| <= i < |s| ==> IsSpace(s[i])
  {
    if s == [] || !IsSpace(s[|s| - 1]) then s else RightStrip(s[..|s| - 1])
  }

  function LeftStrip(s: string): string {
    if s != "" && IsSpace(s[0]) then LeftStrip(s[1..]) else s
  }

  function Strip(s: string): string {
    LeftStrip(RightStrip(s))
  }

  predicate AllSpace(s: string) {
    forall i :: 0 <= i < |s| ==> IsSpace(s[i])
  }

  /** No white space at either end. */
  predicate IsStripped(s: string) {
    s != "" ==> !IsSpace(s[0]) && !IsSpace(s[|s| - 1])
  }

  lemma {:induction false} LeftStripOf(left: string, core: string)
    requires AllSpace(left) && (core != "" ==> !IsSpace(core[0]))
    ensures LeftStrip(left + core) == core
  {
    if left == "" {
      assert left + core == core;
    } else {
      assert (left + core)[1..] == left[1..] + core;
      LeftStripOf(left[1..], core);
    }
  }

  /** Stripping takes away exactly the white space at the ends. */
  lemma StripOf(left: string, core: string, right: string)
    requires AllSpace(left) && AllSpace(right) && IsStripped(core)
    ensures Strip(left + core + right) == core
  {
    hide IsSpace, LeftStrip;
    var s := left + core + right;
    var r := RightStrip(s);
    assert forall i :: |left + core| <= i < |s| ==> s[i] == right[i - |left + core|];
    if core == "" {
      assert forall i :: 0 <= i < |s| ==> IsSpace(s[i]);
      assert r == "" + core;
      LeftStripOf("", core);
    } else {
      assert s[|left + core| - 1] == core[|core| - 1];
      assert r == left + core;
      LeftStripOf(left, core);
    }
  }

  /** Python's replace: occurrences from the left, not overlapping. */
  function Replace(s: string, find: string, put: string): string
    requires find != ""
  {
    if s == "" then ""
    else if find <= s then put + Replace(s[|find|..], find, put)
    else [s[0]] + Replace(s[1..], find, put)
  }

  function ToLower(s: string): string {
    seq(|s|, i requires 0 <= i < |s| => if 'A' <= s[i] <= 'Z' then (s[i] as int + 32) as char else s[i])
  }

  // What replacing does to a text.

  lemma ContainsStep(s: string, part: string)
    requires part != ""
    ensures Contains(s, part) <==> part <= s || (s != "" && Contains(s[1..], part))
  {
    if Contains(s, part) {
      var i :| 0 <= i <= |s| && StartsWith(s[i..], part);
      if i > 0 {
        assert s[1..][i - 1..] == s[i..];
      }
    }
    if part <= s {
      assert s[0..] == s;
    }
    if s != "" && Contains(s[1..], part) {
      var i :| 0 <= i <= |s[1..]| && StartsWith(s[1..][i..], part);
      assert s[i + 1..] == s[1..][i..];
    }
  }

  /** A text is found wherever it stands. */
  lemma ContainsAnywhere(before: string, part: string, after: string)
    ensures Contains(before + part + after, part)
  {
    assert (before + part + after)[|before|..] == part + after;
  }

  lemma ContainsPrefix(s: string, part: string, more: string)
    requires Contains(s, part + more)
    ensures Contains(s, part)
  {
    var i :| 0 <= i <= |s| && StartsWith(s[i..], part + more);
    assert s[i..][..|part|] == (part + more)[..|part|] == part;
  }

  /** The number of occurrences that are replaced. */
  function Hits(s: string, find: string): nat
    requires find != ""
  {
    if s == "" then 0 else if find <= s then 1 + Hits(s[|find|..], find) else Hits(s[1..], find)
  }

  lemma {:induction false} HitsIffContained(s: string, find: string)
    requires find != ""
    ensures Hits(s, find) > 0 <==> Contains(s, find)
    decreases |s|
  {
    hide Contains;
    ContainsStep(s, find);
    if s != "" && !(find <= s) {
      HitsIffContained(s[1..], find);
    }
  }

  lemma {:induction false} ReplaceLength(s: string, find: string, put: string)
    requires find != ""
    ensures |Replace(s, find, put)| == |s| + Hits(s, find) * (|put| - |find|)
    decreases |s|
  {
    if s != "" {
      if find <= s {
        ReplaceLength(s[|find|..], find, put);
        Distribute(Hits(s[|find|..], find), |put| - |find|);
      } else {
        ReplaceLength(s[1..], find, put);
      }
    }
  }

  lemma Distribute(n: nat, d: int)
    ensures (1 + n) * d == d + n * d
  {
  }

  lemma {:induction false} ReplaceWithoutHit(s: string, find: string, put: string)
    requires find != "" && !Contains(s, find)
    ensures Replace(s, find, put) == s
    decreases |s|
  {
    hide Contains;
    ContainsStep(s, find);
    if s != "" {
      ReplaceWithoutHit(s[1..], find, put);
    }
  }

  lemma {:induction false} ReplaceWithHit(s: string, find: string, put: string)
    requires find != "" && Contains(s, find) && |put| == |find| && put != find
    ensures Replace(s, find, put) != s
    decreases |s|
  {
    hide Contains;
    ContainsStep(s, find);
    var r := Replace(s, find, put);
    if find <= s {
      assert r[..|put|] == put && s[..|find|] == find;
    } else {
      ReplaceWithHit(s[1..], find, put);
      assert r[1..] == Replace(s[1..], find, put);
    }
  }

  /** A replacement that happens puts the new text in. */
  lemma {:induction false} ReplacePutsIn(s: string, find: string, put: string)
    requires find != "" && put != "" && Contains(s, find)
    ensures Contains(Replace(s, find, put), put)
    decreases |s|
  {
    hide Contains;
    ContainsStep(s, find);
    var r := Replace(s, find, put);
    ContainsStep(r, put);
    if !(find <= s) {
      ReplacePutsIn(s[1..], find, put);
      assert r[1..] == Replace(s[1..], find, put);
    }
  }

  /** A last character that the text to find does not have stays. */
  lemma {:induction false} ReplaceKeepsLast(s: string, x: char, find: string, put: string)
    requires find != "" && x !in find
    ensures Replace(s + [x], find, put) == Replace(s, find, put) + [x]
    decreases |s|
  {
    var t := s + [x];
    assert t[|s|] == x && find != t;
    assert find <= t <==> find <= s;
    if s == "" {
      assert t[1..] == "";
    } else if find <= s {
      assert t[|find|..] == s[|find|..] + [x];
      ReplaceKeepsLast(s[|find|..], x, find, put);
    } else {
      assert t[1..] == s[1..] + [x];
      ReplaceKeepsLast(s[1..], x, find, put);
    }
  }

  lemma {:induction false} LeftStripKeepsLast(s: string)
    requires s != "" && !IsSpace(s[|s| - 1])
    ensures LeftStrip(s) != "" && LeftStrip(s)[|LeftStrip(s)| - 1] == s[|s| - 1]
  {
    if IsSpace(s[0]) {
      LeftStripKeepsLast(s[1..]);
    }
  }

  // Where a text occurs.

  predicate OccursAt(s: string, find: string, k: nat) {
    k <= |s| && find <= s[k..]
  }

  lemma ContainsIffOccurs(s: string, find: string)
    ensures Contains(s, find) <==> exists k: nat :: OccursAt(s, find, k)
  {
    if k: nat :| OccursAt(s, find, k) {
      assert StartsWith(s[k..], find);
    }
    if i :| 0 <= i <= |s| && StartsWith(s[i..], find) {
      assert OccursAt(s, find, i);
    }
  }

  function FirstPlace(s: string, find: string): nat {
    if s == "" || find <= s then 0 else 1 + FirstPlace(s[1..], find)
  }

  lemma {:induction false} FirstPlaceIs(s: string, find: string)
    requires find != "" && Contains(s, find)
    ensures OccursAt(s, find, FirstPlace(s, find))
    ensures forall j :: 0 <= j < FirstPlace(s, find) ==> !OccursAt(s, find, j)
  {
    hide Contains;
    ContainsStep(s, find);
    if find <= s {
      assert s[0..] == s;
    } else {
      var t := s[1..];
      FirstPlaceIs(t, find);
      assert forall j :: 0 < j <= |s| ==> s[j..] == t[j - 1..];
      forall j | 0 <= j < FirstPlace(s, find) ensures !OccursAt(s, find, j) {
        if j > 0 {
          assert !OccursAt(t, find, j - 1);
        } else {
          assert s[0..] == s;
        }
      }
    }
  }

  /** Up to a place before which nothing is found, a text is copied. */
  lemma {:induction false} ReplaceFrom(s: string, find: string, put: string, k: nat)
    requires find != "" && k <= |s| && forall j :: 0 <= j < k ==> !OccursAt(s, find, j)
    ensures Replace(s, find, put) == s[..k] + Replace(s[k..], find, put)
    decreases k
  {
    if k == 0 {
      assert s[0..] == s;
    } else {
      var t := s[1..];
      assert s[0..] == s && !OccursAt(s, find, 0);
      forall j | 0 <= j < k - 1 ensures !OccursAt(t, find, j) {
        assert t[j..] == s[j + 1..] && !OccursAt(s, find, j + 1);
      }
      ReplaceFrom(t, find, put, k - 1);
      assert t[k - 1..] == s[k..] && [s[0]] + t[..k - 1] == s[..k];
    }
  }

  lemma ReplaceHere(s: string, find: string, put: string)
    requires find != "" && find <= s
    ensures Replace(s, find, put) == put + Replace(s[|find|..], find, put)
  {
  }

  lemma ReplaceAtFirst(s: string, find: string, put: string, k: nat)
    requires find != "" && OccursAt(s, find, k) && forall j :: 0 <= j < k ==> !OccursAt(s, find, j)
    ensures k + |find| <= |s|
    ensures Replace(s, find, put) == s[..k] + put + Replace(s[k + |find|..], find, put)
  {
    hide Replace;
    ReplaceFrom(s, find, put, k);
    var t := s[k..];
    ReplaceHere(t, find, put);
    assert t[|find|..] == s[k + |find|..];
  }
}
