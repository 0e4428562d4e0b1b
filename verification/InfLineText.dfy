/** What the INF rewriter writes: the text of a converted line. */
module InfLineText {
  import opened Bytes
  import opened PythonStrings
  import opened InfRewriter

  // A source and its destination have the same stem and different extensions.

  /** `x` is the stem and an extension: a dot and no other dot after it. */
  predicate Extends(x: string, stem: string) {
    && |stem| < |x| && x[..|stem|] == stem && x[|stem|] == '.'
    && forall i :: |stem| < i < |x| ==> x[i] != '.'
  }

  lemma ExtensionHasOneDot(ext: string)
    requires IsAsmExtension(ext)
    ensures ext != "" && ext[0] == '.' && forall i :: 0 < i < |ext| ==> ext[i] != '.'
  {
    var low := ToLower(ext);
    assert |low| == |ext|;
    assert low[0] == '.' && forall i :: 0 < i < |low| ==> low[i] != '.';
    assert forall i :: 0 <= i < |ext| ==> (low[i] == '.' <==> ext[i] == '.');
  }

  lemma MappedExtends(src: string, dst: string) returns (stem: string)
    requires IsMapped(src, dst)
    ensures Extends(src, stem) && Extends(dst, stem) && |src| < |dst|
  {
    var n :| 0 < n < |src| && IsAsmExtension(src[n..]) && dst == src[..n] + ".nasm";
    stem := src[..n];
    ExtensionHasOneDot(src[n..]);
    assert forall i :: n < i < |src| ==> src[i] == src[n..][i - n];
    assert src[n] == src[n..][0];
    assert forall i :: n < i < |dst| ==> dst[i] == ".nasm"[i - n];
    MappedOutgrows(src, dst);
  }

  /** Two names with one stem overlap in at most the stem, so that the overlap reads the same in a third. */
  lemma OverlapIsInStem(stem: string, x: string, y: string, z: string, o: nat)
    requires Extends(x, stem) && Extends(y, stem) && Extends(z, stem) && 0 < o < |x|
    requires forall i :: 0 <= i < |y| && o + i < |x| ==> x[o + i] == y[i]
    ensures |x| - o <= |stem| && x[o..] == z[..|x| - o]
  {
    assert y[|stem|] == '.';
    assert |x| - o <= |stem|;
    forall i | 0 <= i < |x| - o ensures x[o..][i] == z[i] {
      assert x[o + i] == y[i] && y[i] == stem[i] && z[i] == stem[i];
    }
  }

  /** Wherever the name is found before its first place, with the name or its replacement put there, it was found
      there already. */
  lemma NotFoundBefore(stem: string, u: string, pre: string, x: string, src: string, j: nat)
    requires Extends(x, stem) && Extends(src, stem) && |src| <= |x|
    requires pre + x <= u && j < |pre| && OccursAt(u, src, j)
    ensures OccursAt(pre + src, src, j)
  {
    var d := |pre| - j;
    assert u[..|pre| + |x|] == pre + x;
    assert forall i :: 0 <= i < |src| ==> src[i] == u[j..][i] && u[j..][i] == u[j + i];
    if d < |src| {
      forall i | 0 <= i < |x| && d + i < |src| ensures src[d + i] == x[i] {
        assert src[d + i] == u[|pre| + i] && u[|pre| + i] == (pre + x)[|pre| + i];
      }
      OverlapIsInStem(stem, src, x, src, d);
    }
    var t := (pre + src)[j..];
    forall i | 0 <= i < |src| ensures t[i] == src[i] {
      if i < d {
        assert t[i] == pre[j + i] && u[j + i] == (pre + x)[j + i];
      } else {
        assert t[i] == src[i - d] && src[d..][i - d] == src[i];
      }
    }
    assert t[..|src|] == src;
  }

  ghost predicate FirstAt(pre: string, src: string) {
    forall j :: 0 <= j < |pre| ==> !OccursAt(pre + src, src, j)
  }

  /** One pass leaves what stands at the first place, or puts the destination there. */
  lemma PassKeepsStart(stem: string, u: string, pre: string, x: string, src: string, dst: string, i: nat)
    requires Extends(src, stem) && Extends(dst, stem) && |src| < |dst| && (x == src || x == dst)
    requires pre + x <= u && FirstAt(pre, src)
    ensures var r := Replace(u, src + Spaces(i), dst);
            pre + dst <= r || (pre + x <= r && (x == src ==> i > 0))
  {
    hide Replace, Contains, Extends;
    var pattern := src + Spaces(i);
    NotEmpty(src, stem);
    var r := Replace(u, pattern, dst);
    PatternOccurs(u, src, i);
    ContainsIffOccurs(u, pattern);
    if x == src && i == 0 {
      assert pattern == src && OccursAt(u, pattern, |pre|) by {
        assert u[|pre|..][..|src|] == src;
      }
    }
    if !Contains(u, pattern) {
      ReplaceWithoutHit(u, pattern, dst);
    } else {
      FirstPlaceIs(u, pattern);
      var k := FirstPlace(u, pattern);
      if k < |pre| {
        NotFoundBefore(stem, u, pre, x, src, k);
        assert false;
      }
      ReplaceAtFirst(u, pattern, dst, k);
      if k == |pre| {
        assert u[..k] == pre;
      } else if k >= |pre| + |x| {
        assert u[..k][..|pre| + |x|] == pre + x;
      } else {
        OverlapKept(stem, u, pre, x, src, dst, k);
      }
    }
  }

  lemma NotEmpty(src: string, stem: string)
    requires Extends(src, stem)
    ensures src != ""
  {
  }

  lemma PatternOccurs(u: string, src: string, i: nat)
    ensures forall k: nat :: OccursAt(u, src + Spaces(i), k) ==> OccursAt(u, src, k)
  {
    forall k: nat | OccursAt(u, src + Spaces(i), k) ensures OccursAt(u, src, k) {
      assert u[k..][..|src|] == (src + Spaces(i))[..|src|] == src;
    }
  }

  lemma OverlapKept(stem: string, u: string, pre: string, x: string, src: string, dst: string, k: nat)
    requires Extends(x, stem) && Extends(src, stem) && Extends(dst, stem) && pre + x <= u
    requires |pre| < k < |pre| + |x| && OccursAt(u, src, k)
    ensures pre + x <= u[..k] + dst
  {
    var o := k - |pre|;
    assert u[..|pre| + |x|] == pre + x;
    forall i | 0 <= i < |src| && o + i < |x| ensures x[o + i] == src[i] {
      assert src[i] == u[k..][i] && u[k..][i] == u[k + i] && u[k + i] == (pre + x)[k + i];
    }
    OverlapIsInStem(stem, x, src, dst, o);
    assert u[..k] == pre + x[..o];
    assert x == x[..o] + x[o..];
    assert (u[..k] + dst)[..|pre| + |x|] == pre + x[..o] + dst[..|x| - o];
  }

  lemma {:induction false} PassesPutDestination(stem: string, u: string, pre: string, x: string, src: string,
      dst: string, i: nat)
    requires Extends(src, stem) && Extends(dst, stem) && |src| < |dst| && (x == src || x == dst)
    requires pre + x <= u && FirstAt(pre, src) && src != ""
    ensures pre + dst <= ReplacePadded(u, src, dst, i)
    decreases i
  {
    hide Replace, Extends, FirstAt;
    PassKeepsStart(stem, u, pre, x, src, dst, i);
    var r := Replace(u, src + Spaces(i), dst);
    if i > 0 {
      PassesPutDestination(stem, r, pre, if pre + dst <= r then dst else x, src, dst, i - 1);
    }
  }

  lemma ReplacedStart(src: string, dst: string, text: string)
    requires IsMapped(src, dst) && Contains(text, src)
    ensures src != "" && FirstPlace(text, src) <= |text|
    ensures text[..FirstPlace(text, src)] + dst <= ReplacePreserveSpacing(text, src, dst)
  {
    hide Contains, ReplacePadded, IsMapped, Extends, FirstPlace, FirstAt;
    var stem := MappedExtends(src, dst);
    LongerIsNotContained(src, dst);
    NotEmpty(src, stem);
    FirstPlaceIs(text, src);
    var k := FirstPlace(text, src);
    StartsAtPlace(text, src, k);
    PassesPutDestination(stem, text, text[..k], src, src, dst, |dst| - |src|);
  }

  /** A changed line is copied up to the first place of the source that decides, and has the destination there:
      its indentation stays. */
  lemma ChangedStart(c: Conversion, line: string)
    requires c.Valid() && RuleFor(c, line).Changed?
    ensures var text := RightStrip(line);
            var src := FirstMention(c.sources, text).value;
            && FirstPlace(text, src) <= |text|
            && text[..FirstPlace(text, src)] + c.dst <= RuleFor(c, line).text
  {
    hide Contains, ReplacePreserveSpacing, IsMapped, FirstPlace, RightStrip;
    var text := RightStrip(line);
    var src := FirstMention(c.sources, text).value;
    var i :| 0 <= i < |c.sources| && c.sources[i] == src;
    ReplacedStart(c.sources[i], c.dst, text);
  }

  lemma StartsAtPlace(text: string, src: string, k: nat)
    requires OccursAt(text, src, k) && forall j :: 0 <= j < k ==> !OccursAt(text, src, j)
    ensures text[..k] + src <= text && FirstAt(text[..k], src)
  {
    var part := text[..k] + src;
    assert part == text[..k + |src|] by {
      assert text[k..][..|src|] == src;
    }
    forall j | 0 <= j < k ensures !OccursAt(part, src, j) {
      assert part[j..] <= text[j..];
      assert !OccursAt(text, src, j);
    }
  }

  // A line that mentions the source once.

  function LeadingBlanks(s: string): (n: nat)
    ensures n <= |s| && (forall i :: 0 <= i < n ==> s[i] == ' ') && (n < |s| ==> s[n] != ' ')
  {
    if s == "" || s[0] != ' ' then 0 else 1 + LeadingBlanks(s[1..])
  }

  /** How many of the blanks after the name are taken up: as many as the name grows, if there are. */
  function TakenUp(post: string, grows: nat): (n: nat)
    ensures n <= |post| && n <= grows
  {
    if LeadingBlanks(post) < grows then LeadingBlanks(post) else grows
  }

  ghost predicate OccursOnce(pre: string, src: string, post: string) {
    forall j: nat :: OccursAt(pre + src + post, src, j) ==> j == |pre|
  }

  lemma PatternHereIff(pre: string, src: string, post: string, i: nat)
    ensures OccursAt(pre + src + post, src + Spaces(i), |pre|) <==> i <= LeadingBlanks(post)
  {
    var rest := (pre + src + post)[|pre|..];
    assert rest == src + post;
    if i <= LeadingBlanks(post) {
      assert post[..i] == Spaces(i);
      assert rest[..|src| + i] == src + post[..i];
    }
    if src + Spaces(i) <= rest {
      forall j | 0 <= j < i ensures post[j] == ' ' {
        assert rest[|src| + j] == (src + Spaces(i))[|src| + j];
      }
    }
  }

  /** The pass for one number of blanks. */
  lemma OnePassOverLine(pre: string, src: string, post: string, dst: string, i: nat)
    requires src != "" && OccursOnce(pre, src, post)
    ensures var line := pre + src + post;
            Replace(line, src + Spaces(i), dst)
            == if i <= LeadingBlanks(post) then pre + dst + post[i..] else line
  {
    hide Replace, Contains;
    var line, pattern := pre + src + post, src + Spaces(i);
    PatternOccurs(line, src, i);
    PatternHereIff(pre, src, post, i);
    ContainsIffOccurs(line, pattern);
    if i <= LeadingBlanks(post) {
      ReplaceAtFirst(line, pattern, dst, |pre|);
      var rest := line[|pre| + |pattern|..];
      assert rest == post[i..] && line[..|pre|] == pre;
      ContainsIffOccurs(rest, pattern);
      forall j: nat ensures !OccursAt(rest, pattern, j) {
        if j <= |rest| {
          assert rest[j..] == line[|pre| + |pattern| + j..];
          assert !OccursAt(line, pattern, |pre| + |pattern| + j);
        }
      }
      ReplaceWithoutHit(rest, pattern, dst);
    } else {
      assert forall k: nat :: !OccursAt(line, pattern, k);
      ReplaceWithoutHit(line, pattern, dst);
    }
  }

  /** The passes with more blanks than there are leave the line alone. */
  lemma {:induction false} PassesReachBlanks(pre: string, src: string, post: string, dst: string, i: nat)
    requires src != "" && OccursOnce(pre, src, post)
    ensures var n := TakenUp(post, i);
            var r := pre + dst + post[n..];
            ReplacePadded(pre + src + post, src, dst, i) == if n == 0 then r else ReplacePadded(r, src, dst, n - 1)
    decreases i
  {
    hide Replace, OccursOnce;
    OnePassOverLine(pre, src, post, dst, i);
    if i > LeadingBlanks(post) {
      PassesReachBlanks(pre, src, post, dst, i - 1);
    }
  }

  /** A line with one mention becomes the same line with the destination in its place, less the blanks taken up:
      exactly, unless blanks were taken up and what is left after them makes the name anew. */
  lemma OneMentionIff(src: string, dst: string, pre: string, post: string)
    requires IsMapped(src, dst) && OccursOnce(pre, src, post)
    ensures src != ""
    ensures var n := TakenUp(post, |dst| - |src|);
            var r := pre + dst + post[n..];
            ReplacePreserveSpacing(pre + src + post, src, dst) == r <==> n == 0 || !Contains(r, src)
  {
    hide Contains, IsMapped, ReplacePadded, OccursOnce;
    MappedOutgrows(src, dst);
    LongerIsNotContained(src, dst);
    var d := |dst| - |src|;
    var n := TakenUp(post, d);
    PassesReachBlanks(pre, src, post, dst, d);
    if n > 0 {
      ReplacePaddedGrows(pre + dst + post[n..], src, dst, n - 1);
    }
  }

  /** What is written for such a line: the converted line with a newline, unless the run has it already, and
      after it the old line where the source is kept. */
  lemma OneMentionIsWritten(c: Conversion, line: string, pre: string, src: string, post: string, recent: seq<string>)
    requires c.Valid() && RightStrip(line) == pre + src + post && FirstMention(c.sources, pre + src + post) == Some(src)
    requires OccursOnce(pre, src, post) && src in c.sources && |src| < |c.dst|
    requires var n := TakenUp(post, |c.dst| - |src|); n == 0 || !Contains(pre + c.dst + post[n..], src)
    ensures var text := pre + c.dst + post[TakenUp(post, |c.dst| - |src|)..];
            Texts(RewriteLine(c, line, recent))
            == (if Strip(text) in recent then [] else [text + "\n"]) + (if c.keep(src) then [line] else [])
  {
    hide Contains, IsMapped, ReplacePreserveSpacing, OccursOnce, Strip, RightStrip, FirstMention;
    var i :| 0 <= i < |c.sources| && c.sources[i] == src;
    assert IsMapped(c.sources[i], c.dst);
    OneMentionIff(src, c.dst, pre, post);
  }

  /** The name may be made anew: the blanks go, and the end of the destination meets what followed them. */
  lemma NameIsMadeAnew()
    ensures OccursOnce("", "m.s", "   .s") && TakenUp("   .s", 3) == 3 && Contains("m.nasm.s", "m.s")
    ensures ReplacePreserveSpacing("m.s   .s", "m.s", "m.nasm") != "m.nasm.s"
  {
    hide ReplacePreserveSpacing, Contains;
    var src, post, dst := "m.s", "   .s", "m.nasm";
    var line := "" + src + post;
    assert line == "m.s   .s";
    forall j: nat | OccursAt(line, src, j) ensures j == 0 {
      assert line[j..][0] == line[j];
    }
    BlanksOf();
    assert src[1..] == ".s" && ToLower(".s") == ".s" && dst == src[..1] + ".nasm";
    assert "" + dst + post[3..] == "m.nasm.s";
    ContainsAnywhere("m.nas", "m.s", "");
    assert "m.nas" + "m.s" + "" == "m.nasm.s";
    OneMentionIff(src, dst, "", post);
  }

  lemma BlanksOf()
    ensures LeadingBlanks("   .s") == 3
  {
  }
}
