/** Rewriting the source list of an INF file when an assembly file has been converted. */
module InfRewriter {
  import opened Bytes
  import opened PythonStrings

  function Spaces(n: nat): (s: string)
    ensures |s| == n
  {
    seq(n, _ => ' ')
  }

  /** Replaces the name followed by `i`, then `i - 1`, ... spaces, so that a longer name takes up blanks. */
  function ReplacePadded(s: string, find: string, put: string, i: nat): string
    requires find != ""
    decreases i
  {
    var r := Replace(s, find + Spaces(i), put);
    if i == 0 then r else ReplacePadded(r, find, put, i - 1)
  }

  function ReplacePreserveSpacing(s: string, find: string, put: string): string
    requires find != ""
  {
    if |find| >= |put| then Replace(s, find, put + Spaces(|find| - |put|))
    else if Contains(find, put) then Replace(s, find, put)
    else ReplacePadded(s, find, put, |put| - |find|)
  }

  method ReplaceInLine(s: string, find: string, put: string) returns (r: string)
    requires find != ""
    ensures r == ReplacePreserveSpacing(s, find, put)
  {
    if |find| >= |put| {
      return Replace(s, find, put + Spaces(|find| - |put|));
    } else if Contains(find, put) {
      return Replace(s, find, put);
    }
    r := s;
    var i := |put| - |find|;
    while i >= 0
      invariant -1 <= i
      invariant i >= 0 ==> ReplacePadded(r, find, put, i) == ReplacePadded(s, find, put, |put| - |find|)
      invariant i < 0 ==> r == ReplacePadded(s, find, put, |put| - |find|)
    {
      r := Replace(r, find + Spaces(i), put);
      i := i - 1;
    }
  }

  /** A name is never found in a shorter one: with a longer replacement the second branch is never taken. */
  lemma LongerIsNotContained(find: string, put: string)
    requires |find| < |put|
    ensures !Contains(find, put)
  {
  }

  /** A replacement that is not longer is padded, so that every line keeps its length. */
  lemma PaddingKeepsLength(s: string, find: string, put: string)
    requires find != "" && |put| <= |find|
    ensures |ReplacePreserveSpacing(s, find, put)| == |s|
    ensures Contains(s, find) ==> Contains(ReplacePreserveSpacing(s, find, put), put + Spaces(|find| - |put|))
    ensures !Contains(s, find) ==> ReplacePreserveSpacing(s, find, put) == s
  {
    hide Replace, Contains, Hits;
    var padded := put + Spaces(|find| - |put|);
    ReplaceLength(s, find, padded);
    if Contains(s, find) {
      ReplacePutsIn(s, find, padded);
    } else {
      ReplaceWithoutHit(s, find, padded);
    }
  }

  /** With a replacement longer by `d`, each occurrence grows the text by `d` less the blanks it takes up. */
  function Growth(s: string, find: string, put: string, i: nat): int
    requires find != ""
    decreases i
  {
    var pattern := find + Spaces(i);
    Hits(s, pattern) * (|put| - |find| - i) + if i == 0 then 0 else Growth(Replace(s, pattern, put), find, put, i - 1)
  }

  lemma {:induction false} ReplacePaddedLength(s: string, find: string, put: string, i: nat)
    requires find != ""
    ensures |ReplacePadded(s, find, put, i)| == |s| + Growth(s, find, put, i)
    decreases i
  {
    hide Replace, Hits;
    var pattern := find + Spaces(i);
    ReplaceLength(s, pattern, put);
    if i > 0 {
      ReplacePaddedLength(Replace(s, pattern, put), find, put, i - 1);
    }
  }

  /** With too few blanks to take up, a text that contains the name grows; any other is left alone. */
  lemma {:induction false} ReplacePaddedGrows(s: string, find: string, put: string, i: nat)
    requires find != "" && |find| + i < |put|
    ensures |ReplacePadded(s, find, put, i)| >= |s|
    ensures Contains(s, find) ==> |ReplacePadded(s, find, put, i)| > |s|
    ensures !Contains(s, find) ==> ReplacePadded(s, find, put, i) == s
    decreases i
  {
    hide Replace, Hits, Contains;
    var pattern := find + Spaces(i);
    var r := Replace(s, pattern, put);
    ReplaceLength(s, pattern, put);
    HitsIffContained(s, pattern);
    if Contains(s, pattern) {
      ContainsPrefix(s, find, Spaces(i));
      AtLeast(Hits(s, pattern), |put| - |pattern|);
    } else {
      ReplaceWithoutHit(s, pattern, put);
    }
    if i > 0 {
      ReplacePaddedGrows(r, find, put, i - 1);
    } else {
      assert pattern == find;
    }
  }

  lemma AtLeast(n: nat, d: nat)
    requires n > 0
    ensures n * d >= d
  {
  }

  /** The name is longer than the one it replaces, and not just that name with blanks. */
  predicate Outgrows(put: string, find: string) {
    0 < |find| < |put| && put != find + Spaces(|put| - |find|)
  }

  /** After the first pass, which takes up all blanks, the length changes exactly when the name is still there. */
  lemma FirstPass(s: string, find: string, put: string)
    requires Outgrows(put, find)
    ensures var d := |put| - |find|;
            var first := Replace(s, find + Spaces(d), put);
            var r := ReplacePreserveSpacing(s, find, put);
            && |first| == |s|
            && (Contains(first, find) ==> |r| > |s|)
            && (!Contains(first, find) ==> r == first)
            && (!Contains(s, find) ==> first == s)
            && (Contains(s, find + Spaces(d)) ==> first != s)
            && (Contains(s, find) && !Contains(s, find + Spaces(d)) ==> first == s)
  {
    hide Replace, Hits, Contains;
    var d := |put| - |find|;
    var pattern := find + Spaces(d);
    LongerIsNotContained(find, put);
    ReplaceLength(s, pattern, put);
    ReplacePaddedGrows(Replace(s, pattern, put), find, put, d - 1);
    if Contains(s, pattern) {
      ContainsPrefix(s, find, Spaces(d));
      ReplaceWithHit(s, pattern, put);
    } else {
      ReplaceWithoutHit(s, pattern, put);
    }
  }

  /** The line changes exactly when it contains the name, wherever it stands. */
  lemma ReplacementChangesIff(s: string, find: string, put: string)
    requires Outgrows(put, find)
    ensures ReplacePreserveSpacing(s, find, put) != s <==> Contains(s, find)
  {
    hide Replace, Contains, ReplacePreserveSpacing;
    FirstPass(s, find, put);
  }

  /** The columns after the name stay in place exactly when no occurrence is left once those with enough
      blanks behind them are replaced. */
  lemma SpacingIsPreservedIff(s: string, find: string, put: string)
    requires Outgrows(put, find)
    ensures |ReplacePreserveSpacing(s, find, put)| == |s|
       <==> !Contains(Replace(s, find + Spaces(|put| - |find|), put), find)
    ensures |ReplacePreserveSpacing(s, find, put)| == |s| + Growth(s, find, put, |put| - |find|)
  {
    hide Replace, Contains, Growth;
    FirstPass(s, find, put);
    LongerIsNotContained(find, put);
    ReplacePaddedLength(s, find, put, |put| - |find|);
  }

  /** A source and its destination: the extension .asm or .s, in any case, becomes .nasm. */
  predicate IsMapped(src: string, dst: string) {
    exists n :: 0 < n < |src| && IsAsmExtension(src[n..]) && dst == src[..n] + ".nasm"
  }

  predicate IsAsmExtension(ext: string) {
    ToLower(ext) == ".asm" || ToLower(ext) == ".s"
  }

  lemma MappedOutgrows(src: string, dst: string)
    requires IsMapped(src, dst)
    ensures Outgrows(dst, src)
  {
    var n :| 0 < n < |src| && IsAsmExtension(src[n..]) && dst == src[..n] + ".nasm";
    assert |ToLower(src[n..])| == |src| - n;
    assert dst[|dst| - 1] == 'm';
    var padded := src + Spaces(|dst| - |src|);
    assert padded[|padded| - 1] == ' ';
  }

  /** The conversion to apply: the sources that map to `dst`, and which sources are kept. */
  datatype Conversion = Conversion(sources: seq<string>, dst: string, keep: string -> bool)
  {
    predicate Valid() {
      forall i :: 0 <= i < |sources| ==> IsMapped(sources[i], dst)
    }
  }

  /** The new text of a changed line, and whether the old line stays. */
  datatype Change = Same | Changed(text: string, keepOld: bool)

  /** The first of the sources that occurs in the line, anywhere. */
  function FirstMention(sources: seq<string>, line: string): (r: Option<string>)
    ensures r.None? <==> forall i :: 0 <= i < |sources| ==> !Contains(line, sources[i])
    ensures r.Some? ==> r.value in sources && Contains(line, r.value)
  {
    if sources == [] then None
    else if Contains(line, sources[0]) then Some(sources[0])
    else FirstMention(sources[1..], line)
  }

  /** The source found is the one that no earlier source shadows. */
  lemma {:induction false} MentionIsFirst(sources: seq<string>, line: string, i: nat)
    requires i < |sources| && Contains(line, sources[i])
    requires forall j :: 0 <= j < i ==> !Contains(line, sources[j])
    ensures FirstMention(sources, line) == Some(sources[i])
  {
    if i > 0 {
      assert !Contains(line, sources[0]);
      MentionIsFirst(sources[1..], line, i - 1);
    }
  }

  /** What the conversion means for a line: the first source it mentions is replaced. */
  function ChangeOf(c: Conversion, line: string): Change
    requires c.Valid()
  {
    match FirstMention(c.sources, line)
    case None => Same
    case Some(src) =>
      MappedIsNotEmpty(c, src);
      Changed(ReplacePreserveSpacing(line, src, c.dst), c.keep(src))
  }

  lemma MappedIsNotEmpty(c: Conversion, src: string)
    requires c.Valid() && src in c.sources
    ensures src != ""
  {
    var i :| 0 <= i < |c.sources| && c.sources[i] == src;
    assert IsMapped(c.sources[i], c.dst);
  }

  /** A line that mentions a source changes, also when the name is part of another name or of a comment. */
  lemma AnyMentionChanges(c: Conversion, before: string, src: string, after: string)
    requires c.Valid() && src in c.sources
    ensures ChangeOf(c, before + src + after).Changed?
  {
    hide Contains;
    ContainsAnywhere(before, src, after);
  }

  lemma {:induction false} ReplacePaddedPutsIn(s: string, find: string, put: string, i: nat)
    requires find != "" && |find| + i <= |put| && Contains(s, find)
    ensures Contains(ReplacePadded(s, find, put, i), put)
    decreases i
  {
    hide Contains, Replace;
    var pattern := find + Spaces(i);
    var r := Replace(s, pattern, put);
    if Contains(s, pattern) {
      ReplacePutsIn(s, pattern, put);
    } else {
      ReplaceWithoutHit(s, pattern, put);
    }
    if i == 0 {
      assert pattern == find;
    } else if Contains(r, find) {
      ReplacePaddedPutsIn(r, find, put, i - 1);
    } else {
      ReplacePaddedGrows(r, find, put, i - 1);
    }
  }

  /** Every changed line names the destination. */
  lemma ChangedNamesDestination(c: Conversion, line: string)
    requires c.Valid() && ChangeOf(c, line).Changed?
    ensures Contains(ChangeOf(c, line).text, c.dst)
  {
    hide Contains, ReplacePadded, IsMapped;
    var src := FirstMention(c.sources, line).value;
    var i :| 0 <= i < |c.sources| && c.sources[i] == src;
    MappedOutgrows(c.sources[i], c.dst);
    LongerIsNotContained(src, c.dst);
    ReplacePaddedPutsIn(line, src, c.dst, |c.dst| - |src|);
  }

  /** The loop looks at the result of each replacement only; that finds the first source mentioned. */
  method FindChange(c: Conversion, line: string) returns (r: Change)
    requires c.Valid()
    ensures r == ChangeOf(c, line)
  {
    hide ReplacePreserveSpacing, Contains, IsMapped;
    var updated := line;
    for i := 0 to |c.sources|
      invariant updated == line
      invariant FirstMention(c.sources, line) == FirstMention(c.sources[i..], line)
    {
      var src := c.sources[i];
      assert c.sources[i..][1..] == c.sources[i + 1..];
      MappedIsNotEmpty(c, src);
      MappedOutgrows(src, c.dst);
      ReplacementChangesIff(line, src, c.dst);
      updated := ReplaceInLine(updated, src, c.dst);
      if updated != line {
        return Changed(updated, c.keep(src));
      }
    }
    r := Same;
  }

  // The result, line by line.

  /** A line of the result: one of the old lines, or a converted one. */
  datatype Written = Old(line: string) | New(text: string)

  function LineOf(w: Written): string {
    match w
    case Old(line) => line
    case New(text) => text + "\n"
  }

  function RuleFor(c: Conversion, line: string): Change
    requires c.Valid()
  {
    ChangeOf(c, RightStrip(line))
  }

  /** What one old line becomes, given the lines written in the current run of changed lines. */
  function RewriteLine(c: Conversion, line: string, recent: seq<string>): seq<Written>
    requires c.Valid()
  {
    match RuleFor(c, line)
    case Same => [Old(line)]
    case Changed(text, keepOld) =>
      (if Strip(text) in recent then [] else [New(text)]) + (if keepOld then [Old(line)] else [])
  }

  function RecentAfter(c: Conversion, line: string, recent: seq<string>): seq<string>
    requires c.Valid()
  {
    match RuleFor(c, line)
    case Same => []
    case Changed(text, _) => if Strip(text) in recent then recent else recent + [Strip(text)]
  }

  function Rewrite(c: Conversion, lines: seq<string>, recent: seq<string>): seq<Written>
    requires c.Valid()
    decreases |lines|
  {
    if lines == [] then []
    else RewriteLine(c, lines[0], recent) + Rewrite(c, lines[1..], RecentAfter(c, lines[0], recent))
  }

  function Texts(ws: seq<Written>): seq<string> {
    seq(|ws|, i requires 0 <= i < |ws| => LineOf(ws[i]))
  }

  function Present(lines: seq<Option<string>>): seq<string> {
    if lines == [] then [] else (if lines[0].Some? then [lines[0].value] else []) + Present(lines[1..])
  }

  lemma {:induction false} PresentConcat(s: seq<Option<string>>, t: seq<Option<string>>)
    ensures Present(s + t) == Present(s) + Present(t)
  {
    if s == [] {
      assert s + t == t;
    } else {
      assert (s + t)[1..] == s[1..] + t;
      PresentConcat(s[1..], t);
    }
  }

  lemma PresentOne(l: Option<string>)
    ensures Present([l]) == if l.Some? then [l.value] else []
  {
    assert [l][1..] == [];
  }

  lemma {:induction false} PresentOfSome(lines: seq<Option<string>>)
    requires forall i :: 0 <= i < |lines| ==> lines[i].Some?
    ensures |Present(lines)| == |lines| && forall i :: 0 <= i < |lines| ==> Present(lines)[i] == lines[i].value
  {
    if lines != [] {
      PresentOfSome(lines[1..]);
    }
  }

  class InfFile {
    var lines: seq<Option<string>>

    predicate Valid()
      reads this
    {
      forall i :: 0 <= i < |lines| ==> lines[i].Some?
    }

    constructor (text: seq<string>)
      ensures Valid() && Present(lines) == text
    {
      lines := seq(|text|, i requires 0 <= i < |text| => Some(text[i]));
      new;
      PresentOfSome(lines);
    }

    /** One turn of the loop: line `i` is replaced by `written`, and `i'` is the line after those. */
    method RewriteAt(c: Conversion, i: nat, recent: seq<string>)
      returns (i': nat, recent': seq<string>, changed: bool, ghost written: seq<Option<string>>)
      requires c.Valid() && i < |lines| && lines[i].Some?
      modifies this
      ensures lines == old(lines)[..i] + written + old(lines)[i + 1..]
      ensures i' == i + |written| > i
      ensures Present(written) == Texts(RewriteLine(c, old(lines)[i].value, recent))
      ensures recent' == RecentAfter(c, old(lines)[i].value, recent)
      ensures !changed ==> written == [old(lines)[i]]
    {
      hide ChangeOf, Present, Strip, RightStrip, RewriteLine, Texts;
      var line := lines[i].value;
      var rule := FindChange(c, RightStrip(line));
      i', recent', changed, written := i, recent, rule.Changed?, [lines[i]];
      match rule {
        case Changed(text, keepOld) =>
          var name := Strip(text);
          if keepOld {
            if name !in recent {
              lines := lines[..i] + [Some(text + "\n")] + lines[i..];
              written := [Some(text + "\n"), Some(line)];
              recent' := recent + [name];
              i' := i + 1;
            }
          } else if name in recent {
            lines := lines[i := None];
            written := [None];
          } else {
            lines := lines[i := Some(text + "\n")];
            written := [Some(text + "\n")];
            recent' := recent + [name];
          }
        case Same =>
          recent' := [];
      }
      i' := i' + 1;
      WrittenTexts(c, line, recent, written);
    }

    /** The loop ends although it inserts into the list it walks. */
    method UpdateInfAsmFile(c: Conversion)
      requires Valid() && c.Valid()
      modifies this
      ensures Valid()
      ensures Present(lines) == Texts(Rewrite(c, old(Present(lines)), []))
    {
      hide Present, Rewrite, Texts, RewriteLine, RecentAfter;
      ghost var goal := Texts(Rewrite(c, Present(lines), []));
      var changed, recent, i := false, [], 0;
      StartsWithNothing(lines);
      while i < |lines|
        invariant 0 <= i <= |lines|
        invariant forall j :: i <= j < |lines| ==> lines[j].Some?
        invariant !changed ==> Valid()
        invariant Present(lines[..i]) + Texts(Rewrite(c, Present(lines[i..]), recent)) == goal
        decreases |lines| - i
      {
        ghost var done, line, rest := lines[..i], lines[i].value, lines[i + 1..];
        assert lines[i..] == [Some(line)] + rest;
        var j, recent', hit, written := RewriteAt(c, i, recent);
        StepOf(c, done, line, rest, recent, written);
        assert lines[..j] == done + written && lines[j..] == rest;
        i, recent, changed := j, recent', changed || hit;
      }
      assert lines[..i] == lines && lines[i..] == [];
      EndsWithNothing(c, recent);
      if changed {
        lines := Filter(lines);
      }
    }
  }

  /** The lines that are not marked as removed. */
  function Filter(lines: seq<Option<string>>): (r: seq<Option<string>>)
    ensures forall i :: 0 <= i < |r| ==> r[i].Some?
    ensures Present(r) == Present(lines)
  {
    if lines == [] then []
    else
      PresentConcat(lines[..1], lines[1..]);
      PresentConcat(lines[..1], Filter(lines[1..]));
      assert lines == lines[..1] + lines[1..];
      PresentOne(lines[0]);
      assert lines[..1] == [lines[0]];
      if lines[0].Some? then [lines[0]] + Filter(lines[1..]) else Filter(lines[1..])
  }

  lemma WrittenTexts(c: Conversion, line: string, recent: seq<string>, written: seq<Option<string>>)
    requires c.Valid()
    requires match RuleFor(c, line)
             case Same => written == [Some(line)]
             case Changed(text, keepOld) =>
               var seen, new' := Strip(text) in recent, Some(text + "\n");
               written == if keepOld then if seen then [Some(line)] else [new', Some(line)]
                          else if seen then [None] else [new']
    ensures Present(written) == Texts(RewriteLine(c, line, recent))
  {
    hide RuleFor, Strip;
    PresentOne(written[0]);
    if |written| == 2 {
      assert written == [written[0]] + [written[1]];
      PresentConcat([written[0]], [written[1]]);
      PresentOne(written[1]);
    }
  }

  lemma TextsConcat(s: seq<Written>, t: seq<Written>)
    ensures Texts(s + t) == Texts(s) + Texts(t)
    ensures Texts([]) == []
  {
  }

  lemma StepOf(c: Conversion, done: seq<Option<string>>, line: string, rest: seq<Option<string>>,
      recent: seq<string>, written: seq<Option<string>>)
    requires c.Valid() && Present(written) == Texts(RewriteLine(c, line, recent))
    ensures Present(done) + Texts(Rewrite(c, Present([Some(line)] + rest), recent))
         == Present(done + written) + Texts(Rewrite(c, Present(rest), RecentAfter(c, line, recent)))
  {
    hide Texts, RewriteLine, RecentAfter, Present;
    PresentConcat([Some(line)], rest);
    PresentOne(Some(line));
    PresentConcat(done, written);
    var lines := [line] + Present(rest);
    assert lines[1..] == Present(rest);
    TextsConcat(RewriteLine(c, line, recent), Rewrite(c, Present(rest), RecentAfter(c, line, recent)));
  }

  lemma StartsWithNothing(lines: seq<Option<string>>)
    ensures Present(lines[..0]) == [] && lines[0..] == lines
  {
  }

  lemma EndsWithNothing(c: Conversion, recent: seq<string>)
    requires c.Valid()
    ensures Texts(Rewrite(c, Present([]), recent)) == []
  {
  }

  // What is kept.

  /** A line stays when it mentions none of the sources, or the first one it mentions is kept. */
  predicate Stays(c: Conversion, line: string) {
    var src := FirstMention(c.sources, RightStrip(line));
    src.None? || c.keep(src.value)
  }

  function Staying(c: Conversion, lines: seq<string>): seq<string> {
    if lines == [] then [] else (if Stays(c, lines[0]) then [lines[0]] else []) + Staying(c, lines[1..])
  }

  function OldLines(ws: seq<Written>): seq<string> {
    if ws == [] then [] else (if ws[0].Old? then [ws[0].line] else []) + OldLines(ws[1..])
  }

  lemma {:induction false} OldLinesConcat(s: seq<Written>, t: seq<Written>)
    ensures OldLines(s + t) == OldLines(s) + OldLines(t)
  {
    if s == [] {
      assert s + t == t;
    } else {
      assert (s + t)[1..] == s[1..] + t;
      OldLinesConcat(s[1..], t);
    }
  }

  lemma OldLinesOfOne(c: Conversion, line: string, recent: seq<string>)
    requires c.Valid()
    ensures OldLines(RewriteLine(c, line, recent)) == if Stays(c, line) then [line] else []
  {
    hide Strip, OldLines, FirstMention, RightStrip, ReplacePreserveSpacing;
    var w := RewriteLine(c, line, recent);
    if w == [] {
      OldLinesOfFew(Old(line));
    } else {
      OldLinesOfFew(w[0]);
      if |w| == 2 {
        assert w == [w[0]] + [w[1]];
        OldLinesConcat([w[0]], [w[1]]);
        OldLinesOfFew(w[1]);
      } else {
        assert w == [w[0]];
      }
    }
  }

  lemma OldLinesOfFew(w: Written)
    ensures OldLines([]) == []
    ensures OldLines([w]) == if w.Old? then [w.line] else []
  {
    assert [w][1..] == [];
  }

  /** The lines that mention no source, and those whose source is kept, all survive, unchanged and in order,
      and no other old line does. */
  lemma {:induction false} OldLinesSurvive(c: Conversion, lines: seq<string>, recent: seq<string>)
    requires c.Valid()
    ensures OldLines(Rewrite(c, lines, recent)) == Staying(c, lines)
    decreases |lines|
  {
    hide RewriteLine, RecentAfter, Stays;
    if lines != [] {
      var recent' := RecentAfter(c, lines[0], recent);
      OldLinesConcat(RewriteLine(c, lines[0], recent), Rewrite(c, lines[1..], recent'));
      OldLinesOfOne(c, lines[0], recent);
      OldLinesSurvive(c, lines[1..], recent');
    }
  }

  // What is written in a run of changed lines.

  /** The first occurrence of each text that is not in `seen`. */
  function FirstOccurrences(texts: seq<string>, seen: seq<string>): seq<string> {
    if texts == [] then []
    else if texts[0] in seen then FirstOccurrences(texts[1..], seen)
    else [texts[0]] + FirstOccurrences(texts[1..], seen + [texts[0]])
  }

  lemma {:induction false} FirstOccurrencesAreUnique(texts: seq<string>, seen: seq<string>)
    ensures var r := FirstOccurrences(texts, seen);
            && (forall i, j :: 0 <= i < j < |r| ==> r[i] != r[j])
            && (forall x :: x in r <==> x in texts && x !in seen)
    decreases |texts|
  {
    if texts != [] {
      assert forall x :: x in texts <==> x == texts[0] || x in texts[1..];
      if texts[0] in seen {
        FirstOccurrencesAreUnique(texts[1..], seen);
      } else {
        var seen' := seen + [texts[0]];
        FirstOccurrencesAreUnique(texts[1..], seen');
        assert texts[0] in seen';
      }
    }
  }

  ghost predicate AllChanged(c: Conversion, lines: seq<string>)
    requires c.Valid()
  {
    forall l :: l in lines ==> RuleFor(c, l).Changed?
  }

  /** The converted line each line of a run asks for, without the blanks around it. */
  function ConvertedLines(c: Conversion, run: seq<string>): seq<string>
    requires c.Valid()
  {
    if run == [] then []
    else (if RuleFor(c, run[0]).Changed? then [Strip(RuleFor(c, run[0]).text)] else []) + ConvertedLines(c, run[1..])
  }

  function NewLines(ws: seq<Written>): seq<string> {
    if ws == [] then [] else (if ws[0].New? then [Strip(ws[0].text)] else []) + NewLines(ws[1..])
  }

  lemma {:induction false} NewLinesConcat(s: seq<Written>, t: seq<Written>)
    ensures NewLines(s + t) == NewLines(s) + NewLines(t)
  {
    hide Strip;
    if s == [] {
      assert s + t == t;
    } else {
      assert (s + t)[1..] == s[1..] + t;
      NewLinesConcat(s[1..], t);
    }
  }

  lemma NewLinesOfOne(c: Conversion, line: string, recent: seq<string>)
    requires c.Valid() && RuleFor(c, line).Changed?
    ensures var text := Strip(RuleFor(c, line).text);
            NewLines(RewriteLine(c, line, recent)) == if text in recent then [] else [text]
  {
    hide RuleFor, Strip, NewLines;
    var w := RewriteLine(c, line, recent);
    if w == [] {
      NewLinesOfFew(Old(line));
    } else {
      NewLinesOfFew(w[0]);
      if |w| == 2 {
        assert w == [w[0]] + [w[1]];
        NewLinesConcat([w[0]], [w[1]]);
        NewLinesOfFew(w[1]);
      } else {
        assert w == [w[0]];
      }
    }
  }

  lemma NewLinesOfFew(w: Written)
    ensures NewLines([]) == []
    ensures NewLines([w]) == if w.New? then [Strip(w.text)] else []
  {
    assert [w][1..] == [];
  }

  /** In a run of changed lines, each converted line is written once, where it is first asked for. */
  lemma {:induction false} RunWritesLinesOnce(c: Conversion, run: seq<string>, recent: seq<string>)
    requires c.Valid() && AllChanged(c, run)
    ensures NewLines(Rewrite(c, run, recent)) == FirstOccurrences(ConvertedLines(c, run), recent)
    decreases |run|
  {
    hide RuleFor, Strip, RewriteLine;
    if run != [] {
      assert run[0] in run && forall l :: l in run[1..] ==> l in run;
      var recent' := RecentAfter(c, run[0], recent);
      NewLinesConcat(RewriteLine(c, run[0], recent), Rewrite(c, run[1..], recent'));
      NewLinesOfOne(c, run[0], recent);
      RunWritesLinesOnce(c, run[1..], recent');
      assert ConvertedLines(c, run)[1..] == ConvertedLines(c, run[1..]);
    }
  }

  ghost predicate AllEqual(texts: seq<string>) {
    forall x, y :: x in texts && y in texts ==> x == y
  }

  /** The destination is written at most once in a run exactly when all its converted lines are equal, up to
      the blanks around them. */
  lemma WrittenOnceIff(c: Conversion, run: seq<string>)
    requires c.Valid() && AllChanged(c, run)
    ensures |NewLines(Rewrite(c, run, []))| <= 1 <==> AllEqual(ConvertedLines(c, run))
  {
    hide Rewrite, NewLines, ConvertedLines, FirstOccurrences, AllChanged;
    RunWritesLinesOnce(c, run, []);
    var texts := ConvertedLines(c, run);
    FirstOccurrencesAreUnique(texts, []);
    var r := FirstOccurrences(texts, []);
    if |r| >= 2 {
      assert r[0] in r && r[1] in r && r[0] != r[1];
    }
  }

  lemma {:induction false} ReplacePaddedKeepsLast(s: string, x: char, find: string, put: string, i: nat)
    requires find != "" && x !in find && x != ' '
    ensures ReplacePadded(s + [x], find, put, i) == ReplacePadded(s, find, put, i) + [x]
    decreases i
  {
    hide Replace;
    var pattern := find + Spaces(i);
    ReplaceKeepsLast(s, x, pattern, put);
    if i > 0 {
      ReplacePaddedKeepsLast(Replace(s, pattern, put), x, find, put, i - 1);
    }
  }

  function OneSource(): Conversion {
    Conversion(["m.s"], "m.nasm", _ => false)
  }

  /** What follows the name is part of the converted line. */
  lemma EndOfConverted(x: char)
    requires !IsSpace(x) && x !in "m.s"
    ensures OneSource().Valid()
    ensures var rule := RuleFor(OneSource(), "m.s " + [x]);
            rule.Changed? && var text := Strip(rule.text); text != "" && text[|text| - 1] == x
  {
    hide Contains, ReplacePadded, FirstMention;
    var c, src, line := OneSource(), "m.s", "m.s " + [x];
    assert src[1..] == ".s" && ToLower(".s") == ".s" && c.dst == src[..1] + ".nasm";
    assert RightStrip(line) == line;
    assert line == "" + src + (" " + [x]);
    ContainsAnywhere("", src, " " + [x]);
    assert c.sources[0] == src;
    LongerIsNotContained(src, c.dst);
    ReplacePaddedKeepsLast("m.s ", x, src, c.dst, 3);
    LeftStripKeepsLast(ReplacePadded(line, src, c.dst, 3));
  }

  /** So two lines for one file that differ in what follows are both written. */
  lemma DestinationIsWrittenTwice()
    ensures OneSource().Valid() && |NewLines(Rewrite(OneSource(), ["m.s A", "m.s B"], []))| > 1
  {
    hide Rewrite, NewLines, RuleFor, Strip, IsSpace;
    var c, run := OneSource(), ["m.s A", "m.s B"];
    NotSpace();
    EndOfConverted('A');
    EndOfConverted('B');
    assert "m.s " + ['A'] == run[0] && "m.s " + ['B'] == run[1] && run[1..] == ["m.s B"] && run[1..][1..] == [];
    WrittenOnceIff(c, run);
    var texts := ConvertedLines(c, run);
    assert texts == [Strip(RuleFor(c, run[0]).text)] + ([Strip(RuleFor(c, run[1]).text)] + []);
    assert texts[0] in texts && texts[1] in texts && texts[0] != texts[1];
  }

  lemma NotSpace()
    ensures !IsSpace('A') && !IsSpace('B')
  {
  }

  /** Runs do not influence each other: an unchanged line starts afresh. */
  lemma {:induction false} RunsAreSeparate(c: Conversion, run: seq<string>, line: string, rest: seq<string>,
      recent: seq<string>)
    requires c.Valid() && RuleFor(c, line).Same?
    ensures Rewrite(c, run + [line] + rest, recent) == Rewrite(c, run, recent) + [Old(line)] + Rewrite(c, rest, [])
    decreases |run|
  {
    hide RuleFor, Strip;
    var all := run + [line] + rest;
    if run == [] {
      assert all == [line] + rest && all[1..] == rest;
    } else {
      assert all[1..] == run[1..] + [line] + rest;
      RunsAreSeparate(c, run[1..], line, rest, RecentAfter(c, run[0], recent));
    }
  }
}
