/** Finding and removing the items of a DEC file that nothing refers to. */
module NotUsedItem {
  import opened PythonStrings

  // DSC, FDF and INF files: the lines without comments.

  predicate IsComment(line: string) {
    StartsWith(Strip(line), "#")
  }

  predicate IsBareNewline(line: string) {
    line == "\n" || line == "\r\n"
  }

  predicate IsDropped(line: string) {
    IsComment(line) || IsBareNewline(line)
  }

  /** The text before the first of a character. */
  function Before(s: string, c: char): string {
    if s == "" || s[0] == c then "" else [s[0]] + Before(s[1..], c)
  }

  function CleanLine(line: string): string {
    if '#' in line then Strip(Before(line, '#')) else Strip(line)
  }

  /** The lines that are neither comments nor bare newlines, cleaned, in order. */
  function CleanLines(lines: seq<string>): seq<string> {
    if lines == [] then []
    else (if IsDropped(lines[0]) then [] else [CleanLine(lines[0])]) + CleanLines(lines[1..])
  }

  /** A comment is a line whose first character that is no white space is a '#'. */
  lemma CommentIff(line: string)
    ensures IsComment(line)
       <==> exists i :: 0 <= i < |line| && line[i] == '#' && forall j :: 0 <= j < i ==> IsSpace(line[j])
  {
    hide IsSpace;
    MarkIsNoSpace();
    var t := RightStrip(line);
    LeadingMark(t);
    if i :| 0 <= i < |line| && line[i] == '#' && forall j :: 0 <= j < i ==> IsSpace(line[j]) {
      assert i < |t| && t[i] == '#';
    }
    if i :| 0 <= i < |t| && t[i] == '#' && forall j :: 0 <= j < i ==> IsSpace(t[j]) {
      assert line[i] == '#' && forall j :: 0 <= j < i ==> IsSpace(line[j]);
    }
  }

  lemma MarkIsNoSpace()
    ensures !IsSpace('#')
  {
  }

  lemma {:induction false} LeadingMark(s: string)
    ensures StartsWith(LeftStrip(s), "#")
       <==> exists i :: 0 <= i < |s| && s[i] == '#' && forall j :: 0 <= j < i ==> IsSpace(s[j])
  {
    hide IsSpace;
    MarkIsNoSpace();
    if s != "" && IsSpace(s[0]) {
      var t := s[1..];
      LeadingMark(t);
      if i :| 0 <= i < |t| && t[i] == '#' && forall j :: 0 <= j < i ==> IsSpace(t[j]) {
        assert s[i + 1] == '#' && forall j :: 0 < j < i + 1 ==> s[j] == t[j - 1];
      }
      if i :| 0 <= i < |s| && s[i] == '#' && forall j :: 0 <= j < i ==> IsSpace(s[j]) {
        assert t[i - 1] == '#' && forall j :: 0 <= j < i - 1 ==> t[j] == s[j + 1];
      }
    } else if s != "" {
      assert s[0] == '#' ==> "#" <= s;
    }
  }

  lemma {:induction false} BeforeOf(s: string, c: char, rest: string)
    requires c !in s
    ensures Before(s, c) == s && Before(s + [c] + rest, c) == s
  {
    var t := s + [c] + rest;
    if s == "" {
      assert t[0] == c;
    } else {
      assert t[1..] == s[1..] + [c] + rest;
      BeforeOf(s[1..], c, rest);
    }
  }

  /** A line is cleaned of its comment and of the blanks around the rest. */
  lemma CleanLineOf(left: string, core: string, right: string, comment: string)
    requires AllSpace(left) && AllSpace(right) && IsStripped(core) && '#' !in core
    ensures CleanLine(left + core + right) == core
    ensures CleanLine(left + core + right + ['#'] + comment) == core
  {
    hide Strip, Before, IsSpace;
    MarkIsNoSpace();
    var text := left + core + right;
    assert '#' !in text;
    BeforeOf(text, '#', comment);
    StripOf(left, core, right);
    assert '#' in text + ['#'] + comment;
  }

  // Selections of lines.

  /** The texts are those with the numbers `at`, in order. */
  ghost predicate Selects(at: seq<nat>, lines: seq<string>, texts: seq<string>) {
    && |at| == |texts|
    && (forall j :: 0 <= j < |at| ==> at[j] < |lines| && texts[j] == lines[at[j]])
    && (forall i, j :: 0 <= i < j < |at| ==> at[i] < at[j])
  }

  lemma SelectsOneMore(at: seq<nat>, lines: seq<string>, texts: seq<string>, i: nat)
    requires Selects(at, lines, texts) && i < |lines| && forall n :: n in at ==> i < n
    ensures Selects([i] + at, lines, [lines[i]] + texts)
    ensures forall n :: n in [i] + at <==> n == i || n in at
  {
    var at', texts' := [i] + at, [lines[i]] + texts;
    assert forall j :: 0 < j < |at'| ==> at'[j] == at[j - 1] && at[j - 1] in at && texts'[j] == texts[j - 1];
  }

  function CleanAll(lines: seq<string>): (r: seq<string>)
    ensures |r| == |lines|
  {
    seq(|lines|, i requires 0 <= i < |lines| => CleanLine(lines[i]))
  }

  /** The clean lines are those that are not dropped, each cleaned, in order. */
  lemma {:induction false} CleanLinesSelect(lines: seq<string>, i: nat) returns (at: seq<nat>)
    requires i <= |lines|
    ensures Selects(at, CleanAll(lines), CleanLines(lines[i..]))
    ensures forall n: nat :: n in at <==> i <= n < |lines| && !IsDropped(lines[n])
    decreases |lines| - i
  {
    hide IsDropped, CleanLine, Selects;
    at := [];
    if i < |lines| {
      var rest := CleanLinesSelect(lines, i + 1);
      assert lines[i..][0] == lines[i] && lines[i..][1..] == lines[i + 1..];
      at := rest;
      if !IsDropped(lines[i]) {
        SelectsOneMore(rest, CleanAll(lines), CleanLines(lines[i + 1..]), i);
        at := [i] + rest;
      } else {
        assert CleanLines(lines[i..]) == CleanLines(lines[i + 1..]);
      }
    } else {
      SelectsNothing(CleanAll(lines));
    }
  }

  lemma SelectsNothing(lines: seq<string>)
    ensures Selects([], lines, [])
  {
  }

  /** Python's remove: the first element that is equal goes. */
  function Remove(lines: seq<string>, x: string): (r: seq<string>)
    requires x in lines
    ensures |r| == |lines| - 1
  {
    if lines[0] == x then lines[1..] else [lines[0]] + Remove(lines[1..], x)
  }

  lemma {:induction false} CleanLinesConcat(s: seq<string>, t: seq<string>)
    ensures CleanLines(s + t) == CleanLines(s) + CleanLines(t)
  {
    hide IsDropped, CleanLine;
    if s == [] {
      assert s + t == t;
    } else {
      assert (s + t)[1..] == s[1..] + t;
      CleanLinesConcat(s[1..], t);
    }
  }

  /** Removing a dropped line anywhere leaves the clean lines as they are. */
  lemma {:induction false} RemoveKeepsClean(lines: seq<string>, x: string)
    requires x in lines && IsDropped(x)
    ensures CleanLines(Remove(lines, x)) == CleanLines(lines)
    decreases |lines|
  {
    hide IsDropped, CleanLine;
    if lines[0] != x {
      RemoveKeepsClean(lines[1..], x);
      var r := Remove(lines, x);
      assert r[0] == lines[0] && r[1..] == Remove(lines[1..], x);
    }
  }

  lemma {:induction false} RemoveInPrefix(s: seq<string>, t: seq<string>, x: string)
    requires x in s
    ensures x in s + t && Remove(s + t, x) == Remove(s, x) + t
    decreases |s|
  {
    if s[0] == x {
      assert (s + t)[1..] == s[1..] + t;
    } else {
      RemoveInPrefix(s[1..], t, x);
      assert (s + t)[1..] == s[1..] + t;
    }
  }

  /** The loop walks backward and removes by value, so an equal line further up may go instead of the
      current one; the result is nevertheless the clean lines in order. */
  method ParseDscFdfInfContent(content: seq<string>) returns (lines: seq<string>)
    ensures lines == CleanLines(content)
  {
    hide IsDropped, CleanLine, CleanLines, Remove;
    lines := content;
    var i := |lines|;
    NoLines();
    assert lines[..i] == lines && lines[i..] == [];
    while i > 0
      invariant i <= |lines|
      invariant CleanLines(lines[..i]) + lines[i..] == CleanLines(content)
    {
      var x := lines[i - 1];
      ghost var head, done := lines[..i], lines[i..];
      assert lines == head + done && head == head[..i - 1] + [x];
      if IsDropped(x) {
        RemoveInPrefix(head, done, x);
        RemoveKeepsClean(head, x);
        lines := Remove(lines, x);
        assert lines[..i - 1] == Remove(head, x) && lines[i - 1..] == done;
      } else {
        CleanLinesConcat(head[..i - 1], [x]);
        OneCleanLine(x);
        lines := lines[i - 1 := CleanLine(x)];
        assert lines[..i - 1] == head[..i - 1] && lines[i - 1..] == [CleanLine(x)] + done;
      }
      i := i - 1;
    }
    assert lines[..0] == [] && lines[0..] == lines;
  }

  lemma NoLines()
    ensures CleanLines([]) == []
  {
  }

  lemma OneCleanLine(x: string)
    requires !IsDropped(x)
    ensures CleanLines([x]) == [CleanLine(x)]
  {
    hide IsDropped, CleanLine;
    assert [x][1..] == [];
  }

  // The DEC file: items and the lines above them.

  /** The bracketed section of a line, if it has one, and whether that section is to be parsed. */
  type SectionTest = string -> SectionMark

  datatype SectionMark = NoSection | Section(wanted: bool)

  /** Whether line `i` lies in a wanted section; a commented section mark does not count. */
  predicate Wanted(test: SectionTest, lines: seq<string>, i: nat)
    requires i < |lines|
  {
    if !IsComment(lines[i]) && test(lines[i]).Section? then test(lines[i]).wanted
    else i > 0 && Wanted(test, lines, i - 1)
  }

  predicate MarksSection(test: SectionTest, line: string) {
    !IsComment(line) && test(line).Section?
  }

  /** The nearest section mark at or above a line decides. */
  lemma {:induction false} WantedIff(test: SectionTest, lines: seq<string>, i: nat)
    requires i < |lines|
    ensures Wanted(test, lines, i) <==>
            exists k :: && 0 <= k <= i && MarksSection(test, lines[k]) && test(lines[k]).wanted
                        && forall j :: k < j <= i ==> !MarksSection(test, lines[j])
    decreases i
  {
    hide IsComment;
    if !MarksSection(test, lines[i]) && i > 0 {
      WantedIff(test, lines, i - 1);
    }
  }

  predicate IsItem(test: SectionTest, lines: seq<string>, i: nat)
    requires i < |lines|
  {
    Wanted(test, lines, i) && !IsDropped(lines[i])
  }

  function ItemName(line: string): string {
    Strip(Before(Before(Before(line, '='), '|'), '#'))
  }

  /** The item's name is what stands before the first '=', '|' or '#', without the blanks around it. */
  lemma ItemNameOf(left: string, name: string, right: string, mark: char, rest: string)
    requires AllSpace(left) && AllSpace(right) && IsStripped(name)
    requires '=' !in name && '|' !in name && '#' !in name && (mark == '=' || mark == '|' || mark == '#')
    ensures ItemName(left + name + right) == name
    ensures ItemName(left + name + right + [mark] + rest) == name
  {
    hide Strip, Before, IsSpace;
    MarksAreNoSpace();
    var text := left + name + right;
    assert '=' !in text && '|' !in text && '#' !in text;
    StripOf(left, name, right);
    BeforeOf(text, '=', rest);
    BeforeOf(text, '|', rest);
    BeforeOf(text, '#', rest);
    BeforeMark(text, mark, rest);
  }

  lemma MarksAreNoSpace()
    ensures !IsSpace('=') && !IsSpace('|') && !IsSpace('#')
  {
  }

  lemma BeforeMark(text: string, mark: char, rest: string)
    requires '=' !in text && '|' !in text && '#' !in text && (mark == '=' || mark == '|' || mark == '#')
    ensures Before(Before(Before(text + [mark] + rest, '='), '|'), '#') == text
  {
    hide Before;
    var line := text + [mark] + rest;
    BeforeOf(text, '=', rest);
    BeforeOf(text, '|', rest);
    BeforeOf(text, '#', rest);
    if mark != '=' {
      BeforeOther(text, mark, rest, '=');
      var rest1 := Before(rest, '=');
      BeforeOf(text, '|', rest1);
      BeforeOf(text, '#', rest1);
      if mark != '|' {
        BeforeOther(text, mark, rest1, '|');
        BeforeOf(text, '#', Before(rest1, '|'));
      }
    }
  }

  lemma {:induction false} BeforeOther(text: string, mark: char, rest: string, c: char)
    requires c !in text && mark != c
    ensures Before(text + [mark] + rest, c) == text + [mark] + Before(rest, c)
  {
    var line := text + [mark] + rest;
    if text == "" {
      assert line[0] == mark && line[1..] == rest;
    } else {
      assert line[1..] == text[1..] + [mark] + rest;
      BeforeOther(text[1..], mark, rest, c);
    }
  }

  /** Line `i` of a wanted section, with no item from there up to line `n`. */
  ghost predicate Pending(test: SectionTest, lines: seq<string>, i: nat, n: nat) {
    i < n <= |lines| && Wanted(test, lines, i) && forall j :: i <= j < n ==> !IsItem(test, lines, j)
  }

  /** Line `i` belongs to item `k`: it is the item's line, or a pending line above it. */
  ghost predicate BelongsTo(test: SectionTest, lines: seq<string>, i: nat, k: nat) {
    k < |lines| && IsItem(test, lines, k) && (i == k || Pending(test, lines, i, k))
  }

  /** The numbers in every block of comments are the lines that belong to its item. */
  ghost predicate AreBlocks(test: SectionTest, lines: seq<string>, comments: map<nat, seq<nat>>) {
    && (forall k: nat, i: nat :: k in comments ==> (i in comments[k] <==> BelongsTo(test, lines, i, k)))
  }

  lemma PendingStep(test: SectionTest, lines: seq<string>, i: nat, n: nat)
    requires n < |lines|
    ensures Pending(test, lines, i, n + 1)
       <==> !IsItem(test, lines, n) && (Pending(test, lines, i, n) || (i == n && Wanted(test, lines, n)))
  {
    hide IsItem, Wanted;
  }

  method ParseDecContent(test: SectionTest, lines: seq<string>) returns (items: map<nat, string>, comments: map<nat,
      seq<nat>>)
    ensures forall k: nat :: k in items <==> k < |lines| && IsItem(test, lines, k)
    ensures forall k: nat :: k in items ==> items[k] == ItemName(lines[k])
    ensures comments.Keys == items.Keys
    ensures AreBlocks(test, lines, comments)
  {
    hide IsComment, IsBareNewline, ItemName, Pending;
    items, comments := map[], map[];
    var flag, pending: seq<nat> := false, [];
    assert forall i: nat :: !Pending(test, lines, i, 0) by { NothingPending(test, lines); }
    for n := 0 to |lines|
      invariant flag == (n > 0 && Wanted(test, lines, n - 1))
      invariant forall i: nat :: i in pending <==> Pending(test, lines, i, n)
      invariant forall k: nat :: k in items <==> k < n && IsItem(test, lines, k)
      invariant forall k: nat :: k in items ==> items[k] == ItemName(lines[k])
      invariant comments.Keys == items.Keys
      invariant AreBlocks(test, lines, comments)
    {
      var content := lines[n];
      var mark := test(content);
      if mark.Section? && !IsComment(content) {
        flag := mark.wanted;
      }
      assert flag == Wanted(test, lines, n);
      ghost var before := pending;
      if flag {
        pending := pending + [n];
        if !IsComment(content) && !IsBareNewline(content) {
          items := items[n := ItemName(content)];
          comments := comments[n := pending];
          pending := [];
        }
      }
      assert IsItem(test, lines, n) ==> pending == [];
      assert !IsItem(test, lines, n) ==> pending == before + if flag then [n] else [];
      forall i: nat ensures i in pending <==> Pending(test, lines, i, n + 1) {
        PendingStep(test, lines, i, n);
        assert i in before <==> Pending(test, lines, i, n);
      }
    }
  }

  lemma NothingPending(test: SectionTest, lines: seq<string>)
    ensures forall i: nat :: !Pending(test, lines, i, 0)
  {
  }

  /** The lines that go with the unused items. */
  ghost predicate IsRemoved(test: SectionTest, lines: seq<string>, unused: seq<nat>, i: nat) {
    exists k :: k in unused && BelongsTo(test, lines, i, k)
  }

  method RemovedNumbers(test: SectionTest, lines: seq<string>, unused: seq<nat>, comments: map<nat,
      seq<nat>>) returns (removed: seq<nat>)
    requires AreBlocks(test, lines, comments)
    requires forall k: nat :: k in comments <==> k < |lines| && IsItem(test, lines, k)
    ensures forall i: nat :: i in removed <==> IsRemoved(test, lines, unused, i)
  {
    hide IsItem, Pending;
    removed := [];
    for n := 0 to |unused|
      invariant forall i: nat :: i in removed <==> IsRemoved(test, lines, unused[..n], i)
    {
      var num := unused[n];
      assert unused[..n + 1] == unused[..n] + [num];
      if num in comments {
        removed := removed + comments[num];
      }
    }
    assert unused[..|unused|] == unused;
  }

  /** The lines whose numbers are not in `removed`, from line `i` on. */
  function Without(lines: seq<string>, removed: seq<nat>, i: nat): seq<string>
    requires i <= |lines|
    decreases |lines| - i
  {
    if i == |lines| then [] else (if i in removed then [] else [lines[i]]) + Without(lines, removed, i + 1)
  }

  lemma {:induction false} WithoutSelects(lines: seq<string>, removed: seq<nat>, i: nat) returns (at: seq<nat>)
    requires i <= |lines|
    ensures Selects(at, lines, Without(lines, removed, i))
    ensures forall n: nat :: n in at <==> i <= n < |lines| && n !in removed
    decreases |lines| - i
  {
    hide Selects;
    at := [];
    if i < |lines| {
      var rest := WithoutSelects(lines, removed, i + 1);
      at := rest;
      if i !in removed {
        SelectsOneMore(rest, lines, Without(lines, removed, i + 1), i);
        at := [i] + rest;
      } else {
        assert [] + Without(lines, removed, i + 1) == Without(lines, removed, i + 1);
      }
    } else {
      SelectsNothing(lines);
    }
  }

  /** The cleaned file is the lines that are not removed, in order. */
  ghost predicate IsCleaned(test: SectionTest, lines: seq<string>, unused: seq<nat>, cleaned: seq<string>) {
    exists at: seq<nat> ::
      && Selects(at, lines, cleaned)
      && forall i: nat :: i in at <==> i < |lines| && !IsRemoved(test, lines, unused, i)
  }

  method Clean(test: SectionTest, lines: seq<string>, unused: seq<nat>, comments: map<nat,
      seq<nat>>) returns (cleaned: seq<string>, removed: seq<nat>)
    requires AreBlocks(test, lines, comments)
    requires forall k: nat :: k in comments <==> k < |lines| && IsItem(test, lines, k)
    ensures forall i: nat :: i in removed <==> IsRemoved(test, lines, unused, i)
    ensures cleaned == Without(lines, removed, 0)
    ensures IsCleaned(test, lines, unused, cleaned)
  {
    hide IsItem, IsRemoved, AreBlocks, Selects;
    removed := RemovedNumbers(test, lines, unused, comments);
    cleaned := [];
    for n := 0 to |lines|
      invariant cleaned + Without(lines, removed, n) == Without(lines, removed, 0)
    {
      if n !in removed {
        cleaned := cleaned + [lines[n]];
      }
    }
    assert cleaned == Without(lines, removed, 0);
    ghost var at := WithoutSelects(lines, removed, 0);
    assert Selects(at, lines, cleaned);
  }

  /** No line belongs to two items. */
  lemma BelongsToOne(test: SectionTest, lines: seq<string>, i: nat, k: nat, k': nat)
    requires BelongsTo(test, lines, i, k) && BelongsTo(test, lines, i, k')
    ensures k == k'
  {
  }

  /** The line of an item is removed exactly when that item is unused: no used item goes. */
  lemma ItemIsRemovedIffUnused(test: SectionTest, lines: seq<string>, unused: seq<nat>, k: nat)
    requires k < |lines| && IsItem(test, lines, k)
    ensures IsRemoved(test, lines, unused, k) <==> k in unused
  {
    assert BelongsTo(test, lines, k, k);
    if IsRemoved(test, lines, unused, k) {
      var k' :| k' in unused && BelongsTo(test, lines, k, k');
      BelongsToOne(test, lines, k, k, k');
    }
  }

  /** The cleaned file still has the line of every item that is used, and every line outside wanted sections. */
  lemma UsedItemStays(test: SectionTest, lines: seq<string>, unused: seq<nat>, cleaned: seq<string>, k: nat)
    requires IsCleaned(test, lines, unused, cleaned) && k < |lines|
    requires !Wanted(test, lines, k) || (IsItem(test, lines, k) && k !in unused)
    ensures lines[k] in cleaned
  {
    hide IsItem, Pending, Wanted;
    if Wanted(test, lines, k) {
      ItemIsRemovedIffUnused(test, lines, unused, k);
    } else {
      UnwantedStays(test, lines, unused, k);
    }
    var at :| Selects(at, lines, cleaned)
              && forall i: nat :: i in at <==> i < |lines| && !IsRemoved(test, lines, unused, i);
    assert k in at;
    var j :| 0 <= j < |at| && at[j] == k;
    assert cleaned[j] == lines[k];
  }

  lemma UnwantedStays(test: SectionTest, lines: seq<string>, unused: seq<nat>, i: nat)
    requires i < |lines| && !Wanted(test, lines, i)
    ensures !IsRemoved(test, lines, unused, i)
  {
  }

  /** The mark of a wanted section is an item itself, so it is removed when nothing refers to its text. */
  lemma SectionMarkIsItem(test: SectionTest, lines: seq<string>, unused: seq<nat>, i: nat)
    requires i < |lines| && test(lines[i]) == Section(true) && !IsDropped(lines[i])
    ensures IsItem(test, lines, i)
    ensures IsRemoved(test, lines, unused, i) <==> i in unused
  {
    ItemIsRemovedIffUnused(test, lines, unused, i);
  }
}
