/** Rewriting a file to DOS style: five regular-expression substitutions over its bytes. */
module FormatDos {
  import opened Bytes

  const TAB: Byte := 9
  const LF: Byte := 10
  const CR: Byte := 13
  const SPACE: Byte := 32
  const CRLF: seq<Byte> := [CR, LF]

  type Text = seq<Byte>

  predicate IsBlank(b: Byte) { b == SPACE || b == TAB }

  // Substitution of non-overlapping matches, leftmost first.

  /** A pattern with its replacement: at a position of a text, how many bytes match and what replaces them. */
  type Pattern = (Text, nat) -> Option<(nat, Text)>

  /** Scans from `i`: a match is replaced and skipped, any other byte is copied. */
  function Substitute(p: Pattern, s: Text, i: nat): Text
    decreases |s| - i
  {
    if i >= |s| then []
    else match p(s, i)
      case Some((n, t)) => if 1 <= n <= |s| - i then t + Substitute(p, s, i + n) else [s[i]] + Substitute(p, s, i + 1)
      case None => [s[i]] + Substitute(p, s, i + 1)
  }

  predicate CrlfAt(s: Text, i: nat) {
    i + 1 < |s| && s[i] == CR && s[i + 1] == LF
  }

  function BlankRun(s: Text): (n: nat)
    ensures n <= |s|
    ensures forall j :: 0 <= j < n ==> IsBlank(s[j])
    ensures n < |s| ==> !IsBlank(s[n])
  {
    if s == [] || !IsBlank(s[0]) then 0 else 1 + BlankRun(s[1..])
  }

  // ([^\r])\n
  function BareNewline(s: Text, i: nat): Option<(nat, Text)> {
    if i + 1 < |s| && s[i] != CR && s[i + 1] == LF then Some((2, [s[i]] + CRLF)) else None
  }

  // ^\n, where ^ matches at the start and after every newline
  function NewlineAtLineStart(s: Text, i: nat): Option<(nat, Text)> {
    if i < |s| && s[i] == LF && (i == 0 || s[i - 1] == LF) then Some((1, CRLF)) else None
  }

  // ([^\r\n])$, where $ matches at the end and before a newline that ends the text
  function UnterminatedEnd(s: Text, i: nat): Option<(nat, Text)> {
    if i < |s| && s[i] != CR && s[i] != LF && (i == |s| - 1 || (i == |s| - 2 && s[i + 1] == LF))
    then Some((1, [s[i]] + CRLF)) else None
  }

  // [ \t]+(\r\n)
  function TrailingBlanks(s: Text, i: nat): Option<(nat, Text)> {
    if i < |s| && IsBlank(s[i]) && CrlfAt(s, i + BlankRun(s[i..])) then Some((BlankRun(s[i..]) + 2, CRLF)) else None
  }

  // \t
  function Tab(s: Text, i: nat): Option<(nat, Text)> {
    if i < |s| && s[i] == TAB then Some((1, [SPACE, SPACE])) else None
  }

  /** What FormatFile makes of the content of a file. */
  function Format(content: Text): Text {
    var c1 := Substitute(BareNewline, content, 0);
    var c2 := Substitute(NewlineAtLineStart, c1, 0);
    var c3 := Substitute(UnterminatedEnd, c2, 0);
    var c4 := Substitute(TrailingBlanks, c3, 0);
    Substitute(Tab, c4, 0)
  }

  // The reference: line by line.

  function DropCr(line: Text): Text {
    if line != [] && line[|line| - 1] == CR then line[..|line| - 1] else line
  }

  function DropBlanks(line: Text): (r: Text)
    ensures r <= line
    ensures r == [] || !IsBlank(r[|r| - 1])
  {
    if line == [] || !IsBlank(line[|line| - 1]) then line else DropBlanks(line[..|line| - 1])
  }

  function Expand(line: Text): (r: Text)
    ensures TAB !in r
  {
    if line == [] then [] else (if line[0] == TAB then [SPACE, SPACE] else [line[0]]) + Expand(line[1..])
  }

  function FirstNewline(s: Text): (k: nat)
    ensures k <= |s|
    ensures LF !in s[..k]
    ensures k < |s| ==> s[k] == LF
  {
    if s == [] || s[0] == LF then 0 else 1 + FirstNewline(s[1..])
  }

  /** Each line: its line break made CRLF, trailing blanks dropped, tabs expanded.  A last line without a
      newline is completed, unless it ends in a CR. */
  function Reference(s: Text): Text {
    var k := FirstNewline(s);
    if k < |s| then Expand(DropBlanks(DropCr(s[..k]))) + CRLF + Reference(s[k + 1..])
    else if s == [] || s[|s| - 1] == CR then Expand(s)
    else Expand(DropBlanks(s)) + CRLF
  }

  // The substitutions, each as a recursion over the rest of the text.

  function Pass1(s: Text): Text {
    if s == [] then []
    else if |s| >= 2 && s[0] != CR && s[1] == LF then [s[0]] + CRLF + Pass1(s[2..])
    else [s[0]] + Pass1(s[1..])
  }

  function Pass2(s: Text, lineStart: bool): Text {
    if s == [] then []
    else (if s[0] == LF && lineStart then CRLF else [s[0]]) + Pass2(s[1..], s[0] == LF)
  }

  predicate BlanksBeforeCrlf(s: Text) {
    s != [] && IsBlank(s[0]) && CrlfAt(s, BlankRun(s))
  }

  function AfterBlanks(s: Text): (r: Text)
    requires BlanksBeforeCrlf(s)
    ensures |r| < |s|
  {
    s[BlankRun(s) + 2..]
  }

  function Pass4(s: Text): Text {
    if s == [] then []
    else if BlanksBeforeCrlf(s) then CRLF + Pass4(AfterBlanks(s))
    else [s[0]] + Pass4(s[1..])
  }

  // One byte at a time.

  lemma Pass2Cons(b: Byte, s: Text, lineStart: bool)
    ensures Pass2([], lineStart) == []
    ensures Pass2([b] + s, lineStart) == (if b == LF && lineStart then CRLF else [b]) + Pass2(s, b == LF)
  {
    assert ([b] + s)[1..] == s;
  }

  lemma ExpandCons(b: Byte, s: Text)
    ensures Expand([]) == []
    ensures Expand([b] + s) == (if b == TAB then [SPACE, SPACE] else [b]) + Expand(s)
  {
    assert ([b] + s)[1..] == s;
  }

  lemma {:induction false} SubstituteIsPass1(s: Text, i: nat)
    requires i <= |s|
    ensures Substitute(BareNewline, s, i) == Pass1(s[i..])
    decreases |s| - i
  {
    if i < |s| {
      if BareNewline(s, i).Some? {
        SubstituteIsPass1(s, i + 2);
        assert s[i..][2..] == s[i + 2..];
      } else {
        SubstituteIsPass1(s, i + 1);
        assert s[i..][1..] == s[i + 1..];
      }
    }
  }

  lemma {:induction false} SubstituteIsPass2(s: Text, i: nat)
    requires i <= |s|
    ensures Substitute(NewlineAtLineStart, s, i) == Pass2(s[i..], i == 0 || s[i - 1] == LF)
    decreases |s| - i
  {
    if i < |s| {
      SubstituteIsPass2(s, i + 1);
      assert s[i..][1..] == s[i + 1..];
    }
  }

  lemma TrailingBlanksInRest(s: Text, i: nat)
    requires i < |s|
    ensures TrailingBlanks(s, i)
         == if IsBlank(s[i]) && CrlfAt(s[i..], BlankRun(s[i..])) then Some((BlankRun(s[i..]) + 2, CRLF)) else None
  {
    hide BlankRun;
  }

  lemma SubstituteStep(p: Pattern, s: Text, i: nat, n: nat)
    requires i < |s| && 1 <= n <= |s| - i
    ensures p(s, i) == None ==> Substitute(p, s, i) == [s[i]] + Substitute(p, s, i + 1)
    ensures p(s, i) == Some((n, CRLF)) ==> Substitute(p, s, i) == CRLF + Substitute(p, s, i + n)
  {
  }

  lemma {:induction false} SubstituteIsPass4(s: Text, i: nat)
    requires i <= |s|
    ensures Substitute(TrailingBlanks, s, i) == Pass4(s[i..])
    decreases |s| - i
  {
    hide BlankRun, TrailingBlanks, Substitute;
    var t := s[i..];
    if i == |s| {
      SubstituteEnd(TrailingBlanks, s);
    } else {
      var n := BlankRun(t);
      TrailingBlanksInRest(s, i);
      if IsBlank(s[i]) && CrlfAt(t, n) {
        SubstituteStep(TrailingBlanks, s, i, n + 2);
        SubstituteIsPass4(s, i + n + 2);
        assert t[n + 2..] == s[i + n + 2..];
      } else {
        SubstituteStep(TrailingBlanks, s, i, 1);
        SubstituteIsPass4(s, i + 1);
        assert t[1..] == s[i + 1..];
      }
    }
  }

  lemma SubstituteEnd(p: Pattern, s: Text)
    ensures Substitute(p, s, |s|) == []
  {
  }

  lemma {:induction false} SubstituteIsExpand(s: Text, i: nat)
    requires i <= |s|
    ensures Substitute(Tab, s, i) == Expand(s[i..])
    decreases |s| - i
  {
    if i < |s| {
      SubstituteIsExpand(s, i + 1);
      assert s[i..][1..] == s[i + 1..];
    }
  }

  // Line breaks: the second substitution catches exactly what the first misses.

  /** Every newline that follows no CR gets one. */
  function AddCr(s: Text, afterCr: bool): Text {
    if s == [] then []
    else (if s[0] == LF && !afterCr then CRLF else [s[0]]) + AddCr(s[1..], s[0] == CR)
  }

  lemma {:induction false} PassesAddCr(s: Text, lineStart: bool, afterCr: bool)
    requires afterCr ==> !lineStart
    requires s != [] && s[0] == LF ==> lineStart != afterCr
    ensures Pass2(Pass1(s), lineStart) == AddCr(s, afterCr)
  {
    hide Pass2, AddCr;
    if s == [] {
      Pass2Cons(CR, [], lineStart);
      AddCrCons(CR, [], afterCr);
    } else if |s| >= 2 && s[0] != CR && s[1] == LF {
      var b, u := s[0], s[2..];
      Pass2Three(b, Pass1(u), lineStart);
      assert s == [b] + ([LF] + u);
      AddCrCons(b, [LF] + u, afterCr);
      AddCrCons(LF, u, false);
      PassesAddCr(u, true, false);
    } else {
      var b, u := s[0], s[1..];
      Pass2Cons(b, Pass1(u), lineStart);
      assert s == [b] + u;
      AddCrCons(b, u, afterCr);
      PassesAddCr(u, b == LF, b == CR);
    }
  }

  lemma Pass2Three(b: Byte, rest: Text, lineStart: bool)
    requires b != CR
    ensures Pass2([b] + CRLF + rest, lineStart)
         == (if b == LF && lineStart then CRLF else [b]) + (CRLF + Pass2(rest, true))
  {
    hide Pass2;
    assert [b] + CRLF + rest == [b] + ([CR] + ([LF] + rest));
    Pass2Cons(b, [CR] + ([LF] + rest), lineStart);
    Pass2Cons(CR, [LF] + rest, b == LF);
    Pass2Cons(LF, rest, false);
    Regroup([CR], [LF], Pass2(rest, true));
  }

  lemma AddCrCons(b: Byte, s: Text, afterCr: bool)
    ensures AddCr([], afterCr) == []
    ensures AddCr([b] + s, afterCr) == (if b == LF && !afterCr then CRLF else [b]) + AddCr(s, b == CR)
  {
    assert ([b] + s)[1..] == s;
  }

  lemma {:induction false} AddCrConcat(s: Text, t: Text, afterCr: bool)
    ensures AddCr(s + t, afterCr) == AddCr(s, afterCr) + AddCr(t, if s == [] then afterCr else s[|s| - 1] == CR)
  {
    hide AddCr;
    if s == [] {
      AddCrCons(CR, [], afterCr);
      assert s + t == t;
    } else {
      var b, u := s[0], s[1..];
      assert s == [b] + u && s + t == [b] + (u + t);
      AddCrCons(b, u + t, afterCr);
      AddCrCons(b, u, afterCr);
      AddCrConcat(u, t, b == CR);
      assert u != [] ==> u[|u| - 1] == s[|s| - 1];
    }
  }

  lemma {:induction false} AddCrWithoutNewline(s: Text, afterCr: bool)
    requires LF !in s
    ensures AddCr(s, afterCr) == s
  {
    if s != [] {
      AddCrWithoutNewline(s[1..], s[0] == CR);
    }
  }

  /** The first line of a text, once its break is CRLF. */
  lemma AddCrLine(line: Text, rest: Text)
    requires LF !in line
    ensures AddCr(line + [LF] + rest, false) == DropCr(line) + CRLF + AddCr(rest, false)
  {
    hide AddCr;
    AddCrConcat(line + [LF], rest, false);
    AddCrConcat(line, [LF], false);
    AddCrCons(LF, [], false);
    AddCrCons(LF, [], true);
    assert [LF] == [LF] + [];
    AddCrWithoutNewline(line, false);
    if line != [] && line[|line| - 1] == CR {
      assert line == DropCr(line) + [CR];
      assert line + [LF] == DropCr(line) + CRLF;
    }
  }

  // The end of the text.

  predicate NeedsEnd(s: Text) {
    s != [] && s[|s| - 1] != CR && s[|s| - 1] != LF
  }

  lemma {:induction false} AddCrShape(s: Text, afterCr: bool)
    ensures var t := AddCr(s, afterCr);
            && (t == [] <==> s == [])
            && (s != [] ==> t[|t| - 1] == s[|s| - 1])
            && NewlinesFollowCr(t)
            && (s != [] && t[0] == LF ==> afterCr)
  {
    if s != [] {
      AddCrShape(s[1..], s[0] == CR);
    }
  }

  lemma {:induction false} CopiesWithoutMatch(p: Pattern, s: Text, i: nat)
    requires i <= |s| && forall j :: i <= j < |s| ==> p(s, j).None?
    ensures Substitute(p, s, i) == s[i..]
    decreases |s| - i
  {
    if i < |s| {
      CopiesWithoutMatch(p, s, i + 1);
    }
  }

  lemma {:induction false} CopiesUpTo(p: Pattern, s: Text, i: nat, k: nat)
    requires i <= k <= |s| && forall j :: i <= j < k ==> p(s, j).None?
    ensures Substitute(p, s, i) == s[i..k] + Substitute(p, s, k)
    decreases k - i
  {
    if i < k {
      CopiesUpTo(p, s, i + 1, k);
      assert s[i..k] == [s[i]] + s[i + 1..k];
      Regroup([s[i]], s[i + 1..k], Substitute(p, s, k));
    }
  }

  predicate NewlinesFollowCr(t: Text) {
    forall i :: 0 < i < |t| && t[i] == LF ==> t[i - 1] == CR
  }

  lemma MatchesOnlyAtEnd(t: Text, j: nat)
    requires NewlinesFollowCr(t) && j < |t|
    ensures UnterminatedEnd(t, j) == if j == |t| - 1 && NeedsEnd(t) then Some((1, [t[j]] + CRLF)) else None
  {
  }

  lemma SubstituteLast(p: Pattern, t: Text, r: Text)
    requires t != [] && p(t, |t| - 1) == Some((1, r))
    ensures Substitute(p, t, |t| - 1) == r
  {
    assert Substitute(p, t, |t|) == [];
    assert r + [] == r;
  }

  lemma Pass3OfText(t: Text)
    requires NewlinesFollowCr(t)
    ensures Substitute(UnterminatedEnd, t, 0) == if NeedsEnd(t) then t + CRLF else t
  {
    hide NewlinesFollowCr, Substitute;
    forall j | 0 <= j < |t|
      ensures UnterminatedEnd(t, j) == if j == |t| - 1 && NeedsEnd(t) then Some((1, [t[j]] + CRLF)) else None
    {
      MatchesOnlyAtEnd(t, j);
    }
    hide UnterminatedEnd;
    if NeedsEnd(t) {
      var n := |t|;
      CopiesUpTo(UnterminatedEnd, t, 0, n - 1);
      SubstituteLast(UnterminatedEnd, t, [t[n - 1]] + CRLF);
      assert t[0..n - 1] + ([t[n - 1]] + CRLF) == t + CRLF;
    } else {
      CopiesWithoutMatch(UnterminatedEnd, t, 0);
      assert t[0..] == t;
    }
  }

  /** Once every newline follows a CR, the third substitution only completes an open last line. */
  lemma Pass3Completes(s: Text)
    ensures Substitute(UnterminatedEnd, AddCr(s, false), 0) == AddCr(if NeedsEnd(s) then s + CRLF else s, false)
  {
    hide Substitute, AddCr, UnterminatedEnd;
    AddCrShape(s, false);
    Pass3OfText(AddCr(s, false));
    AddCrConcat(s, CRLF, false);
    AddCrCons(CR, [LF], false);
    AddCrCons(LF, [], true);
    assert CRLF == [CR] + [LF] && [LF] == [LF] + [];
  }

  // Blanks and tabs, line by line.

  lemma DropLastBlank(b: Text)
    ensures DropBlanks([]) == []
    ensures b != [] ==> DropBlanks(b) == if IsBlank(b[|b| - 1]) then DropBlanks(b[..|b| - 1]) else b
  {
  }

  lemma {:induction false} DropBlanksStep(b: Text)
    requires b != []
    ensures BlankRun(b) == |b| ==> DropBlanks(b) == []
    ensures BlankRun(b) < |b| ==> DropBlanks(b) == [b[0]] + DropBlanks(b[1..])
    decreases |b|
  {
    hide DropBlanks, BlankRun;
    var n := |b| - 1;
    DropLastBlank(b);
    DropLastBlank(b[1..]);
    if IsBlank(b[n]) && n > 0 {
      DropBlanksStep(b[..n]);
      BlankRunPrefix(b, n);
      assert b[..n][1..] == b[1..][..n - 1];
    } else if n > 0 {
      assert b == [b[0]] + b[1..];
    }
  }

  lemma BlankRunPrefix(b: Text, n: nat)
    requires n < |b| && IsBlank(b[n])
    ensures BlankRun(b[..n]) == n ==> BlankRun(b) > n
    ensures BlankRun(b[..n]) < n ==> BlankRun(b) == BlankRun(b[..n])
  {
    hide BlankRun;
    var r, r' := BlankRun(b), BlankRun(b[..n]);
    if r' == n {
      assert forall j :: 0 <= j <= n ==> IsBlank(b[j]);
    } else {
      assert !IsBlank(b[r']) && forall j :: 0 <= j < r' ==> IsBlank(b[j]);
    }
  }

  lemma Pass4Cons(b: Byte, s: Text)
    requires !IsBlank(b) || !CrlfAt([b] + s, BlankRun([b] + s))
    ensures Pass4([b] + s) == [b] + Pass4(s)
  {
    assert ([b] + s)[1..] == s;
  }

  lemma {:induction false} Pass4Line(b: Text, rest: Text)
    requires LF !in b
    ensures Pass4(b + CRLF + rest) == DropBlanks(b) + CRLF + Pass4(rest)
    decreases |b|
  {
    hide Pass4, BlankRun, DropBlanks;
    var s := b + CRLF + rest;
    if b == [] {
      assert s == [CR] + ([LF] + rest);
      Pass4Cons(CR, [LF] + rest);
      Pass4Cons(LF, rest);
      DropBlanksEmpty();
    } else {
      DropBlanksStep(b);
      BlankRunInLine(b, rest);
      if BlankRun(b) == |b| {
        assert IsBlank(s[0]);
        assert s[|b| + 2..] == rest;
        Pass4Match(s);
      } else {
        var u := b[1..];
        assert s == [b[0]] + (u + CRLF + rest);
        Pass4Cons(b[0], u + CRLF + rest);
        Pass4Line(u, rest);
        Regroup([b[0]], DropBlanks(u), CRLF + Pass4(rest));
      }
    }
  }

  lemma DropBlanksEmpty()
    ensures DropBlanks([]) == []
  {
  }

  lemma Pass4Unfold(s: Text)
    requires BlanksBeforeCrlf(s)
    ensures Pass4(s) == CRLF + Pass4(AfterBlanks(s))
  {
    hide AfterBlanks;
    assert s != [];
    hide BlanksBeforeCrlf;
  }

  lemma Pass4Match(s: Text)
    requires s != [] && IsBlank(s[0]) && CrlfAt(s, BlankRun(s))
    ensures Pass4(s) == CRLF + Pass4(s[BlankRun(s) + 2..])
  {
    hide Pass4, BlankRun;
    Pass4Unfold(s);
  }

  lemma BlankRunUnique(s: Text, n: nat)
    requires n < |s| && !IsBlank(s[n]) && forall j :: 0 <= j < n ==> IsBlank(s[j])
    ensures BlankRun(s) == n
  {
    hide BlankRun;
  }

  lemma BlankRunInLine(b: Text, rest: Text)
    requires LF !in b
    ensures var s := b + CRLF + rest;
            BlankRun(s) == BlankRun(b) && (CrlfAt(s, BlankRun(s)) <==> BlankRun(b) == |b|)
  {
    hide BlankRun;
    var s := b + CRLF + rest;
    var n := BlankRun(b);
    assert forall j :: 0 <= j < |b| ==> s[j] == b[j];
    assert s[|b|] == CR && s[|b| + 1] == LF;
    BlankRunUnique(s, n);
    if n < |b| {
      assert s[n + 1] == if n + 1 < |b| then b[n + 1] else CR;
    }
  }

  lemma {:induction false} Pass4WithoutNewline(s: Text)
    requires LF !in s
    ensures Pass4(s) == s
  {
    if s != [] {
      Pass4WithoutNewline(s[1..]);
    }
  }

  lemma {:induction false} ExpandConcat(s: Text, t: Text)
    ensures Expand(s + t) == Expand(s) + Expand(t)
  {
    hide Expand;
    if s == [] {
      ExpandCons(CR, []);
      assert s + t == t;
    } else {
      var b, u := s[0], s[1..];
      assert s == [b] + u && s + t == [b] + (u + t);
      ExpandCons(b, u + t);
      ExpandCons(b, u);
      ExpandConcat(u, t);
    }
  }

  lemma ExpandCrlf()
    ensures Expand(CRLF) == CRLF
  {
    hide Expand;
    assert CRLF == [CR] + ([LF] + []);
    ExpandCons(CR, [LF] + []);
    ExpandCons(LF, []);
  }

  /** The three substitutions that are left, on a text whose line breaks are still to be completed. */
  function Rest(s: Text): Text {
    Expand(Pass4(AddCr(if NeedsEnd(s) then s + CRLF else s, false)))
  }

  lemma RestOfLine(line: Text, rest: Text)
    requires LF !in line
    ensures Rest(line + [LF] + rest) == Expand(DropBlanks(DropCr(line))) + CRLF + Rest(rest)
  {
    hide AddCr, Pass4, Expand, DropBlanks;
    var s := line + [LF] + rest;
    var fullRest := if NeedsEnd(rest) then rest + CRLF else rest;
    assert rest != [] ==> rest[|rest| - 1] == s[|s| - 1];
    assert (if NeedsEnd(s) then s + CRLF else s) == line + [LF] + fullRest;
    AddCrLine(line, fullRest);
    OneLine(DropCr(line), AddCr(fullRest, false));
  }

  lemma RestOfOpenLine(s: Text)
    requires LF !in s && NeedsEnd(s)
    ensures Rest(s) == Expand(DropBlanks(s)) + CRLF
  {
    hide AddCr, Pass4, Expand, DropBlanks;
    assert s + CRLF == (s + [CR]) + [LF] + [];
    AddCrLine(s + [CR], []);
    assert DropCr(s + [CR]) == s;
    OneLine(s, []);
    NothingOfNothing();
  }

  lemma NothingOfNothing()
    ensures AddCr([], false) == [] && Pass4([]) == [] && Expand([]) == []
  {
  }

  lemma RestOfClosedLine(s: Text)
    requires LF !in s && !NeedsEnd(s)
    ensures Rest(s) == Expand(s)
  {
    hide AddCr, Pass4, Expand;
    AddCrWithoutNewline(s, false);
    Pass4WithoutNewline(s);
  }

  lemma {:induction false} RestIsReference(s: Text)
    ensures Rest(s) == Reference(s)
    decreases |s|
  {
    hide Rest, Expand, DropBlanks, FirstNewline;
    var k := FirstNewline(s);
    if k < |s| {
      assert s == s[..k] + [LF] + s[k + 1..];
      RestOfLine(s[..k], s[k + 1..]);
      RestIsReference(s[k + 1..]);
    } else {
      assert s == s[..k];
      if NeedsEnd(s) {
        RestOfOpenLine(s);
      } else {
        RestOfClosedLine(s);
      }
    }
  }

  lemma OneLine(b: Text, rest: Text)
    requires LF !in b
    ensures Expand(Pass4(b + CRLF + rest)) == Expand(DropBlanks(b)) + CRLF + Expand(Pass4(rest))
  {
    Pass4Line(b, rest);
    ExpandConcat(DropBlanks(b) + CRLF, Pass4(rest));
    ExpandConcat(DropBlanks(b), CRLF);
    ExpandCrlf();
  }

  /** For every content, the five substitutions do what the line-by-line reference says. */
  lemma FormatIsReference(content: Text)
    ensures Format(content) == Reference(content)
  {
    hide Substitute, Reference, Pass1, Pass2, Pass4, AddCr, Expand;
    var c1 := Substitute(BareNewline, content, 0);
    var c2 := Substitute(NewlineAtLineStart, c1, 0);
    var c3 := Substitute(UnterminatedEnd, c2, 0);
    var c4 := Substitute(TrailingBlanks, c3, 0);
    SubstituteIsPass1(content, 0);
    SubstituteIsPass2(c1, 0);
    SubstituteIsPass4(c3, 0);
    SubstituteIsExpand(c4, 0);
    assert content[0..] == content && c1[0..] == c1 && c3[0..] == c3 && c4[0..] == c4;
    PassesAddCr(content, true, false);
    Pass3Completes(content);
    RestIsReference(content);
  }

  // The normal form.

  /** Every newline follows a CR, no tab is left, no blank stands before CRLF, and the text ends in a CR or CRLF. */
  ghost predicate Normal(s: Text) {
    && (forall i :: 0 <= i < |s| && s[i] == LF ==> i > 0 && s[i - 1] == CR)
    && TAB !in s
    && (forall i :: 0 < i && CrlfAt(s, i) ==> !IsBlank(s[i - 1]))
    && !NeedsEnd(s)
  }

  lemma {:induction false} ExpandShape(s: Text)
    ensures LF in Expand(s) <==> LF in s
    ensures Expand(s) == [] <==> s == []
    ensures s != [] ==>
              var b, e := s[|s| - 1], Expand(s);
              (e[|e| - 1] == CR <==> b == CR) && (IsBlank(e[|e| - 1]) <==> IsBlank(b))
  {
    if s != [] {
      ExpandShape(s[1..]);
    }
  }

  lemma NormalLine(b: Text, rest: Text)
    requires LF !in b && TAB !in b && (b != [] ==> !IsBlank(b[|b| - 1])) && Normal(rest)
    ensures Normal(b + CRLF + rest)
  {
    var s := b + CRLF + rest;
    var n := |b| + 2;
    assert forall i :: n <= i < |s| ==> s[i] == rest[i - n];
    assert forall i :: 0 <= i < |b| ==> s[i] == b[i];
    forall i | 0 < i && CrlfAt(s, i) ensures !IsBlank(s[i - 1]) {
      if i > n {
        assert CrlfAt(rest, i - n);
      }
    }
  }

  lemma {:induction false} ReferenceIsNormal(s: Text)
    ensures Normal(Reference(s))
    decreases |s|
  {
    hide Expand, DropBlanks, Normal;
    var k := FirstNewline(s);
    if k < |s| {
      NormalBody(DropCr(s[..k]));
      ReferenceIsNormal(s[k + 1..]);
      NormalLine(Expand(DropBlanks(DropCr(s[..k]))), Reference(s[k + 1..]));
    } else if s == [] || s[|s| - 1] == CR {
      assert s == s[..k];
      NormalLast(s);
    } else {
      assert s == s[..k];
      NormalBody(s);
      NormalLast([]);
      NormalLine(Expand(DropBlanks(s)), []);
      Regroup(Expand(DropBlanks(s)) + CRLF, [], []);
    }
  }

  lemma NormalBody(b: Text)
    requires LF !in b
    ensures var e := Expand(DropBlanks(b)); LF !in e && TAB !in e && (e != [] ==> !IsBlank(e[|e| - 1]))
  {
    hide Expand;
    ExpandShape(DropBlanks(b));
  }

  lemma NormalLast(s: Text)
    requires LF !in s && (s == [] || s[|s| - 1] == CR)
    ensures Normal(Expand(s))
    ensures Normal([])
  {
    hide Expand;
    ExpandShape(s);
  }

  lemma {:induction false} ExpandWithoutTab(s: Text)
    requires TAB !in s
    ensures Expand(s) == s
  {
    if s != [] {
      ExpandWithoutTab(s[1..]);
    }
  }

  lemma {:induction false} NormalIsFixed(s: Text)
    requires Normal(s)
    ensures Reference(s) == s
    decreases |s|
  {
    hide Expand, FirstNewline, Normal;
    var k := FirstNewline(s);
    if k < |s| {
      NormalFirstLine(s, k);
      var b := DropCr(s[..k]);
      ExpandWithoutTab(b);
      NormalIsFixed(s[k + 1..]);
    } else {
      assert s == s[..k];
      NormalEnd(s);
      ExpandWithoutTab(s);
    }
  }

  lemma NormalEnd(s: Text)
    requires Normal(s) && LF !in s
    ensures TAB !in s && (s == [] || s[|s| - 1] == CR)
  {
  }

  lemma NormalFirstLine(s: Text, k: nat)
    requires Normal(s) && k < |s| && s[k] == LF && LF !in s[..k]
    ensures var b := DropCr(s[..k]);
            s == b + CRLF + s[k + 1..] && TAB !in b && DropBlanks(b) == b
    ensures Normal(s[k + 1..])
  {
    var b, rest := DropCr(s[..k]), s[k + 1..];
    assert k > 0 && s[k - 1] == CR;
    assert b == s[..k - 1] && CrlfAt(s, k - 1);
    forall i | 0 <= i < |rest| && rest[i] == LF ensures i > 0 && rest[i - 1] == CR {
      assert s[k + 1 + i] == LF;
    }
    forall i | 0 < i && CrlfAt(rest, i) ensures !IsBlank(rest[i - 1]) {
      assert CrlfAt(s, k + 1 + i);
    }
  }

  /** For every content: the result is in normal form, and formatting again changes nothing. */
  lemma FormatNormalizes(content: Text)
    ensures Normal(Format(content))
    ensures Format(Format(content)) == Format(content)
  {
    hide Format, Reference, Normal;
    FormatIsReference(content);
    FormatIsReference(Format(content));
    ReferenceIsNormal(content);
    NormalIsFixed(Reference(content));
  }

  /** Exactly the texts in normal form are left alone. */
  lemma FixedIffNormal(content: Text)
    ensures Format(content) == content <==> Normal(content)
  {
    hide Format, Reference, Normal;
    FormatIsReference(content);
    ReferenceIsNormal(content);
    if Normal(content) {
      NormalIsFixed(content);
    }
  }

  /** The result ends in CRLF, unless the content is empty or ends in a CR. */
  predicate EndsFor(content: Text, r: Text) {
    && (r == [] <==> content == [])
    && (content != [] && content[|content| - 1] == CR ==> r[|r| - 1] == CR)
    && (content != [] && content[|content| - 1] != CR ==> |r| >= 2 && CrlfAt(r, |r| - 2))
  }

  lemma EndsAfterLine(line: Text, rest: Text, b: Text, r: Text)
    requires EndsFor(rest, r)
    ensures EndsFor(line + [LF] + rest, b + CRLF + r)
  {
    var s, t := line + [LF] + rest, b + CRLF + r;
    assert rest != [] ==> rest[|rest| - 1] == s[|s| - 1];
    assert r != [] ==> r[|r| - 1] == t[|t| - 1];
    assert |r| >= 2 ==> r[|r| - 2] == t[|t| - 2];
  }

  lemma EndsOpenLine(s: Text, b: Text)
    requires s != [] && s[|s| - 1] != CR
    ensures EndsFor(s, b + CRLF)
  {
  }

  lemma {:induction false} ReferenceEnd(s: Text)
    ensures EndsFor(s, Reference(s))
    decreases |s|
  {
    hide Expand, DropBlanks, FirstNewline, EndsFor;
    var k := FirstNewline(s);
    if k < |s| {
      ReferenceEnd(s[k + 1..]);
      assert s == s[..k] + [LF] + s[k + 1..];
      EndsAfterLine(s[..k], s[k + 1..], Expand(DropBlanks(DropCr(s[..k]))), Reference(s[k + 1..]));
    } else if s == [] || s[|s| - 1] == CR {
      ExpandEnds(s);
    } else {
      EndsOpenLine(s, Expand(DropBlanks(s)));
    }
  }

  lemma ExpandEnds(s: Text)
    requires s == [] || s[|s| - 1] == CR
    ensures EndsFor(s, Expand(s))
  {
    hide Expand;
    ExpandShape(s);
  }

  lemma FormatEnd(content: Text)
    ensures EndsFor(content, Format(content))
  {
    hide Format, Reference;
    FormatIsReference(content);
    ReferenceEnd(content);
  }

  // Nothing but white space is touched.

  function Ink(s: Text): Text {
    if s == [] then []
    else (if IsBlank(s[0]) || s[0] == CR || s[0] == LF then [] else [s[0]]) + Ink(s[1..])
  }

  lemma InkCons(b: Byte, s: Text)
    ensures Ink([]) == []
    ensures Ink([b] + s) == (if IsBlank(b) || b == CR || b == LF then [] else [b]) + Ink(s)
  {
    assert ([b] + s)[1..] == s;
  }

  lemma {:induction false} InkConcat(s: Text, t: Text)
    ensures Ink(s + t) == Ink(s) + Ink(t)
  {
    hide Ink;
    if s == [] {
      InkCons(CR, []);
      assert s + t == t;
    } else {
      var b, u := s[0], s[1..];
      assert s == [b] + u && s + t == [b] + (u + t);
      InkCons(b, u + t);
      InkCons(b, u);
      InkConcat(u, t);
    }
  }

  lemma InkOfSpace(b: Byte)
    requires IsBlank(b) || b == CR || b == LF
    ensures Ink([b]) == [] && Ink(CRLF) == []
  {
    assert CRLF[1..] == [LF];
    assert Ink([LF]) == [];
  }

  lemma {:induction false} InkOfExpand(s: Text)
    ensures Ink(Expand(s)) == Ink(s)
  {
    hide Ink;
    if s != [] {
      var b, u := s[0], s[1..];
      assert s == [b] + u;
      InkCons(b, u);
      InkOfExpand(u);
      InkConcat(if b == TAB then [SPACE, SPACE] else [b], Expand(u));
      if b == TAB {
        InkOfSpace(SPACE);
        InkConcat([SPACE], [SPACE]);
        assert [SPACE, SPACE] == [SPACE] + [SPACE];
      } else {
        InkCons(b, []);
        assert [b] == [b] + [];
      }
    }
  }

  lemma {:induction false} InkOfDropBlanks(s: Text)
    ensures Ink(DropBlanks(s)) == Ink(s)
    decreases |s|
  {
    hide Ink;
    if s != [] && IsBlank(s[|s| - 1]) {
      var n := |s| - 1;
      assert s == s[..n] + [s[n]];
      InkConcat(s[..n], [s[n]]);
      InkOfSpace(s[n]);
      InkOfDropBlanks(s[..n]);
    }
  }

  lemma InkOfDropCr(s: Text)
    ensures Ink(DropCr(s)) == Ink(s)
  {
    hide Ink;
    if s != [] && s[|s| - 1] == CR {
      assert s == DropCr(s) + [CR];
      InkConcat(DropCr(s), [CR]);
      InkOfSpace(CR);
    }
  }

  lemma InkOfLine(line: Text, r: Text)
    ensures Ink(Expand(DropBlanks(line)) + CRLF + r) == Ink(line) + Ink(r)
  {
    hide Ink, Expand, DropBlanks;
    var e := Expand(DropBlanks(line));
    InkConcat(e + CRLF, r);
    InkConcat(e, CRLF);
    InkOfSpace(CR);
    InkOfExpand(DropBlanks(line));
    InkOfDropBlanks(line);
  }

  lemma {:induction false} InkOfReference(s: Text)
    ensures Ink(Reference(s)) == Ink(s)
    decreases |s|
  {
    hide Ink, Expand, DropBlanks, FirstNewline;
    var k := FirstNewline(s);
    if k < |s| {
      var line, rest := s[..k], s[k + 1..];
      assert s == line + ([LF] + rest);
      InkConcat(line, [LF] + rest);
      InkCons(LF, rest);
      InkOfReference(rest);
      InkOfDropCr(line);
      InkOfLine(DropCr(line), Reference(rest));
    } else if s == [] || s[|s| - 1] == CR {
      InkOfExpand(s);
    } else {
      InkOfLine(s, []);
      InkCons(CR, []);
      Regroup(Expand(DropBlanks(s)) + CRLF, [], []);
    }
  }

  /** For every content, the bytes that are no white space keep their values and their order. */
  lemma FormatKeepsInk(content: Text)
    ensures Ink(Format(content)) == Ink(content)
  {
    hide Format, Reference, Ink;
    FormatIsReference(content);
    InkOfReference(content);
  }

  /** A tab inside a line becomes two spaces; the rest of the line stays. */
  lemma TabBecomesTwoSpaces(left: Text, right: Text)
    requires TAB !in left + right && LF !in left + right && CR !in left + right
    requires right != [] && !IsBlank(right[|right| - 1])
    ensures Format(left + [TAB] + right + CRLF) == left + [SPACE, SPACE] + right + CRLF
  {
    hide Format, Reference, Expand, DropBlanks, DropCr;
    var line := left + [TAB] + right;
    var content := line + CRLF;
    FormatIsReference(content);
    assert content == line + [CR] + [LF] + [] && content[..|line| + 1] == line + [CR];
    assert LF !in line + [CR] && content[|line| + 1] == LF && content[|line| + 2..] == [];
    ReferenceOfLine(content, |line| + 1);
    KeptLine(line);
    ExpandConcat(left + [TAB], right);
    ExpandConcat(left, [TAB]);
    ExpandWithoutTab(left);
    ExpandWithoutTab(right);
    ExpandTab();
    assert left + [SPACE, SPACE] + right + CRLF + [] == left + [SPACE, SPACE] + right + CRLF;
  }

  lemma ReferenceOfLine(s: Text, k: nat)
    requires k < |s| && s[k] == LF && LF !in s[..k] && s[k + 1..] == []
    ensures Reference(s) == Expand(DropBlanks(DropCr(s[..k]))) + CRLF + []
  {
    hide Expand, DropBlanks, DropCr;
    var n := FirstNewline(s);
    forall i | 0 <= i < n ensures s[i] != LF {
      assert s[..n][i] == s[i] && s[..n][i] in s[..n];
    }
    forall i | 0 <= i < k ensures s[i] != LF {
      assert s[..k][i] == s[i] && s[..k][i] in s[..k];
    }
    assert n == k;
    NothingIsReference();
  }

  lemma NothingIsReference()
    ensures Reference([]) == []
  {
  }

  lemma KeptLine(line: Text)
    requires line != [] && !IsBlank(line[|line| - 1])
    ensures DropBlanks(DropCr(line + [CR])) == line
  {
    assert (line + [CR])[..|line|] == line;
  }

  lemma ExpandTab()
    ensures Expand([TAB]) == [SPACE, SPACE]
  {
    assert [TAB][1..] == [];
  }
}
