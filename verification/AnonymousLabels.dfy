/** MASM to NASM: anonymous labels and the references to them. */
module AnonymousLabels {
  import opened Bytes
  import opened PythonStrings

  // Numbers in decimal, as "%d" prints them.

  function Digit(d: nat): char
    requires d < 10
  {
    "0123456789"[d]
  }

  function Digits(n: nat): (s: string)
    ensures s != ""
    ensures forall i :: 0 <= i < |s| ==> '0' <= s[i] <= '9'
  {
    if n < 10 then [Digit(n)] else Digits(n / 10) + [Digit(n % 10)]
  }

  function Decimal(n: int): string {
    if n < 0 then "-" + Digits(-n) else Digits(n)
  }

  function AnonLabel(count: int): string {
    "." + Decimal(count)
  }

  function Value(s: string): int {
    if s == "" then 0 else Value(s[..|s| - 1]) * 10 + (s[|s| - 1] as int - '0' as int)
  }

  lemma {:induction false} ValueOfDigits(n: nat)
    ensures Value(Digits(n)) == n
  {
    var s := Digits(n);
    if n < 10 {
      assert s[..0] == "" && Value(s) == Digit(n) as int - '0' as int;
    } else {
      ValueOfDigits(n / 10);
      assert s[..|s| - 1] == Digits(n / 10);
    }
  }

  /** Different counts give different labels. */
  lemma AnonLabelInjective(m: int, n: int)
    requires AnonLabel(m) == AnonLabel(n)
    ensures m == n
  {
    hide Decimal;
    assert AnonLabel(m)[1..] == Decimal(m) && AnonLabel(n)[1..] == Decimal(n);
    DecimalInjective(m, n);
  }

  lemma DecimalInjective(m: int, n: int)
    requires Decimal(m) == Decimal(n)
    ensures m == n
  {
    hide Digits, Value;
    var s := Decimal(m);
    assert s[0] == '-' <==> m < 0;
    assert s[0] == '-' <==> n < 0;
    if m < 0 {
      assert s[1..] == Digits(-m) && s[1..] == Digits(-n);
    }
    ValueOfDigits(if m < 0 then -m else m);
    ValueOfDigits(if n < 0 then -n else n);
  }

  lemma AnonLabelShape(n: int)
    ensures var s := AnonLabel(n); s != "" && s[0] == '.' && '@' !in s
  {
  }

  // The text of a line.

  function FourPasses(s: string, back: string, forward: string): string {
    Replace(Replace(Replace(Replace(s, "@b", back), "@B", back), "@f", forward), "@F", forward)
  }

  function ConvertAnonymousLabels(asm: string, count: int): string {
    FourPasses(asm, AnonLabel(count), AnonLabel(count + 1))
  }

  predicate IsBack(c: char) { c == 'b' || c == 'B' }
  predicate IsForward(c: char) { c == 'f' || c == 'F' }

  /** One reading from the left, each reference replaced by its label. */
  function OnePass(s: string, back: string, forward: string): string {
    if s == "" then ""
    else if |s| >= 2 && s[0] == '@' && IsBack(s[1]) then back + OnePass(s[2..], back, forward)
    else if |s| >= 2 && s[0] == '@' && IsForward(s[1]) then forward + OnePass(s[2..], back, forward)
    else [s[0]] + OnePass(s[1..], back, forward)
  }

  predicate IsLabelText(x: string) {
    x != "" && x[0] == '.' && '@' !in x
  }

  lemma ReplaceHit(c: char, t: string, x: string)
    ensures Replace(['@', c] + t, ['@', c], x) == x + Replace(t, ['@', c], x)
    ensures Replace("", ['@', c], x) == ""
  {
    assert (['@', c] + t)[2..] == t;
  }

  lemma TwoCharPrefix(s: string, a: char, b: char)
    ensures [a, b] <= s <==> |s| >= 2 && s[0] == a && s[1] == b
  {
    if |s| >= 2 {
      assert s[..2] == [s[0], s[1]];
    }
  }

  lemma ReplaceMiss(a: char, t: string, c: char, x: string)
    requires a != '@' || t == "" || t[0] != c
    ensures Replace([a] + t, ['@', c], x) == [a] + Replace(t, ['@', c], x)
  {
    TwoCharPrefix([a] + t, '@', c);
    assert ([a] + t)[1..] == t;
  }

  lemma ReplaceFirst(t: string, c: char, x: string)
    requires IsLabelText(x)
    ensures var r := Replace(t, ['@', c], x);
            (r == "" <==> t == "") && (t != "" ==> r[0] == t[0] || r[0] == '.')
  {
  }

  lemma {:induction false} ReplaceSkips(u: string, t: string, c: char, x: string)
    requires '@' !in u
    ensures Replace(u + t, ['@', c], x) == u + Replace(t, ['@', c], x)
  {
    hide Replace;
    if u == "" {
      assert u + t == t;
    } else {
      assert u + t == [u[0]] + (u[1..] + t);
      ReplaceMiss(u[0], u[1..] + t, c, x);
      ReplaceSkips(u[1..], t, c, x);
      assert u == [u[0]] + u[1..];
    }
  }

  /** An '@' with another letter is passed over, with that letter. */
  lemma ReplaceOther(d: char, t: string, c: char, x: string)
    requires d != c && d != '@'
    ensures Replace(['@', d] + t, ['@', c], x) == ['@', d] + Replace(t, ['@', c], x)
  {
    hide Replace;
    assert ['@', d] + t == ['@'] + ([d] + t);
    ReplaceMiss('@', [d] + t, c, x);
    ReplaceMiss(d, t, c, x);
  }

  /** A two-letter reference, whichever of the four it is. */
  lemma PassesReference(d: char, t: string, back: string, forward: string)
    requires IsLabelText(back) && IsLabelText(forward)
    requires IsBack(d) || IsForward(d)
    ensures FourPasses(['@', d] + t, back, forward)
         == (if IsBack(d) then back else forward) + FourPasses(t, back, forward)
  {
    hide Replace;
    var s1 := Replace(t, "@b", back);
    var s2 := Replace(s1, "@B", back);
    var s3 := Replace(s2, "@f", forward);
    if d == 'b' {
      ReplaceHit('b', t, back);
      ReplaceSkips(back, s1, 'B', back);
      ReplaceSkips(back, s2, 'f', forward);
      ReplaceSkips(back, s3, 'F', forward);
    } else {
      ReplaceOther(d, t, 'b', back);
      if d == 'B' {
        ReplaceHit('B', s1, back);
        ReplaceSkips(back, s2, 'f', forward);
        ReplaceSkips(back, s3, 'F', forward);
      } else {
        ReplaceOther(d, s1, 'B', back);
        if d == 'f' {
          ReplaceHit('f', s2, forward);
          ReplaceSkips(forward, s3, 'F', forward);
        } else {
          ReplaceOther(d, s2, 'f', forward);
          ReplaceHit('F', s3, forward);
        }
      }
    }
  }

  /** Any other character is copied. */
  lemma PassesCharacter(a: char, t: string, back: string, forward: string)
    requires IsLabelText(back) && IsLabelText(forward)
    requires a != '@' || t == "" || !(IsBack(t[0]) || IsForward(t[0]))
    ensures FourPasses([a] + t, back, forward) == [a] + FourPasses(t, back, forward)
  {
    hide Replace;
    var s1 := Replace(t, "@b", back);
    var s2 := Replace(s1, "@B", back);
    var s3 := Replace(s2, "@f", forward);
    ReplaceFirst(t, 'b', back);
    ReplaceFirst(s1, 'B', back);
    ReplaceFirst(s2, 'f', forward);
    ReplaceMiss(a, t, 'b', back);
    ReplaceMiss(a, s1, 'B', back);
    ReplaceMiss(a, s2, 'f', forward);
    ReplaceMiss(a, s3, 'F', forward);
  }

  lemma {:induction false} FourPassesAreOne(s: string, back: string, forward: string)
    requires IsLabelText(back) && IsLabelText(forward)
    ensures FourPasses(s, back, forward) == OnePass(s, back, forward)
    decreases |s|
  {
    hide FourPasses, IsLabelText;
    if s == "" {
      NothingPasses(back, forward);
    } else if |s| >= 2 && s[0] == '@' && (IsBack(s[1]) || IsForward(s[1])) {
      assert s == ['@', s[1]] + s[2..];
      PassesReference(s[1], s[2..], back, forward);
      FourPassesAreOne(s[2..], back, forward);
    } else {
      assert s == [s[0]] + s[1..];
      PassesCharacter(s[0], s[1..], back, forward);
      FourPassesAreOne(s[1..], back, forward);
    }
  }

  lemma NothingPasses(back: string, forward: string)
    ensures FourPasses("", back, forward) == ""
  {
  }

  // Programs.

  /** A line of assembly: an anonymous label on a line of its own, or a statement that may define a label.
      Only some kinds of statement pass through the conversion of references. */
  datatype Line = Anonymous | Statement(name: Option<string>, text: string, converted: bool)

  /** A line of the translation. */
  datatype NasmLine = LocalLabel(local: string) | NasmStatement(name: Option<string>, text: string)

  class AsmConverter {
    var anonLabelCount: int
    var output: seq<NasmLine>

    constructor ()
      ensures anonLabelCount == -1 && output == []
    {
      anonLabelCount, output := -1, [];
    }

    method TranslateAsm(line: Line)
      modifies this
      ensures anonLabelCount == old(anonLabelCount) + if line.Anonymous? then 1 else 0
      ensures output == old(output) + [TranslateLine(line, anonLabelCount)]
    {
      match line
      case Anonymous =>
        anonLabelCount := anonLabelCount + 1;
        output := output + [LocalLabel(AnonLabel(anonLabelCount))];
      case Statement(name, text, converted) =>
        var newName, newText := name, text;
        if converted {
          newText := ConvertAnonymousLabels(text, anonLabelCount);
          if name.Some? {
            newName := Some(ConvertAnonymousLabels(name.value, anonLabelCount));
          }
        }
        output := output + [NasmStatement(newName, newText)];
    }

    method Convert(lines: seq<Line>)
      modifies this
      ensures output == old(output) + Translate(lines)
    {
      anonLabelCount := -1;
      for i := 0 to |lines|
        invariant anonLabelCount == CountAnonymous(lines, i) - 1
        invariant output == old(output) + Translate(lines)[..i]
      {
        TranslateAsm(lines[i]);
      }
    }
  }

  function TranslateName(name: string, converted: bool, count: int): string {
    if converted then ConvertAnonymousLabels(name, count) else name
  }

  /** `count` is the index of the last anonymous label up to and including this line. */
  function TranslateLine(line: Line, count: int): NasmLine {
    match line
    case Anonymous => LocalLabel(AnonLabel(count))
    case Statement(name, text, converted) =>
      NasmStatement(if name.None? then None else Some(TranslateName(name.value, converted, count)),
                    TranslateName(text, converted, count))
  }

  function CountAnonymous(lines: seq<Line>, i: nat): nat
    requires i <= |lines|
  {
    if i == 0 then 0 else CountAnonymous(lines, i - 1) + if lines[i - 1].Anonymous? then 1 else 0
  }

  function Translate(lines: seq<Line>): (out: seq<NasmLine>)
    ensures |out| == |lines|
  {
    seq(|lines|, i requires 0 <= i < |lines| => TranslateLine(lines[i], CountAnonymous(lines, i + 1) - 1))
  }

  // What references mean.

  /** A label in line `k` lies between a use in line `i` and line `j`; the label of line `i` itself comes
      before the use. */
  predicate Separates(k: int, i: int, j: int) {
    i < k < j || j < k <= i
  }

  /** An anonymous label in MASM: alone on its line, or in front of a statement. */
  predicate IsAnonymous(line: Line) {
    line.Anonymous? || line.name == Some("@@")
  }

  predicate Directed(i: nat, back: bool, j: nat) {
    if back then j <= i else i < j
  }

  /** MASM: `@b` in line `i` is the nearest anonymous label before it, `@f` the nearest one after it. */
  ghost predicate MasmTarget(lines: seq<Line>, i: nat, back: bool, j: nat) {
    && i < |lines| && j < |lines| && IsAnonymous(lines[j]) && Directed(i, back, j)
    && forall k :: 0 <= k < |lines| && Separates(k, i, j) ==> !IsAnonymous(lines[k])
  }

  predicate IsLocalName(name: string) {
    StartsWith(name, ".")
  }

  predicate StartsWithReference(s: string) {
    |s| >= 2 && s[0] == '@' && (IsBack(s[1]) || IsForward(s[1]))
  }

  /** A statement whose label is an ordinary one after the translation: the labels that the conversion of
      references turns into local ones are not. */
  predicate DefinesName(line: Line) {
    && line.Statement? && line.name.Some?
    && !IsLocalName(line.name.value)
    && !(line.converted && StartsWithReference(line.name.value))
  }

  ghost predicate NoNamedBetween(lines: seq<Line>, i: nat, j: nat) {
    forall k :: 0 <= k < |lines| && Separates(k, i, j) ==> !DefinesName(lines[k])
  }

  predicate NasmDefines(line: NasmLine, name: string) {
    line == LocalLabel(name) || (line.NasmStatement? && line.name == Some(name))
  }

  /** NASM: an ordinary label starts the scope of new local labels; a label with a leading dot does not. */
  predicate OpensScope(line: NasmLine) {
    line.NasmStatement? && line.name.Some? && !IsLocalName(line.name.value)
  }

  /** NASM: the local name, used in line `i`, is defined in line `j`, in the same scope. */
  ghost predicate NasmTarget(out: seq<NasmLine>, i: nat, name: string, j: nat) {
    && i < |out| && j < |out| && NasmDefines(out[j], name)
    && forall k :: 0 <= k < |out| && Separates(k, i, j) ==> !OpensScope(out[k])
  }

  /** The label that stands for `@b` or `@f` in line `i` of the translation. */
  function ReferenceName(lines: seq<Line>, i: nat, back: bool): string
    requires i < |lines|
  {
    AnonLabel(CountAnonymous(lines, i) - if back then 1 else 0)
  }

  /** The label of the statement in line `j` becomes the name that stands for the reference in line `i`. */
  predicate Imitates(lines: seq<Line>, i: nat, back: bool, j: nat)
    requires i < |lines|
  {
    && j < |lines| && lines[j].Statement? && lines[j].name.Some?
    && TranslateName(lines[j].name.value, lines[j].converted, CountAnonymous(lines, j) - 1)
       == ReferenceName(lines, i, back)
  }

  lemma {:induction false} CountGrows(lines: seq<Line>, i: nat, j: nat)
    requires i <= j <= |lines|
    ensures CountAnonymous(lines, i) <= CountAnonymous(lines, j)
    ensures CountAnonymous(lines, i) == CountAnonymous(lines, j) <==> forall k :: i <= k < j ==> !lines[k].Anonymous?
    decreases j - i
  {
    if i < j {
      CountGrows(lines, i, j - 1);
    }
  }

  lemma CountStep(lines: seq<Line>, i: nat)
    requires i < |lines|
    ensures CountAnonymous(lines, i + 1) == CountAnonymous(lines, i) + if lines[i].Anonymous? then 1 else 0
  {
  }

  ghost predicate NoLoneBetween(lines: seq<Line>, i: nat, j: nat) {
    forall k :: 0 <= k < |lines| && Separates(k, i, j) ==> !lines[k].Anonymous?
  }

  /** The label on line `j` has the number used in line `i` exactly when it is the nearest such line. */
  lemma CountFindsTarget(lines: seq<Line>, i: nat, back: bool, j: nat)
    requires i < |lines| && j < |lines| && lines[j].Anonymous? && !lines[i].Anonymous?
    ensures CountAnonymous(lines, j) == CountAnonymous(lines, i) - (if back then 1 else 0)
       <==> Directed(i, back, j) && NoLoneBetween(lines, i, j)
  {
    hide CountAnonymous;
    CountStep(lines, i);
    CountStep(lines, j);
    if j < i {
      CountGrows(lines, j + 1, i);
      assert forall k :: 0 <= k < |lines| && Separates(k, i, j) <==> j + 1 <= k <= i;
    } else {
      CountGrows(lines, i + 1, j);
      assert forall k :: 0 <= k < |lines| && Separates(k, i, j) <==> i + 1 <= k < j;
    }
  }

  /** Of the labels between, the anonymous ones in front of statements are named ones for NASM. */
  lemma NearestIffNoneBetween(lines: seq<Line>, i: nat, back: bool, j: nat)
    requires i < |lines| && j < |lines| && lines[j].Anonymous?
    ensures Directed(i, back, j) && NoLoneBetween(lines, i, j) && NoNamedBetween(lines, i, j)
       <==> MasmTarget(lines, i, back, j) && NoNamedBetween(lines, i, j)
  {
    var mark := "@@";
    assert mark[0] == '@' && mark[1] == '@';
    assert !IsLocalName(mark) && !StartsWithReference(mark);
    assert forall k :: 0 <= k < |lines| && IsAnonymous(lines[k]) ==> lines[k].Anonymous? || DefinesName(lines[k]);
  }

  lemma OnePassStart(s: string, back: string, forward: string)
    requires IsLabelText(back) && IsLabelText(forward)
    ensures IsLocalName(OnePass(s, back, forward)) <==> IsLocalName(s) || StartsWithReference(s)
  {
  }

  /** Converting references makes a name local exactly when it starts with one. */
  lemma LocalNameIff(name: string, converted: bool, count: int)
    ensures IsLocalName(TranslateName(name, converted, count))
       <==> IsLocalName(name) || (converted && StartsWithReference(name))
  {
    hide AnonLabel, OnePass, FourPasses;
    var back, forward := AnonLabel(count), AnonLabel(count + 1);
    AnonLabelShape(count);
    AnonLabelShape(count + 1);
    FourPassesAreOne(name, back, forward);
    OnePassStart(name, back, forward);
  }

  lemma OpensScopeIff(lines: seq<Line>, k: nat)
    requires k < |lines|
    ensures OpensScope(Translate(lines)[k]) <==> DefinesName(lines[k])
  {
    hide TranslateName, IsLocalName, StartsWithReference, CountAnonymous, AnonLabel;
    if lines[k].Statement? && lines[k].name.Some? {
      LocalNameIff(lines[k].name.value, lines[k].converted, CountAnonymous(lines, k + 1) - 1);
    }
  }

  lemma SameScopeIff(lines: seq<Line>, i: nat, j: nat)
    ensures NoNamedBetween(lines, i, j)
       <==> forall k :: 0 <= k < |lines| && Separates(k, i, j) ==> !OpensScope(Translate(lines)[k])
  {
    hide Translate, OpensScope, DefinesName, Separates;
    forall k | 0 <= k < |lines| ensures OpensScope(Translate(lines)[k]) <==> DefinesName(lines[k]) {
      OpensScopeIff(lines, k);
    }
  }

  /** What a line of the translation defines. */
  lemma DefinesIff(lines: seq<Line>, i: nat, back: bool, j: nat)
    requires i < |lines| && j < |lines|
    ensures NasmDefines(Translate(lines)[j], ReferenceName(lines, i, back)) <==>
            if lines[j].Anonymous?
            then CountAnonymous(lines, j) == CountAnonymous(lines, i) - (if back then 1 else 0)
            else Imitates(lines, i, back, j)
  {
    hide CountAnonymous, AnonLabel, TranslateName;
    CountStep(lines, j);
    var m, n := CountAnonymous(lines, j), CountAnonymous(lines, i) - (if back then 1 else 0);
    if lines[j].Anonymous? && AnonLabel(m) == AnonLabel(n) {
      AnonLabelInjective(m, n);
    }
  }

  /** What the translation keeps: a line is what the translated reference means in NASM exactly when no named
      label lies between, and it is a label on its own line that the reference meant in MASM, or a statement
      whose label imitates that name. */
  lemma TargetsArePreserved(lines: seq<Line>, i: nat, back: bool, j: nat)
    requires i < |lines| && lines[i].Statement?
    ensures NasmTarget(Translate(lines), i, ReferenceName(lines, i, back), j) <==>
            && NoNamedBetween(lines, i, j)
            && ((MasmTarget(lines, i, back, j) && lines[j].Anonymous?) || Imitates(lines, i, back, j))
  {
    hide CountAnonymous, ReferenceName, Translate, MasmTarget, Imitates, NoNamedBetween, NasmDefines, OpensScope,
         DefinesName, Separates;
    if j < |lines| {
      SameScopeIff(lines, i, j);
      DefinesIff(lines, i, back, j);
      if lines[j].Anonymous? {
        CountFindsTarget(lines, i, back, j);
        NearestIffNoneBetween(lines, i, back, j);
        NoImitation(lines, i, back, j);
      }
    } else {
      NoTarget(lines, i, back, j);
    }
  }

  lemma NoImitation(lines: seq<Line>, i: nat, back: bool, j: nat)
    requires i < |lines| && (j < |lines| ==> lines[j].Anonymous?)
    ensures !Imitates(lines, i, back, j)
  {
  }

  lemma NoTarget(lines: seq<Line>, i: nat, back: bool, j: nat)
    requires i < |lines| && j >= |lines|
    ensures !MasmTarget(lines, i, back, j) && !Imitates(lines, i, back, j)
  {
  }

  lemma MasmTargetUnique(lines: seq<Line>, i: nat, back: bool, j: nat, j': nat)
    requires MasmTarget(lines, i, back, j) && MasmTarget(lines, i, back, j')
    ensures j == j'
  {
    assert j < j' ==> Separates(j', i, j) || Separates(j, i, j');
    assert j' < j ==> Separates(j', i, j) || Separates(j, i, j');
  }

  /** A reference never moves to another anonymous label: the target is kept, or there is none. */
  lemma ReferencesNeverMove(lines: seq<Line>, i: nat, back: bool, j: nat, j': nat)
    requires i < |lines| && lines[i].Statement? && MasmTarget(lines, i, back, j)
    requires NasmTarget(Translate(lines), i, ReferenceName(lines, i, back), j') && !Imitates(lines, i, back, j')
    ensures j' == j && lines[j].Anonymous?
  {
    hide MasmTarget, NasmTarget, Imitates, NoNamedBetween, Translate, ReferenceName;
    TargetsArePreserved(lines, i, back, j');
    MasmTargetUnique(lines, i, back, j, j');
  }

  /** A reference to an anonymous label in front of a statement always loses its target. */
  lemma LabelledStatementIsLost(lines: seq<Line>, i: nat, back: bool, j: nat, j': nat)
    requires i < |lines| && lines[i].Statement? && MasmTarget(lines, i, back, j) && lines[j].Statement?
    ensures NasmTarget(Translate(lines), i, ReferenceName(lines, i, back), j') ==> Imitates(lines, i, back, j')
  {
    hide MasmTarget, NasmTarget, Imitates, NoNamedBetween, Translate, ReferenceName;
    TargetsArePreserved(lines, i, back, j');
    if MasmTarget(lines, i, back, j') {
      MasmTargetUnique(lines, i, back, j, j');
    }
  }

  /** Some labels do imitate: with a digit behind the reference, the name of a label ten times as far. */
  lemma NameImitatesLabel(count: nat, d: nat)
    requires count > 0 && d < 10
    ensures ConvertAnonymousLabels("@b" + [Digit(d)], count) == AnonLabel(10 * count + d)
  {
    hide FourPasses, OnePass, AnonLabel;
    var back, forward := AnonLabel(count), AnonLabel(count + 1);
    AnonLabelShape(count);
    AnonLabelShape(count + 1);
    FourPassesAreOne("@b" + [Digit(d)], back, forward);
    OnePassDigit(Digit(d), back, forward);
    LabelWithDigit(count, d);
  }

  lemma OnePassDigit(c: char, back: string, forward: string)
    requires c != '@'
    ensures OnePass("@b" + [c], back, forward) == back + [c]
  {
    assert ("@b" + [c])[2..] == [c] && [c][1..] == "";
    assert OnePass([c], back, forward) == [c];
  }

  lemma LabelWithDigit(count: nat, d: nat)
    requires count > 0 && d < 10
    ensures AnonLabel(count) + [Digit(d)] == AnonLabel(10 * count + d)
  {
    var n := 10 * count + d;
    assert n / 10 == count && n % 10 == d;
  }

  /** A statement keeps its text and its label, unless it is converted: then every `@b`, `@B`, `@f` and `@F` in
      either becomes the name that stands for it. */
  lemma ReferencesAreNamed(lines: seq<Line>, i: nat)
    requires i < |lines| && lines[i].Statement?
    ensures var back, forward := ReferenceName(lines, i, true), ReferenceName(lines, i, false);
            var named := (s: string) => if lines[i].converted then OnePass(s, back, forward) else s;
            var name := if lines[i].name.None? then None else Some(named(lines[i].name.value));
            Translate(lines)[i] == NasmStatement(name, named(lines[i].text))
  {
    hide AnonLabel, OnePass, FourPasses;
    var n := CountAnonymous(lines, i) - 1;
    AnonLabelShape(n);
    AnonLabelShape(n + 1);
    FourPassesAreOne(lines[i].text, AnonLabel(n), AnonLabel(n + 1));
    if lines[i].name.Some? {
      FourPassesAreOne(lines[i].name.value, AnonLabel(n), AnonLabel(n + 1));
    }
  }

  /** A label without an '@' stays as it is, so that different ones stay different. */
  lemma PlainLabelStays(lines: seq<Line>, i: nat)
    requires i < |lines| && lines[i].Statement? && lines[i].name.Some? && '@' !in lines[i].name.value
    ensures Translate(lines)[i].NasmStatement? && Translate(lines)[i].name == lines[i].name
  {
    hide OnePass, Translate, ReferenceName;
    var back, forward := ReferenceName(lines, i, true), ReferenceName(lines, i, false);
    var name := lines[i].name.value;
    ReferencesAreNamed(lines, i);
    OnePassSkips(name, "", back, forward);
    assert name + "" == name;
    OnePassBack("", back, forward);
  }

  // The conversion inside names.

  lemma OnePassCopies(c: char, t: string, back: string, forward: string)
    requires c != '@'
    ensures OnePass([c] + t, back, forward) == [c] + OnePass(t, back, forward)
  {
    assert ([c] + t)[1..] == t;
  }

  lemma {:induction false} OnePassSkips(u: string, t: string, back: string, forward: string)
    requires '@' !in u
    ensures OnePass(u + t, back, forward) == u + OnePass(t, back, forward)
  {
    hide OnePass;
    if u == "" {
      assert u + t == t;
    } else {
      assert u + t == [u[0]] + (u[1..] + t);
      OnePassCopies(u[0], u[1..] + t, back, forward);
      OnePassSkips(u[1..], t, back, forward);
      assert u == [u[0]] + u[1..];
    }
  }

  lemma OnePassBack(t: string, back: string, forward: string)
    ensures OnePass("@b" + t, back, forward) == back + OnePass(t, back, forward)
    ensures OnePass("", back, forward) == ""
  {
    assert ("@b" + t)[2..] == t;
  }

  /** One reference in a text that has no other. */
  lemma OneReference(u: string, t: string, back: string, forward: string)
    requires IsLabelText(back) && IsLabelText(forward) && '@' !in u && '@' !in t
    ensures FourPasses(u + "@b" + t, back, forward) == u + back + t
  {
    hide FourPasses, OnePass;
    FourPassesAreOne(u + "@b" + t, back, forward);
    assert u + "@b" + t == u + ("@b" + t);
    OnePassSkips(u, "@b" + t, back, forward);
    OnePassBack(t, back, forward);
    OnePassSkips(t, "", back, forward);
    assert t + "" == t;
  }

  /** The two characters are replaced wherever they stand, also inside an identifier. */
  lemma IdentifierIsCut(back: string, forward: string)
    requires IsLabelText(back) && IsLabelText(forward)
    ensures FourPasses("foo@bar", back, forward) == "foo" + back + "ar"
  {
    hide FourPasses;
    OneReference("foo", "ar", back, forward);
    assert "foo@bar" == "foo" + "@b" + "ar";
  }

  /** A label that starts with a reference becomes a local one and starts no scope: the target is kept. */
  lemma LabelBecomesLocal()
    ensures var lines := [Anonymous, Statement(Some("@begin"), "jmp @b", true)];
            && Translate(lines) == [LocalLabel(".0"), NasmStatement(Some(".0egin"), "jmp .0")]
            && ReferenceName(lines, 1, true) == ".0"
            && MasmTarget(lines, 1, true, 0) && NasmTarget(Translate(lines), 1, ".0", 0)
  {
    hide FourPasses;
    var lines := [Anonymous, Statement(Some("@begin"), "jmp @b", true)];
    FirstCounts(lines);
    assert AnonLabel(0) == ".0" && AnonLabel(1) == ".1";
    OneReference("", "egin", ".0", ".1");
    OneReference("jmp ", "", ".0", ".1");
    assert "@begin" == "" + "@b" + "egin" && "jmp @b" == "jmp " + "@b" + "";
    assert Translate(lines)[1].name.value == ".0egin" && Translate(lines)[1].text == "jmp .0";
  }

  lemma FirstCounts(lines: seq<Line>)
    requires |lines| == 2 && lines[0].Anonymous? && lines[1].Statement?
    ensures CountAnonymous(lines, 0) == 0 && CountAnonymous(lines, 1) == 1 && CountAnonymous(lines, 2) == 1
  {
  }
}
