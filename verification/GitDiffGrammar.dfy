/** The diffs that the checker accepts, as a grammar, and the proof that it accepts exactly those. */
module GitDiffGrammar {
  import opened PatchText
  import opened GitDiffCheck

  /** A hunk with its marker, or a binary body with its marker. */
  datatype Body = Text(marker: string, lines: seq<string>) | Binary(marker: string, lines: seq<string>)

  datatype Section = Section(command: string, headers: seq<string>, bodies: seq<Body>)

  /** A whole diff: blank lines, sections, and text after the end of the patch. */
  datatype Diff = Diff(blanks: seq<string>, sections: seq<Section>, trailer: seq<string>)

  function BodyLines(bodies: seq<Body>): seq<string> {
    if bodies == [] then [] else [bodies[0].marker] + bodies[0].lines + BodyLines(bodies[1..])
  }

  function SectionLines(sections: seq<Section>): seq<string> {
    if sections == [] then []
    else [sections[0].command] + sections[0].headers + BodyLines(sections[0].bodies) + SectionLines(sections[1..])
  }

  function DiffLines(d: Diff): seq<string> {
    d.blanks + SectionLines(d.sections) + d.trailer
  }

  /** The file of a section: a submodule header lifts the CRLF rule. */
  function SectionFile(f: File, headers: seq<string>): File {
    if exists h :: h in headers && IsSubmodule(h) then f.(forceCrlf := false) else f
  }

  /** A line of a hunk; an added line must pass the check, except in .rtf files. */
  predicate TextLineOk(check: Check, f: File, line: string) {
    if IsRtf(f) then IsHunkLine(line) || line == ""
    else IsHunkLine(line) && (IsAdded(line) ==> check(f, line[1..]))
  }

  predicate BinaryLineOk(line: string) {
    !IsCommand(line) && !IsHunk(line)
  }

  ghost predicate BodyOk(check: Check, f: File, b: Body) {
    match b
    case Text(marker, lines) => IsHunk(marker) && forall l :: l in lines ==> TextLineOk(check, f, l)
    case Binary(marker, lines) => IsBinaryMarker(marker) && forall l :: l in lines ==> BinaryLineOk(l)
  }

  ghost predicate BodiesOk(check: Check, f: File, bodies: seq<Body>) {
    forall b :: b in bodies ==> BodyOk(check, f, b)
  }

  /** Only the first body of a section may be binary. */
  ghost predicate AllText(bodies: seq<Body>) {
    forall b :: b in bodies ==> b.Text?
  }

  ghost predicate SectionOk(check: Check, s: Section) {
    && IsCommand(s.command)
    && (forall h :: h in s.headers ==> IsHeader(h))
    && BodiesOk(check, SectionFile(CommandFile(s.command), s.headers), s.bodies)
    && (s.bodies != [] ==> AllText(s.bodies[1..]))
  }

  ghost predicate SectionsOk(check: Check, sections: seq<Section>) {
    forall s :: s in sections ==> SectionOk(check, s)
  }

  /** Only a hunk can be followed by text that does not belong to the patch. */
  predicate EndsInText(bodies: seq<Body>) {
    bodies != [] && bodies[|bodies| - 1].Text?
  }

  predicate SectionsEndInText(sections: seq<Section>) {
    sections != [] && EndsInText(sections[|sections| - 1].bodies)
  }

  /** The trailer starts with a line no hunk can hold, and has no later diff command. */
  predicate TrailerOk(trailer: seq<string>) {
    trailer != [] ==>
      && EndsPatch(trailer[0]) && !IsCommand(trailer[0]) && !IsHunk(trailer[0])
      && !HasCommand(trailer[1..])
  }

  ghost predicate DiffOk(check: Check, d: Diff) {
    && (forall l :: l in d.blanks ==> IsBlank(l))
    && SectionsOk(check, d.sections)
    && TrailerOk(d.trailer)
    && (d.trailer != [] ==> SectionsEndInText(d.sections))
  }

  // Reading line by line.

  /** What the lines read so far leave open. */
  datatype Mode = AtStart | AtHeader(file: File) | InText(file: File) | InBinary(file: File)

  /** What a line does: it leads to a mode, ends the patch, or is an error. */
  datatype Reading = Goes(mode: Mode) | Stops | Fails

  function Read(check: Check, m: Mode, line: string): Reading {
    if IsCommand(line) then Goes(AtHeader(CommandFile(line)))
    else match m
      case AtStart => if IsBlank(line) then Goes(AtStart) else Fails
      case AtHeader(f) =>
        if IsHunk(line) then Goes(InText(f))
        else if IsBinaryMarker(line) then Goes(InBinary(f))
        else if IsHeader(line) then Goes(AtHeader(SectionFile(f, [line])))
        else Fails
      case InText(f) =>
        if IsHunk(line) then Goes(InText(f))
        else if EndsPatch(line) then Stops
        else if TextLineOk(check, f, line) then Goes(InText(f))
        else Fails
      case InBinary(f) => if IsHunk(line) then Goes(InText(f)) else Goes(InBinary(f))
  }

  /** Whether the lines still to come bring no error. */
  predicate Accepts(check: Check, m: Mode, ls: seq<string>)
    decreases |ls|
  {
    ls == [] ||
    match Read(check, m, ls[0])
    case Goes(m') => Accepts(check, m', ls[1..])
    case Stops => !HasCommand(ls[1..])
    case Fails => false
  }

  function ModeOf(s: State): Mode
    requires s.Valid()
  {
    match s.phase
    case Start => AtStart
    case PrePatch => AtHeader(s.file.value)
    case Patch => if s.binary.value then InBinary(s.file.value) else InText(s.file.value)
  }

  const NO_CHECK: Check := (f: File, line: string) => true

  /** From `s` to `t` the machine does what the reading says: an error exactly when it fails. */
  predicate Performs(s: State, t: State, r: Reading) {
    match r
    case Goes(m) => t.Valid() && t.formatOk && t.ok == s.ok && t.lineNum == s.lineNum + 1 && ModeOf(t) == m
    case Stops => false
    case Fails => !t.ok
  }

  lemma StartPerforms(check: Check, line: string, s: State, m: Mode)
    requires s.formatOk && s.phase == Start
    requires m == AtStart || IsCommand(line)
    ensures Performs(s, StepStart(line, s), Read(check, m, line))
  {
    hide IsHunk, IsBlank, IsCommand, CommandFile;
  }

  lemma PrePatchPerforms(check: Check, line: string, s: State, m: Mode)
    requires s.formatOk && s.phase == PrePatch && s.file.Some? && !IsCommand(line)
    requires m == AtHeader(s.file.value) || (IsHunk(line) && !m.AtStart? && m.file == s.file.value)
    ensures Performs(s, StepPrePatch(line, s), Read(check, m, line))
  {
    hide IsHunk, IsHeader, IsCommand, IsBinaryMarker, IsSubmodule, IsNewFileIndex, CommandFile;
    assert IsSubmodule(line) ==> IsHeader(line) by { if IsSubmodule(line) { SubmoduleIsHeader(line); } }
    assert IsSubmodule(line) <==> exists h :: h in [line] && IsSubmodule(h);
  }

  lemma PatchPerforms(check: Check, line: string, s: State)
    requires s.Valid() && s.formatOk && s.phase == Patch && !IsCommand(line) && !IsHunk(line)
    requires s.binary.value || !EndsPatch(line)
    ensures Performs(s, StepPatch(check, line, s), Read(check, ModeOf(s), line))
  {
    hide IsHunk, IsCommand, CommandFile, IsRtf;
  }

  /** One step of the machine is one reading. */
  lemma StepReads(check: Check, lines: seq<string>, s: State)
    requires s.Valid() && s.formatOk && s.lineNum < |lines|
    ensures var t := Step(check, lines, s);
            var r := Read(check, ModeOf(s), lines[s.lineNum]);
            if r.Stops? then t.lineNum == |lines| && t.ok == (s.ok && !HasCommand(lines[s.lineNum + 1..]))
            else Performs(s, t, r)
  {
    hide IsHunk, IsCommand, StepStart, StepPrePatch, StepPatch, EndsPatch, HasCommand, Performs;
    var line := lines[s.lineNum];
    var m := ModeOf(s);
    if s.phase == Start || IsCommand(line) {
      StartPerforms(check, line, s.(phase := Start), m);
      PhaseIsFree(s, Start, Step(check, lines, s), Read(check, m, line));
    } else if s.phase == PrePatch || IsHunk(line) {
      PrePatchPerforms(check, line, s.(phase := PrePatch), m);
      PhaseIsFree(s, PrePatch, Step(check, lines, s), Read(check, m, line));
    } else if s.binary.value || !EndsPatch(line) {
      PatchPerforms(check, line, s);
    }
  }

  lemma PhaseIsFree(s: State, phase: Phase, t: State, r: Reading)
    ensures Performs(s.(phase := phase), t, r) <==> Performs(s, t, r)
  {
  }

  lemma OkNeverReturns(check: Check, lines: seq<string>, s: State)
    requires s.Valid() && s.lineNum <= |lines| && !s.ok
    ensures !Finish(check, lines, s).ok
    decreases |lines| - s.lineNum
  {
    hide Step;
    if s.lineNum < |lines| && s.formatOk {
      StepAdvances(check, lines, s);
      OkNeverReturns(check, lines, Step(check, lines, s));
    }
  }

  lemma {:induction false} FinishAccepts(check: Check, lines: seq<string>, s: State)
    requires s.Valid() && s.formatOk && s.lineNum <= |lines|
    ensures Finish(check, lines, s).ok <==> s.ok && Accepts(check, ModeOf(s), lines[s.lineNum..])
    decreases |lines| - s.lineNum
  {
    hide Step, Read, HasCommand;
    if s.lineNum < |lines| {
      var t := Step(check, lines, s);
      StepReads(check, lines, s);
      StepAdvances(check, lines, s);
      assert lines[s.lineNum..][1..] == lines[s.lineNum + 1..];
      if Read(check, ModeOf(s), lines[s.lineNum]).Goes? {
        FinishAccepts(check, lines, t);
      } else if !t.ok {
        OkNeverReturns(check, lines, t);
      }
    }
  }

  /** The run that takes no notice of added lines. */
  function Forget(s: State): State { s.(ok := s.formatOk) }

  lemma StartForgets(line: string, s: State)
    ensures Forget(StepStart(line, s)) == StepStart(line, Forget(s))
  {
    hide IsBlank, IsCommand, CommandFile;
  }

  lemma PrePatchForgets(line: string, s: State)
    requires s.file.Some?
    ensures Forget(StepPrePatch(line, s)) == StepPrePatch(line, Forget(s))
  {
    hide IsHunk, IsHeader, IsBinaryMarker, IsSubmodule, IsNewFileIndex;
  }

  lemma PatchForgets(check: Check, line: string, s: State)
    requires s.file.Some? && s.binary.Some? && s.formatOk
    ensures Forget(StepPatch(check, line, s)) == StepPatch(NO_CHECK, line, Forget(s))
  {
    hide IsRtf, IsHunkLine;
  }

  lemma StepForgets(check: Check, lines: seq<string>, s: State)
    requires s.Valid() && s.formatOk && s.lineNum < |lines|
    ensures Forget(Step(check, lines, s)) == Step(NO_CHECK, lines, Forget(s))
  {
    hide IsHunk, IsCommand, StepStart, StepPrePatch, StepPatch, EndsPatch, HasCommand;
    var line := lines[s.lineNum];
    StartForgets(line, s.(phase := Start));
    if s.phase != Start {
      PrePatchForgets(line, s.(phase := PrePatch));
    }
    if s.phase == Patch {
      PatchForgets(check, line, s);
    }
  }

  lemma {:induction false} FinishForgets(check: Check, lines: seq<string>, s: State)
    requires s.Valid() && s.lineNum <= |lines|
    ensures Forget(Finish(check, lines, s)) == Finish(NO_CHECK, lines, Forget(s))
    decreases |lines| - s.lineNum
  {
    hide Step;
    if s.lineNum < |lines| && s.formatOk {
      StepAdvances(check, lines, s);
      StepForgets(check, lines, s);
      FinishForgets(check, lines, Step(check, lines, s));
    }
  }

  // The part of a tree that is still to come.

  /** The rest of the open element's lines, then the rest of the section, then whole sections and trailer. */
  datatype Rest = Rest(lines: seq<string>, bodies: seq<Body>, sections: seq<Section>, trailer: seq<string>)

  function RestLines(r: Rest): seq<string> {
    r.lines + BodyLines(r.bodies) + SectionLines(r.sections) + r.trailer
  }

  predicate LineFits(check: Check, m: Mode, line: string) {
    match m
    case AtStart => IsBlank(line)
    case AtHeader(_) => IsHeader(line)
    case InText(f) => TextLineOk(check, f, line)
    case InBinary(_) => BinaryLineOk(line)
  }

  function FileAfter(m: Mode, lines: seq<string>): File
    requires !m.AtStart?
  {
    if m.AtHeader? then SectionFile(m.file, lines) else m.file
  }

  ghost predicate BodiesFit(check: Check, m: Mode, lines: seq<string>, bodies: seq<Body>) {
    match m
    case AtStart => bodies == []
    case AtHeader(_) => BodiesOk(check, FileAfter(m, lines), bodies) && (bodies != [] ==> AllText(bodies[1..]))
    case _ => BodiesOk(check, m.file, bodies) && AllText(bodies)
  }

  predicate RestEndsInText(m: Mode, r: Rest) {
    if r.sections != [] then SectionsEndInText(r.sections)
    else if r.bodies != [] then EndsInText(r.bodies)
    else m.InText?
  }

  ghost predicate Fits(check: Check, m: Mode, r: Rest) {
    && (forall l :: l in r.lines ==> LineFits(check, m, l))
    && BodiesFit(check, m, r.lines, r.bodies)
    && SectionsOk(check, r.sections)
    && TrailerOk(r.trailer)
    && (r.trailer != [] ==> RestEndsInText(m, r))
  }

  /** The first line of the rest, taken off: what is left, and the mode it leads to. */
  function Pop(m: Mode, r: Rest): (Mode, Rest)
    requires r.lines != [] || r.bodies != [] || r.sections != []
    requires m.AtStart? ==> r.bodies == []
  {
    if r.lines != [] then
      (if m.AtHeader? then AtHeader(SectionFile(m.file, [r.lines[0]])) else m, r.(lines := r.lines[1..]))
    else if r.bodies != [] then
      var b := r.bodies[0];
      (if b.Text? then InText(m.file) else InBinary(m.file), r.(lines := b.lines, bodies := r.bodies[1..]))
    else
      var s := r.sections[0];
      (AtHeader(CommandFile(s.command)), Rest(s.headers, s.bodies, r.sections[1..], r.trailer))
  }

  predicate OnlyTrailer(r: Rest) {
    r.lines == [] && r.bodies == [] && r.sections == []
  }

  lemma PopLines(m: Mode, r: Rest)
    requires !OnlyTrailer(r) && (m.AtStart? ==> r.bodies == [])
    ensures RestLines(r) != [] && RestLines(r)[1..] == RestLines(Pop(m, r).1)
  {
    var sections, trailer := SectionLines(r.sections), r.trailer;
    if r.lines != [] {
      Uncons(r.lines[0], r.lines[1..], BodyLines(r.bodies), sections, trailer);
      assert r.lines == [r.lines[0]] + r.lines[1..];
    } else if r.bodies != [] {
      Uncons(r.bodies[0].marker, r.bodies[0].lines, BodyLines(r.bodies[1..]), sections, trailer);
    } else {
      var s := r.sections[0];
      Uncons(s.command, s.headers, BodyLines(s.bodies), SectionLines(r.sections[1..]), trailer);
    }
  }

  lemma Uncons(x: string, a: seq<string>, b: seq<string>, c: seq<string>, d: seq<string>)
    ensures (([x] + a) + b + c + d)[1..] == a + b + c + d
    ensures ([] + ([x] + a + b) + c + d)[1..] == a + b + c + d
    ensures ([] + [] + ([x] + a + b + c) + d)[1..] == a + b + c + d
  {
  }

  lemma SectionFileStep(f: File, lines: seq<string>)
    requires lines != []
    ensures SectionFile(f, lines) == SectionFile(SectionFile(f, [lines[0]]), lines[1..])
  {
    hide IsSubmodule;
    assert forall h :: h in lines <==> h == lines[0] || h in lines[1..];
  }

  lemma HeaderIsNothingElse(line: string)
    requires IsHeader(line)
    ensures !IsCommand(line) && !IsHunk(line) && !IsBinaryMarker(line)
  {
    hide IsHunk, IsBinaryMarker, IsHeader;
    if IsCommand(line) { CommandIsNothingElse(line); }
    if IsHunk(line) { HunkIsNothingElse(line); }
    if IsBinaryMarker(line) { BinaryMarkerIsNoHeader(line); }
  }

  lemma HunkLineIsNothingElse(line: string)
    requires IsHunkLine(line) || line == ""
    ensures !IsCommand(line) && !IsHunk(line) && !EndsPatch(line)
  {
    hide IsHunkLine;
    if IsCommand(line) { CommandIsNothingElse(line); }
    if IsHunk(line) { HunkIsNothingElse(line); }
  }

  lemma MarkerIsNoCommand(line: string)
    requires IsHunk(line) || IsBinaryMarker(line)
    ensures !IsCommand(line)
    ensures IsBinaryMarker(line) ==> !IsHunk(line)
  {
    hide IsHunk, IsBinaryMarker;
    if IsCommand(line) { CommandIsNothingElse(line); }
    if IsHunk(line) { HunkIsNothingElse(line); }
  }

  // Every tree is accepted.

  lemma PopLine(check: Check, m: Mode, r: Rest)
    requires Fits(check, m, r) && r.lines != []
    ensures var (m', r') := Pop(m, r);
            Fits(check, m', r') && Read(check, m, r.lines[0]) == Goes(m')
  {
    hide IsCommand, IsHunk, IsHeader, IsHunkLine, IsBlank, IsBinaryMarker, SectionFile, BodiesOk, AllText,
         SectionsOk, TrailerOk, EndsPatch, IsRtf;
    var line := r.lines[0];
    assert LineFits(check, m, line);
    assert forall l :: l in r.lines[1..] ==> l in r.lines;
    match m
    case AtStart =>
      if IsCommand(line) { CommandIsNothingElse(line); }
    case AtHeader(f) =>
      HeaderIsNothingElse(line);
      SectionFileStep(f, r.lines);
    case InText(f) =>
      HunkLineIsNothingElse(line);
    case InBinary(f) =>
  }

  lemma PopBody(check: Check, m: Mode, r: Rest)
    requires Fits(check, m, r) && r.lines == [] && r.bodies != []
    ensures var (m', r') := Pop(m, r);
            Fits(check, m', r') && Read(check, m, r.bodies[0].marker) == Goes(m')
  {
    hide IsCommand, IsHunk, IsHeader, IsHunkLine, IsBlank, IsBinaryMarker, SectionsOk, TrailerOk, EndsPatch, IsRtf,
         IsSubmodule;
    var b := r.bodies[0];
    assert b in r.bodies && forall x :: x in r.bodies[1..] ==> x in r.bodies;
    assert BodyOk(check, m.file, b);
    MarkerIsNoCommand(b.marker);
  }

  lemma PopSection(check: Check, m: Mode, r: Rest)
    requires Fits(check, m, r) && r.lines == [] && r.bodies == [] && r.sections != []
    ensures var (m', r') := Pop(m, r);
            Fits(check, m', r') && Read(check, m, r.sections[0].command) == Goes(m')
  {
    hide IsCommand, IsHunk, IsHeader, IsHunkLine, IsBlank, IsBinaryMarker, SectionFile, BodiesOk, AllText, TrailerOk,
         EndsPatch, IsRtf;
    var s := r.sections[0];
    assert s in r.sections && forall x :: x in r.sections[1..] ==> x in r.sections;
    assert SectionOk(check, s);
  }

  lemma {:induction false} TreeIsAccepted(check: Check, m: Mode, r: Rest)
    requires Fits(check, m, r)
    ensures Accepts(check, m, RestLines(r))
    decreases |RestLines(r)|
  {
    hide Fits, Read, HasCommand;
    if OnlyTrailer(r) {
      TrailerIsAccepted(check, m, r);
    } else {
      PopReads(check, m, r);
      PopLines(m, r);
      var (m', r') := Pop(m, r);
      TreeIsAccepted(check, m', r');
    }
  }

  lemma FitsAtStart(check: Check, m: Mode, r: Rest)
    requires Fits(check, m, r)
    ensures m.AtStart? ==> r.bodies == []
  {
  }

  lemma TrailerIsAccepted(check: Check, m: Mode, r: Rest)
    requires Fits(check, m, r) && OnlyTrailer(r)
    ensures Accepts(check, m, RestLines(r))
  {
    hide IsCommand, IsHunk, HasCommand, EndsPatch;
    assert RestLines(r) == r.trailer;
  }

  // Every accepted list of lines has a tree.

  /** The first line of a rest, put back. */
  function Push(m: Mode, line: string, r: Rest): Rest {
    if IsCommand(line) then Rest([], [], [Section(line, r.lines, r.bodies)] + r.sections, r.trailer)
    else if !m.AtStart? && IsHunk(line) then Rest([], [Text(line, r.lines)] + r.bodies, r.sections, r.trailer)
    else if m.AtHeader? && IsBinaryMarker(line) then Rest([], [Binary(line, r.lines)] + r.bodies, r.sections, r.trailer)
    else r.(lines := [line] + r.lines)
  }

  lemma PushLines(m: Mode, line: string, r: Rest)
    requires m.AtStart? ==> IsCommand(line) || r.bodies == []
    ensures RestLines(Push(m, line, r)) == [line] + RestLines(r)
  {
    hide IsCommand, IsHunk, IsBinaryMarker;
    var p := Push(m, line, r);
    Cons(line, r.lines, BodyLines(r.bodies), SectionLines(r.sections), r.trailer);
    if IsCommand(line) {
      assert p.sections[1..] == r.sections;
    } else if p.bodies != r.bodies {
      assert p.bodies[1..] == r.bodies;
    }
  }

  lemma Cons(x: string, a: seq<string>, b: seq<string>, c: seq<string>, d: seq<string>)
    ensures ([x] + a) + b + c + d == [x] + (a + b + c + d)
    ensures [] + ([x] + a + b) + c + d == [x] + (a + b + c + d)
    ensures [] + [] + ([x] + a + b + c) + d == [x] + (a + b + c + d)
  {
  }

  lemma PushCommand(check: Check, m: Mode, line: string, r: Rest)
    requires IsCommand(line) && Fits(check, AtHeader(CommandFile(line)), r)
    ensures Fits(check, m, Push(m, line, r))
  {
    hide IsCommand, IsHunk, IsHeader, IsHunkLine, IsBlank, IsBinaryMarker, SectionFile, TrailerOk, EndsPatch, IsRtf,
         CommandFile, BodyOk;
    var s := Section(line, r.lines, r.bodies);
    var p := Push(m, line, r);
    assert SectionOk(check, s);
    assert p.sections == [s] + r.sections;
    assert BodiesOk(check, CommandFile(line), []);
    assert p.sections[|p.sections| - 1] == if r.sections == [] then s else r.sections[|r.sections| - 1];
  }

  lemma PushMarker(check: Check, m: Mode, m': Mode, line: string, r: Rest)
    requires Read(check, m, line) == Goes(m') && Fits(check, m', r)
    requires !IsCommand(line) && !m.AtStart?
    requires IsHunk(line) || (m.AtHeader? && IsBinaryMarker(line))
    ensures Fits(check, m, Push(m, line, r))
  {
    hide IsCommand, IsHunk, IsHeader, IsHunkLine, IsBlank, IsBinaryMarker, TrailerOk, EndsPatch, IsRtf, IsSubmodule,
         SectionsOk;
    var p := Push(m, line, r);
    var b := p.bodies[0];
    assert BodyOk(check, m.file, b);
    assert p.bodies == [b] + r.bodies && p.bodies[1..] == r.bodies;
    assert p.bodies[|p.bodies| - 1] == if r.bodies == [] then b else r.bodies[|r.bodies| - 1];
  }

  lemma PushLine(check: Check, m: Mode, m': Mode, line: string, r: Rest)
    requires Read(check, m, line) == Goes(m') && Fits(check, m', r)
    requires !IsCommand(line) && (m.AtStart? || !IsHunk(line)) && !(m.AtHeader? && IsBinaryMarker(line))
    ensures Fits(check, m, Push(m, line, r))
  {
    hide IsCommand, IsHunk, IsHeader, IsHunkLine, IsBlank, IsBinaryMarker, TrailerOk, EndsPatch, IsRtf, SectionFile,
         SectionsOk, BodiesOk, AllText;
    var p := Push(m, line, r);
    assert p.lines == [line] + r.lines && p.lines[1..] == r.lines;
    assert LineFits(check, m, line);
    if m.AtHeader? {
      SectionFileStep(m.file, p.lines);
    }
  }

  lemma {:induction false} AcceptedHasTree(check: Check, m: Mode, ls: seq<string>) returns (r: Rest)
    requires Accepts(check, m, ls)
    ensures Fits(check, m, r) && RestLines(r) == ls
    decreases |ls|
  {
    hide Fits, IsCommand, IsHunk, IsBinaryMarker, HasCommand, Read, Push;
    if ls == [] {
      r := Rest([], [], [], []);
      EmptyFits(check, m);
    } else {
      var line := ls[0];
      assert ls == [line] + ls[1..];
      match Read(check, m, line)
      case Goes(m') =>
        var r' := AcceptedHasTree(check, m', ls[1..]);
        r := Push(m, line, r');
        FitsAtStart(check, m', r');
        ReadFromStart(check, m, line);
        PushLines(m, line, r');
        if IsCommand(line) {
          ReadCommand(check, m, line);
          PushCommand(check, m, line, r');
        } else if !m.AtStart? && (IsHunk(line) || (m.AtHeader? && IsBinaryMarker(line))) {
          PushMarker(check, m, m', line, r');
        } else {
          PushLine(check, m, m', line, r');
        }
      case Stops =>
        r := Rest([], [], [], ls);
        StoppedFits(check, m, ls);
    }
  }

  lemma ReadFromStart(check: Check, m: Mode, line: string)
    ensures m.AtStart? && !IsCommand(line) && Read(check, m, line).Goes? ==> Read(check, m, line) == Goes(AtStart)
  {
  }

  lemma ReadCommand(check: Check, m: Mode, line: string)
    requires IsCommand(line)
    ensures Read(check, m, line) == Goes(AtHeader(CommandFile(line)))
  {
  }

  lemma EmptyFits(check: Check, m: Mode)
    ensures Fits(check, m, Rest([], [], [], []))
    ensures RestLines(Rest([], [], [], [])) == []
  {
  }

  lemma StoppedFits(check: Check, m: Mode, ls: seq<string>)
    requires ls != [] && Read(check, m, ls[0]).Stops? && !HasCommand(ls[1..])
    ensures Fits(check, m, Rest([], [], [], ls))
    ensures RestLines(Rest([], [], [], ls)) == ls
  {
    hide IsCommand, IsHunk, HasCommand;
  }

  // The results.

  /** A list of lines is a diff of the grammar whose added lines pass the check. */
  ghost predicate IsGoodDiff(check: Check, lines: seq<string>) {
    exists d :: DiffOk(check, d) && DiffLines(d) == lines
  }

  lemma AcceptsIffGrammar(check: Check, lines: seq<string>)
    ensures Accepts(check, AtStart, lines) <==> IsGoodDiff(check, lines)
  {
    hide Accepts, IsBlank, SectionsOk, TrailerOk;
    if Accepts(check, AtStart, lines) {
      var r := AcceptedHasTree(check, AtStart, lines);
      var d := Diff(r.lines, r.sections, r.trailer);
      assert DiffOk(check, d);
      assert DiffLines(d) == RestLines(r);
    }
    if IsGoodDiff(check, lines) {
      var d :| DiffOk(check, d) && DiffLines(d) == lines;
      var r := Rest(d.blanks, [], d.sections, d.trailer);
      assert Fits(check, AtStart, r);
      assert RestLines(r) == lines;
      TreeIsAccepted(check, AtStart, r);
    }
  }

  /** For every list of lines, the run ends without any error exactly when the lines are a diff of the
      grammar whose added lines pass the check, and without a format error exactly when they are a diff
      of the grammar. */
  lemma CheckerAcceptsGrammar(check: Check, lines: seq<string>)
    ensures Finish(check, lines, INITIAL).ok <==> IsGoodDiff(check, lines)
    ensures Finish(check, lines, INITIAL).formatOk <==> IsGoodDiff(NO_CHECK, lines)
  {
    hide Accepts, IsGoodDiff, Finish;
    assert lines[0..] == lines;
    FinishAccepts(check, lines, INITIAL);
    FinishAccepts(NO_CHECK, lines, INITIAL);
    FinishForgets(check, lines, INITIAL);
    AcceptsIffGrammar(check, lines);
    AcceptsIffGrammar(NO_CHECK, lines);
  }

  // The binary files that a diff adds.

  /** Whether the headers announce a new file: the last one that is no submodule header decides. */
  predicate Announced(isNew: bool, headers: seq<string>)
    decreases |headers|
  {
    if headers == [] then isNew
    else Announced(if IsSubmodule(headers[0]) then isNew else IsNewFileIndex(headers[0]), headers[1..])
  }

  predicate AddsBinary(isNew: bool, headers: seq<string>, bodies: seq<Body>) {
    bodies != [] && bodies[0].Binary? && Announced(isNew, headers)
  }

  /** The names of the sections with a binary body whose headers announce a new file. */
  function NewBinaries(sections: seq<Section>): seq<string> {
    if sections == [] then []
    else
      var s := sections[0];
      var name := CommandFile(s.command).name;
      (if AddsBinary(false, s.headers, s.bodies) then [name] else []) + NewBinaries(sections[1..])
  }

  function RestBinaries(m: Mode, isNew: bool, r: Rest): seq<string> {
    (if m.AtHeader? && AddsBinary(isNew, r.lines, r.bodies) then [m.file.name] else []) + NewBinaries(r.sections)
  }

  /** What one line adds to the list of new binary files. */
  function AddedName(m: Mode, isNew: bool, line: string): seq<string> {
    if m.AtHeader? && !IsCommand(line) && IsBinaryMarker(line) && isNew then [m.file.name] else []
  }

  function IsNewAfter(m: Mode, isNew: bool, line: string): bool {
    if IsCommand(line) then false
    else if m.AtHeader? && !IsHunk(line) && !IsBinaryMarker(line) && !IsSubmodule(line) then IsNewFileIndex(line)
    else isNew
  }

  lemma StepAddsName(lines: seq<string>, s: State)
    requires s.Valid() && s.lineNum < |lines|
    ensures var t := Step(NO_CHECK, lines, s);
            var line := lines[s.lineNum];
            && t.newBin == s.newBin + AddedName(ModeOf(s), s.isNewFile, line)
            && t.isNewFile == IsNewAfter(ModeOf(s), s.isNewFile, line)
  {
    hide IsHunk, IsHeader, IsBlank, IsCommand, IsBinaryMarker, IsSubmodule, IsNewFileIndex, CommandFile, IsRtf,
         HasCommand, IsHunkLine, Read;
    var line := lines[s.lineNum];
    assert IsHunk(line) ==> !IsBinaryMarker(line) by { if IsHunk(line) { HunkIsNothingElse(line); } }
    assert s.newBin + [] == s.newBin;
  }

  lemma PopAddsName(m: Mode, isNew: bool, r: Rest)
    requires Fits(NO_CHECK, m, r) && !OnlyTrailer(r)
    ensures RestLines(r) != []
    ensures var line := RestLines(r)[0];
            var (m', r') := Pop(m, r);
            RestBinaries(m, isNew, r) == AddedName(m, isNew, line) + RestBinaries(m', IsNewAfter(m, isNew, line), r')
  {
    hide IsHunk, IsHeader, IsBlank, IsCommand, IsBinaryMarker, IsSubmodule, IsNewFileIndex, CommandFile, IsRtf,
         HasCommand, IsHunkLine,
         SectionsOk, TrailerOk, EndsPatch, RestLines, BodyLines, SectionLines;
    PopLines(m, r);
    FirstLine(m, r);
    if r.lines != [] {
      assert LineFits(NO_CHECK, m, r.lines[0]);
      if m.AtHeader? {
        HeaderIsNothingElse(r.lines[0]);
      } else {
        LineIsNoCommand(m, r.lines[0]);
      }
    } else if r.bodies != [] {
      assert BodyOk(NO_CHECK, FileAfter(m, r.lines), r.bodies[0]) by { assert r.bodies[0] in r.bodies; }
      MarkerIsNoCommand(r.bodies[0].marker);
      HunkOrBinary(r.bodies[0].marker);
    } else {
      assert SectionOk(NO_CHECK, r.sections[0]) by { SectionsHave(r.sections); }
    }
  }

  lemma SectionsHave(sections: seq<Section>)
    requires SectionsOk(NO_CHECK, sections) && sections != []
    ensures SectionOk(NO_CHECK, sections[0])
  {
    assert sections[0] in sections;
  }

  lemma HunkOrBinary(line: string)
    ensures IsHunk(line) ==> !IsBinaryMarker(line)
  {
    hide IsBinaryMarker;
    if IsHunk(line) { HunkIsNothingElse(line); }
  }

  lemma LineIsNoCommand(m: Mode, line: string)
    requires LineFits(NO_CHECK, m, line) && !m.AtHeader?
    ensures !IsCommand(line)
  {
    hide IsBlank, IsHunkLine, IsHunk;
    if IsCommand(line) { CommandIsNothingElse(line); }
  }

  lemma FirstLine(m: Mode, r: Rest)
    requires !OnlyTrailer(r)
    ensures RestLines(r) != []
    ensures RestLines(r)[0] ==
            if r.lines != [] then r.lines[0]
            else if r.bodies != [] then r.bodies[0].marker
            else r.sections[0].command
  {
  }

  lemma {:induction false} FinishBinaries(lines: seq<string>, s: State, r: Rest)
    requires s.Valid() && s.formatOk && s.ok && s.lineNum <= |lines|
    requires Fits(NO_CHECK, ModeOf(s), r) && lines[s.lineNum..] == RestLines(r)
    ensures Finish(NO_CHECK, lines, s).newBin == s.newBin + RestBinaries(ModeOf(s), s.isNewFile, r)
    decreases |lines| - s.lineNum
  {
    hide Fits, Step, Read, HasCommand, RestLines, RestBinaries, AddedName, IsNewAfter, Pop;
    var m := ModeOf(s);
    if OnlyTrailer(r) {
      TrailerStops(lines, s, r);
    } else {
      FitsAtStart(NO_CHECK, m, r);
      FirstLine(m, r);
      var line := lines[s.lineNum..][0];
      assert line == lines[s.lineNum];
      PopReads(NO_CHECK, m, r);
      PopLines(m, r);
      PopAddsName(m, s.isNewFile, r);
      StepReads(NO_CHECK, lines, s);
      StepAddsName(lines, s);
      StepAdvances(NO_CHECK, lines, s);
      var (m', r') := Pop(m, r);
      var t := Step(NO_CHECK, lines, s);
      assert lines[t.lineNum..] == lines[s.lineNum..][1..];
      FinishBinaries(lines, t, r');
    }
  }

  lemma PopReads(check: Check, m: Mode, r: Rest)
    requires Fits(check, m, r) && !OnlyTrailer(r)
    ensures m.AtStart? ==> r.bodies == []
    ensures RestLines(r) != []
    ensures var (m', r') := Pop(m, r);
            Fits(check, m', r') && Read(check, m, RestLines(r)[0]) == Goes(m')
  {
    hide Fits, Read, Pop, RestLines;
    FitsAtStart(check, m, r);
    FirstLine(m, r);
    if r.lines != [] {
      PopLine(check, m, r);
    } else if r.bodies != [] {
      PopBody(check, m, r);
    } else {
      PopSection(check, m, r);
    }
  }

  lemma TrailerStops(lines: seq<string>, s: State, r: Rest)
    requires s.Valid() && s.formatOk && s.lineNum <= |lines|
    requires Fits(NO_CHECK, ModeOf(s), r) && OnlyTrailer(r) && lines[s.lineNum..] == RestLines(r)
    ensures Finish(NO_CHECK, lines, s).newBin == s.newBin
    ensures RestBinaries(ModeOf(s), s.isNewFile, r) == []
  {
    hide IsCommand, IsHunk, HasCommand, EndsPatch, StepStart, StepPrePatch, StepPatch;
    assert RestLines(r) == r.trailer;
    if r.trailer != [] {
      assert lines[s.lineNum] == r.trailer[0];
      StepAdvances(NO_CHECK, lines, s);
    }
  }

  /** On every diff of the grammar, the checker lists exactly the new binary files, in order. */
  lemma NewBinariesAreListed(check: Check, d: Diff)
    requires DiffOk(NO_CHECK, d)
    ensures Finish(check, DiffLines(d), INITIAL).newBin == NewBinaries(d.sections)
  {
    hide Finish, IsBlank, SectionsOk, TrailerOk, NewBinaries;
    var r := Rest(d.blanks, [], d.sections, d.trailer);
    var lines := DiffLines(d);
    assert Fits(NO_CHECK, AtStart, r);
    assert lines[0..] == lines == RestLines(r);
    FinishForgets(check, lines, INITIAL);
    FinishBinaries(lines, INITIAL, r);
  }
}
