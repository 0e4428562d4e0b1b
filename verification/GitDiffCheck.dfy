/** The checker of git diffs: a state machine over the lines of the diff. */
module GitDiffCheck {
  import opened Bytes
  import opened PythonStrings
  import opened PatchText

  datatype Phase = Start | PrePatch | Patch

  /** The fields of the checker.  `file` and `binary` have no value until they are first set. */
  datatype State = State(
    ok: bool, formatOk: bool, lineNum: nat, phase: Phase, newBin: seq<string>,
    file: Option<File>, isNewFile: bool, binary: Option<bool>)
  {
    /** What the next line may read has been set, and a format error is an error. */
    predicate Valid() {
      && (phase != Start ==> file.Some?)
      && (phase == Patch ==> binary.Some?)
      && (!formatOk ==> !ok)
    }

    function FormatError(): State { this.(ok := false, formatOk := false) }

    function NextLine(): State { this.(lineNum := lineNum + 1) }
  }

  const INITIAL := State(true, true, 0, Start, [], None, false, None)

  /** The rule for added lines, given the file they belong to. */
  type Check = (File, string) -> bool

  /** In a text body, a line of this kind ends the whole patch. */
  predicate EndsPatch(line: string) {
    line != "" && !IsHunkLine(line)
  }

  predicate HasCommand(lines: seq<string>) {
    exists i :: 0 <= i < |lines| && IsCommand(lines[i])
  }

  function StepStart(line: string, s: State): State {
    if IsCommand(line) then
      s.(phase := PrePatch, file := Some(CommandFile(line)), isNewFile := false).NextLine()
    else if !IsBlank(line) then s.FormatError().NextLine()
    else s.NextLine()
  }

  function StepPrePatch(line: string, s: State): State
    requires s.file.Some?
  {
    if IsHunk(line) then s.(phase := Patch, binary := Some(false)).NextLine()
    else if IsBinaryMarker(line) then
      s.(phase := Patch, binary := Some(true),
         newBin := if s.isNewFile then s.newBin + [s.file.value.name] else s.newBin).NextLine()
    else if IsSubmodule(line) then s.(file := Some(s.file.value.(forceCrlf := false))).NextLine()
    else
      var t := s.(isNewFile := IsNewFileIndex(line));
      if IsHeader(line) then t.NextLine() else t.FormatError().NextLine()
  }

  function StepPatch(check: Check, line: string, s: State): State
    requires s.file.Some? && s.binary.Some?
  {
    if s.binary.value || IsRtf(s.file.value) then s.NextLine()
    else if StartsWith(line, "-") then s.NextLine()
    else if IsAdded(line) then s.(ok := s.ok && check(s.file.value, line[1..])).NextLine()
    else if IsHunkLine(line) then s.NextLine()
    else s.FormatError().NextLine()
  }

  /** One step of the machine: at most two transitions that fall through, then the step of the state reached. */
  function Step(check: Check, lines: seq<string>, s: State): State
    requires s.Valid() && s.lineNum < |lines|
  {
    var line := lines[s.lineNum];
    if s.phase == Start || IsCommand(line) then StepStart(line, s.(phase := Start))
    else if s.phase == PrePatch || IsHunk(line) then StepPrePatch(line, s.(phase := PrePatch))
    else if EndsPatch(line) && !s.binary.value then
      (if HasCommand(lines[s.lineNum + 1..]) then s.FormatError() else s).(lineNum := |lines|)
    else StepPatch(check, line, s)
  }

  /** Every step advances, keeps the state valid, and never clears an error. */
  lemma StepAdvances(check: Check, lines: seq<string>, s: State)
    requires s.Valid() && s.lineNum < |lines|
    ensures var t := Step(check, lines, s);
            t.Valid() && s.lineNum < t.lineNum <= |lines| && (t.ok ==> s.ok)
  {
    hide IsCommand, IsHunk, IsHeader, IsHunkLine, IsBlank, IsBinaryMarker, IsSubmodule, IsNewFileIndex, CommandFile,
         IsRtf, HasCommand;
  }

  /** The "unexpected patch line" error is reached exactly by an empty line, which splitting a text into
      lines never makes. */
  lemma UnexpectedLineIffEmpty(check: Check, lines: seq<string>, s: State)
    requires s.Valid() && s.lineNum < |lines| && s.phase == Patch && s.formatOk
    requires var line := lines[s.lineNum]; !IsCommand(line) && !IsHunk(line) && (s.binary.value || !EndsPatch(line))
    ensures !Step(check, lines, s).formatOk <==> lines[s.lineNum] == "" && !s.binary.value && !IsRtf(s.file.value)
  {
  }

  /** The whole run. */
  function Finish(check: Check, lines: seq<string>, s: State): State
    requires s.Valid() && s.lineNum <= |lines|
    decreases |lines| - s.lineNum
  {
    if s.lineNum < |lines| && s.formatOk then
      StepAdvances(check, lines, s);
      Finish(check, lines, Step(check, lines, s))
    else s
  }

  class GitDiffCheck {
    const out: Outside
    const lines: seq<string>
    var ok: bool
    var formatOk: bool
    var lineNum: nat
    var phase: Phase
    var newBin: seq<string>
    var file: Option<File>
    var isNewFile: bool
    var binary: Option<bool>

    function Now(): State
      reads this
    {
      State(ok, formatOk, lineNum, phase, newBin, file, isNewFile, binary)
    }

    function Rule(): Check {
      (f: File, line: string) => AddedLineOk(out, f, line)
    }

    constructor (out: Outside, lines: seq<string>)
      ensures this.out == out && this.lines == lines
      ensures Now() == Finish(Rule(), lines, INITIAL)
    {
      this.out, this.lines := out, lines;
      ok, formatOk, lineNum, phase, newBin := true, true, 0, Start, [];
      file, isNewFile, binary := None, false, None;
      new;
      while lineNum < |lines| && formatOk
        invariant Now().Valid() && lineNum <= |lines|
        invariant Finish(Rule(), lines, Now()) == Finish(Rule(), lines, INITIAL)
        decreases |lines| - lineNum
      {
        hide Step;
        StepAdvances(Rule(), lines, Now());
        Run();
      }
    }

    method FormatError()
      modifies `ok, `formatOk
      ensures !ok && !formatOk
    {
      ok, formatOk := false, false;
    }

    method Run()
      requires Now().Valid() && lineNum < |lines|
      modifies this
      ensures Now() == Step(Rule(), lines, old(Now()))
    {
      hide IsCommand, IsHunk, IsHeader, IsHunkLine, IsBlank, IsBinaryMarker, IsSubmodule, IsNewFileIndex,
           CommandFile, AddedLineOk, IsRtf;
      var line := lines[lineNum];
      if phase != Start && IsCommand(line) {
        phase := Start;
      }
      if phase == Patch {
        if IsHunk(line) {
          phase := PrePatch;
        } else if line != "" && !IsHunkLine(line) && !binary.value {
          var found := FindCommand(lines[lineNum + 1..]);
          if found {
            FormatError();
          }
          lineNum := |lines|;
          return;
        }
      }
      match phase
      case Start => RunStart(line);
      case PrePatch => RunPrePatch(line);
      case Patch => RunPatch(line);
    }

    method FindCommand(rest: seq<string>) returns (found: bool)
      ensures found == HasCommand(rest)
    {
      for i := 0 to |rest|
        invariant forall j :: 0 <= j < i ==> !IsCommand(rest[j])
      {
        if IsCommand(rest[i]) {
          return true;
        }
      }
      return false;
    }

    method RunStart(line: string)
      modifies this
      ensures Now() == StepStart(line, old(Now()))
    {
      if IsCommand(line) {
        phase, file, isNewFile := PrePatch, Some(CommandFile(line)), false;
      } else if !IsBlank(line) {
        FormatError();
      }
      lineNum := lineNum + 1;
    }

    method RunPrePatch(line: string)
      requires file.Some?
      modifies this
      ensures Now() == StepPrePatch(line, old(Now()))
    {
      hide IsHunk, IsHeader, IsBinaryMarker, IsSubmodule, IsNewFileIndex;
      if IsHunk(line) {
        phase, binary := Patch, Some(false);
      } else if IsBinaryMarker(line) {
        phase, binary := Patch, Some(true);
        if isNewFile {
          newBin := newBin + [file.value.name];
        }
      } else if IsSubmodule(line) {
        file := Some(file.value.(forceCrlf := false));
      } else {
        isNewFile := IsNewFileIndex(line);
        var header := MatchesHeader(line);
        if !header {
          FormatError();
        }
      }
      lineNum := lineNum + 1;
    }

    method RunPatch(line: string)
      requires file.Some? && binary.Some?
      modifies this
      ensures Now() == StepPatch(Rule(), line, old(Now()))
    {
      if binary.value || IsRtf(file.value) {
      } else if StartsWith(line, "-") {
      } else if StartsWith(line, "+") {
        CheckAddedLine(line[1..]);
      } else if StartsWith(line, "\r\n") {
      } else if StartsWith(line, "\\ No newline ") {
      } else if !StartsWith(line, " ") {
        FormatError();
      }
      lineNum := lineNum + 1;
    }

    method CheckAddedLine(added: string)
      requires file.Some?
      modifies `ok
      ensures ok == (old(ok) && AddedLineOk(out, file.value, added))
    {
      var line, eol := StripLineEnding(added);
      var stripped := RightStrip(line);
      if file.value.forceCrlf && eol != "\r\n" && !Contains(line, "Subproject commit") {
        ok := false;
      }
      if file.value.forceNoTabs && '\t' in line {
        ok := false;
      }
      if |stripped| < |line| {
        ok := false;
      }
      if out.obsoleteDebug(line) {
        ok := false;
      }
      if Contains(line, "__FUNCTION__") && !out.isThisScript(file.value.name) {
        ok := false;
      }
    }

    method StripLineEnding(added: string) returns (line: string, eol: string)
      ensures (line, eol) == StripEnding(added)
    {
      hide StripOne;
      line, eol := added, "";
      for i := 0 to |LINE_ENDINGS|
        invariant StripAll((line, eol), LINE_ENDINGS[i..]) == StripEnding(added)
      {
        assert LINE_ENDINGS[i..][1..] == LINE_ENDINGS[i + 1..];
        line, eol := StripIfEnding(line, eol, LINE_ENDINGS[i]);
      }
    }

    method StripIfEnding(line: string, eol: string, ending: string) returns (line': string, eol': string)
      ensures (line', eol') == StripOne((line, eol), ending)
    {
      line', eol' := line, eol;
      if EndsWith(line, ending) {
        line', eol' := line[..|line| - |ending|], ending;
      }
    }
  }
}
