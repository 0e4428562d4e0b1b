/** The line tests of the patch checker. */
module PatchText {
  import opened PythonStrings

  /** The text before the first space. */
  function FirstWord(s: string): string {
    if s == [] || s[0] == ' ' then [] else [s[0]] + FirstWord(s[1..])
  }

  /** The text after the last slash. */
  function BaseName(path: string): string {
    if '/' !in path then path
    else if path[0] == '/' && '/' !in path[1..] then path[1..]
    else BaseName(path[1..])
  }

  /** The extension of the file is ".makefile"; a name of dots and extension only has none. */
  predicate IsMakefileExtension(base: string) {
    EndsWith(base, ".makefile") && exists i :: 0 <= i < |base| - 9 && base[i] != '.'
  }

  // Lines of a diff.

  predicate IsCommand(line: string) { StartsWith(line, "diff --git") }

  predicate IsHunk(line: string) { StartsWith(line, "@@ ") }

  predicate IsBinaryMarker(line: string) {
    StartsWith(line, "GIT binary patch") || StartsWith(line, "Binary files")
  }

  predicate IsSubmodule(line: string) { StartsWith(line, "new file mode 160000") }

  predicate IsBlank(line: string) { RightStrip(line) == "" }

  const HEADER_PREFIXES: seq<string> := [
    "--- ", "+++ ", "index ", "new file ", "deleted file ", "old mode ", "new mode ", "similarity index ",
    "copy from ", "copy to ", "rename "]

  predicate IsHeader(line: string) {
    || StartsWith(line, "--- ") || StartsWith(line, "+++ ") || StartsWith(line, "index ")
    || StartsWith(line, "new file ") || StartsWith(line, "deleted file ") || StartsWith(line, "old mode ")
    || StartsWith(line, "new mode ") || StartsWith(line, "similarity index ") || StartsWith(line, "copy from ")
    || StartsWith(line, "copy to ") || StartsWith(line, "rename ")
  }

  /** A line that may stand in a hunk: context, removed or added text, a bare CRLF, or the no-newline note. */
  predicate IsHunkLine(line: string) {
    || (line != "" && (line[0] == ' ' || line[0] == '-' || line[0] == '+'))
    || StartsWith(line, "\r\n") || StartsWith(line, "\\ No newline ")
  }

  predicate IsAdded(line: string) { StartsWith(line, "+") }

  /** The header that marks a new file: "index ", one or more zeros, then "..". */
  predicate IsNewFileIndex(line: string) {
    && StartsWith(line, "index ")
    && exists n :: 6 < n <= |line| && (forall i :: 6 <= i < n ==> line[i] == '0') && StartsWith(line[n..], "..")
  }

  /** An index line announces a new file exactly when the hash before the dots is all zeros. */
  lemma NewFileIndexIff(hash: string, rest: string)
    requires '.' !in hash
    ensures IsNewFileIndex("index " + hash + ".." + rest)
       <==> hash != "" && forall i :: 0 <= i < |hash| ==> hash[i] == '0'
  {
    var line := "index " + hash + ".." + rest;
    assert forall i :: 0 <= i < |hash| ==> line[6 + i] == hash[i];
    if IsNewFileIndex(line) {
      var n :| 6 < n <= |line| && (forall i :: 6 <= i < n ==> line[i] == '0') && StartsWith(line[n..], "..");
      assert line[n] == line[n..][0] == '.';
      assert line[6 + |hash|] == '.';
      assert n == 6 + |hash|;
      forall i | 0 <= i < |hash| ensures hash[i] == '0' {
        assert line[6 + i] == '0';
      }
    }
    if hash != "" && forall i :: 0 <= i < |hash| ==> hash[i] == '0' {
      var n := 6 + |hash|;
      assert line[n..] == ".." + rest;
      assert forall i :: 6 <= i < n ==> line[i] == hash[i - 6];
    }
  }

  // The classes the machine tests in different orders exclude each other.

  lemma CommandIsNothingElse(line: string)
    requires IsCommand(line)
    ensures !IsHunk(line) && !IsBinaryMarker(line) && !IsHeader(line) && !IsHunkLine(line)
    ensures !IsBlank(line) && line != ""
  {
    hide RightStrip, IsSpace;
    assert line[0] == 'd' && line[1] == 'i';
    assert !IsSpace(line[0]) by { NoSpace(); }
  }

  lemma NoSpace()
    ensures !IsSpace('d')
  {
  }

  lemma HunkIsNothingElse(line: string)
    requires IsHunk(line)
    ensures !IsBinaryMarker(line) && !IsHeader(line) && !IsHunkLine(line) && line != ""
  {
    assert line[0] == '@';
  }

  lemma BinaryMarkerIsNoHeader(line: string)
    requires IsBinaryMarker(line)
    ensures !IsHeader(line)
  {
    assert line[0] == 'G' || line[0] == 'B';
  }

  lemma SubmoduleIsHeader(line: string)
    requires IsSubmodule(line)
    ensures IsHeader(line)
  {
    assert "new file " <= "new file mode 160000";
  }

  method MatchesHeader(line: string) returns (ok: bool)
    ensures ok == IsHeader(line)
  {
    ok := false;
    for i := 0 to |HEADER_PREFIXES|
      invariant ok <==> exists j :: 0 <= j < i && StartsWith(line, HEADER_PREFIXES[j])
    {
      if StartsWith(line, HEADER_PREFIXES[i]) {
        ok := true;
      }
    }
    HeaderIff(line);
  }

  lemma HeaderIff(line: string)
    ensures IsHeader(line) <==> exists j :: 0 <= j < |HEADER_PREFIXES| && StartsWith(line, HEADER_PREFIXES[j])
  {
    hide StartsWith;
    var h := HEADER_PREFIXES;
    assert h[0] == "--- " && h[1] == "+++ " && h[2] == "index " && h[3] == "new file " && h[4] == "deleted file ";
    assert h[5] == "old mode " && h[6] == "new mode " && h[7] == "similarity index ";
    assert h[8] == "copy from " && h[9] == "copy to " && h[10] == "rename ";
  }

  // Files and added lines.

  /** What the checker cannot see from the diff alone: the search for an obsolete debug macro in a line,
      and whether a path is the checker's own script. */
  datatype Outside = Outside(obsoleteDebug: string -> bool, isThisScript: string -> bool)

  /** A file of the diff and the rules that hold for it. */
  datatype File = File(name: string, forceCrlf: bool, forceNoTabs: bool)

  function CommandFile(line: string): File {
    var name := FirstWord(if |line| >= 13 then line[13..] else "");
    var internal := name == ".gitmodules" || name == "BaseTools/Conf/diff.order";
    var rtf := EndsWith(name, ".rtf");
    var shell := EndsWith(name, ".sh") || StartsWith(name, "BaseTools/BinWrappers/PosixLike/")
                 || name == "BaseTools/BuildEnv";
    var make := BaseName(name) == "GNUmakefile" || ToLower(BaseName(name)) == "makefile"
                || IsMakefileExtension(BaseName(name)) || StartsWith(name, "BaseTools/Source/C/VfrCompile/Pccts/");
    File(name, !(rtf || shell || internal), !(rtf || internal || make))
  }

  predicate IsRtf(f: File) { EndsWith(f.name, ".rtf") }

  const LINE_ENDINGS: seq<string> := ["\r\n", "\n\r", "\n", "\r"]

  /** One step of the loop over line endings: what is left of the line, and the last ending found. */
  function StripOne(t: (string, string), eol: string): (string, string) {
    if EndsWith(t.0, eol) then (t.0[..|t.0| - |eol|], eol) else t
  }

  function StripAll(t: (string, string), endings: seq<string>): (string, string)
    decreases |endings|
  {
    if endings == [] then t else StripAll(StripOne(t, endings[0]), endings[1..])
  }

  function StripEnding(line: string): (string, string) {
    StripAll((line, ""), LINE_ENDINGS)
  }

  lemma StripEndingSteps(line: string)
    ensures StripEnding(line) == StripOne(StripOne(StripOne(StripOne((line, ""), "\r\n"), "\n\r"), "\n"), "\r")
  {
    hide StripOne;
    assert LINE_ENDINGS[1..] == ["\n\r", "\n", "\r"];
    assert ["\n\r", "\n", "\r"][1..] == ["\n", "\r"];
    assert ["\n", "\r"][1..] == ["\r"];
    var t := StripOne(StripOne(StripOne((line, ""), "\r\n"), "\n\r"), "\n");
    assert StripAll(t, ["\r"]) == StripOne(t, "\r");
  }

  predicate EndsInBreak(s: string) {
    s != "" && (s[|s| - 1] == '\r' || s[|s| - 1] == '\n')
  }

  lemma EndsWithOne(s: string, c: char)
    ensures EndsWith(s, [c]) <==> s != "" && s[|s| - 1] == c
  {
    if s != "" {
      assert s[|s| - 1..] == [s[|s| - 1]];
    }
  }

  lemma EndsWithTwo(s: string, b: char, c: char)
    ensures EndsWith(s, [b, c]) <==> |s| >= 2 && s[|s| - 2] == b && s[|s| - 1] == c
  {
    if |s| >= 2 {
      assert s[|s| - 2..] == [s[|s| - 2], s[|s| - 1]];
    }
  }

  /** After a CRLF is stripped, a further break replaces the ending found. */
  lemma StripAfterCrlf(body: string)
    ensures var t := StripOne(StripOne(StripOne((body, "\r\n"), "\n\r"), "\n"), "\r");
            && (!EndsInBreak(body) ==> t == (body, "\r\n"))
            && (EndsInBreak(body) ==> t.1 != "\r\n")
  {
    hide EndsWith;
    EndsWithTwo(body, '\n', '\r');
    EndsWithOne(body, '\n');
    EndsWithOne(body, '\r');
  }

  lemma StripOtherEndings(line: string)
    ensures StripOne(StripOne(StripOne((line, ""), "\n\r"), "\n"), "\r").1 != "\r\n"
  {
    hide EndsWith;
  }

  /** The ending counts as CRLF exactly when the line is one CRLF after text that ends in no line break. */
  lemma CrlfIff(line: string)
    ensures StripEnding(line).1 == "\r\n" <==> EndsWith(line, "\r\n") && !EndsInBreak(line[..|line| - 2])
    ensures StripEnding(line).1 == "\r\n" ==> line == StripEnding(line).0 + "\r\n"
  {
    hide StripEnding;
    StripEndingSteps(line);
    if EndsWith(line, "\r\n") {
      StripAfterCrlf(line[..|line| - 2]);
    } else {
      StripOtherEndings(line);
    }
  }

  /** No complaint about an added line. */
  predicate AddedLineOk(out: Outside, f: File, added: string) {
    var (text, eol) := StripEnding(added);
    && (f.forceCrlf && eol != "\r\n" ==> Contains(text, "Subproject commit"))
    && (f.forceNoTabs ==> '\t' !in text)
    && |RightStrip(text)| == |text|
    && !out.obsoleteDebug(text)
    && (Contains(text, "__FUNCTION__") ==> out.isThisScript(f.name))
  }
}
