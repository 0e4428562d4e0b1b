/** Which rules of the patch checker hold for which file, and what that means for a whole diff. */
module FileRules {
  import opened Bytes
  import opened PythonStrings
  import opened PatchText
  import opened GitDiffCheck

  // File names, from how they are built.

  ghost predicate HasSuffix(s: string, suffix: string) {
    exists stem: string :: s == stem + suffix
  }

  ghost predicate Under(s: string, directory: string) {
    exists rest: string :: s == directory + rest
  }

  lemma EndsWithIff(s: string, suffix: string)
    ensures EndsWith(s, suffix) <==> HasSuffix(s, suffix)
  {
    if EndsWith(s, suffix) {
      assert s == s[..|s| - |suffix|] + suffix;
    }
  }

  lemma StartsWithIff(s: string, prefix: string)
    ensures StartsWith(s, prefix) <==> Under(s, prefix)
  {
    if StartsWith(s, prefix) {
      assert s == prefix + s[|prefix|..];
    }
  }

  /** The path is that file name, in some directory or none. */
  ghost predicate IsNamed(path: string, base: string) {
    '/' !in base && (path == base || HasSuffix(path, "/" + base))
  }

  lemma {:induction false} BaseNameOf(directory: string, base: string)
    requires '/' !in base
    ensures BaseName(base) == base && BaseName(directory + ("/" + base)) == base
    decreases |directory|
  {
    var path := directory + ("/" + base);
    assert '/' in path by { assert path[|directory|] == '/'; }
    if directory == "" {
      assert path[0] == '/' && path[1..] == base;
    } else {
      assert path[1..] == directory[1..] + ("/" + base);
      assert path[1..][|directory| - 1] == '/';
      BaseNameOf(directory[1..], base);
    }
  }

  lemma BaseNameStep(path: string)
    requires '/' in path
    ensures BaseName(path) == if path[0] == '/' && '/' !in path[1..] then path[1..] else BaseName(path[1..])
  {
  }

  lemma NamedBelow(c: char, path: string, base: string)
    requires HasSuffix(path, "/" + base)
    ensures HasSuffix([c] + path, "/" + base)
  {
    var stem :| path == stem + ("/" + base);
    assert [c] + path == ([c] + stem) + ("/" + base);
  }

  lemma {:induction false} BaseNameIsNamed(path: string)
    ensures IsNamed(path, BaseName(path))
  {
    hide BaseName, HasSuffix;
    if '/' !in path {
      BaseNameOf("", path);
    } else {
      BaseNameStep(path);
      var t := path[1..];
      assert path == [path[0]] + t;
      if path[0] == '/' && '/' !in t {
        assert HasSuffix(path, "/" + t) by { OnlySlash(path, t); }
      } else {
        BaseNameIsNamed(t);
        if t != BaseName(t) {
          NamedBelow(path[0], t, BaseName(t));
        }
      }
    }
  }

  lemma OnlySlash(path: string, base: string)
    requires path == "/" + base
    ensures HasSuffix(path, "/" + base)
  {
    assert path == "" + ("/" + base);
  }

  lemma BaseNameIff(path: string, base: string)
    ensures BaseName(path) == base <==> IsNamed(path, base)
  {
    hide BaseName;
    BaseNameIsNamed(path);
    if IsNamed(path, base) {
      if path == base {
        BaseNameOf("", base);
      } else {
        var directory :| path == directory + ("/" + base);
        BaseNameOf(directory, base);
      }
    }
  }

  ghost predicate IsMakefileName(base: string) {
    || base == "GNUmakefile"
    || ToLower(base) == "makefile"
    || exists stem: string :: base == stem + ".makefile" && exists i :: 0 <= i < |stem| && stem[i] != '.'
  }

  lemma MakefileExtensionIff(base: string)
    ensures IsMakefileExtension(base)
       <==> exists stem: string :: base == stem + ".makefile" && exists i :: 0 <= i < |stem| && stem[i] != '.'
  {
    if IsMakefileExtension(base) {
      var stem := base[..|base| - 9];
      assert base == stem + ".makefile";
      var i :| 0 <= i < |base| - 9 && base[i] != '.';
      assert stem[i] != '.';
    }
    if stem: string :| base == stem + ".makefile" && exists i :: 0 <= i < |stem| && stem[i] != '.' {
      var i :| 0 <= i < |stem| && stem[i] != '.';
      assert base[i] != '.';
      assert base[|base| - 9..] == ".makefile";
    }
  }

  /** Rich text. */
  ghost predicate IsRtfName(name: string) {
    HasSuffix(name, ".rtf")
  }

  /** Shell scripts. */
  ghost predicate IsShellName(name: string) {
    || HasSuffix(name, ".sh") || Under(name, "BaseTools/BinWrappers/PosixLike/") || name == "BaseTools/BuildEnv"
  }

  /** Files that git itself reads. */
  ghost predicate IsGitName(name: string) {
    name == ".gitmodules" || name == "BaseTools/Conf/diff.order"
  }

  /** Makefiles, and sources that keep their tabs. */
  ghost predicate IsMakeName(name: string) {
    || (exists base: string :: IsNamed(name, base) && IsMakefileName(base))
    || Under(name, "BaseTools/Source/C/VfrCompile/Pccts/")
  }

  /** The command line that git writes for a file. */
  function Command(name: string): string {
    "diff --git a/" + name + " b/" + name + "\n"
  }

  lemma {:induction false} FirstWordOf(word: string, rest: string)
    requires ' ' !in word
    ensures FirstWord(word + " " + rest) == word
  {
    var s := word + " " + rest;
    if word == "" {
      assert s[0] == ' ';
    } else {
      assert s[0] == word[0] && s[1..] == word[1..] + " " + rest;
      FirstWordOf(word[1..], rest);
    }
  }

  /** The rules for every file without a space in its name: the command names the file; CRLF is asked for unless
      it is rich text, a shell script or read by git; tabs are refused unless it is rich text, read by git or a
      makefile. */
  lemma RulesOfFile(name: string)
    requires ' ' !in name
    ensures IsCommand(Command(name))
    ensures var f := CommandFile(Command(name));
            && f.name == name
            && (f.forceCrlf <==> !IsRtfName(name) && !IsShellName(name) && !IsGitName(name))
            && (f.forceNoTabs <==> !IsRtfName(name) && !IsMakeName(name) && !IsGitName(name))
  {
    hide FirstWord, BaseName, ToLower, IsMakefileExtension, EndsWith, HasSuffix, Under, IsNamed;
    var line := Command(name);
    NameOfCommand(name);
    EndsWithIff(name, ".rtf");
    EndsWithIff(name, ".sh");
    StartsWithIff(name, "BaseTools/BinWrappers/PosixLike/");
    StartsWithIff(name, "BaseTools/Source/C/VfrCompile/Pccts/");
    MakeNameIff(name);
  }

  lemma NameOfCommand(name: string)
    requires ' ' !in name
    ensures IsCommand(Command(name)) && |Command(name)| >= 13 && FirstWord(Command(name)[13..]) == name
  {
    var line := Command(name);
    assert line[13..] == name + " " + ("b/" + name + "\n");
    FirstWordOf(name, "b/" + name + "\n");
  }

  /** A name with a space is cut there: its file is treated as if that were all. */
  lemma SpaceCutsName(word: string, more: string)
    requires ' ' !in word
    ensures CommandFile(Command(word + " " + more)) == CommandFile(Command(word))
  {
    hide FirstWord, BaseName, ToLower, IsMakefileExtension, EndsWith;
    NameOfCommand(word);
    var name := word + " " + more;
    var line := Command(name);
    assert line[13..] == word + " " + (more + " b/" + name + "\n");
    FirstWordOf(word, more + " b/" + name + "\n");
  }

  lemma MakeNameIff(name: string)
    ensures (exists base: string :: IsNamed(name, base) && IsMakefileName(base))
       <==> || BaseName(name) == "GNUmakefile" || ToLower(BaseName(name)) == "makefile"
            || IsMakefileExtension(BaseName(name))
  {
    hide BaseName, ToLower, IsMakefileExtension, IsNamed;
    var base := BaseName(name);
    BaseNameIff(name, base);
    MakefileExtensionIff(base);
    if other: string :| IsNamed(name, other) && IsMakefileName(other) {
      BaseNameIff(name, other);
    }
  }

  // Families of names.

  lemma SuffixEnds(s: string, suffix: string)
    requires HasSuffix(s, suffix) && suffix != ""
    ensures s != "" && s[|s| - 1] == suffix[|suffix| - 1]
  {
    var stem :| s == stem + suffix;
  }

  /** The last character of a makefile's name, in any case. */
  lemma MakefileEnds(path: string, base: string)
    requires IsNamed(path, base) && IsMakefileName(base)
    ensures path != "" && (path[|path| - 1] == 'e' || path[|path| - 1] == 'E')
  {
    var c := base[|base| - 1];
    if ToLower(base) == "makefile" {
      assert ToLower(base)[7] == 'e' && |base| == 8;
    } else if base != "GNUmakefile" {
      var stem :| base == stem + ".makefile" && exists i :: 0 <= i < |stem| && stem[i] != '.';
      assert c == ".makefile"[8];
    }
    if path != base {
      var d :| path == d + ("/" + base);
      assert path[|path| - 1] == c;
    }
  }

  /** A name whose last letter is none of these is in no family that is told by its end. */
  lemma OtherEnd(name: string)
    requires name != "" && name[|name| - 1] !in "fhvsreE"
    ensures !IsRtfName(name) && !IsGitName(name)
    ensures IsShellName(name) <==> Under(name, "BaseTools/BinWrappers/PosixLike/")
    ensures IsMakeName(name) <==> Under(name, "BaseTools/Source/C/VfrCompile/Pccts/")
  {
    hide HasSuffix, Under, IsNamed, IsMakefileName;
    assert "fhvsreE" == ['f', 'h', 'v', 's', 'r', 'e', 'E'];
    var x := name[|name| - 1];
    if HasSuffix(name, ".rtf") {
      SuffixEnds(name, ".rtf");
    }
    if HasSuffix(name, ".sh") {
      SuffixEnds(name, ".sh");
    }
    if base: string :| IsNamed(name, base) && IsMakefileName(base) {
      MakefileEnds(name, base);
    }
    GitEnds();
  }

  lemma GitEnds()
    ensures var a, b, c := ".gitmodules", "BaseTools/Conf/diff.order", "BaseTools/BuildEnv";
            a[|a| - 1] == 's' && b[|b| - 1] == 'r' && c[|c| - 1] == 'v'
  {
  }

  /** A C source is under both rules, except in the two directories that are named. */
  lemma SourceFile(stem: string)
    requires ' ' !in stem
    ensures var f := CommandFile(Command(stem + ".c"));
            && (f.forceCrlf <==> !Under(stem + ".c", "BaseTools/BinWrappers/PosixLike/"))
            && (f.forceNoTabs <==> !Under(stem + ".c", "BaseTools/Source/C/VfrCompile/Pccts/"))
  {
    hide CommandFile, Under, IsRtfName, IsShellName, IsGitName, IsMakeName;
    RulesOfFile(stem + ".c");
    OtherEnd(stem + ".c");
  }

  /** A shell script may have LF line endings, but no tabs. */
  lemma ShellScript(stem: string)
    requires ' ' !in stem
    ensures var f := CommandFile(Command(stem + ".sh"));
            && !f.forceCrlf
            && (f.forceNoTabs <==> !Under(stem + ".sh", "BaseTools/Source/C/VfrCompile/Pccts/"))
  {
    hide CommandFile, Under, IsNamed, IsMakefileName;
    var name := stem + ".sh";
    RulesOfFile(name);
    if HasSuffix(name, ".rtf") {
      SuffixEnds(name, ".rtf");
    }
    if base: string :| IsNamed(name, base) && IsMakefileName(base) {
      MakefileEnds(name, base);
    }
    GitEnds();
  }

  /** A makefile in any directory may have tabs, but needs CRLF. */
  lemma Makefile(directory: string, base: string)
    requires ' ' !in directory + base && '/' !in base && IsMakefileName(base)
    requires directory == "" || directory[|directory| - 1] == '/'
    ensures var f := CommandFile(Command(directory + base));
            && !f.forceNoTabs
            && (f.forceCrlf <==> !Under(directory + base, "BaseTools/BinWrappers/PosixLike/"))
  {
    hide CommandFile, Under, IsMakefileName;
    var name := directory + base;
    RulesOfFile(name);
    if directory != "" {
      assert name == directory[..|directory| - 1] + ("/" + base);
    }
    assert IsNamed(name, base);
    MakefileEnds(name, base);
    if HasSuffix(name, ".rtf") {
      SuffixEnds(name, ".rtf");
    }
    if HasSuffix(name, ".sh") {
      SuffixEnds(name, ".sh");
    }
    GitEnds();
  }

  // A whole diff.

  /** A diff that adds one line to a file. */
  function OneLineDiff(name: string, submodule: bool, text: string, ending: string): seq<string> {
    [Command(name), if submodule then "new file mode 160000\n" else "new file mode 100644\n", "@@ -0,0 +1 @@\n",
     "+" + text + ending]
  }

  /** What the checker asks of an added line of the file. */
  ghost predicate LineIsFine(out: Outside, name: string, submodule: bool, text: string, crlf: bool) {
    && (crlf || submodule || IsShellName(name) || IsGitName(name) || Contains(text, "Subproject commit"))
    && ('\t' !in text || IsGitName(name) || IsMakeName(name))
    && (text == "" || !IsSpace(text[|text| - 1]))
    && !out.obsoleteDebug(text)
    && (Contains(text, "__FUNCTION__") ==> out.isThisScript(name))
  }

  lemma StripPlain(text: string, crlf: bool)
    requires !EndsInBreak(text)
    ensures StripEnding(text + if crlf then "\r\n" else "\n") == (text, if crlf then "\r\n" else "\n")
  {
    hide EndsWith;
    var line := text + if crlf then "\r\n" else "\n";
    StripEndingSteps(line);
    EndsWithTwo(line, '\r', '\n');
    EndsWithTwo(line, '\n', '\r');
    EndsWithOne(line, '\n');
    assert line[..|text|] == text;
    EndsWithTwo(text, '\n', '\r');
    EndsWithOne(text, '\n');
    EndsWithOne(text, '\r');
  }

  lemma FullLength(text: string)
    ensures |RightStrip(text)| == |text| <==> text == "" || !IsSpace(text[|text| - 1])
  {
    hide IsSpace;
  }

  /** The verdict on an added line depends on the file's name and the text, as the rules say. */
  lemma AddedLineIff(out: Outside, name: string, submodule: bool, text: string, crlf: bool)
    requires ' ' !in name && !EndsInBreak(text)
    ensures var f := CommandFile(Command(name));
            var g := if submodule then f.(forceCrlf := false) else f;
            IsRtfName(name) || AddedLineOk(out, g, text + if crlf then "\r\n" else "\n")
            <==> IsRtfName(name) || LineIsFine(out, name, submodule, text, crlf)
  {
    hide CommandFile, StripEnding, RightStrip, Contains, IsRtfName, IsShellName, IsGitName, IsMakeName, EndsInBreak;
    RulesOfFile(name);
    StripPlain(text, crlf);
    FullLength(text);
  }

  function Rule(out: Outside): Check {
    (f: File, line: string) => AddedLineOk(out, f, line)
  }

  function AfterHeader(name: string, submodule: bool): State {
    var f := CommandFile(Command(name));
    State(true, true, 2, PrePatch, [], Some(if submodule then f.(forceCrlf := false) else f), false, None)
  }

  lemma HeaderSteps(check: Check, name: string, submodule: bool, text: string, ending: string)
    requires ' ' !in name
    ensures var lines := OneLineDiff(name, submodule, text, ending);
            Finish(check, lines, INITIAL) == Finish(check, lines, AfterHeader(name, submodule))
  {
    hide CommandFile, IsBlank;
    var lines := OneLineDiff(name, submodule, text, ending);
    RulesOfFile(name);
    var s1 := Step(check, lines, INITIAL);
    assert s1 == State(true, true, 1, PrePatch, [], Some(CommandFile(Command(name))), false, None);
    var header := lines[1];
    assert header[0] == 'n' && header[1] == 'e' && header[2] == 'w' && StartsWith(header, "new file ");
    ModeIsSubmodule(submodule);
    assert Step(check, lines, s1) == AfterHeader(name, submodule);
    assert Finish(check, lines, INITIAL) == Finish(check, lines, s1);
  }

  lemma ModeIsSubmodule(submodule: bool)
    ensures IsSubmodule(if submodule then "new file mode 160000\n" else "new file mode 100644\n") <==> submodule
  {
    assert "new file mode 100644\n"[15] == '0' && "new file mode 160000"[15] == '6';
  }

  lemma BodySteps(check: Check, name: string, submodule: bool, text: string, ending: string)
    ensures var lines, s := OneLineDiff(name, submodule, text, ending), AfterHeader(name, submodule);
            var f := s.file.value;
            Finish(check, lines, s).ok <==> IsRtf(f) || check(f, text + ending)
  {
    hide CommandFile, IsRtf, IsBlank;
    var lines, s := OneLineDiff(name, submodule, text, ending), AfterHeader(name, submodule);
    var marker, line := lines[2], lines[3];
    assert marker[0] == '@' && StartsWith(marker, "@@ ");
    var s3 := Step(check, lines, s);
    assert s3 == s.(phase := Patch, binary := Some(false), lineNum := 3);
    assert line[0] == '+' && line[1..] == text + ending;
    var s4 := Step(check, lines, s3);
    assert s4.lineNum == 4 && (s4.ok <==> IsRtf(s.file.value) || check(s.file.value, text + ending));
    assert Finish(check, lines, s) == Finish(check, lines, s3);
    assert Finish(check, lines, s3) == Finish(check, lines, s4);
  }

  /** Over the whole run: a diff that adds one line is accepted exactly when the file is rich text, or the line
      meets the rules for files of its name. */
  lemma OneLineDiffAcceptedIff(out: Outside, name: string, submodule: bool, text: string, crlf: bool)
    requires ' ' !in name && !EndsInBreak(text)
    ensures Finish(Rule(out), OneLineDiff(name, submodule, text, if crlf then "\r\n" else "\n"), INITIAL).ok
       <==> IsRtfName(name) || LineIsFine(out, name, submodule, text, crlf)
  {
    hide Finish, OneLineDiff, CommandFile, AddedLineOk, LineIsFine, EndsInBreak, IsShellName, IsGitName, IsMakeName;
    var ending := if crlf then "\r\n" else "\n";
    HeaderSteps(Rule(out), name, submodule, text, ending);
    BodySteps(Rule(out), name, submodule, text, ending);
    RulesOfFile(name);
    EndsWithIff(name, ".rtf");
    AddedLineIff(out, name, submodule, text, crlf);
  }

  /** The same LF line is accepted in a shell script and refused in a C source. */
  lemma ShellScriptMayHaveLf(out: Outside)
    requires !out.obsoleteDebug("echo hi")
    ensures Finish(Rule(out), OneLineDiff("x.sh", false, "echo hi", "\n"), INITIAL).ok
    ensures !Finish(Rule(out), OneLineDiff("x.c", false, "echo hi", "\n"), INITIAL).ok
  {
    hide Finish, OneLineDiff, Contains, IsSpace, IsRtfName, IsShellName, IsGitName, IsMakeName;
    var text := "echo hi";
    assert text[|text| - 1] == 'i';
    LacksWords();
    OneLineDiffAcceptedIff(out, "x.sh", false, text, false);
    OneLineDiffAcceptedIff(out, "x.c", false, text, false);
    ShellName();
    SourceName();
  }

  lemma ShellName()
    ensures IsShellName("x.sh")
  {
    assert "x.sh" == "x" + ".sh";
  }

  lemma SourceName()
    ensures !IsRtfName("x.c") && !IsShellName("x.c") && !IsGitName("x.c")
  {
    hide IsShellName, IsMakeName, Under;
    OtherEnd("x.c");
    NotUnder();
  }

  lemma LacksWords()
    ensures !Contains("echo hi", "Subproject commit") && !Contains("echo hi", "__FUNCTION__")
    ensures !IsSpace('i')
  {
  }

  lemma NotUnder()
    ensures !Under("x.c", "BaseTools/BinWrappers/PosixLike/")
  {
  }

  /** A diff that brings a binary file, whose earlier hash is given. */
  function BinaryDiff(name: string, hash: string, marker: string): seq<string> {
    [Command(name), "index " + hash + ".." + "1\n", marker]
  }

  /** Over the whole run: a binary file is listed exactly when its earlier hash is all zeros, and never refused. */
  lemma BinaryIsListedIffNew(check: Check, name: string, hash: string, marker: string)
    requires ' ' !in name && '.' !in hash && hash != ""
    requires marker == "GIT binary patch\n" || marker == "Binary files differ\n"
    ensures var end := Finish(check, BinaryDiff(name, hash, marker), INITIAL);
            end.ok && end.newBin == if forall i :: 0 <= i < |hash| ==> hash[i] == '0' then [name] else []
  {
    hide CommandFile, IsBlank, IsNewFileIndex;
    var lines := BinaryDiff(name, hash, marker);
    RulesOfFile(name);
    var s1 := Step(check, lines, INITIAL);
    assert s1 == State(true, true, 1, PrePatch, [], Some(CommandFile(Command(name))), false, None);
    var header := lines[1];
    assert header[0] == 'i' && header[1] == 'n' && header[2] == 'd' && StartsWith(header, "index ");
    NewFileIndexIff(hash, "1\n");
    var s2 := Step(check, lines, s1);
    assert s2 == s1.(isNewFile := IsNewFileIndex(header), lineNum := 2);
    assert marker[0] == 'G' || marker[0] == 'B';
    assert StartsWith(marker, "GIT binary patch") || StartsWith(marker, "Binary files");
    var s3 := Step(check, lines, s2);
    assert s3.lineNum == 3 && s3.ok && s3.newBin == if s2.isNewFile then [name] else [];
    assert Finish(check, lines, INITIAL) == Finish(check, lines, s1);
    assert Finish(check, lines, s1) == Finish(check, lines, s2);
    assert Finish(check, lines, s2) == Finish(check, lines, s3);
  }

  // Lines around the hunks.

  /** A first line is accepted exactly when it is a command or white space. */
  lemma FirstLineIff(check: Check, line: string)
    ensures Finish(check, [line], INITIAL).ok <==> "diff --git" <= line || AllSpace(line)
  {
    hide IsSpace, CommandFile;
    var s1 := Step(check, [line], INITIAL);
    assert s1.lineNum == 1 && (s1.ok <==> IsCommand(line) || IsBlank(line));
    assert Finish(check, [line], INITIAL) == Finish(check, [line], s1);
    var r := RightStrip(line);
    assert r != "" ==> line[|r| - 1] == r[|r| - 1];
  }

  function HunkStart(name: string): seq<string> {
    [Command(name), "@@ -0,0 +1 @@\n"]
  }

  function InHunk(name: string): State {
    State(true, true, 2, Patch, [], Some(CommandFile(Command(name))), false, Some(false))
  }

  lemma HunkSteps(check: Check, name: string, rest: seq<string>)
    requires ' ' !in name
    ensures Finish(check, HunkStart(name) + rest, INITIAL) == Finish(check, HunkStart(name) + rest, InHunk(name))
  {
    hide CommandFile, IsBlank;
    var lines := HunkStart(name) + rest;
    RulesOfFile(name);
    var s1 := Step(check, lines, INITIAL);
    assert s1 == State(true, true, 1, PrePatch, [], Some(CommandFile(Command(name))), false, None);
    var marker := lines[1];
    assert marker[0] == '@' && StartsWith(marker, "@@ ");
    assert Step(check, lines, s1) == InHunk(name);
    assert Finish(check, lines, INITIAL) == Finish(check, lines, s1);
  }

  /** After the end of the patch any text may follow, but no further diff. */
  lemma TextAfterPatchIff(check: Check, name: string, rest: seq<string>)
    requires ' ' !in name
    ensures Finish(check, HunkStart(name) + ["2.40.1\n"] + rest, INITIAL).ok
       <==> forall l :: l in rest ==> !("diff --git" <= l)
  {
    hide CommandFile, IsBlank, HasCommand;
    var lines, s := HunkStart(name) + ["2.40.1\n"] + rest, InHunk(name);
    assert lines == HunkStart(name) + (["2.40.1\n"] + rest);
    HunkSteps(check, name, ["2.40.1\n"] + rest);
    var line := lines[2];
    assert line[0] == '2' && EndsPatch(line);
    assert lines[3..] == rest;
    var t := Step(check, lines, s);
    assert t.lineNum == |lines| && (t.ok <==> !HasCommand(rest));
    assert Finish(check, lines, s) == Finish(check, lines, t);
    HasCommandIff(rest);
  }

  lemma HasCommandIff(lines: seq<string>)
    ensures !HasCommand(lines) <==> forall l :: l in lines ==> !("diff --git" <= l)
  {
    if HasCommand(lines) {
      var i :| 0 <= i < |lines| && IsCommand(lines[i]);
      assert lines[i] in lines && "diff --git" <= lines[i];
    } else {
      forall l | l in lines ensures !("diff --git" <= l) {
        var i :| 0 <= i < |lines| && lines[i] == l;
        assert !IsCommand(lines[i]);
      }
    }
  }

  /** Lines of a hunk that add nothing are accepted in every file. */
  lemma OtherHunkLines(check: Check, name: string, line: string)
    requires ' ' !in name
    requires " " <= line || "-" <= line || "\r\n" <= line || "\\ No newline " <= line
    ensures Finish(check, HunkStart(name) + [line], INITIAL).ok
  {
    hide CommandFile, IsBlank, IsRtf;
    var lines, s := HunkStart(name) + [line], InHunk(name);
    HunkSteps(check, name, [line]);
    assert lines[2] == line && (line[0] == ' ' || line[0] == '-' || line[0] == '\r' || line[0] == '\\');
    var t := Step(check, lines, s);
    assert t.lineNum == 3 && t.ok;
    assert Finish(check, lines, s) == Finish(check, lines, t);
  }
}
