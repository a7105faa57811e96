/**
 * getLastCommand (main.go:86-207): choose the history flavour from the shell,
 * read that shell's history file, and scan its lines from the newest backward
 * for the first one that survives normalisation, the self-invocation filter and
 * the existence check of its first word.
 *
 * Everything the Go code asks the operating system is a field of `Env`.
 */
module History {
  import opened Wrappers
  import opened Text

  datatype Flavour = Zsh | Bash

  /** Why or how automatic capture proceeds. */
  datatype Capture =
    | OnWindows
    | NoShell
    | UnsupportedShell(shell: string)
    | Supported(flavour: Flavour)

  /**
   * What the Go code learns from the operating system: runtime.GOOS, $SHELL,
   * os.UserHomeDir (with its error ignored, as the source does, an unresolved
   * home is ""), os.Getwd (None when it fails), the contents of a file (None
   * when it is missing or unreadable), whether os.Stat of a path succeeds, and
   * whether `which NAME` succeeds.
   */
  datatype Env = Env(
    goos: string,
    shell: string,
    home: string,
    cwd: Option<string>,
    readFile: string -> Option<string>,
    statOk: string -> bool,
    which: string -> bool)

  /** The shell test of main.go:88-115: zsh is tested before bash. */
  function ChooseShell(goos: string, shell: string): (c: Capture)
    ensures c == OnWindows <==> goos == "windows"
    ensures c == NoShell <==> goos != "windows" && shell == []
    ensures c == Supported(Zsh) <==> goos != "windows" && Contains(shell, "zsh")
    ensures c == Supported(Bash) <==> goos != "windows" && !Contains(shell, "zsh") && Contains(shell, "bash")
    ensures c.UnsupportedShell? ==> c.shell == shell
  {
    if goos == "windows" then OnWindows
    else if shell == [] then NoShell
    else if Contains(shell, "zsh") then Supported(Zsh)
    else if Contains(shell, "bash") then Supported(Bash)
    else UnsupportedShell(shell)
  }

  /** filepath.Join of two elements, without the lexical clean-up Join performs afterwards. */
  function JoinPath(dir: string, name: string): string
  {
    if dir == [] then name else if name == [] then dir else dir + "/" + name
  }

  /** The history file each shell writes in the home directory. */
  function HistoryFile(f: Flavour): string
  {
    if f == Zsh then ".zsh_history" else ".bash_history"
  }

  /** The history file of the chosen shell: ~/.zsh_history or ~/.bash_history. */
  function HistoryPath(home: string, f: Flavour): (path: string)
    ensures HasPrefix(path, home)
    ensures |HistoryFile(f)| <= |path| && path[|path| - |HistoryFile(f)|..] == HistoryFile(f)
    ensures home != [] ==> path == home + "/" + HistoryFile(f)
  {
    JoinPath(home, HistoryFile(f))
  }

  /**
   * The zsh clean-up of main.go:145-158: the text after the first ":0;" when
   * there is one, otherwise the text after the first ";", trimmed; otherwise
   * the line itself.
   */
  function StripZshMeta(line: string): (r: string)
    ensures Trimmed(line) ==> Trimmed(r)
  {
    match IndexOf(line, ":0;")
    case Some(k) => TrimSpace(line[k + 3..])
    case None =>
      match IndexOf(line, ";")
      case Some(k) => TrimSpace(line[k + 1..])
      case None => line
  }

  /** A line holding ":0;" keeps the trimmed text after its first ":0;". */
  lemma StripAfterMarker(line: string, k: nat)
    requires FirstOccurrence(line, ":0;", k)
    ensures StripZshMeta(line) == TrimSpace(line[k + 3..])
  {
    IndexOfFirst(line, ":0;");
  }

  /** Otherwise a line holding ";" keeps the trimmed text after its first ";". */
  lemma StripAfterSemicolon(line: string, k: nat)
    requires NoOccurrence(line, ":0;") && FirstOccurrence(line, ";", k)
    ensures StripZshMeta(line) == TrimSpace(line[k + 1..])
  {
    IndexOfFirst(line, ":0;");
    IndexOfFirst(line, ";");
  }

  /** A line holding neither is left as it is. */
  lemma StripLeavesPlain(line: string)
    requires NoOccurrence(line, ":0;") && NoOccurrence(line, ";")
    ensures StripZshMeta(line) == line
  {
    IndexOfFirst(line, ":0;");
    IndexOfFirst(line, ";");
  }

  /** The tool's own invocations (main.go:161-166). */
  predicate IsSelfInvocation(line: string)
  {
    HasPrefix(line, "./cs") || HasPrefix(line, "cs ") || HasPrefix(line, "go run main.go")
  }

  /** The three prefixes are filtered whatever follows them, but a bare `cs` is not. */
  lemma SelfInvocationForms(rest: string)
    ensures IsSelfInvocation("./cs" + rest)
    ensures IsSelfInvocation("cs " + rest)
    ensures IsSelfInvocation("go run main.go" + rest)
    ensures !IsSelfInvocation("cs")
  {
    assert ("./cs" + rest)[..4] == "./cs";
    assert ("cs " + rest)[..3] == "cs ";
    assert ("go run main.go" + rest)[..14] == "go run main.go";
  }

  /** One history line after trimming, zsh clean-up and the self filter; None when it is skipped. */
  function Candidate(raw: string, f: Flavour): (c: Option<string>)
    ensures c.Some? ==> c.value != [] && Trimmed(c.value)
    ensures c.Some? ==> !IsSelfInvocation(c.value)
    ensures c.Some? && f == Bash ==> c.value == TrimSpace(raw)
    ensures c.Some? && f == Zsh ==> c.value == StripZshMeta(TrimSpace(raw))
    ensures TrimSpace(raw) == [] ==> c.None?
    ensures f == Bash && TrimSpace(raw) != [] && !IsSelfInvocation(TrimSpace(raw)) ==> c.Some?
    ensures f == Zsh && TrimSpace(raw) != [] ==>
              (StripZshMeta(TrimSpace(raw)) != [] && !IsSelfInvocation(StripZshMeta(TrimSpace(raw))) ==> c.Some?)
  {
    var trimmed := TrimSpace(raw);
    if trimmed == [] then None
    else
      var line := if f == Zsh then StripZshMeta(trimmed) else trimmed;
      if line == [] || IsSelfInvocation(line) then None else Some(line)
  }

  /** The existence check a command word is sent to (main.go:175-199). */
  datatype Probe =
    | Stat(path: string)    // os.Stat of a path
    | Which(name: string)   // `which NAME`
    | NoWorkingDir          // os.Getwd failed: the line is skipped

  function ProbeFor(name: string, cwd: Option<string>): (p: Probe)
    ensures '/' !in name ==> p == Which(name)
    ensures '/' in name && !HasPrefix(name, "./") ==> p == Stat(name)
    ensures HasPrefix(name, "./") && cwd.None? ==> p == NoWorkingDir
    ensures HasPrefix(name, "./") && cwd.Some? ==> p == Stat(JoinPath(cwd.value, name[2..]))
  {
    ContainsRune(name, '/');
    assert HasPrefix(name, "./") ==> name[1] == '/';
    if Contains(name, "/") || HasPrefix(name, "./") then
      if HasPrefix(name, "./") then
        match cwd
        case None => NoWorkingDir
        case Some(dir) => Stat(JoinPath(dir, name[2..]))
      else Stat(name)
    else Which(name)
  }

  /** The verdict of a probe: os.Stat succeeds, `which` succeeds, or, without a working directory, fails. */
  predicate Passes(p: Probe, env: Env)
  {
    match p
    case Stat(path) => env.statOk(path)
    case Which(name) => env.which(name)
    case NoWorkingDir => false
  }

  /** The line a raw history line yields, when it passes every test. */
  function Pick(raw: string, f: Flavour, env: Env): (c: Option<string>)
    ensures c.Some? ==> c == Candidate(raw, f)
    ensures c.Some? ==> FirstField(c.value) != [] && Passes(ProbeFor(FirstField(c.value), env.cwd), env)
    ensures Candidate(raw, f).Some? && Passes(ProbeFor(FirstField(Candidate(raw, f).value), env.cwd), env) ==> c.Some?
  {
    match Candidate(raw, f)
    case None => None
    case Some(line) =>
      var name := FirstField(line);
      if name == [] || !Passes(ProbeFor(name, env.cwd), env) then None else Some(line)
  }

  /**
   * The backward scan of main.go:138-206 over any per-line test `pick`: the
   * result of the newest line the test accepts, "" when it accepts none.
   */
  function Newest(lines: seq<string>, pick: string -> Option<string>): string
    decreases |lines|
  {
    if lines == [] then []
    else
      match pick(lines[|lines| - 1])
      case Some(line) => line
      case None => Newest(lines[..|lines| - 1], pick)
  }

  /** A non-empty result is the pick of some line, and every newer line has none. */
  lemma {:induction false} NewestIsNewest(lines: seq<string>, pick: string -> Option<string>)
    ensures var r := Newest(lines, pick);
            r != [] ==> exists i :: 0 <= i < |lines| && pick(lines[i]) == Some(r)
                                    && forall j :: i < j < |lines| ==> pick(lines[j]).None?
  {
    if lines != [] {
      var n := |lines| - 1;
      if pick(lines[n]).None? {
        var init := lines[..n];
        NewestIsNewest(init, pick);
        if Newest(lines, pick) != [] {
          var i :| 0 <= i < |init| && pick(init[i]) == Some(Newest(init, pick))
                   && forall j :: i < j < |init| ==> pick(init[j]).None?;
          assert pick(lines[i]) == Some(Newest(lines, pick));
          forall j | i < j < |lines| ensures pick(lines[j]).None? {
            if j < n { assert lines[j] == init[j]; }
          }
        }
      }
    }
  }

  /** A non-empty result is one of the values the test produced. */
  lemma {:induction false} NewestIsPicked(lines: seq<string>, pick: string -> Option<string>, good: string -> bool)
    requires forall raw, c :: pick(raw) == Some(c) ==> good(c)
    ensures Newest(lines, pick) != [] ==> good(Newest(lines, pick))
  {
    if lines != [] && pick(lines[|lines| - 1]).None? {
      NewestIsPicked(lines[..|lines| - 1], pick, good);
    }
  }

  /** "" comes back exactly when no line has a non-empty pick. */
  lemma {:induction false} NewestEmpty(lines: seq<string>, pick: string -> Option<string>)
    requires forall raw :: pick(raw) != Some([])
    ensures Newest(lines, pick) == [] <==> forall i :: 0 <= i < |lines| ==> pick(lines[i]).None?
  {
    if lines != [] {
      var n := |lines| - 1;
      var init := lines[..n];
      NewestEmpty(init, pick);
      assert forall i :: 0 <= i < n ==> lines[i] == init[i];
    }
  }

  /** A newer line that fails does not hide an older one that passes. */
  lemma NewestSkipsFailure(lines: seq<string>, newer: string, pick: string -> Option<string>)
    requires pick(newer).None?
    ensures Newest(lines + [newer], pick) == Newest(lines, pick)
  {
    assert (lines + [newer])[..|lines|] == lines;
  }

  /** One step of the backward scan: the newest line decides, or the rest is scanned. */
  lemma NewestStep(lines: seq<string>, i: nat, pick: string -> Option<string>)
    requires i < |lines|
    ensures Newest(lines[..i + 1], pick)
            == if pick(lines[i]).Some? then pick(lines[i]).value else Newest(lines[..i], pick)
  {
    assert lines[..i + 1][..i] == lines[..i];
  }

  /** The scan of getLastCommand: Newest with Pick as its test. */
  function LastValid(lines: seq<string>, f: Flavour, env: Env): string
  {
    Newest(lines, raw => Pick(raw, f, env))
  }

  /** One step of the scan, in terms of Pick. */
  lemma LastValidStep(lines: seq<string>, i: nat, f: Flavour, env: Env)
    requires i < |lines|
    ensures LastValid(lines[..i + 1], f, env)
            == if Pick(lines[i], f, env).Some? then Pick(lines[i], f, env).value else LastValid(lines[..i], f, env)
  {
    NewestStep(lines, i, raw => Pick(raw, f, env));
  }

  /** What getLastCommand may return: a trimmed, non-self line whose first word passed its check. */
  ghost predicate Clean(r: string, env: Env)
  {
    r != [] && Trimmed(r) && !IsSelfInvocation(r)
    && Passes(ProbeFor(FirstField(r), env.cwd), env)
  }

  lemma LastValidIsClean(lines: seq<string>, f: Flavour, env: Env)
    ensures LastValid(lines, f, env) != [] ==> Clean(LastValid(lines, f, env), env)
  {
    forall raw, c | Pick(raw, f, env) == Some(c) ensures Clean(c, env) {
      assert Candidate(raw, f) == Some(c);
    }
    NewestIsPicked(lines, raw => Pick(raw, f, env), r => Clean(r, env));
  }

  lemma LastValidIsNewest(lines: seq<string>, f: Flavour, env: Env)
    ensures var r := LastValid(lines, f, env);
            r != [] ==> exists i :: 0 <= i < |lines| && Pick(lines[i], f, env) == Some(r)
                                    && forall j :: i < j < |lines| ==> Pick(lines[j], f, env).None?
  {
    NewestIsNewest(lines, raw => Pick(raw, f, env));
  }

  lemma LastValidEmpty(lines: seq<string>, f: Flavour, env: Env)
    ensures LastValid(lines, f, env) == [] <==> forall i :: 0 <= i < |lines| ==> Pick(lines[i], f, env).None?
  {
    NewestEmpty(lines, raw => Pick(raw, f, env));
  }

  /** The existence check of main.go:175-199 for a command word. */
  method CommandExists(name: string, env: Env) returns (ok: bool)
    ensures ok == Passes(ProbeFor(name, env.cwd), env)
  {
    ContainsRune(name, '/');
    if Contains(name, "/") || HasPrefix(name, "./") {
      var fullPath: string;
      if HasPrefix(name, "./") {
        if env.cwd.None? {
          return false;
        }
        fullPath := JoinPath(env.cwd.value, name[2..]);
      } else {
        fullPath := name;
      }
      ok := env.statOk(fullPath);
    } else {
      ok := env.which(name);
    }
  }

  /** The body of the loop of main.go:139-202 for one raw line: the line it returns, if any. */
  method CheckLine(raw: string, f: Flavour, env: Env) returns (picked: Option<string>)
    ensures picked == Pick(raw, f, env)
  {
    var line := TrimSpace(raw);
    if line == [] {
      return None;
    }
    if f == Zsh {
      line := StripZshMeta(line);
    }
    if line == [] || IsSelfInvocation(line) {
      return None;
    }
    assert Candidate(raw, f) == Some(line);
    var name := FirstField(line);
    if name == [] {
      return None;
    }
    var ok := CommandExists(name, env);
    if !ok {
      return None;
    }
    return Some(line);
  }

  /**
   * The loop of main.go:138-206 over `lines`, newest first, stopping at the
   * first line CheckLine accepts. `pick` stands for Pick at this shell and
   * environment, so that the proof of the loop sees only Newest's steps.
   */
  method ScanLines(lines: seq<string>, f: Flavour, env: Env, ghost pick: string -> Option<string>)
    returns (command: string)
    requires forall raw {:trigger Pick(raw, f, env)} :: pick(raw) == Pick(raw, f, env)
    ensures command == Newest(lines, pick)
  {
    ghost var target := Newest(lines, pick);
    assert lines[..|lines|] == lines;
    for i := |lines| downto 0
      invariant Newest(lines[..i], pick) == target
    {
      var picked := CheckLine(lines[i], f, env);
      NewestStep(lines, i, pick);
      if picked.Some? {
        return picked.value;
      }
    }
    assert lines[..0] == [];
    return [];
  }

  /** The scan of getLastCommand, proved equal to LastValid. */
  method ScanHistory(lines: seq<string>, f: Flavour, env: Env) returns (command: string)
    ensures command == LastValid(lines, f, env)
  {
    command := ScanLines(lines, f, env, raw => Pick(raw, f, env));
  }

  /** getLastCommand as a function of the environment. */
  function LastCommand(env: Env): (command: string)
    ensures command != [] ==> Clean(command, env)
  {
    match ChooseShell(env.goos, env.shell)
    case Supported(f) =>
      (match env.readFile(HistoryPath(env.home, f))
       case None => []
       case Some(content) =>
         LastValidIsClean(Split(content, '\n'), f, env);
         LastValid(Split(content, '\n'), f, env))
    case _ => []
  }

  /** getLastCommand (main.go:86-207). */
  method GetLastCommand(env: Env) returns (command: string)
    ensures command == LastCommand(env)
  {
    var capture := ChooseShell(env.goos, env.shell);
    if !capture.Supported? {
      return [];
    }
    var content := env.readFile(HistoryPath(env.home, capture.flavour));
    if content.None? {
      return [];
    }
    var lines := Split(content.value, '\n');
    command := ScanHistory(lines, capture.flavour, env);
  }

  /** A command is only ever found through a supported shell's readable history file. */
  lemma LastCommandNeedsHistory(env: Env)
    ensures LastCommand(env) != [] ==>
              && env.goos != "windows"
              && (Contains(env.shell, "zsh") || Contains(env.shell, "bash"))
              && var f := ChooseShell(env.goos, env.shell).flavour;
                 env.readFile(HistoryPath(env.home, f)).Some?
  {
  }

  /** A zsh extended-history line ": <start>:0;<command>" loses its timestamp. */
  lemma ZshExtendedLine(start: string, command: string)
    requires ';' !in start
    ensures StripZshMeta(": " + start + ":0;" + command) == TrimSpace(command)
  {
    var line := ": " + start + ":0;" + command;
    var k := |start| + 2;
    assert line[k..k + 3] == ":0;";
    assert line[..k + 2] == ": " + start + ":0";
    NoEarlierOccurrence(line, ":0;", k);
    StripAfterMarker(line, k);
    assert line[k + 3..] == command;
  }

  /**
   * An extended-history line ": START:0;COMMAND" as the newest zsh line is
   * captured as COMMAND when its first word passes its existence check.
   */
  lemma ZshExtendedLineCaptured(lines: seq<string>, start: string, command: string, env: Env)
    requires ';' !in start && command != [] && Trimmed(command) && !IsSelfInvocation(command)
    requires Passes(ProbeFor(FirstField(command), env.cwd), env)
    ensures LastValid(lines + [": " + start + ":0;" + command], Zsh, env) == command
  {
    var raw := ": " + start + ":0;" + command;
    assert raw[|raw| - 1] == command[|command| - 1];
    TrimOfTrimmed(raw, IsSpace);
    ZshExtendedLine(start, command);
    TrimOfTrimmed(command, IsSpace);
    assert Candidate(raw, Zsh) == Some(command);
    assert FirstField(command) != [] by {
      assert !IsSpace(command[0]);
    }
    var all := lines + [raw];
    LastValidStep(all, |lines|, Zsh, env);
    assert all[..|lines| + 1] == all;
  }

  /** A two-line history yields the newer line's pick, else the older line's, else "". */
  lemma LastValidOfTwo(older: string, newer: string, f: Flavour, env: Env)
    ensures LastValid([older, newer], f, env)
            == if Pick(newer, f, env).Some? then Pick(newer, f, env).value
               else if Pick(older, f, env).Some? then Pick(older, f, env).value
               else []
  {
    var lines := [older, newer];
    LastValidStep(lines, 1, f, env);
    LastValidStep(lines, 0, f, env);
    assert lines[..2] == lines;
    assert lines[..1] == [older];
    assert lines[..0] == [];
  }

  /** A self-invocation as the newest bash line falls back to what the line before it yields. */
  lemma SelfInvocationFallsBack(older: string, newer: string, env: Env)
    requires Pick(older, Bash, env).Some? && IsSelfInvocation(TrimSpace(newer))
    ensures LastValid([older, newer], Bash, env) == Pick(older, Bash, env).value
  {
    LastValidOfTwo(older, newer, Bash, env);
  }
}
