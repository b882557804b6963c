/**
 * The command interpreter of the terminal game: a session holding the transcript, the
 * current directory path, the clues found so far and a pending ID prompt, and the one
 * entry point that takes a submitted line.
 *
 * The behaviour is stated as pure functions on a `State` value (`Exec` and the handlers
 * it dispatches to); the `Session` class updates its fields step by step as the source's
 * setters do, and its `Submit` is proved to produce exactly `Exec` of the old state.
 * Every function takes the filesystem `fs` it reads, and the interpreter's functions
 * the text `intro` that `help` prints; the session fixes both at construction (to the
 * game's tree and its story introduction) and never changes them.
 */
module Terminal {
  import opened Wrappers
  import opened Text
  import opened GameData

  /** The kinds of transcript entry. */
  datatype Kind = Command | Output | Error | Success | Ascii | Info

  /** One transcript entry (the source's random display ids are not modelled). */
  datatype LogEntry = LogEntry(kind: Kind, content: string)

  /** A directory path, root name first. */
  type Path = seq<string>

  /** What a session holds: transcript, current path, clues found, and whether the next
      line answers the ID prompt. */
  datatype State = State(history: seq<LogEntry>, path: Path, cluesFound: seq<string>, awaiting: bool)

  /** The clue every session starts with. */
  const FirstClue: string := "Investigate all employees to uncover the thief."

  /** The state of a fresh session. */
  const InitialState: State :=
    State([LogEntry(Ascii, AsciiArt), LogEntry(Output, Banner), LogEntry(Output, StoryIntro)],
          [RootName], [FirstClue], false)

  const CaseClosed: string := "*** CASE CLOSED ***\nMickey Mouse stole the formula!"

  // ---------------------------------------------------------------------------
  // Directory resolution
  // ---------------------------------------------------------------------------

  /** The directory reached from `dir` by entering `segs` in turn, or `None` when some
      segment is missing or names a file. */
  function Walk(dir: seq<Entry>, segs: seq<string>): (r: Option<seq<Entry>>)
    ensures segs != [] && r.Some? ==> Find(dir, segs[0]).Some? && Find(dir, segs[0]).value.Dir?
    decreases segs
  {
    if segs == [] then Some(dir)
    else
      match Find(dir, segs[0])
      case Some(Dir(children, _)) => Walk(children, segs[1..])
      case _ => None
  }

  /** The path without its first (root) segment. */
  function Rest(p: Path): Path
  {
    if p == [] then [] else p[1..]
  }

  /** `getDir`: the entries of the directory `p` names; the root segment is skipped. */
  function DirAt(fs: seq<Entry>, p: Path): (r: Option<seq<Entry>>)
    ensures |p| <= 1 ==> r == Some(fs)
  {
    Walk(fs, Rest(p))
  }

  /** `getDir`, as the source writes it: the root shortcut, then a walk that updates
      `current` one segment at a time and gives up at the first segment that is not a
      directory. */
  method GetDir(fs: seq<Entry>, currentPath: Path) returns (d: Option<seq<Entry>>)
    ensures d == DirAt(fs, currentPath)
  {
    if |currentPath| == 1 && currentPath[0] == RootName {
      return Some(fs);
    }
    var current := fs;
    var i := 1;
    while i < |currentPath|
      invariant 1 <= i
      invariant DirAt(fs, currentPath) == if i <= |currentPath| then Walk(current, currentPath[i..]) else Some(current)
    {
      var dirName := currentPath[i];
      match Find(current, dirName) {
        case Some(Dir(children, _)) =>
          current := children;
        case _ =>
          return None;
      }
      i := i + 1;
    }
    return Some(current);
  }

  /** The validation walk of an absolute `cd`: `valid` stays true while every segment
      after the root is a directory, and the walk stops at the first that is not. */
  method ValidateAbsolute(fs: seq<Entry>, newPath: Path) returns (valid: bool)
    ensures valid <==> DirAt(fs, newPath).Some?
  {
    valid := true;
    var current := fs;
    var i := 1;
    while i < |newPath|
      invariant 1 <= i
      invariant DirAt(fs, newPath) == if i <= |newPath| then Walk(current, newPath[i..]) else Some(current)
    {
      var p := newPath[i];
      var node := Find(current, p);
      if node.Some? && node.value.Dir? {
        current := node.value.children;
      } else {
        valid := false;
        break;
      }
      i := i + 1;
    }
  }

  /** The segments an absolute target keeps: not empty and not the root's own name. */
  function KeepSegments(parts: seq<string>): (r: seq<string>)
    ensures |r| <= |parts|
    ensures forall x :: x in r <==> x in parts && x != "" && x != RootName
  {
    if parts == [] then []
    else (if parts[0] != "" && parts[0] != RootName then [parts[0]] else []) + KeepSegments(parts[1..])
  }

  /** Whether a `cd` target is absolute. */
  predicate IsAbsolute(target: string)
  {
    |target| > 0 && target[0] == '/'
  }

  /** The path an absolute target names: the root, then the target's `/`-separated
      segments, with empty ones and every occurrence of the root's name dropped. */
  function Normalise(target: string): (p: Path)
    ensures |p| >= 1 && p[0] == RootName
    ensures forall k :: 1 <= k < |p| ==> p[k] != "" && p[k] != RootName && '/' !in p[k]
  {
    var parts := Split(target, '/');
    var kept := KeepSegments(parts);
    assert forall k :: 0 <= k < |kept| ==> kept[k] in parts;
    [RootName] + kept
  }

  /** Whether `name` is a directory entry of the directory `path` names. */
  predicate IsDirChild(fs: seq<Entry>, path: Path, name: string)
  {
    match DirAt(fs, path)
    case Some(d) => Find(d, name).Some? && Find(d, name).value.Dir?
    case None => false
  }

  // ---------------------------------------------------------------------------
  // The state transitions
  // ---------------------------------------------------------------------------

  /** `addToHistory`: append one entry. */
  function Log(s: State, kind: Kind, content: string): State
  {
    s.(history := s.history + [LogEntry(kind, content)])
  }

  /** Records `clue` unless it is already there. */
  function Record(clues: seq<string>, clue: string): (r: seq<string>)
    ensures clue in r && clues <= r && |r| <= |clues| + 1
  {
    if clue in clues then clues else clues + [clue]
  }

  /** The answer to the ID prompt (the callback armed by `cat` on the protected file):
      the ID, compared after upper-casing, reveals the final clue and closes the case. */
  function Answer(s: State, answer: string): (r: State)
    ensures r.path == s.path && r.awaiting == s.awaiting
    ensures |r.history| > |s.history| && r.history[..|s.history|] == s.history
    ensures r.cluesFound != s.cluesFound ==> ToUpper(answer) == MickeyId
  {
    if ToUpper(answer) == MickeyId then
      var clue := Clues[ProtectedKey];
      s.(history := s.history + [LogEntry(Success, "ACCESS GRANTED.\n\n\"" + clue + "\""),
                                 LogEntry(Success, CaseClosed)],
         cluesFound := Record(s.cluesFound, clue))
    else
      Log(s, Error, "ACCESS DENIED. Incorrect ID.")
  }

  /** The names `ls` lists, in directory order; hidden directories only with `-a`. */
  function Listing(dir: seq<Entry>, showHidden: bool): (names: seq<string>)
    ensures |names| <= |dir|
  {
    if dir == [] then []
    else
      (if showHidden || !(dir[0].node.Dir? && dir[0].node.hidden) then [dir[0].name] else [])
      + Listing(dir[1..], showHidden)
  }

  /** `ls [-a]`. */
  function Ls(fs: seq<Entry>, s: State, args: seq<string>): (r: State)
    ensures r.path == s.path && r.cluesFound == s.cluesFound && r.awaiting == s.awaiting
    ensures |r.history| == |s.history| + 1 && r.history[..|s.history|] == s.history
  {
    var showHidden := "-a" in args;
    match DirAt(fs, s.path)
    case None => Log(s, Error, "Error: Current directory not found.")
    case Some(d) =>
      var files := Join(Listing(d, showHidden), "\n");
      Log(s, Output, if files == "" then "(empty)" else files)
  }

  /** Under the interpreter invariant the current directory always exists, so `ls` never
      reports `Current directory not found.`: it prints the listing, or `(empty)`. */
  lemma LsShowsListing(fs: seq<Entry>, s: State, args: seq<string>)
    requires Invariant(fs, s)
    ensures var files := Join(Listing(DirAt(fs, s.path).value, "-a" in args), "\n");
      Ls(fs, s, args) == Log(s, Output, if files == "" then "(empty)" else files)
  {
  }

  /** The error a failed `cd` reports. */
  function CdError(target: string): string
  {
    if target == ".." then "Already at root." else "Directory not found: " + target
  }

  /** The first half of the `cd` handler: set the new path or report why not. */
  function CdMove(fs: seq<Entry>, s: State, target: string): (r: State)
    ensures r.cluesFound == s.cluesFound && r.awaiting == s.awaiting && s.history <= r.history
    ensures r.path == s.path || r.history == s.history
  {
    if target == ".." then
      if |s.path| > 1 then s.(path := s.path[..|s.path| - 1]) else Log(s, Error, "Already at root.")
    else if IsAbsolute(target) then
      var newPath := Normalise(target);
      if DirAt(fs, newPath).Some? then s.(path := newPath) else Log(s, Error, "Directory not found: " + target)
    else if IsDirChild(fs, s.path, target) then
      s.(path := s.path + [target])
    else
      Log(s, Error, "Directory not found: " + target)
  }

  /** The second half of the `cd` handler: recompute, from the path before the move,
      the directory the move went to, or `None` when it failed. */
  function CdProbePath(fs: seq<Entry>, path: Path, target: string): (r: Option<Path>)
    ensures r.Some? ==> |r.value| >= 1
    ensures r.Some? && target == ".." ==> r.value < path
    ensures r.Some? && target != ".." && !IsAbsolute(target) ==> |r.value| == |path| + 1 && r.value[..|path|] == path
  {
    if target == ".." then
      if |path| > 1 then Some(path[..|path| - 1]) else None
    else if IsAbsolute(target) then
      var potentialPath := Normalise(target);
      if DirAt(fs, potentialPath).Some? then Some(potentialPath) else None
    else if IsDirChild(fs, path, target) then
      Some(path + [target])
    else
      None
  }

  /** The content of the file `name` in the directory `path`, if it is a file there. */
  function FileIn(fs: seq<Entry>, path: Path, name: string): Option<string>
  {
    match DirAt(fs, path)
    case Some(d) =>
      (match Find(d, name)
       case Some(File(content)) => Some(content)
       case _ => None)
    case None => None
  }

  /** The `[INFO]` entry announcing the description of the probed directory, if any. */
  function DescriptionInfo(fs: seq<Entry>, probe: Option<Path>): seq<LogEntry>
  {
    match probe
    case Some(p) =>
      (match FileIn(fs, p, "description.txt")
       case Some(content) => [LogEntry(Info, "[INFO] " + content)]
       case None => [])
    case None => []
  }

  /** `cd [target]`: nothing without a target; otherwise move, then announce the new
      directory's description. */
  function Cd(fs: seq<Entry>, s: State, args: seq<string>): (r: State)
    ensures r.cluesFound == s.cluesFound && r.awaiting == s.awaiting
    ensures |r.history| >= |s.history| && r.history[..|s.history|] == s.history
  {
    if args == [] then s
    else
      var target := args[0];
      var moved := CdMove(fs, s, target);
      moved.(history := moved.history + DescriptionInfo(fs, CdProbePath(fs, s.path, target)))
  }

  /** The last segment of a path (the empty string stands for JavaScript's `undefined`
      on an empty path, which never equals a directory name). */
  function LastSegment(p: Path): string
  {
    if p == [] then "" else p[|p| - 1]
  }

  /** The protected file: `discovery.txt` read in a directory called `.private`. */
  predicate IsProtected(path: Path, filename: string)
  {
    filename == "discovery.txt" && LastSegment(path) == ".private"
  }

  /** The clue-registry key of the file `filename` in `path`: the path below the root and
      the file name, joined by `/`. */
  function ClueKey(path: Path, filename: string): (key: string)
    ensures |key| >= |filename| && key[|key| - |filename|..] == filename
  {
    JoinEndsWithLast(Rest(path) + [filename], "/");
    Join(Rest(path) + [filename], "/")
  }

  /** `cat <filename>`. */
  function Cat(fs: seq<Entry>, s: State, args: seq<string>): (r: State)
    ensures r.path == s.path
    ensures |s.history| < |r.history| <= |s.history| + 2 && r.history[..|s.history|] == s.history
  {
    if args == [] then Log(s, Error, "Usage: cat <filename>")
    else
      var filename := args[0];
      match FileIn(fs, s.path, filename)
      case None => Log(s, Error, "File not found.")
      case Some(content) =>
        if IsProtected(s.path, filename) then
          Log(s, Output, "PROTECTED FILE. ENTER ID TO VIEW:").(awaiting := true)
        else
          var shown := Log(s, Output, content);
          var key := ClueKey(s.path, filename);
          if key in Clues then
            Log(shown, Info, "\n[!] CLUE FOUND: " + Clues[key]).(cluesFound := Record(s.cluesFound, Clues[key]))
          else
            shown
  }

  /** `cat` on the protected file arms the prompt. */
  lemma CatOfProtected(fs: seq<Entry>, s: State, args: seq<string>)
    requires args != [] && FileIn(fs, s.path, args[0]).Some? && IsProtected(s.path, args[0])
    ensures Cat(fs, s, args) == Log(s, Output, "PROTECTED FILE. ENTER ID TO VIEW:").(awaiting := true)
  {
  }

  /** `cat` on a name that is not a file of the current directory reports it. */
  lemma CatOfMissing(fs: seq<Entry>, s: State, args: seq<string>)
    requires args != [] && FileIn(fs, s.path, args[0]).None?
    ensures Cat(fs, s, args) == Log(s, Error, "File not found.")
  {
  }

  /** `cat` on any other file shows it, then its clue if the registry has one. */
  lemma CatOfFile(fs: seq<Entry>, s: State, args: seq<string>, content: string)
    requires args != [] && FileIn(fs, s.path, args[0]) == Some(content) && !IsProtected(s.path, args[0])
    ensures var key := ClueKey(s.path, args[0]); var shown := Log(s, Output, content);
      Cat(fs, s, args) ==
        if key in Clues then Log(shown, Info, "\n[!] CLUE FOUND: " + Clues[key]).(cluesFound := Record(s.cluesFound, Clues[key]))
        else shown
  {
  }

  /** The verb switch of `executeCommand`; `help` prints `intro`. */
  function Dispatch(fs: seq<Entry>, intro: string, s: State, verb: string, args: seq<string>): (r: State)
    ensures verb == "clear" ==> r.history == []
    ensures verb != "clear" ==> |r.history| >= |s.history| && r.history[..|s.history|] == s.history
    ensures verb != "cd" && verb != "cat" ==> r.path == s.path && r.awaiting == s.awaiting
  {
    if verb == "help" then Log(s, Output, intro)
    else if verb == "clear" then s.(history := [])
    else if verb == "pwd" then Log(s, Output, "/" + Join(s.path, "/"))
    else if verb == "whoami" then Log(s, Output, "detective")
    else if verb == "ls" then Ls(fs, s, args)
    else if verb == "cd" then Cd(fs, s, args)
    else if verb == "cat" then Cat(fs, s, args)
    else if verb == "exit" then Log(s, Output, "Shutting down terminal...")
    else Log(s, Error, "Command not found: " + verb)
  }

  /** `executeCommand`: the state after submitting `line`. A pending prompt takes the
      trimmed line as its answer; otherwise the trimmed line is echoed and, unless it is
      empty, its first word (lower-cased) picks the handler and the rest are arguments. */
  function Exec(fs: seq<Entry>, intro: string, s: State, line: string): (r: State)
    ensures s.awaiting ==> !r.awaiting && r.path == s.path
    ensures !s.awaiting && Trim(line) == "" ==> r == Log(s, Command, "")
  {
    var trimmed := Trim(line);
    if s.awaiting then
      Answer(Log(s, Command, trimmed), trimmed).(awaiting := false)
    else if trimmed == "" then
      Log(s, Command, trimmed)
    else
      var parts := Words(trimmed);
      Dispatch(fs, intro, Log(s, Command, trimmed), ToLower(parts[0]), parts[1..])
  }

  // ---------------------------------------------------------------------------
  // The invariant every reachable state keeps
  // ---------------------------------------------------------------------------

  /** No value occurs twice in `s`. */
  predicate NoDuplicates(s: seq<string>)
  {
    forall i, j :: 0 <= i < j < |s| ==> s[i] != s[j]
  }

  /** The path starts at the root and names an existing directory; no clue is recorded twice. */
  predicate Invariant(fs: seq<Entry>, s: State)
  {
    |s.path| >= 1 && s.path[0] == RootName && DirAt(fs, s.path).Some? && NoDuplicates(s.cluesFound)
  }

  // ---------------------------------------------------------------------------
  // The imperative session
  // ---------------------------------------------------------------------------

  /** The target path of `cd`, computed once: `None` when the move fails. */
  method ResolveCd(fs: seq<Entry>, path: Path, target: string) returns (newPath: Option<Path>)
    ensures newPath == CdProbePath(fs, path, target)
  {
    if target == ".." {
      newPath := if |path| > 1 then Some(path[..|path| - 1]) else None;
    } else if |target| > 0 && target[0] == '/' {
      var candidate := Normalise(target);
      var valid := ValidateAbsolute(fs, candidate);
      newPath := if valid then Some(candidate) else None;
    } else {
      var currentDir := GetDir(fs, path);
      var isDir := false;
      if currentDir.Some? {
        var node := Find(currentDir.value, target);
        isDir := node.Some? && node.value.Dir?;
      }
      newPath := if isDir then Some(path + [target]) else None;
    }
  }

  class Session {
    /** The filesystem, fixed for the life of the session. */
    const fileSystem: seq<Entry>
    /** The text `help` prints, fixed for the life of the session. */
    const intro: string
    var history: seq<LogEntry>
    var path: Path
    var cluesFound: seq<string>
    var awaiting: bool

    /** The session's state as a value. */
    function Snapshot(): State
      reads this
    {
      State(history, path, cluesFound, awaiting)
    }

    ghost predicate Valid()
      reads this
    {
      Invariant(fileSystem, Snapshot())
    }

    /** A fresh session: the start-up banner, at the root, with the first clue. */
    constructor ()
      ensures fileSystem == FileSystem && intro == StoryIntro && Snapshot() == InitialState
      ensures Valid()
    {
      fileSystem := FileSystem;
      intro := StoryIntro;
      history := InitialState.history;
      path := InitialState.path;
      cluesFound := InitialState.cluesFound;
      awaiting := false;
    }

    /** `addToHistory`. */
    method AddToHistory(kind: Kind, content: string)
      modifies this
      ensures Snapshot() == Log(old(Snapshot()), kind, content)
    {
      history := history + [LogEntry(kind, content)];
    }

    /** The prompt callback: check the answer against the ID. */
    method AnswerPrompt(answer: string)
      modifies this
      ensures Snapshot() == Answer(old(Snapshot()), answer)
    {
      if ToUpper(answer) == MickeyId {
        var clue := Clues[ProtectedKey];
        AddToHistory(Success, "ACCESS GRANTED.\n\n\"" + clue + "\"");
        if clue !in cluesFound {
          cluesFound := cluesFound + [clue];
        }
        AddToHistory(Success, CaseClosed);
      } else {
        AddToHistory(Error, "ACCESS DENIED. Incorrect ID.");
      }
    }

    method RunLs(args: seq<string>)
      modifies this
      ensures Snapshot() == Ls(fileSystem, old(Snapshot()), args)
    {
      var showHidden := "-a" in args;
      var currentDir := GetDir(fileSystem, path);
      if currentDir.Some? {
        var files := Join(Listing(currentDir.value, showHidden), "\n");
        AddToHistory(Output, if files == "" then "(empty)" else files);
      } else {
        AddToHistory(Error, "Error: Current directory not found.");
      }
    }

    /** `cd`: the target path is resolved once and used both to move and to look for
        the new directory's description. */
    method RunCd(args: seq<string>)
      modifies this
      ensures Snapshot() == Cd(fileSystem, old(Snapshot()), args)
    {
      if |args| == 0 {
        return;
      }
      var target := args[0];
      var newPath := ResolveCd(fileSystem, path, target);
      CdMoveFollowsProbe(fileSystem, Snapshot(), target);
      match newPath {
        case None =>
          AddToHistory(Error, CdError(target));
        case Some(p) =>
          path := p;
          var dir := GetDir(fileSystem, p);
          if dir.Some? {
            var description := Find(dir.value, "description.txt");
            if description.Some? && description.value.File? {
              AddToHistory(Info, "[INFO] " + description.value.content);
            }
          }
      }
    }

    method RunCat(args: seq<string>)
      modifies this
      ensures Snapshot() == Cat(fileSystem, old(Snapshot()), args)
    {
      if |args| == 0 {
        AddToHistory(Error, "Usage: cat <filename>");
        return;
      }
      var filename := args[0];
      var dir := GetDir(fileSystem, path);
      var node := if dir.Some? then Find(dir.value, filename) else None;
      ghost var before := Snapshot();
      if node.Some? && node.value.File? {
        assert FileIn(fileSystem, before.path, filename) == Some(node.value.content);
        if filename == "discovery.txt" && |path| > 0 && path[|path| - 1] == ".private" {
          CatOfProtected(fileSystem, before, args);
          AddToHistory(Output, "PROTECTED FILE. ENTER ID TO VIEW:");
          awaiting := true;
          return;
        }
        assert !IsProtected(before.path, filename);
        CatOfFile(fileSystem, before, args, node.value.content);
        AddToHistory(Output, node.value.content);
        var lookupKey := Join(Rest(path) + [filename], "/");
        assert lookupKey == ClueKey(before.path, filename);
        if lookupKey in Clues {
          var clue := Clues[lookupKey];
          AddToHistory(Info, "\n[!] CLUE FOUND: " + clue);
          if clue !in cluesFound {
            cluesFound := cluesFound + [clue];
          }
          assert cluesFound == Record(before.cluesFound, clue);
        }
      } else {
        assert FileIn(fileSystem, before.path, filename) == None;
        CatOfMissing(fileSystem, before, args);
        AddToHistory(Error, "File not found.");
      }
    }

    /** `executeCommand`: the one entry point, driven by the view with each line the
        player submits. */
    method Submit(line: string)
      modifies this
      ensures Snapshot() == Exec(fileSystem, intro, old(Snapshot()), line)
      ensures old(Valid()) ==> Valid()
    {
      ghost var before := Snapshot();
      ExecKeepsInvariant(fileSystem, intro, before, line);
      var trimmedCmd := Trim(line);
      if awaiting {
        AddToHistory(Command, trimmedCmd);
        AnswerPrompt(trimmedCmd);
        awaiting := false;
        return;
      }
      AddToHistory(Command, trimmedCmd);
      if trimmedCmd == "" {
        return;
      }
      var parts := Words(trimmedCmd);
      var cmd := ToLower(parts[0]);
      var args := parts[1..];
      assert Exec(fileSystem, intro, before, line) == Dispatch(fileSystem, intro, Snapshot(), cmd, args);
      if cmd == "help" {
        AddToHistory(Output, intro);
      } else if cmd == "clear" {
        history := [];
      } else if cmd == "pwd" {
        AddToHistory(Output, "/" + Join(path, "/"));
      } else if cmd == "whoami" {
        AddToHistory(Output, "detective");
      } else if cmd == "ls" {
        RunLs(args);
      } else if cmd == "cd" {
        RunCd(args);
      } else if cmd == "cat" {
        RunCat(args);
      } else if cmd == "exit" {
        AddToHistory(Output, "Shutting down terminal...");
      } else {
        AddToHistory(Error, "Command not found: " + cmd);
      }
    }
  }

  // ---------------------------------------------------------------------------
  // Lemmas the session's proof uses
  // ---------------------------------------------------------------------------

  /** The path the first half of `cd` sets is the path the second half probes, and the
      first half logs an error exactly when the probe finds nothing. */
  lemma CdMoveFollowsProbe(fs: seq<Entry>, s: State, target: string)
    ensures CdMove(fs, s, target) ==
              match CdProbePath(fs, s.path, target)
              case Some(p) => s.(path := p)
              case None => Log(s, Error, CdError(target))
  {
  }

  /** Walking a concatenation of segments is walking the first part, then the second. */
  lemma {:induction false} WalkAppend(dir: seq<Entry>, a: seq<string>, b: seq<string>)
    ensures Walk(dir, a + b) == match Walk(dir, a) case Some(d) => Walk(d, b) case None => None
    decreases a
  {
    if a == [] {
      assert a + b == b;
    } else {
      assert (a + b)[0] == a[0] && (a + b)[1..] == a[1..] + b;
      match Find(dir, a[0]) {
        case Some(Dir(children, _)) => WalkAppend(children, a[1..], b);
        case _ =>
      }
    }
  }

  /** Recording a clue never records it twice. */
  lemma RecordKeepsDistinct(clues: seq<string>, clue: string)
    requires NoDuplicates(clues)
    ensures NoDuplicates(Record(clues, clue))
  {
  }

  /** Every path `cd` can move to names an existing directory below the root. */
  lemma {:induction false} ProbeKeepsInvariant(fs: seq<Entry>, path: Path, target: string)
    requires |path| >= 1 && path[0] == RootName && DirAt(fs, path).Some?
    ensures match CdProbePath(fs, path, target)
            case Some(p) => |p| >= 1 && p[0] == RootName && DirAt(fs, p).Some?
            case None => true
  {
    if target == ".." {
      if |path| > 1 {
        var up := path[..|path| - 1];
        assert Rest(path) == Rest(up) + [path[|path| - 1]];
        WalkAppend(fs, Rest(up), [path[|path| - 1]]);
      }
    } else if !IsAbsolute(target) && IsDirChild(fs, path, target) {
      assert Rest(path + [target]) == Rest(path) + [target];
      WalkAppend(fs, Rest(path), [target]);
    }
  }

  lemma CdKeepsInvariant(fs: seq<Entry>, s: State, args: seq<string>)
    requires Invariant(fs, s)
    ensures Invariant(fs, Cd(fs, s, args))
  {
    if args != [] {
      ProbeKeepsInvariant(fs, s.path, args[0]);
      CdMoveFollowsProbe(fs, s, args[0]);
    }
  }

  lemma CatKeepsInvariant(fs: seq<Entry>, s: State, args: seq<string>)
    requires Invariant(fs, s)
    ensures Invariant(fs, Cat(fs, s, args))
  {
    if args != [] {
      var key := ClueKey(s.path, args[0]);
      if key in Clues {
        RecordKeepsDistinct(s.cluesFound, Clues[key]);
      }
    }
  }

  lemma DispatchKeepsInvariant(fs: seq<Entry>, intro: string, s: State, verb: string, args: seq<string>)
    requires Invariant(fs, s)
    ensures Invariant(fs, Dispatch(fs, intro, s, verb, args))
  {
    if verb == "cd" {
      CdKeepsInvariant(fs, s, args);
    } else if verb == "cat" {
      CatKeepsInvariant(fs, s, args);
    }
  }

  /** Every submission keeps the invariant. */
  lemma ExecKeepsInvariant(fs: seq<Entry>, intro: string, s: State, line: string)
    ensures Invariant(fs, s) ==> Invariant(fs, Exec(fs, intro, s, line))
  {
    if Invariant(fs, s) {
      var t := Trim(line);
      if s.awaiting {
        RecordKeepsDistinct(s.cluesFound, Clues[ProtectedKey]);
      } else if t != "" {
        var parts := Words(t);
        DispatchKeepsInvariant(fs, intro, Log(s, Command, t), ToLower(parts[0]), parts[1..]);
      }
    }
  }
}
