/**
 * Properties of `cat`: what it reports, when it arms the ID prompt, and how the clue
 * registry's keys relate to the files of the game's tree.
 */
module ReadingProperties {
  import opened Wrappers
  import opened Text
  import opened GameData
  import opened Terminal
  import opened NavigationProperties
  import opened TerminalProperties

  // ---------------------------------------------------------------------------
  // What `cat` reports
  // ---------------------------------------------------------------------------

  /** `cat` never moves, adds one or two entries to the transcript and removes none, and
      only ever adds one clue, the registry's clue for the file it read. */
  lemma CatShape(fs: seq<Entry>, s: State, args: seq<string>)
    ensures var r := Cat(fs, s, args);
      r.path == s.path
      && |s.history| < |r.history| <= |s.history| + 2 && r.history[..|s.history|] == s.history
      && s.cluesFound <= r.cluesFound && |r.cluesFound| <= |s.cluesFound| + 1
      && (r.cluesFound != s.cluesFound ==>
            args != [] && ClueKey(s.path, args[0]) in Clues
            && r.cluesFound == s.cluesFound + [Clues[ClueKey(s.path, args[0])]])
  {
    if args != [] {
      var key := ClueKey(s.path, args[0]);
      if key in Clues {
        RecordIdempotent(s.cluesFound, Clues[key]);
      }
    }
  }

  /** Naming a directory, or a name the current directory does not hold, is reported as
      a missing file, and nothing else changes. */
  lemma CatNeedsFile(fs: seq<Entry>, s: State, name: string)
    requires DirAt(fs, s.path).Some?
    requires Find(DirAt(fs, s.path).value, name).None? || Find(DirAt(fs, s.path).value, name).value.Dir?
    ensures Cat(fs, s, [name]) == Log(s, Error, "File not found.")
  {
  }

  /** Reading a file shows its content, then, when the registry has a clue for it, the
      clue, which is recorded. */
  lemma CatShowsFile(fs: seq<Entry>, s: State, name: string, content: string)
    requires DirAt(fs, s.path).Some? && Find(DirAt(fs, s.path).value, name) == Some(File(content))
    requires !IsProtected(s.path, name)
    ensures var r := Cat(fs, s, [name]);
      r.history[|s.history|] == LogEntry(Output, content) && r.awaiting == s.awaiting
      && (ClueKey(s.path, name) in Clues <==> |r.history| == |s.history| + 2)
      && (ClueKey(s.path, name) in Clues ==> Clues[ClueKey(s.path, name)] in r.cluesFound)
      && r.history == s.history + [LogEntry(Output, content)]
                      + (if ClueKey(s.path, name) in Clues
                         then [LogEntry(Info, "\n[!] CLUE FOUND: " + Clues[ClueKey(s.path, name)])]
                         else [])
  {
  }

  /** `cat` without a file name reports its usage and changes nothing else. */
  lemma CatUsage(fs: seq<Entry>, s: State)
    ensures Cat(fs, s, []) == s.(history := s.history + [LogEntry(Error, "Usage: cat <filename>")])
  {
  }

  /** Reading the same file again shows it again and records nothing new. */
  lemma CatRereadKeepsClues(fs: seq<Entry>, s: State, args: seq<string>)
    ensures var once := Cat(fs, s, args);
      Cat(fs, once, args).cluesFound == once.cluesFound
  {
    var once := Cat(fs, s, args);
    CatClues(fs, s, args);
    CatClues(fs, once, args);
    if args != [] {
      var key := ClueKey(s.path, args[0]);
      if key in Clues {
        RecordIdempotent(s.cluesFound, Clues[key]);
      }
    }
  }

  /** The clue `cat` records: the registry's clue for a readable, unprotected file. */
  lemma CatClues(fs: seq<Entry>, s: State, args: seq<string>)
    ensures Cat(fs, s, args).path == s.path
    ensures Cat(fs, s, args).cluesFound ==
      if args != [] && FileIn(fs, s.path, args[0]).Some? && !IsProtected(s.path, args[0])
         && ClueKey(s.path, args[0]) in Clues
      then Record(s.cluesFound, Clues[ClueKey(s.path, args[0])])
      else s.cluesFound
  {
  }

  // ---------------------------------------------------------------------------
  // The protected file
  // ---------------------------------------------------------------------------

  /** The path of the protected file's directory. */
  const PrivatePath: Path := [RootName] + PrivateDir

  /** Walking from `dir` keeps the fact that every entry called `name` sits at `at`. */
  lemma {:induction false} WalkKeepsNamedOnlyAt(dir: seq<Entry>, prefix: seq<string>, segs: seq<string>,
                                                name: string, at: seq<string>)
    requires NamedOnlyAt(dir, prefix, name, at) && Walk(dir, segs).Some?
    ensures NamedOnlyAt(Walk(dir, segs).value, prefix + segs, name, at)
    decreases segs
  {
    if segs == [] {
      assert prefix + segs == prefix;
    } else {
      var node := Find(dir, segs[0]).value;
      var i :| 0 <= i < |dir| && dir[i] == Entry(segs[0], node);
      WalkKeepsNamedOnlyAt(node.children, prefix + [segs[0]], segs[1..], name, at);
      assert prefix + [segs[0]] + segs[1..] == prefix + segs;
    }
  }

  /** Below a tree where every entry called `name` sits at `at`, a file called `name`
      is found only in the directory that `at` leads to. */
  lemma NamedFoundOnlyAt(fs: seq<Entry>, p: Path, name: string, at: seq<string>)
    requires NamedOnlyAt(fs, [], name, at) && FileIn(fs, p, name).Some?
    ensures Rest(p) + [name] == at
  {
    var d := DirAt(fs, p).value;
    WalkKeepsNamedOnlyAt(fs, [], Rest(p), name, at);
    assert [] + Rest(p) == Rest(p);
    var f := Find(d, name).value;
    var i :| 0 <= i < |d| && d[i] == Entry(name, f);
  }

  /** In the game's tree a file called `discovery.txt` is found only in
      `staff/mickey_mouse/.private`. */
  lemma DiscoveryFoundOnlyInPrivate(p: Path)
    requires |p| >= 1 && p[0] == RootName && FileIn(FileSystem, p, "discovery.txt").Some?
    ensures p == PrivatePath
  {
    DiscoveryOnlyInPrivate();
    NamedFoundOnlyAt(FileSystem, p, "discovery.txt", PrivateDir + ["discovery.txt"]);
    assert Rest(p) == (Rest(p) + ["discovery.txt"])[..|Rest(p)|];
    assert p == [RootName] + Rest(p);
  }

  /** Entering `seg` from `dir` and then walking `rest`. */
  lemma WalkStep(dir: seq<Entry>, seg: string, rest: seq<string>)
    ensures Walk(dir, [seg] + rest) ==
      if Find(dir, seg).Some? && Find(dir, seg).value.Dir? then Walk(Find(dir, seg).value.children, rest)
      else None
  {
    assert ([seg] + rest)[0] == seg && ([seg] + rest)[1..] == rest;
  }

  /** A directory entry of a directory reached by `p` is reached by `p` extended with
      its name. */
  lemma DirAtChild(fs: seq<Entry>, p: Path, name: string, d: seq<Entry>)
    requires |p| >= 1 && DirAt(fs, p) == Some(d) && Find(d, name).Some? && Find(d, name).value.Dir?
    ensures DirAt(fs, p + [name]) == Some(Find(d, name).value.children)
  {
    assert Rest(p + [name]) == Rest(p) + [name];
    WalkAppend(fs, Rest(p), [name]);
    WalkStep(d, name, []);
    assert [name] + [] == [name];
  }

  /** Mickey Mouse's directory is the seventh staff entry; `.private` is its third. */
  lemma MickeyMouseEntries()
    ensures Staff[6] == Entry("mickey_mouse", Dir(MickeyMouse, false))
    ensures Find(MickeyMouse, ".private") == Some(MickeyMouse[2].node) && MickeyMouse[2].node.Dir?
  {
  }

  /** `staff/mickey_mouse/.private` is a directory of the game's tree. */
  lemma PrivateReachable()
    ensures DirAt(FileSystem, PrivatePath) == Some(MickeyMouse[2].node.children)
  {
    MickeyMouseEntries();
    StaffReachable(6);
    PrivateUnder(FileSystem, MickeyMouse, MickeyMouse[2].node);
  }

  /** A `.private` directory inside `staff/mickey_mouse` is reached at `PrivatePath`. */
  lemma PrivateUnder(fs: seq<Entry>, mm: seq<Entry>, priv: Node)
    requires DirAt(fs, [RootName, "staff", "mickey_mouse"]) == Some(mm)
    requires Find(mm, ".private") == Some(priv) && priv.Dir?
    ensures DirAt(fs, PrivatePath) == Some(priv.children)
  {
    var p := [RootName, "staff", "mickey_mouse"];
    DirAtChild(fs, p, ".private", mm);
    assert p + [".private"] == PrivatePath;
  }

  /** The protected file exists where the registry expects it. */
  lemma DiscoveryInPrivate()
    ensures FileIn(FileSystem, PrivatePath, "discovery.txt") == Some(MickeyMouse[2].node.children[0].node.content)
  {
    PrivateReachable();
    var priv := MickeyMouse[2].node.children;
    assert Find(priv, "discovery.txt") == Some(priv[0].node);
  }

  /** In the game's tree, from any reachable directory, `cat` arms the ID prompt exactly
      when it reads `discovery.txt` inside `staff/mickey_mouse/.private`. */
  lemma PromptArmedOnlyByDiscovery(s: State, name: string)
    requires Invariant(FileSystem, s) && !s.awaiting
    ensures Cat(FileSystem, s, [name]).awaiting <==> s.path == PrivatePath && name == "discovery.txt"
  {
    if Cat(FileSystem, s, [name]).awaiting {
      assert FileIn(FileSystem, s.path, name).Some? && name == "discovery.txt";
      DiscoveryFoundOnlyInPrivate(s.path);
    }
    if s.path == PrivatePath && name == "discovery.txt" {
      DiscoveryInPrivate();
      assert IsProtected(s.path, name);
    }
  }

  /** Arming the prompt shows the prompt line and changes nothing else. */
  lemma CatArmsPrompt(fs: seq<Entry>, s: State, name: string)
    requires FileIn(fs, s.path, name).Some? && IsProtected(s.path, name)
    ensures Cat(fs, s, [name]) == s.(history := s.history + [LogEntry(Output, "PROTECTED FILE. ENTER ID TO VIEW:")],
                                     awaiting := true)
  {
  }

  // ---------------------------------------------------------------------------
  // The clue registry
  // ---------------------------------------------------------------------------

  /** No segment of the path below the root, and not the file name, holds a `/`. */
  predicate SlashFree(p: Path, name: string)
  {
    (forall k :: 1 <= k < |p| ==> '/' !in p[k]) && '/' !in name
  }

  /** Splitting a registry key at `/` gives back the path below the root and the file. */
  lemma ClueKeySplits(p: Path, name: string)
    requires SlashFree(p, name)
    ensures Split(ClueKey(p, name), '/') == Rest(p) + [name]
  {
    var parts := Rest(p) + [name];
    forall k | 0 <= k < |parts| ensures '/' !in parts[k] {
      if k < |Rest(p)| {
        assert parts[k] == p[k + 1];
      }
    }
    SplitJoin(parts, '/');
  }

  /** Two files with slash-free names have the same registry key only when they are
      the same file. */
  lemma ClueKeyInjective(p: Path, a: string, q: Path, b: string)
    requires SlashFree(p, a) && SlashFree(q, b)
    requires ClueKey(p, a) == ClueKey(q, b)
    ensures Rest(p) == Rest(q) && a == b
  {
    ClueKeySplits(p, a);
    ClueKeySplits(q, b);
    var x := Rest(p) + [a];
    var y := Rest(q) + [b];
    assert x == y;
    assert a == x[|x| - 1] && b == y[|y| - 1];
    assert Rest(p) == x[..|x| - 1] && Rest(q) == y[..|y| - 1];
  }

  /** `key` names a file of the game's tree: some path and file name give `key` and
      `cat` finds a file there. */
  ghost predicate Resolves(key: string)
  {
    exists p: Path, name: string :: |p| >= 1 && p[0] == RootName && ClueKey(p, name) == key
                                    && FileIn(FileSystem, p, name).Some?
  }

  /** The registry key of a file two levels below the root. */
  lemma ClueKeyTwoDeep(a: string, b: string, name: string)
    ensures ClueKey([RootName, a, b], name) == a + "/" + (b + "/" + name)
  {
    var parts := Rest([RootName, a, b]) + [name];
    assert parts == [a, b, name] && parts[1..] == [b, name] && parts[1..][1..] == [name];
    assert Join(parts[1..][1..], "/") == name;
    assert Join(parts[1..], "/") == b + "/" + name;
  }

  /** The first entry of staff member `i`'s directory, when it is a file, is found at
      `staff/<member>/<its name>`. */
  lemma FirstStaffFile(i: nat)
    requires i < |Staff| && Staff[i].node.Dir? && |Staff[i].node.children| >= 1
    requires Staff[i].node.children[0].node.File?
    ensures var d := Staff[i].node.children;
      FileIn(FileSystem, [RootName, "staff", Staff[i].name], d[0].name) == Some(d[0].node.content)
  {
    StaffReachable(i);
    var d := Staff[i].node.children;
    assert Find(d, d[0].name) == Some(d[0].node);
  }

  lemma JohnPorkClueResolves()
    ensures Resolves("staff/john_pork/report.txt")
  {
    FirstStaffFile(3);
    JohnPorkKey();
    assert FileIn(FileSystem, [RootName, "staff", "john_pork"], "report.txt").Some?;
  }

  lemma JohnPorkKey()
    ensures ClueKey([RootName, "staff", "john_pork"], "report.txt") == "staff/john_pork/report.txt"
  {
    ClueKeyTwoDeep("staff", "john_pork", "report.txt");
  }

  lemma QuandaleDingleClueResolves()
    ensures Resolves("staff/quandale_dingle/email.txt")
  {
    FirstStaffFile(4);
    QuandaleDingleKey();
    assert FileIn(FileSystem, [RootName, "staff", "quandale_dingle"], "email.txt").Some?;
  }

  lemma QuandaleDingleKey()
    ensures ClueKey([RootName, "staff", "quandale_dingle"], "email.txt") == "staff/quandale_dingle/email.txt"
  {
    ClueKeyTwoDeep("staff", "quandale_dingle", "email.txt");
  }

  lemma PlanktonClueResolves()
    ensures Resolves("staff/plankton/lab_notes.txt")
  {
    FirstStaffFile(5);
    PlanktonKey();
    assert FileIn(FileSystem, [RootName, "staff", "plankton"], "lab_notes.txt").Some?;
  }

  lemma PlanktonKey()
    ensures ClueKey([RootName, "staff", "plankton"], "lab_notes.txt") == "staff/plankton/lab_notes.txt"
  {
    ClueKeyTwoDeep("staff", "plankton", "lab_notes.txt");
  }

  /** The registry key of a file three levels below the root. */
  lemma ClueKeyThreeDeep(a: string, b: string, c: string, name: string)
    ensures ClueKey([RootName, a, b, c], name) == a + "/" + (b + "/" + (c + "/" + name))
  {
    var parts := Rest([RootName, a, b, c]) + [name];
    assert parts == [a, b, c, name] && parts[1..] == [b, c, name];
    assert parts[1..][1..] == [c, name] && parts[1..][1..][1..] == [name];
    assert Join(parts[1..][1..], "/") == c + "/" + name;
    assert Join(parts[1..], "/") == b + "/" + (c + "/" + name);
  }

  /** The registry key of the protected file. */
  lemma ProtectedKeyOfPrivate()
    ensures ClueKey(PrivatePath, "discovery.txt") == ProtectedKey
  {
    assert PrivatePath == [RootName, "staff", "mickey_mouse", ".private"];
    ClueKeyThreeDeep("staff", "mickey_mouse", ".private", "discovery.txt");
    ProtectedKeySpelled();
  }

  lemma ProtectedKeySpelled()
    ensures "staff" + "/" + ("mickey_mouse" + "/" + (".private" + "/" + "discovery.txt")) == ProtectedKey
  {
  }

  lemma ProtectedClueResolves()
    ensures Resolves(ProtectedKey)
  {
    DiscoveryInPrivate();
    ProtectedKeyOfPrivate();
    assert FileIn(FileSystem, PrivatePath, "discovery.txt").Some?;
  }

  /** The clue registry has four keys. */
  lemma ClueKeys()
    ensures forall key :: key in Clues ==>
      key == "staff/john_pork/report.txt" || key == "staff/quandale_dingle/email.txt"
      || key == "staff/plankton/lab_notes.txt" || key == ProtectedKey
    ensures "staff/john_pork/report.txt" in Clues && "staff/quandale_dingle/email.txt" in Clues
    ensures "staff/plankton/lab_notes.txt" in Clues && ProtectedKey in Clues
  {
  }

  /** Every key of the clue registry names a file of the game's tree. */
  lemma CluesResolveToFiles()
    ensures forall key :: key in Clues ==> Resolves(key)
  {
    ClueKeys();
    JohnPorkClueResolves();
    QuandaleDingleClueResolves();
    PlanktonClueResolves();
    ProtectedClueResolves();
  }
}
