/**
 * Properties of moving around the tree: `getDir`, the three forms of `cd`, and `ls`.
 */
module NavigationProperties {
  import opened Wrappers
  import opened Text
  import opened GameData
  import opened Terminal
  import opened TerminalProperties

  // ---------------------------------------------------------------------------
  // getDir
  // ---------------------------------------------------------------------------

  /** The root path on its own names the whole filesystem. */
  lemma RootIsFileSystem(fs: seq<Entry>)
    ensures DirAt(fs, [RootName]) == Some(fs)
  {
  }

  /** `seg` is not a directory entry of `dir`: it is missing or names a file. */
  predicate StepFails(dir: seq<Entry>, seg: string)
  {
    !(Find(dir, seg).Some? && Find(dir, seg).value.Dir?)
  }

  /** The walk of `segs` from `dir` resolves the segments before `k` and fails at `k`. */
  predicate FailsAt(dir: seq<Entry>, segs: seq<string>, k: nat)
    requires k < |segs|
  {
    Walk(dir, segs[..k]).Some? && StepFails(Walk(dir, segs[..k]).value, segs[k])
  }

  /** A walk finds nothing exactly when some segment, reached through directories, is
      missing or is a file. */
  lemma {:induction false} WalkNoneIff(dir: seq<Entry>, segs: seq<string>)
    ensures Walk(dir, segs).None? <==> exists k :: 0 <= k < |segs| && FailsAt(dir, segs, k)
    decreases segs
  {
    if segs != [] {
      assert segs[..0] == [];
      if StepFails(dir, segs[0]) {
        assert FailsAt(dir, segs, 0);
      } else {
        var children := Find(dir, segs[0]).value.children;
        WalkNoneIff(children, segs[1..]);
        assert !FailsAt(dir, segs, 0);
        forall k | 0 < k < |segs|
          ensures FailsAt(dir, segs, k) <==> FailsAt(children, segs[1..], k - 1)
        {
          assert segs[..k][0] == segs[0] && segs[..k][1..] == segs[1..][..k - 1];
        }
        if Walk(dir, segs).None? {
          var j :| 0 <= j < |segs[1..]| && FailsAt(children, segs[1..], j);
          assert FailsAt(dir, segs, j + 1);
        }
      }
    }
  }

  /** What `getDir` returns, in the source's terms: `null` exactly when a segment after
      the root is missing or not a directory. */
  lemma GetDirNullIff(fs: seq<Entry>, p: Path)
    requires |p| >= 1
    ensures DirAt(fs, p).None? <==> exists k :: 0 <= k < |p| - 1 && FailsAt(fs, p[1..], k)
  {
    WalkNoneIff(fs, p[1..]);
  }

  // ---------------------------------------------------------------------------
  // cd ..
  // ---------------------------------------------------------------------------

  /** `cd ..` at the root reports it and moves nowhere. */
  lemma CdUpAtRoot(fs: seq<Entry>, s: State)
    requires |s.path| <= 1
    ensures Cd(fs, s, [".."]) == Log(s, Error, "Already at root.")
  {
  }

  /** `cd ..` below the root drops exactly the last segment, then announces the parent's
      description if it has one. */
  lemma CdUpPops(fs: seq<Entry>, s: State)
    requires |s.path| > 1
    ensures var up := s.path[..|s.path| - 1];
      Cd(fs, s, [".."]) == s.(path := up, history := s.history + DescriptionInfo(fs, Some(up)))
  {
  }

  /** The interpreter as a step function: submit one line to a state. */
  function Step(fs: seq<Entry>, intro: string): (State, string) -> State
  {
    (t: State, l: string) => Exec(fs, intro, t, l)
  }

  /** The state after applying `step` to `lines` one after the other. */
  function Fold(step: (State, string) -> State, s: State, lines: seq<string>): State
    decreases |lines|
  {
    if lines == [] then s else Fold(step, step(s, lines[0]), lines[1..])
  }

  /** The state after submitting `lines` one after the other. */
  function Run(fs: seq<Entry>, intro: string, s: State, lines: seq<string>): State
  {
    Fold(Step(fs, intro), s, lines)
  }

  /** `n` copies of `line`. */
  function Repeat(line: string, n: nat): (r: seq<string>)
    ensures |r| == n && forall i :: 0 <= i < n ==> r[i] == line
  {
    if n == 0 then [] else [line] + Repeat(line, n - 1)
  }

  /** The command line `cd ..` has nothing to trim. */
  lemma TrimCdUp()
    ensures Trim("cd ..") == "cd .."
  {
    TrimKeeps("cd ..");
  }

  /** The words of `cd ..`. */
  lemma WordsCdUp()
    ensures Words("cd ..") == ["cd", ".."]
  {
    assert Join(["cd", ".."], " ") == "cd ..";
    WordsOfJoin(["cd", ".."]);
  }

  /** The command line `cd ..`, parsed. */
  lemma ParseCdUp()
    ensures Parses("cd ..", "cd", [".."])
  {
    TrimCdUp();
    WordsCdUp();
    assert ToLower("cd") == "cd";
  }

  /** `CD ..`, typed in capitals, is a `cd ..` line too. */
  lemma ShoutedCdUp()
    ensures Parses("CD ..", "cd", [".."])
  {
    assert LowerVariant("CD", "cd");
    TwoWordLine("CD", "..", "cd");
    assert "CD" + " " + ".." == "CD ..";
  }

  /** A verb, in any case, followed by one space and one argument parses as that verb. */
  lemma TwoWordLine(w: string, arg: string, verb: string)
    requires verb in Verbs && IsWord(w) && IsWord(arg) && LowerVariant(w, verb)
    ensures Parses(w + " " + arg, verb, [arg])
  {
    var line := w + " " + arg;
    assert line[0] == w[0] && line[|line| - 1] == arg[|arg| - 1];
    TrimKeeps(line);
    assert Join([w, arg], " ") == line;
    WordsOfJoin([w, arg]);
    assert Words(Trim(line))[1..] == [arg];
    AnyCaseVerbParses(line, verb);
  }

  lemma DispatchCd(fs: seq<Entry>, intro: string, s: State, args: seq<string>)
    ensures Dispatch(fs, intro, s, "cd", args) == Cd(fs, s, args)
  {
  }

  /** One step up: the last segment goes, unless only the root is left. */
  function UpOne(p: Path): Path
  {
    if |p| > 1 then p[..|p| - 1] else p
  }

  /** One `cd ..`: the last segment goes, unless only the root is left. */
  lemma ExecCdUp(fs: seq<Entry>, intro: string, s: State, line: string)
    requires !s.awaiting && Parses(line, "cd", [".."])
    ensures var r := Exec(fs, intro, s, line);
      !r.awaiting && r.path == UpOne(s.path)
  {
    IdleDispatches(fs, intro, s, line, "cd", [".."]);
    var e := Log(s, Command, Trim(line));
    DispatchCd(fs, intro, e, [".."]);
    if |s.path| > 1 {
      CdUpPops(fs, e);
    } else {
      CdUpAtRoot(fs, e);
    }
  }

  /** `step` applied to `line` takes one step up from any state without a pending
      prompt, and leaves no prompt pending. */
  ghost predicate StepsUp(step: (State, string) -> State, line: string)
  {
    forall t: State :: !t.awaiting ==> !step(t, line).awaiting && step(t, line).path == UpOne(t.path)
  }

  /** Submitting a line that parses as `cd ..` is such a step. */
  lemma CdUpStepsUp(fs: seq<Entry>, intro: string, line: string)
    requires Parses(line, "cd", [".."])
    ensures StepsUp(Step(fs, intro), line)
  {
    forall t: State | !t.awaiting
      ensures !Step(fs, intro)(t, line).awaiting && Step(fs, intro)(t, line).path == UpOne(t.path)
    {
      ExecCdUp(fs, intro, t, line);
    }
  }

  /** The path after `n` steps up. */
  function UpPath(p: Path, n: nat): Path
  {
    if n == 0 then p else UpPath(UpOne(p), n - 1)
  }

  /** `n` steps up keep the first `|p| - n` segments, and never fewer than one. */
  lemma {:induction false} UpPathPrefix(p: Path, n: nat)
    requires |p| >= 1
    ensures UpPath(p, n) == p[..if |p| - n >= 1 then |p| - n else 1]
  {
    if n > 0 {
      var q := UpOne(p);
      UpPathPrefix(q, n - 1);
      var k := if |q| - (n - 1) >= 1 then |q| - (n - 1) else 1;
      assert q[..k] == p[..k];
    }
  }

  /** Applying a step up `n` times takes `n` steps up. */
  lemma {:induction false} FoldStepsUp(step: (State, string) -> State, s: State, line: string, n: nat)
    requires StepsUp(step, line) && !s.awaiting
    ensures var r := Fold(step, s, Repeat(line, n));
      !r.awaiting && r.path == UpPath(s.path, n)
    decreases n
  {
    if n > 0 {
      var lines := Repeat(line, n);
      assert lines[0] == line && lines[1..] == Repeat(line, n - 1);
      FoldStepsUp(step, step(s, line), line, n - 1);
    }
  }

  /** Submitting a line that parses as `cd ..` `n` times leaves the first `|path| - n`
      segments, and never fewer than the root. */
  lemma RepeatedCdUp(fs: seq<Entry>, intro: string, s: State, line: string, n: nat)
    requires !s.awaiting && |s.path| >= 1 && Parses(line, "cd", [".."])
    ensures var r := Run(fs, intro, s, Repeat(line, n));
      !r.awaiting && r.path == s.path[..if |s.path| - n >= 1 then |s.path| - n else 1]
  {
    CdUpStepsUp(fs, intro, line);
    FoldStepsUp(Step(fs, intro), s, line, n);
    UpPathPrefix(s.path, n);
  }

  /** Submitting `cd ..` once per segment below the root reaches the root, and more
      submissions stay there. */
  lemma RepeatedCdUpReachesRoot(fs: seq<Entry>, intro: string, s: State, line: string, n: nat)
    requires !s.awaiting && |s.path| >= 1 && s.path[0] == RootName && n >= |s.path| - 1
    requires Parses(line, "cd", [".."])
    ensures Run(fs, intro, s, Repeat(line, n)).path == [RootName]
  {
    RepeatedCdUp(fs, intro, s, line, n);
  }

  // ---------------------------------------------------------------------------
  // Absolute cd
  // ---------------------------------------------------------------------------

  /** An absolute `cd` goes to the normalised target if every segment of it is a
      directory, and otherwise reports the target as typed and stays. */
  lemma AbsoluteCd(fs: seq<Entry>, s: State, target: string)
    requires IsAbsolute(target)
    ensures var r := Cd(fs, s, [target]); var p := Normalise(target);
      if DirAt(fs, p).Some? then r == s.(path := p, history := s.history + DescriptionInfo(fs, Some(p)))
      else r == Log(s, Error, "Directory not found: " + target)
  {
  }

  /** Where a successful absolute `cd` goes does not depend on where it starts. */
  lemma AbsoluteIndependent(fs: seq<Entry>, s1: State, s2: State, target: string)
    requires IsAbsolute(target) && DirAt(fs, Normalise(target)).Some?
    ensures Cd(fs, s1, [target]).path == Cd(fs, s2, [target]).path == Normalise(target)
  {
    AbsoluteCd(fs, s1, target);
    AbsoluteCd(fs, s2, target);
  }

  /** A path whose segments after the root are non-empty, are not the root's name and
      hold no `/`. */
  predicate CleanPath(p: Path)
  {
    |p| >= 1 && p[0] == RootName
    && forall k :: 1 <= k < |p| ==> p[k] != "" && p[k] != RootName && '/' !in p[k]
  }

  lemma {:induction false} KeepClean(segs: seq<string>)
    requires forall k :: 0 <= k < |segs| ==> segs[k] != "" && segs[k] != RootName
    ensures KeepSegments(segs) == segs
  {
    if segs != [] {
      KeepClean(segs[1..]);
      assert [segs[0]] + segs[1..] == segs;
    }
  }

  /** Normalising the text `pwd` prints gives back the path. */
  lemma {:induction false} NormalisePwd(p: Path)
    requires CleanPath(p)
    ensures Normalise("/" + Join(p, "/")) == p
  {
    var parts := [""] + p;
    assert Join(parts, "/") == "/" + Join(p, "/");
    SplitJoin(parts, '/');
    assert KeepSegments(parts) == KeepSegments(p);
    assert KeepSegments(p) == KeepSegments(p[1..]);
    KeepClean(p[1..]);
    assert [RootName] + p[1..] == p;
  }

  /** Filtering segments keeps their order: the kept segments of a concatenation are those
      of each part, one after the other. */
  lemma {:induction false} KeepSegmentsAppend(a: seq<string>, b: seq<string>)
    ensures KeepSegments(a + b) == KeepSegments(a) + KeepSegments(b)
    decreases |a|
  {
    if a == [] {
      assert a + b == b;
    } else {
      assert (a + b)[1..] == a[1..] + b;
      KeepSegmentsAppend(a[1..], b);
    }
  }

  /** One segment is kept exactly when it is neither empty nor the root's name. */
  lemma KeepSegmentsOne(x: string)
    ensures KeepSegments([x]) == if x != "" && x != RootName then [x] else []
  {
  }

  /** An absolute target built from slash-free pieces goes to the root followed by those
      pieces, in order, with the empty ones and every `krustykrab` dropped. */
  lemma NormaliseJoin(ps: seq<string>)
    requires forall k :: 0 <= k < |ps| ==> '/' !in ps[k]
    ensures Normalise("/" + Join(ps, "/")) == [RootName] + KeepSegments(ps)
  {
    if ps == [] {
      NormaliseSlash();
    } else {
      var parts := [""] + ps;
      SplitLeadingJoin(ps, '/');
      assert parts[1..] == ps;
      assert KeepSegments(parts) == KeepSegments(ps);
    }
  }

  /** `cd /` goes to the root. */
  lemma NormaliseSlash()
    ensures Normalise("/") == [RootName]
  {
    assert "/" == Join(["", ""], "/");
    SplitJoin(["", ""], '/');
  }

  /** For example, `cd /krustykrab//staff/` goes to `staff`. */
  lemma NormaliseExample()
    ensures Normalise("/krustykrab//staff/") == [RootName, "staff"]
  {
    var ps := [RootName, "", "staff", ""];
    assert Join(ps[2..], "/") == "staff" + "/" + "";
    assert Join(ps[1..], "/") == "" + "/" + "staff/";
    assert Join(ps, "/") == RootName + "/" + "/staff/";
    assert "/krustykrab//staff/" == "/" + Join(ps, "/");
    NormaliseJoin(ps);
    assert KeepSegments(ps[2..]) == ["staff"];
    assert KeepSegments(ps) == ["staff"];
  }

  /** `cd` to what `pwd` printed comes back to the same directory, from anywhere. */
  lemma CdToPwdReturns(fs: seq<Entry>, here: State, elsewhere: State)
    requires CleanPath(here.path) && DirAt(fs, here.path).Some?
    ensures Cd(fs, elsewhere, ["/" + Join(here.path, "/")]).path == here.path
  {
    NormalisePwd(here.path);
    AbsoluteCd(fs, elsewhere, "/" + Join(here.path, "/"));
  }

  /** A walk that succeeds never passes a segment named like nothing in the tree, so
      dropping every occurrence of the root's name from an absolute path loses no
      directory. */
  lemma {:induction false} WalkAvoidsUnusedName(dir: seq<Entry>, segs: seq<string>, name: string)
    requires NoEntryNamed(dir, name) && Walk(dir, segs).Some?
    ensures name !in segs
    decreases segs
  {
    if segs != [] {
      var children := Find(dir, segs[0]).value.children;
      var i :| 0 <= i < |dir| && dir[i] == Entry(segs[0], Find(dir, segs[0]).value);
      WalkAvoidsUnusedName(children, segs[1..], name);
      assert segs == [segs[0]] + segs[1..];
    }
  }

  /** In the game's tree, no directory path contains the root's name after the root. */
  lemma GamePathsAvoidRootName(p: Path)
    requires DirAt(FileSystem, p).Some?
    ensures RootName !in Rest(p)
  {
    RootNameUnused();
    WalkAvoidsUnusedName(FileSystem, Rest(p), RootName);
  }

  // ---------------------------------------------------------------------------
  // Relative cd and the description
  // ---------------------------------------------------------------------------

  /** A relative `cd` enters a directory child of the current directory, and otherwise
      reports the target and stays. */
  lemma RelativeCd(fs: seq<Entry>, s: State, target: string)
    requires target != ".." && !IsAbsolute(target)
    ensures var r := Cd(fs, s, [target]);
      if IsDirChild(fs, s.path, target) then
        r == s.(path := s.path + [target], history := s.history + DescriptionInfo(fs, Some(s.path + [target])))
      else r == Log(s, Error, "Directory not found: " + target)
  {
  }

  /** `cd` without a target does nothing. */
  lemma CdWithoutTarget(fs: seq<Entry>, s: State)
    ensures Cd(fs, s, []) == s
  {
  }

  /** After a successful `cd`, one `[INFO]` entry is added exactly when the directory it
      moved to has a `description.txt` file, and it carries that file's content. */
  lemma CdInfoIff(fs: seq<Entry>, s: State, target: string)
    requires CdProbePath(fs, s.path, target).Some?
    ensures var r := Cd(fs, s, [target]); var p := CdProbePath(fs, s.path, target).value;
      r.path == p
      && (match FileIn(fs, p, "description.txt")
          case Some(c) => r.history == s.history + [LogEntry(Info, "[INFO] " + c)]
          case None => r.history == s.history)
  {
    CdMoveFollowsProbe(fs, s, target);
  }

  /** In a directory with distinct names, looking up an entry's name finds that entry. */
  lemma {:induction false} FindDistinct(dir: seq<Entry>, i: nat)
    requires Distinct(dir) && i < |dir|
    ensures Find(dir, dir[i].name) == Some(dir[i].node)
  {
    if i > 0 {
      FindDistinct(dir[1..], i - 1);
    }
  }

  /** `staff` is the third entry of the root, a visible directory. */
  lemma StaffAtRoot()
    ensures Find(FileSystem, "staff") == Some(Dir(Staff, false))
  {
    TopNamesDistinct();
    FindDistinct(FileSystem, 2);
  }

  /** A directory entry of a top-level directory is reached by the three-segment path. */
  lemma ReachableChild(root: seq<Entry>, top: string, d: seq<Entry>, i: nat)
    requires Find(root, top) == Some(Dir(d, false)) && Distinct(d) && i < |d| && d[i].node.Dir?
    ensures DirAt(root, [RootName, top, d[i].name]) == Some(d[i].node.children)
    ensures IsDirChild(root, [RootName, top], d[i].name)
  {
    var name := d[i].name;
    FindDistinct(d, i);
    assert Find(d, name) == Some(d[i].node);
    assert Walk(d[i].node.children, []) == Some(d[i].node.children);
    assert Walk(d, [name]) == Some(d[i].node.children);
    assert Rest([RootName, top, name]) == [top, name];
    assert [top, name][1..] == [name];
    assert Walk(root, [top, name]) == Walk(d, [name]);
    assert Rest([RootName, top]) == [top];
    assert Walk(d, []) == Some(d);
    assert Walk(root, [top]) == Some(d);
  }

  /** Each staff member's directory is reached from `staff` under its name. */
  lemma StaffReachable(i: nat)
    requires i < |Staff|
    ensures DirAt(FileSystem, [RootName, "staff", Staff[i].name]) == Some(Staff[i].node.children)
    ensures IsDirChild(FileSystem, [RootName, "staff"], Staff[i].name)
  {
    StaffAtRoot();
    TopNamesDistinct();
    StaffDescribed();
    ReachableChild(FileSystem, "staff", Staff, i);
  }

  /** Entering any staff member's directory from `staff` shows its description. */
  lemma StaffCdShowsInfo(i: nat)
    requires i < |Staff|
    ensures IsDirChild(FileSystem, [RootName, "staff"], Staff[i].name)
    ensures FileIn(FileSystem, [RootName, "staff", Staff[i].name], "description.txt").Some?
  {
    StaffReachable(i);
    StaffDescribed();
    StaffUnique();
    DescribedFound(Staff[i].node.children);
  }

  // ---------------------------------------------------------------------------
  // ls
  // ---------------------------------------------------------------------------

  /** A hidden directory. */
  predicate IsHidden(n: Node)
  {
    n.Dir? && n.hidden
  }

  /** The names of `dir`, in order. */
  function Names(dir: seq<Entry>): (r: seq<string>)
    ensures |r| == |dir| && forall i :: 0 <= i < |dir| ==> r[i] == dir[i].name
  {
    seq(|dir|, i requires 0 <= i < |dir| => dir[i].name)
  }

  /** `ls -a` lists every name, in the directory's order. */
  lemma {:induction false} ListingAll(dir: seq<Entry>)
    ensures Listing(dir, true) == Names(dir)
  {
    if dir != [] {
      ListingAll(dir[1..]);
      assert Names(dir) == [dir[0].name] + Names(dir[1..]);
    }
  }

  /** Plain `ls` lists an entry's name exactly when the entry is not a hidden directory
      (in a directory with distinct names). */
  lemma {:induction false} ListingVisible(dir: seq<Entry>, i: nat)
    requires Distinct(dir) && i < |dir|
    ensures dir[i].name in Listing(dir, false) <==> !IsHidden(dir[i].node)
  {
    if i > 0 {
      ListingVisible(dir[1..], i - 1);
      ListingNamesFrom(dir[1..], false);
    }
    else {
      ListingNamesFrom(dir[1..], false);
    }
  }

  /** Listing a concatenation lists the first part, then the second: `ls` keeps the
      directory's order. */
  lemma {:induction false} ListingAppend(a: seq<Entry>, b: seq<Entry>, showHidden: bool)
    ensures Listing(a + b, showHidden) == Listing(a, showHidden) + Listing(b, showHidden)
    decreases |a|
  {
    if a == [] {
      assert a + b == b;
    } else {
      assert a == [a[0]] + a[1..] && a + b == [a[0]] + (a[1..] + b);
      ListingCons(a[0], a[1..], showHidden);
      ListingCons(a[0], a[1..] + b, showHidden);
      ListingAppend(a[1..], b, showHidden);
    }
  }

  lemma ListingCons(e: Entry, rest: seq<Entry>, showHidden: bool)
    ensures Listing([e] + rest, showHidden) == Listing([e], showHidden) + Listing(rest, showHidden)
  {
    assert ([e] + rest)[1..] == rest && [e][1..] == [];
  }

  /** A single entry is listed by plain `ls` exactly when it is not a hidden directory. */
  lemma ListingOne(e: Entry)
    ensures Listing([e], false) == if IsHidden(e.node) then [] else [e.name]
  {
    assert [e][1..] == [];
  }

  /** Every name `ls` lists, with or without `-a`, is a name of the directory. */
  lemma {:induction false} ListingNamesFrom(dir: seq<Entry>, showHidden: bool)
    ensures forall n :: n in Listing(dir, showHidden) ==> exists i :: 0 <= i < |dir| && dir[i].name == n
  {
    if dir != [] {
      ListingNamesFrom(dir[1..], showHidden);
      forall n | n in Listing(dir, showHidden) ensures exists i :: 0 <= i < |dir| && dir[i].name == n {
        if n != dir[0].name {
          assert n in Listing(dir[1..], showHidden);
          var j :| 0 <= j < |dir[1..]| && dir[1..][j].name == n;
          assert dir[j + 1].name == n;
        }
      }
    }
  }

  /** Everything plain `ls` lists, `ls -a` lists too. */
  lemma LsWithinLsAll(dir: seq<Entry>)
    ensures forall n :: n in Listing(dir, false) ==> n in Listing(dir, true)
  {
    ListingAll(dir);
    ListingNamesFrom(dir, false);
  }

  /** A directory without hidden entries lists the same with and without `-a`. */
  lemma {:induction false} NoHiddenListsAll(dir: seq<Entry>)
    requires forall i :: 0 <= i < |dir| ==> !IsHidden(dir[i].node)
    ensures Listing(dir, false) == Listing(dir, true)
  {
    if dir != [] {
      NoHiddenListsAll(dir[1..]);
    }
  }

  /** Walking down keeps "every hidden directory is at `at`", with the prefix extended by
      the segments walked. */
  lemma {:induction false} WalkKeepsHiddenOnlyAt(dir: seq<Entry>, prefix: seq<string>, segs: seq<string>, at: seq<string>)
    requires HiddenOnlyAt(dir, prefix, at) && Walk(dir, segs).Some?
    ensures HiddenOnlyAt(Walk(dir, segs).value, prefix + segs, at)
    decreases segs
  {
    if segs == [] {
      assert prefix + segs == prefix;
    } else {
      var node := Find(dir, segs[0]).value;
      var i :| 0 <= i < |dir| && dir[i] == Entry(segs[0], node);
      WalkKeepsHiddenOnlyAt(node.children, prefix + [segs[0]], segs[1..], at);
      assert prefix + [segs[0]] + segs[1..] == prefix + segs;
    }
  }

  /** In the game's tree, `ls` and `ls -a` differ only in `staff/mickey_mouse`. */
  lemma HidingOnlyInMickeyMouse(p: Path, d: seq<Entry>)
    requires DirAt(FileSystem, p) == Some(d) && Rest(p) != PrivateDir[..2]
    ensures Listing(d, false) == Listing(d, true)
  {
    OnlyPrivateHidden();
    WalkKeepsHiddenOnlyAt(FileSystem, [], Rest(p), PrivateDir);
    assert [] + Rest(p) == Rest(p);
    assert forall i :: 0 <= i < |d| ==> !IsHidden(d[i].node);
    NoHiddenListsAll(d);
  }

  /** `ls` prints `(empty)` exactly when it lists nothing (names are never empty). */
  lemma {:induction false} JoinEmptyIff(names: seq<string>, sep: string)
    requires forall k :: 0 <= k < |names| ==> names[k] != ""
    ensures Join(names, sep) == "" <==> names == []
  {
    if |names| > 1 {
      assert |Join(names, sep)| >= |names[0]|;
    }
  }
}
