/**
 * Properties of the interpreter: the prompt machine, the echo, each verb's effect,
 * and what the game's own tree guarantees about them.
 */
module TerminalProperties {
  import opened Wrappers
  import opened Text
  import opened GameData
  import opened Terminal

  // ---------------------------------------------------------------------------
  // The prompt and the echo
  // ---------------------------------------------------------------------------

  /** `r` keeps the transcript of `s` and appends to it. */
  predicate Extends(s: State, r: State)
  {
    |r.history| >= |s.history| && r.history[..|s.history|] == s.history
  }

  /** The state after a granted answer to the ID prompt. */
  function Granted(s: State, echo: string): State
  {
    var clue := Clues[ProtectedKey];
    s.(history := s.history + [LogEntry(Command, echo),
                               LogEntry(Success, "ACCESS GRANTED.\n\n\"" + clue + "\""),
                               LogEntry(Success, CaseClosed)],
       cluesFound := Record(s.cluesFound, clue), awaiting := false)
  }

  /** While the prompt is pending, the trimmed line is echoed and taken as the answer,
      whatever it says: a case variant of the ID appends the two success entries and
      records the final clue, anything else appends one error and records nothing; the
      path never changes and the prompt is cleared. */
  lemma PromptConsumesLine(fs: seq<Entry>, intro: string, s: State, line: string)
    requires s.awaiting
    ensures var r := Exec(fs, intro, s, line); var t := Trim(line);
      r == if CaseVariant(t, MickeyId) then Granted(s, t)
           else s.(history := s.history + [LogEntry(Command, t), LogEntry(Error, "ACCESS DENIED. Incorrect ID.")],
                   awaiting := false)
  {
    var t := Trim(line);
    ExecAwaiting(fs, intro, s, line);
    AnswerByVariant(s, t);
  }

  /** A pending prompt takes the echoed, trimmed line as its answer and is then cleared. */
  lemma ExecAwaiting(fs: seq<Entry>, intro: string, s: State, line: string)
    requires s.awaiting
    ensures Exec(fs, intro, s, line) == Answer(Log(s, Command, Trim(line)), Trim(line)).(awaiting := false)
  {
  }

  /** The answer is accepted exactly when it is a case variant of the ID. */
  lemma AnswerByVariant(s: State, t: string)
    requires s.awaiting
    ensures Answer(Log(s, Command, t), t).(awaiting := false) ==
      if CaseVariant(t, MickeyId) then Granted(s, t)
      else s.(history := s.history + [LogEntry(Command, t), LogEntry(Error, "ACCESS DENIED. Incorrect ID.")],
              awaiting := false)
  {
    MickeyIdListed();
    UpperMatchesVariants(t, MickeyId);
  }

  /** An answer that upper-cases to the ID closes the case, and recording the final clue
      twice leaves one copy. */
  lemma SecondAnswerRecordsOnce(s: State, a: string, b: string)
    requires ToUpper(a) == MickeyId && ToUpper(b) == MickeyId
    ensures Answer(Answer(s, a), b).cluesFound == Answer(s, a).cluesFound
    ensures Clues[ProtectedKey] in Answer(s, a).cluesFound
  {
    RecordIdempotent(s.cluesFound, Clues[ProtectedKey]);
  }

  /** With no prompt pending, every line is first echoed, trimmed; only `clear` removes
      that echo again. */
  lemma IdleEchoes(fs: seq<Entry>, intro: string, s: State, line: string)
    requires !s.awaiting
    ensures var r := Exec(fs, intro, s, line); var t := Trim(line);
      if t != "" && ToLower(Words(t)[0]) == "clear" then r.history == []
      else Extends(Log(s, Command, t), r)
  {
    var t := Trim(line);
    if t != "" {
      var ws := Words(t);
      var verb := ToLower(ws[0]);
      IdleDispatches(fs, intro, s, line, verb, ws[1..]);
      if verb == "clear" {
        DispatchClear(fs, intro, Log(s, Command, t), ws[1..]);
      } else {
        DispatchExtends(fs, intro, Log(s, Command, t), verb, ws[1..]);
      }
    }
  }

  lemma DispatchClear(fs: seq<Entry>, intro: string, s: State, args: seq<string>)
    ensures Dispatch(fs, intro, s, "clear", args) == s.(history := [])
  {
  }

  /** A blank line is echoed as the empty string and does nothing else. */
  lemma BlankLineOnlyEchoes(fs: seq<Entry>, intro: string, s: State, line: string)
    requires !s.awaiting
    requires forall i :: 0 <= i < |line| ==> IsSpace(line[i])
    ensures Exec(fs, intro, s, line) == s.(history := s.history + [LogEntry(Command, "")])
  {
  }

  /** Every verb but `clear` appends to the transcript and removes nothing from it. */
  lemma DispatchExtends(fs: seq<Entry>, intro: string, s: State, verb: string, args: seq<string>)
    requires verb != "clear"
    ensures Extends(s, Dispatch(fs, intro, s, verb, args))
  {
    if verb == "ls" {
      LsExtends(fs, s, args);
    } else if verb == "cd" {
      CdExtends(fs, s, args);
    } else if verb == "cat" {
      CatExtends(fs, s, args);
    }
  }

  lemma LsExtends(fs: seq<Entry>, s: State, args: seq<string>)
    ensures Extends(s, Ls(fs, s, args))
  {
  }

  lemma CdExtends(fs: seq<Entry>, s: State, args: seq<string>)
    ensures Extends(s, Cd(fs, s, args))
  {
    if args != [] {
      CdMoveFollowsProbe(fs, s, args[0]);
    }
  }

  lemma CatExtends(fs: seq<Entry>, s: State, args: seq<string>)
    ensures Extends(s, Cat(fs, s, args))
  {
  }

  /** `line` is not blank, its first word lower-cases to `verb`, and `args` are the
      words after it. */
  predicate Parses(line: string, verb: string, args: seq<string>)
  {
    var t := Trim(line);
    t != "" && ToLower(Words(t)[0]) == verb && Words(t)[1..] == args
  }

  /** With no prompt pending, a non-blank line is echoed and then run by its verb. */
  lemma IdleDispatches(fs: seq<Entry>, intro: string, s: State, line: string, verb: string, args: seq<string>)
    requires !s.awaiting && Parses(line, verb, args)
    ensures Exec(fs, intro, s, line) == Dispatch(fs, intro, Log(s, Command, Trim(line)), verb, args)
  {
  }

  /** `clear` leaves an empty transcript, its own echo included, and nothing else changes. */
  lemma ClearEmptiesHistory(fs: seq<Entry>, intro: string, s: State, line: string, args: seq<string>)
    requires !s.awaiting && Parses(line, "clear", args)
    ensures Exec(fs, intro, s, line) == s.(history := [])
  {
    IdleDispatches(fs, intro, s, line, "clear", args);
    DispatchClear(fs, intro, Log(s, Command, Trim(line)), args);
  }

  /** `pwd` prints the path, root included, as `/`-separated segments after a `/`. */
  lemma PwdPrintsPath(fs: seq<Entry>, intro: string, s: State, line: string, args: seq<string>)
    requires !s.awaiting && Parses(line, "pwd", args)
    ensures Exec(fs, intro, s, line) == s.(history := s.history + [LogEntry(Command, Trim(line)), LogEntry(Output, "/" + Join(s.path, "/"))])
  {
    IdleDispatches(fs, intro, s, line, "pwd", args);
    DispatchPwd(fs, intro, Log(s, Command, Trim(line)), args);
  }

  lemma DispatchPwd(fs: seq<Entry>, intro: string, s: State, args: seq<string>)
    ensures Dispatch(fs, intro, s, "pwd", args) == Log(s, Output, "/" + Join(s.path, "/"))
  {
  }

  /** The verbs the interpreter knows. */
  const Verbs: set<string> := {"help", "clear", "pwd", "whoami", "ls", "cd", "cat", "exit"}

  /** Every known verb is written in small letters. */
  lemma VerbsLowerAlpha()
    ensures forall v :: v in Verbs ==> LowerAlpha(v)
  {
  }

  /** A first word names a known verb exactly when it spells one in some mix of cases. */
  lemma KnownVerbIff(w: string)
    ensures ToLower(w) in Verbs <==> exists v :: v in Verbs && LowerVariant(w, v)
  {
    VerbsLowerAlpha();
    if ToLower(w) in Verbs {
      LowerMatchesVariants(w, ToLower(w));
    }
    forall v | v in Verbs && LowerVariant(w, v) ensures ToLower(w) in Verbs {
      LowerMatchesVariants(w, v);
    }
  }

  /** A line whose first word spells a known verb in any mix of cases parses as that verb,
      with the remaining words as arguments. */
  lemma AnyCaseVerbParses(line: string, verb: string)
    requires verb in Verbs && Trim(line) != "" && LowerVariant(Words(Trim(line))[0], verb)
    ensures Parses(line, verb, Words(Trim(line))[1..])
  {
    VerbsLowerAlpha();
    LowerMatchesVariants(Words(Trim(line))[0], verb);
  }

  /** Such a line is echoed and then runs that verb, whatever the case it was typed in. */
  lemma AnyCaseVerbDispatches(fs: seq<Entry>, intro: string, s: State, line: string, verb: string)
    requires !s.awaiting && verb in Verbs && Trim(line) != "" && LowerVariant(Words(Trim(line))[0], verb)
    ensures Exec(fs, intro, s, line) == Dispatch(fs, intro, Log(s, Command, Trim(line)), verb, Words(Trim(line))[1..])
  {
    AnyCaseVerbParses(line, verb);
    IdleDispatches(fs, intro, s, line, verb, Words(Trim(line))[1..]);
  }

  /** Any other verb is reported, lower-cased, and changes nothing else. */
  lemma UnknownVerbReported(fs: seq<Entry>, intro: string, s: State, line: string, verb: string, args: seq<string>)
    requires !s.awaiting && Parses(line, verb, args) && verb !in Verbs
    ensures Exec(fs, intro, s, line) == s.(history := s.history + [LogEntry(Command, Trim(line)), LogEntry(Error, "Command not found: " + verb)])
  {
    IdleDispatches(fs, intro, s, line, verb, args);
    DispatchUnknown(fs, intro, Log(s, Command, Trim(line)), verb, args);
  }

  lemma DispatchUnknown(fs: seq<Entry>, intro: string, s: State, verb: string, args: seq<string>)
    requires verb !in Verbs
    ensures Dispatch(fs, intro, s, verb, args) == Log(s, Error, "Command not found: " + verb)
  {
    assert verb != "help" && verb != "clear" && verb != "pwd" && verb != "whoami";
    assert verb != "ls" && verb != "cd" && verb != "cat" && verb != "exit";
  }

  /** Recording a clue twice records it once. */
  lemma RecordIdempotent(clues: seq<string>, clue: string)
    ensures Record(Record(clues, clue), clue) == Record(clues, clue)
    ensures clue in Record(clues, clue) && clues <= Record(clues, clue)
    ensures |Record(clues, clue)| <= |clues| + 1
  {
  }
}
