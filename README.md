# Krusty Krab terminal: a Dafny model of the command interpreter

The game is a fake Unix terminal in the browser. The detective types commands, moves
around a small read-only directory tree rooted at `krustykrab`, and reads files. Some of
those files hold clues, and one protected file asks for Mickey Mouse's employee ID before
it gives up the last clue.

This project models two parts of the game:

- The command interpreter, `useTerminalGame` in `client/src/hooks/use-terminal.ts`.
- The static game data it runs on, in `client/src/lib/game-data.ts`.

It then proves what the interpreter does with every kind of input line.

Modules:

- `Wrappers`: the `Option` type.
- `Text`: the string primitives the interpreter relies on.
  - `trim()`, `split(/\s+/)`, `join`, `split('/')`.
  - `toLowerCase()` and `toUpperCase()`, with the single-character mappings JavaScript
    applies outside ASCII where a result is ASCII (the Kelvin sign, dotless `ı`, long `ſ`).
- `GameData`: the filesystem tree as an ordered list of named entries (a `Node` is a
  `File(content)` or a `Dir(children, hidden)`), the clue table and Mickey's ID, together
  with facts about that literal data.
- `Terminal`: the interpreter.
  - The pure specification: the state is `State(history, path, cluesFound, awaiting)`.
    There are `DirAt` (`getDir`), `Ls`, `Cd`, `Cat`, `Dispatch` (the verb switch) and
    `Exec` (`executeCommand`).
  - The imperative `Session` class. Its fields `history`, `path`, `cluesFound` and
    `awaiting` are updated in place, as the hook's state setters do. `Session.Submit` is
    proved to leave exactly the state `Exec` describes.
  - `GetDir` and `ValidateAbsolute` are the two path walking loops.
  - The invariant kept by every command: the path starts at the root and names an
    existing directory, and the clue list has no duplicates.
- `TerminalProperties`: whole-line behaviour.
  - The ID prompt consumes the next line.
  - Blank lines only echo.
  - `clear` empties the history; `pwd` prints the path; unknown verbs are reported.
  - Every other command keeps the earlier history as a prefix.
- `NavigationProperties`: `getDir`, the three forms of `cd`, repeated `cd ..`, and
  `ls` against `ls -a`.
- `ReadingProperties`: `cat` and what it records.
  - Only `discovery.txt` under `staff/mickey_mouse/.private` arms the prompt.
  - Every clue key names a readable file of the tree.

The interpreter's function `executeCommand` mutates React state through setters whose
updates are queued. The model applies each update in source order, so the state after a
line is the state React renders next. In the prompt callback, `cluesFound` is the value
captured when the file was opened. No command runs between opening the file and answering
the prompt, so that value equals the current one.

## Model

| member | source | states |
|---|---|---|
| Terminal.Session.constructor | client/src/hooks/use-terminal.ts:11-19 | The session starts with the three banner entries (ASCII art, title, story intro), at the root path `krustykrab`, with the single starting clue and no pending prompt; `help` will print the story intro |
| Terminal.Session.AddToHistory | client/src/hooks/use-terminal.ts:29-31 | Appends one entry of the given kind and changes nothing else |
| Terminal.Session.Submit | client/src/hooks/use-terminal.ts:51-242 | The session's new state is `Exec` of the old state and the line, and the interpreter invariant is preserved |
| Terminal.Session.AnswerPrompt | client/src/hooks/use-terminal.ts:195-206 | Applying the prompt callback leaves exactly the state `Answer` describes |
| Terminal.Session.RunLs | client/src/hooks/use-terminal.ts:89-101 | The state after `ls` is `Ls` of the old state |
| Terminal.Session.RunCd | client/src/hooks/use-terminal.ts:103-177 | The state after `cd` is `Cd` of the old state |
| Terminal.Session.RunCat | client/src/hooks/use-terminal.ts:179-229 | The state after `cat` is `Cat` of the old state |
| Terminal.GetDir | client/src/hooks/use-terminal.ts:33-49 | The directory loop returns what `DirAt` specifies: the root's entries for the root path, else the walk of the segments after the root through directories |
| Terminal.ValidateAbsolute | client/src/hooks/use-terminal.ts:118-128 | The validation loop answers true exactly when the normalised path names a directory |
| Terminal.ResolveCd | client/src/hooks/use-terminal.ts:146-169 | The second resolution of the target yields exactly `CdProbePath`, the path `cd` moves to |
| Terminal.KeepSegments | client/src/hooks/use-terminal.ts:115 | The kept segments are exactly those that are non-empty and not `krustykrab`, and there are no more of them than there were parts |
| NavigationProperties.KeepSegmentsAppend | client/src/hooks/use-terminal.ts:115 | Filtering a concatenation is concatenating the filtered halves, so the filter keeps the order of the parts |
| NavigationProperties.KeepSegmentsOne | client/src/hooks/use-terminal.ts:115 | A single part is kept exactly when it is non-empty and not `krustykrab` |
| Terminal.Normalise | client/src/hooks/use-terminal.ts:113-115 | An absolute target becomes a path that starts with the root, followed by non-empty, slash-free segments none of which is the root's name |
| NavigationProperties.NormaliseJoin | client/src/hooks/use-terminal.ts:115 | The target `/` followed by slash-free parts joined with `/` becomes the root followed by exactly the kept parts, in order |
| NavigationProperties.NormaliseSlash | client/src/hooks/use-terminal.ts:115 | The target `/` alone becomes the root path |
| NavigationProperties.NormaliseExample | client/src/hooks/use-terminal.ts:115 | `/krustykrab//staff/` becomes `krustykrab`, `staff`: empty pieces and the root's name are dropped |
| Terminal.Walk | client/src/hooks/use-terminal.ts:40-47 | A successful walk passed a directory for its first segment |
| Terminal.DirAt | client/src/hooks/use-terminal.ts:33-49 | The root path and the empty path name the whole tree |
| Terminal.Record | client/src/hooks/use-terminal.ts:222-224 | The clue is present afterwards, every old clue is kept, and at most one is added |
| Terminal.Answer | client/src/hooks/use-terminal.ts:195-206 | The callback keeps the path and the prompt flag, only appends to the history, and changes the clues only for an answer that upper-cases to the ID |
| Terminal.Listing | client/src/hooks/use-terminal.ts:93-96 | At most one name is listed per entry; `ListingAppend` and `ListingOne` fix which names and in what order |
| Terminal.Ls | client/src/hooks/use-terminal.ts:89-101 | `ls` appends exactly one entry and changes nothing else |
| Terminal.LsShowsListing | client/src/hooks/use-terminal.ts:91-100 | Under the interpreter invariant the current directory exists, so `ls` prints the listing joined by newlines, or `(empty)`, and never the directory error |
| Terminal.CdMove | client/src/hooks/use-terminal.ts:103-142 | The first half of `cd` keeps the clues and the prompt, keeps the history as a prefix, and either stays or adds nothing to the history |
| Terminal.CdProbePath | client/src/hooks/use-terminal.ts:146-169 | A resolved path is non-empty; `..` gives a proper prefix of the path, a relative name the path plus one segment |
| Terminal.Cd | client/src/hooks/use-terminal.ts:103-177 | `cd` keeps the clues and the prompt and keeps the history as a prefix |
| Terminal.ClueKey | client/src/hooks/use-terminal.ts:217 | The key ends with the file name |
| Terminal.Cat | client/src/hooks/use-terminal.ts:179-229 | `cat` never moves and appends one or two entries to the history |
| Terminal.Dispatch | client/src/hooks/use-terminal.ts:72-241 | `clear` empties the history; every other verb keeps it as a prefix; verbs other than `cd` and `cat` keep the path and the prompt |
| Terminal.Exec | client/src/hooks/use-terminal.ts:51-242 | A pending prompt is answered and cleared without moving; a blank line only echoes |
| Terminal.CdMoveFollowsProbe | client/src/hooks/use-terminal.ts:103-169 | The first half of `cd` moves to the path the second half computes when there is one, and otherwise reports the error |
| Terminal.WalkAppend | client/src/hooks/use-terminal.ts:40-47 | Walking `a + b` is walking `a`, then `b` from there |
| Terminal.RecordKeepsDistinct | client/src/hooks/use-terminal.ts:222-224 | Recording a clue only when absent keeps the clue list free of duplicates |
| Terminal.ProbeKeepsInvariant | client/src/hooks/use-terminal.ts:146-169 | Every path `cd` can move to starts at the root and names an existing directory |
| Terminal.CdKeepsInvariant | client/src/hooks/use-terminal.ts:103-177 | `cd` preserves the interpreter invariant |
| Terminal.CatKeepsInvariant | client/src/hooks/use-terminal.ts:179-229 | `cat` preserves the interpreter invariant |
| Terminal.DispatchKeepsInvariant | client/src/hooks/use-terminal.ts:72-241 | Every verb preserves the interpreter invariant |
| Terminal.ExecKeepsInvariant | client/src/hooks/use-terminal.ts:51-242 | Every input line, prompt answer or command, preserves the interpreter invariant |
| TerminalProperties.PromptConsumesLine | client/src/hooks/use-terminal.ts:55-62 | While the prompt is pending, the trimmed line is echoed and taken as the answer, whatever it says. A case variant of `MIC1234` grants access and records the last clue once. Any other answer is denied. Either way the prompt is then cleared |
| TerminalProperties.AnswerByVariant | client/src/hooks/use-terminal.ts:195-206 | The callback grants access exactly for case variants of the employee ID and denies it otherwise |
| TerminalProperties.SecondAnswerRecordsOnce | client/src/hooks/use-terminal.ts:196-201 | A correct answer records the final clue, and a second correct answer does not record it again |
| TerminalProperties.IdleEchoes | client/src/hooks/use-terminal.ts:64-79 | Without a prompt, every line is first echoed trimmed. The command `clear` then empties the history. Every other line leaves the echo followed by zero or more further entries |
| TerminalProperties.BlankLineOnlyEchoes | client/src/hooks/use-terminal.ts:64-66 | A line of white space echoes an empty command and does nothing else |
| TerminalProperties.DispatchExtends | client/src/hooks/use-terminal.ts:72-241 | Every verb other than `clear` keeps the earlier history as a prefix |
| TerminalProperties.LsExtends | client/src/hooks/use-terminal.ts:89-101 | `ls` keeps the earlier history as a prefix |
| TerminalProperties.CdExtends | client/src/hooks/use-terminal.ts:103-177 | `cd` keeps the earlier history as a prefix |
| TerminalProperties.CatExtends | client/src/hooks/use-terminal.ts:179-229 | `cat` keeps the earlier history as a prefix |
| TerminalProperties.ClearEmptiesHistory | client/src/hooks/use-terminal.ts:77-79 | `clear` leaves an empty history (the echo is discarded too) and changes nothing else |
| TerminalProperties.PwdPrintsPath | client/src/hooks/use-terminal.ts:81-83 | `pwd` echoes, then prints `/` followed by the path joined with `/`, including the root's name |
| TerminalProperties.UnknownVerbReported | client/src/hooks/use-terminal.ts:238-240 | A verb outside the known eight is echoed and reported as `Command not found`, with the lower-cased verb |
| TerminalProperties.RecordIdempotent | client/src/hooks/use-terminal.ts:222-224 | Recording a clue twice is recording it once; the clue is then present and the old list is a prefix |
| NavigationProperties.RootIsFileSystem | client/src/hooks/use-terminal.ts:35 | The root path names the whole tree |
| NavigationProperties.WalkNoneIff | client/src/hooks/use-terminal.ts:40-47 | A walk fails exactly when some segment, reached through directories, is missing or names a file |
| NavigationProperties.GetDirNullIff | client/src/hooks/use-terminal.ts:33-49 | `getDir` returns null exactly when some segment after the root is missing or not a directory |
| NavigationProperties.CdUpAtRoot | client/src/hooks/use-terminal.ts:107-112 | `cd ..` at the root reports `Already at root.` and stays |
| NavigationProperties.CdUpPops | client/src/hooks/use-terminal.ts:107-112 | `cd ..` below the root drops the last segment, then shows the parent's description if it has one |
| NavigationProperties.RepeatedCdUp | client/src/hooks/use-terminal.ts:107-112 | Submitting `cd ..` n times keeps the first `len - n` path segments, and never fewer than the root |
| NavigationProperties.RepeatedCdUpReachesRoot | client/src/hooks/use-terminal.ts:107-112 | Enough `cd ..` lines always reach the root and stay there |
| NavigationProperties.UpPathPrefix | client/src/hooks/use-terminal.ts:108-109 | n steps up keep a prefix of the path of length `max(1, len - n)` |
| NavigationProperties.FoldStepsUp | client/src/hooks/use-terminal.ts:107-112 | Repeating a step that goes one level up goes n levels up |
| NavigationProperties.AbsoluteCd | client/src/hooks/use-terminal.ts:113-133 | An absolute `cd` moves to the normalised path when every segment is a directory, showing its description; otherwise it reports the target as typed and stays |
| NavigationProperties.AbsoluteIndependent | client/src/hooks/use-terminal.ts:113-133 | Where a successful absolute `cd` lands does not depend on the starting directory |
| NavigationProperties.NormalisePwd | client/src/hooks/use-terminal.ts:81-83 | For a clean path (it starts at the root, and every later segment is non-empty, slash-free and not `krustykrab`), normalising the text `pwd` prints gives the path back |
| NavigationProperties.CdToPwdReturns | client/src/hooks/use-terminal.ts:81-133 | `cd` to the text `pwd` printed returns to that directory from anywhere |
| NavigationProperties.KeepClean | client/src/hooks/use-terminal.ts:115 | Filtering keeps a list of non-empty, non-root segments unchanged |
| NavigationProperties.WalkAvoidsUnusedName | client/src/hooks/use-terminal.ts:115-128 | A successful walk never passes a name the tree does not use, so dropping such names loses no directory |
| NavigationProperties.GamePathsAvoidRootName | client/src/lib/game-data.ts:9-145 | No directory path of the game's tree repeats `krustykrab` after the root |
| NavigationProperties.RelativeCd | client/src/hooks/use-terminal.ts:134-142 | A relative `cd` enters a directory child of the current directory, showing its description; otherwise it reports the target and stays |
| NavigationProperties.CdWithoutTarget | client/src/hooks/use-terminal.ts:104 | `cd` without an argument changes nothing beyond the echo |
| NavigationProperties.CdInfoIff | client/src/hooks/use-terminal.ts:171-176 | After a successful `cd`, one `[INFO]` line is added exactly when the new directory has `description.txt`, and it carries that file's content |
| NavigationProperties.StaffReachable | client/src/lib/game-data.ts:26-119 | Each staff directory is reached at `/krustykrab/staff/<name>` and is a directory child of `staff` |
| NavigationProperties.StaffCdShowsInfo | client/src/lib/game-data.ts:26-119 | Entering any of the nine staff directories from `staff` finds its `description.txt` |
| NavigationProperties.ListingAll | client/src/hooks/use-terminal.ts:93-96 | `ls -a` lists every name, in the directory's order |
| NavigationProperties.ListingAppend | client/src/hooks/use-terminal.ts:93-96 | Listing a concatenation lists the first part and then the second, so both listings keep the directory's order |
| NavigationProperties.ListingOne | client/src/hooks/use-terminal.ts:94-95 | Plain `ls` lists a single entry's name exactly when it is not a hidden directory |
| NavigationProperties.ListingVisible | client/src/hooks/use-terminal.ts:93-96 | Plain `ls` lists a name exactly when its entry is not hidden |
| NavigationProperties.ListingNamesFrom | client/src/hooks/use-terminal.ts:93-96 | Everything `ls` lists is a name of the directory |
| NavigationProperties.LsWithinLsAll | client/src/hooks/use-terminal.ts:90-96 | Everything plain `ls` lists, `ls -a` lists too |
| NavigationProperties.NoHiddenListsAll | client/src/hooks/use-terminal.ts:90-96 | A directory without hidden entries lists the same with and without `-a` |
| NavigationProperties.WalkKeepsHiddenOnlyAt | client/src/hooks/use-terminal.ts:40-47 | Walking down preserves "the only hidden directory is at the given path" |
| NavigationProperties.HidingOnlyInMickeyMouse | client/src/lib/game-data.ts:91-93 | In the game's tree, `ls` and `ls -a` differ only in `staff/mickey_mouse` |
| NavigationProperties.JoinEmptyIff | client/src/hooks/use-terminal.ts:96-97 | `ls` prints `(empty)` exactly when there is nothing to list |
| NavigationProperties.FindDistinct | client/src/lib/game-data.ts:9-145 | In a directory with distinct names, looking a name up finds its entry |
| ReadingProperties.CatShape | client/src/hooks/use-terminal.ts:179-229 | `cat` never moves, appends one or two entries, and records at most one clue, which is the clue of the file read |
| ReadingProperties.CatClues | client/src/hooks/use-terminal.ts:187-225 | `cat` records the clue of an unprotected file whose key is in the clue table, once, and nothing otherwise |
| ReadingProperties.CatNeedsFile | client/src/hooks/use-terminal.ts:184-228 | A missing name or a directory gives `File not found.` |
| ReadingProperties.CatShowsFile | client/src/hooks/use-terminal.ts:211-225 | An unprotected file's content is printed as an output entry; exactly when its key is in the table, an info entry `\n[!] CLUE FOUND: ` followed by that clue comes next and the clue is recorded |
| ReadingProperties.CatUsage | client/src/hooks/use-terminal.ts:180-183 | `cat` without an argument adds only the usage error and changes nothing else |
| ReadingProperties.CatRereadKeepsClues | client/src/hooks/use-terminal.ts:222-224 | Reading the same file again records nothing new |
| ReadingProperties.CatArmsPrompt | client/src/hooks/use-terminal.ts:191-208 | Opening `discovery.txt` inside `.private` prints the protected notice and arms the ID prompt, recording nothing |
| ReadingProperties.PromptArmedOnlyByDiscovery | client/src/hooks/use-terminal.ts:191-208 | In the game, `cat` arms the prompt exactly when it opens `discovery.txt` in `staff/mickey_mouse/.private` |
| ReadingProperties.DiscoveryFoundOnlyInPrivate | client/src/lib/game-data.ts:91-99 | The only directory holding a `discovery.txt` is `staff/mickey_mouse/.private` |
| ReadingProperties.NamedFoundOnlyAt | client/src/lib/game-data.ts:9-145 | If a name occurs at one place of a tree only, every directory where it is found is that place |
| ReadingProperties.WalkKeepsNamedOnlyAt | client/src/hooks/use-terminal.ts:40-47 | Walking down preserves "this name occurs at one place only" |
| ReadingProperties.PrivateReachable | client/src/lib/game-data.ts:80-99 | `staff/mickey_mouse/.private` is reachable and is the hidden directory |
| ReadingProperties.DiscoveryInPrivate | client/src/lib/game-data.ts:95 | `discovery.txt` is a file of `.private` |
| ReadingProperties.ClueKeySplits | client/src/hooks/use-terminal.ts:217 | Splitting a clue key on `/` gives the path below the root followed by the file name |
| ReadingProperties.ClueKeyInjective | client/src/hooks/use-terminal.ts:217 | Two files with slash-free names have the same clue key only if they are the same file |
| ReadingProperties.JohnPorkClueResolves | client/src/lib/game-data.ts:220 | John Pork's clue key names a file of the tree |
| ReadingProperties.QuandaleDingleClueResolves | client/src/lib/game-data.ts:219 | Quandale Dingle's clue key names a file of the tree |
| ReadingProperties.PlanktonClueResolves | client/src/lib/game-data.ts:218 | Plankton's clue key names a file of the tree |
| ReadingProperties.ProtectedClueResolves | client/src/lib/game-data.ts:221 | The protected clue's key names `discovery.txt` in `.private` |
| ReadingProperties.ProtectedKeyOfPrivate | client/src/hooks/use-terminal.ts:197-217 | The key the prompt callback uses is the key of `discovery.txt` in `.private` |
| ReadingProperties.ClueKeys | client/src/lib/game-data.ts:217-222 | The clue table has exactly the four listed keys: each of them is a key, and every key is one of them |
| ReadingProperties.CluesResolveToFiles | client/src/lib/game-data.ts:217-222 | Every key of the clue table names a file that `cat` can open |
| GameData.Find | client/src/lib/game-data.ts:2-7 | A name lookup fails exactly when no entry has that name, and a found node is the entry of that name |
| GameData.PlainUnique | client/src/lib/game-data.ts:9-145 | A directory of plain files has distinct names |
| GameData.TopNamesDistinct | client/src/lib/game-data.ts:9-145 | The root and `staff` have distinct names |
| GameData.TreeNamesUnique | client/src/lib/game-data.ts:9-145 | Every directory in the tree has distinct names |
| GameData.RootNameUnused | client/src/lib/game-data.ts:9-145 | No node in the tree is named `krustykrab` |
| GameData.OnlyPrivateHidden | client/src/lib/game-data.ts:91-93 | The only hidden node is `staff/mickey_mouse/.private` |
| GameData.DiscoveryOnlyInPrivate | client/src/lib/game-data.ts:95 | `discovery.txt` occurs only in `staff/mickey_mouse/.private` |
| GameData.DescribedFound | client/src/lib/game-data.ts:26-119 | A directory with a `description.txt` file finds it by name |
| GameData.StaffDescribed | client/src/lib/game-data.ts:26-119 | There are nine staff directories and each has a `description.txt` file |
| GameData.MickeyIdListed | client/src/lib/game-data.ts:224 | Mickey's ID is upper-case letters and digits, and `employee_ids.txt` begins with it (lines 123-125) |
| Text.Trim | client/src/hooks/use-terminal.ts:52 | The trimmed line has no white space at either end, and is empty exactly when the line is all white space |
| Text.TrimIsInfix | client/src/hooks/use-terminal.ts:52 | Trimming removes only white space, and only from the two ends |
| Text.Words | client/src/hooks/use-terminal.ts:68 | The words are non-empty, contain no white space, and there are none exactly when the line is all white space |
| Text.WordsOfSpaced | client/src/hooks/use-terminal.ts:68 | Words separated by non-empty runs of white space, with optional white space before and after, split back into exactly those words: each word is a maximal run |
| Text.WordsKeepText | client/src/hooks/use-terminal.ts:68 | Concatenating the words gives the line without its white space |
| Text.WordsOfJoin | client/src/hooks/use-terminal.ts:68 | Splitting words joined by one space gives the words back |
| Text.JoinSplit | client/src/hooks/use-terminal.ts:115 | Joining the pieces of a split gives the text back |
| Text.SplitJoin | client/src/hooks/use-terminal.ts:217 | Splitting pieces joined by a separator they lack gives the pieces back |
| Text.ToLower | client/src/hooks/use-terminal.ts:69 | Lower-casing maps each character and keeps the length |
| Text.LowerMatchesVariants | client/src/hooks/use-terminal.ts:69 | A word lower-cases to a word of small letters exactly when it is a case variant of that word |
| TerminalProperties.KnownVerbIff | client/src/hooks/use-terminal.ts:69-72 | A first word names a known verb exactly when it is a case variant of one of the eight verbs |
| TerminalProperties.AnyCaseVerbDispatches | client/src/hooks/use-terminal.ts:64-72 | A line whose first word is any case variant of a known verb is echoed and dispatched to that verb with the remaining words |
| NavigationProperties.ShoutedCdUp | client/src/hooks/use-terminal.ts:68-70 | The line `CD ..` parses as the verb `cd` with the argument `..` |
| Text.ToUpper | client/src/hooks/use-terminal.ts:196 | Upper-casing maps each character and keeps the length |
| Text.UpperMatchesVariants | client/src/hooks/use-terminal.ts:196 | An answer upper-cases to an upper-case alphanumeric ID exactly when it is a case variant of it |

## Left out

- Log entry ids (`Math.random`) are not modelled; an entry is its kind and content.
- The scroll effect, `useRef` and the returned React plumbing are not modelled, and neither is the view component.
- `exit` is modelled only through its history entry. The one-second timer and the page reload are outside the model.
- `USELESS_MESSAGES` is not used by the interpreter and is not modelled.
- `STORY_INTRO` and `ASCII_ART` are opaque constant strings. The interpreter's functions take the text `help` prints as a parameter, and the session fixes it to the story intro.
- The unused `fullPath` computed in `cat` has no effect and is not modelled.
- Text.ToLower: only single-character case mappings are modelled. JavaScript's multi-character expansions (such as `İ` to `i̇`) are out of scope, as is the rest of Unicode beyond ASCII, the Kelvin sign, dotless `ı` and long `ſ`.
- Text.ToUpper: the same restriction on case mapping applies; `ß` to `SS` is one of the expansions left out.
- Lookups on JavaScript object prototype keys (such as `constructor`) are not modelled. Their values are never files or directories, so the source's type checks reject them, just as the model's missing entries are rejected.
- NavigationProperties.JoinEmptyIff requires the listed names to be non-empty. That every name of the game's tree is non-empty is not proved.
- ReadingProperties.ClueKeyInjective requires the path and name to be slash-free. That the tree's names hold no `/` is not proved.
- NavigationProperties.CdToPwdReturns requires the path to be clean: non-empty segments, none named `krustykrab`, no `/`. For the game's tree, `GamePathsAvoidRootName` gives the `krustykrab` part.
- The source's `children!` assertion always holds, because the model's directories always carry a list of children.
