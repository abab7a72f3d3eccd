# Coding agent sandbox and plan tool in Dafny

This project models two parts of a coding agent.

The first is its execution sandbox, in `coding_agent/coding_agent.py`:

- The **approval tracker** remembers fingerprints of approved patch operations.
- The **workspace editor** creates, updates and deletes files. It works only inside a workspace root, and only after approval.
- The **shell executor** has three parts here:
  - its configuration, read from constructor arguments with `os.environ` as the fallback;
  - its command rewriting (`--yes`, the React compiler flag) and its dev-server detection;
  - the batch loop that runs commands and stops at the first timeout.

The second is the `UpdatePlan` tool in `coding_agent/tools/UpdatePlanTool.py`. It validates a plan's steps and renders a text summary of the plan.

Layout, one module per file:

| file | module | contents |
|---|---|---|
| `wrappers.dfy` | `Wrappers` | `Option` and `Result`. `Err` plays the part of a raised exception. |
| `text.dfy` | `Text` | The Python `str` operations used: `strip`, ASCII `lower`, `in`, `find`, first-occurrence insertion, `join`, `split`, decimal numerals. |
| `paths.dfy` | `Paths` | Lexical path resolution over segments: `.`, `..`, absolute or relative to the root, containment, `relative_to(...).as_posix()`. |
| `approvals.dfy` | `Approvals` | The fingerprint as an injective encoding, and the `ApprovalTracker` class over a `set<string>`. |
| `files.dfy` | `Files` | The disk as a map from segment paths to contents plus a set of directories. The `FileSystem` class does `mkdir(parents=True, exist_ok=True)`, `read_text`, `write_text` and `unlink(missing_ok=True)`. |
| `workspace.dfy` | `Workspace` | The approval gate and the three edits, each as a pure effect function (`Perform`) and as a method of the `WorkspaceEditor` class; the method is proved equal to the function. |
| `regex.dfy` | `Regex` | A matcher for the regular-expression fragment used by the two pattern catalogs, and both catalogs written out. |
| `flag_insertion.dfy` | `FlagInsertion` | Inserting `" " + flag` into a command creates no new match of a yes-flag pattern. |
| `commands.dfy` | `Commands` | `_append_flag`, `_has_yes_flag`, `_prepare_command`, `_requires_background`, `_is_backgrounded`. |
| `shell.dfy` | `Shell` | Configuration defaults, the environment overrides, timeout resolution and its message text, the process oracle, the batch as a function (`Batch`), and the `ShellExecutor` class whose `Call` loop is proved equal to `Batch`. |
| `plan.dfy` | `Plan` | `PlanStep`, the validator, and the summary as a list of lines. `Run` builds the summary with a loop and is proved to produce the joined text. |

Modelling choices:

- `apply_diff` is the `Patcher` function value that the editor is built with. Nothing is assumed about it.
- The answer typed at the approval prompt is a method argument. The lines the prompt prints are returned as a result.
- `os.environ` is a `map<string, string>` argument.
- A spawned process is an oracle of type `(nat, Spawn) -> ProcessResult`. Its first argument counts the processes the executor has started. It answers either `Finished(code, stdout, stderr)` or `Expired(pid, …)`, which means the process is still running when the timeout expires.
- The batch lemmas hold for any command-rewriting and detection rules (`Shell.Rules`). The executor keeps its rules in a ghost field. Its invariant `Valid()` (`Shell.Follows`) says they are `Prepare` with its own forcing and preference, and `NeedsBackgrounding`.
- Timeouts are whole milliseconds.

## Model

| member | source | states |
|---|---|---|
| Approvals.TypeName | coding_agent/coding_agent.py:20 | The operation type's name contains no NUL byte, so the NUL after it always marks where it ends. |
| Approvals.Fingerprint | coding_agent/coding_agent.py:18-25 | The key has type, NUL, path, NUL, diff, with `None` read as "". It is as long as the three fields plus two, and a NUL follows the type. |
| Approvals.ParseFingerprintInverts | coding_agent/coding_agent.py:18-25 | For a NUL-free path, the key splits back at its first two NULs into exactly the type name, the path and the diff text. |
| Approvals.TypeNameInjective | coding_agent/coding_agent.py:20 | Different operation types have different names. |
| Approvals.FingerprintInjective | coding_agent/coding_agent.py:18-25 | Two keys are equal if and only if type, relative path and diff text (`None` as "") are all equal. |
| Approvals.ApprovalTracker.constructor | coding_agent/coding_agent.py:15-16 | A new tracker has approved nothing. |
| Approvals.ApprovalTracker.Remember | coding_agent/coding_agent.py:27-28 | The set gains exactly the given key and loses none. |
| Approvals.ApprovalTracker.IsApproved | coding_agent/coding_agent.py:30-31 | True exactly for remembered keys; the set is not modified. |
| Paths.Keep | coding_agent/coding_agent.py:71 | Splitting a path text drops empty and `.` segments and invents none. |
| Paths.Parts | coding_agent/coding_agent.py:71 | Every segment of a parsed path is a proper name, and the segments keep the text's NUL-freedom. |
| Paths.ResolveInWorkspace | coding_agent/coding_agent.py:70-77 | Success returns the resolved target, which lies under the root and is canonical. A NUL in the path is an error. Any other failure is "Operation outside workspace" for a target that really is outside the root. |
| Paths.Resolve | coding_agent/coding_agent.py:70-73 | The target `_resolve` computes before its containment check: a relative candidate joined to the root, walked lexically. Its contract is carried by `ResolveJoinRule`, `ResolveCanonical`, `PlainRelativeStaysInside` and `ClimbThenDescend`. |
| Paths.Relative | coding_agent/coding_agent.py:68 | The relative part appended to the root gives back the target. |
| Paths.AsPosix | coding_agent/coding_agent.py:68 | `as_posix()` of the relative part: the names joined by `/`, or `.` when there are none. Its contract is `AsPosixSplits` and `DisplayPathReadsBack`. |
| Paths.AsPosixSplits | coding_agent/coding_agent.py:68 | The text is never empty, is `.` exactly for the root itself, and splits back at `/` into exactly the names. |
| Paths.DisplayPath | coding_agent/coding_agent.py:66-68 | `_relative_path` succeeds exactly when resolution stays inside the workspace. |
| Paths.WalkConcat | coding_agent/coding_agent.py:73 | Walking two segment lists in a row is walking their concatenation. |
| Paths.WalkPlain | coding_agent/coding_agent.py:73 | Without `..` segments, resolution only appends. |
| Paths.WalkKeepsCanonical | coding_agent/coding_agent.py:73 | Resolution from a canonical path over proper names gives a canonical path. |
| Paths.ResolveCanonical | coding_agent/coding_agent.py:72-73 | A resolved target is canonical, with no `.`, `..` or empty segments. |
| Paths.ResolveJoinRule | coding_agent/coding_agent.py:72 | An absolute candidate is not joined to the root, since any root gives the same result. A relative one is resolved starting from the root. |
| Paths.PlainRelativeStaysInside | coding_agent/coding_agent.py:72-77 | A relative path without `..` always resolves inside the workspace, to the root followed by its segments. |
| Paths.ParentEscapes | coding_agent/coding_agent.py:74-77 | `..` from a non-empty root is outside the workspace. |
| Paths.Ups | coding_agent/coding_agent.py:73 | `n` parent steps. |
| Paths.WalkUps | coding_agent/coding_agent.py:73 | `n` parent steps drop exactly the last `n` segments. |
| Paths.ClimbThenDescend | coding_agent/coding_agent.py:70-77 | Climbing `n` levels and then descending lands at the cut root plus the rest. It stays inside if and only if it climbs nowhere, or climbs back down into the same directories. |
| Paths.KeepNames | coding_agent/coding_agent.py:71 | Segments that are already names are kept unchanged. |
| Paths.DisplayPathReadsBack | coding_agent/coding_agent.py:66-80 | The relative display path of a target inside the workspace resolves back to that same target. |
| Files.Parent | coding_agent/coding_agent.py:79 | The parent of a non-empty path is the path without its last segment. |
| Files.Ancestors | coding_agent/coding_agent.py:79 | Exactly the prefixes of the path, itself included. |
| Files.MakeDirsSpec | coding_agent/coding_agent.py:79 | `mkdir(parents=True, exist_ok=True)` succeeds exactly when no file is in the way; an existing file gives `FileExistsError` and a path under a file `NotADirectoryError`. On success the directories become the old ones plus exactly the prefixes of the path, and the files are left alone. |
| Files.MakeDirs | coding_agent/coding_agent.py:79 | `mkdir(parents=True, exist_ok=True)`: fails on a file or a path under one, and otherwise adds the path and its ancestors as directories. Its contract is `MakeDirsSpec`. |
| Files.WriteThenRead | coding_agent/coding_agent.py:46 | After a successful write, reading gives the written text, and other files read as before. |
| Files.Read | coding_agent/coding_agent.py:53 | `read_text`: the file's content, or the error for a directory, a path under a file, or a missing path. Its contract is `WriteThenRead` and `UnlinkThenRead`. |
| Files.Write | coding_agent/coding_agent.py:46 | `write_text`: replaces or adds one file and needs the parent directory. Its contract is `WriteThenRead` and `WriteKeepsWellFormed`. |
| Files.UnlinkAbsent | coding_agent/coding_agent.py:63 | `unlink(missing_ok=True)` of a missing path succeeds and changes nothing. |
| Files.Unlink | coding_agent/coding_agent.py:63 | `unlink(missing_ok=True)`: removes a file, and an absent path is not an error. Its contract is `UnlinkAbsent`, `UnlinkThenRead` and `UnlinkKeepsWellFormed`. |
| Files.UnlinkThenRead | coding_agent/coding_agent.py:63 | After a successful unlink, the path can no longer be read. |
| Files.MakeDirsKeepsWellFormed | coding_agent/coding_agent.py:79 | `mkdir` keeps the disk well formed: every file and directory has a parent directory, and no path is both. |
| Files.WriteKeepsWellFormed | coding_agent/coding_agent.py:46 | Writing keeps the disk well formed. |
| Files.UnlinkKeepsWellFormed | coding_agent/coding_agent.py:63 | Unlinking keeps the disk well formed. |
| Files.FileSystem.constructor | coding_agent/coding_agent.py:36 | The file system starts from the given disk. |
| Files.FileSystem.MkdirParents | coding_agent/coding_agent.py:79 | The new disk and the error are those of `MakeDirs`. |
| Files.FileSystem.ReadText | coding_agent/coding_agent.py:53 | The text read is that of `Read` on the current disk, which is left unchanged. |
| Files.FileSystem.WriteText | coding_agent/coding_agent.py:46 | The new disk and the error are those of `Write`. |
| Files.FileSystem.UnlinkMissingOk | coding_agent/coding_agent.py:63 | The new disk and the error are those of `Unlink`. |
| Workspace.Preview | coding_agent/coding_agent.py:92 | A diff shorter than 400 characters is shown whole. A longer one is shown as its first 400 characters followed by `…`. |
| Workspace.Affirmative | coding_agent/coding_agent.py:94-95 | The stripped, lower-cased answer is "y" or "yes". Its effect is stated by `RejectionChangesNothing`. |
| Workspace.AutoApprove | coding_agent/coding_agent.py:38 | The argument, or `APPLY_PATCH_AUTO_APPROVE` equal to "1". Its contract is the `WorkspaceEditor.constructor` row. |
| Workspace.RaisedText | coding_agent/coding_agent.py:77 | The two `RuntimeError` texts the editor raises: "Operation outside workspace: " and the candidate (line 77), and the rejection text (line 96). Other failures propagate as the underlying exception. Its contract is `RaisedTextIdentifies`. |
| Workspace.RaisedTextIdentifies | coding_agent/coding_agent.py:77 | Two raised errors with the same text are the same error, down to the candidate path. Also line 96. |
| Workspace.PromptLines | coding_agent/coding_agent.py:88-94 | The lines the gate prints before `input`, the question last. Its contract is `PromptShowsOperation`, and `RejectionChangesNothing` and `PromptsOnlyForNewKeys` say when it is printed. |
| Workspace.PromptShowsOperation | coding_agent/coding_agent.py:88-94 | The prompt has four lines, or five with a diff preview exactly when the diff is non-empty. It shows the type name and the display path and ends with "Proceed? [y/N] ". Two operations with the same prompt have the same type and display path. |
| Workspace.Located | coding_agent/coding_agent.py:66-77 | The target `_resolve` finds and the display path `_relative_path` shows for it, or the resolution error. Its contract is `LocatedDisplay` and `OutsideWorkspaceChangesNothing`. |
| Workspace.LocatedDisplay | coding_agent/coding_agent.py:66-77 | It fails exactly when `DisplayPath` does, with the same error. Otherwise its path is `DisplayPath`'s text, and that text resolves back to its target. |
| Workspace.Approval | coding_agent/coding_agent.py:82-97 | `_require_approval`: auto-approval or a known key passes silently and remembers the key; otherwise the prompt is shown and the answer decides. Its contract is `PromptsOnlyForNewKeys`, `RejectionChangesNothing` and `ApprovalsOnlyGrow`. |
| Workspace.CreateSteps | coding_agent/coding_agent.py:43-47 | After approval, `create_file` makes the parent directories, patches the empty text and writes it. Its contract is `CreateWritesPatchedEmpty`. |
| Workspace.UpdateSteps | coding_agent/coding_agent.py:52-57 | After approval, `update_file` reads the file, patches its text and writes it back. Its contract is `UpdatePatchesCurrentText` and `UpdateOfMissingFileWritesNothing`. |
| Workspace.DeleteSteps | coding_agent/coding_agent.py:62-64 | After approval, `delete_file` unlinks the target. Its contract is `DeleteRemovesFile` and `DeleteOfAbsentFileSucceeds`. |
| Workspace.Perform | coding_agent/coding_agent.py:40-64 | One edit: locate the target, pass the approval gate, then do the edit's steps. Its contract is `NoMutationWithoutApproval`, `OutsideWorkspaceChangesNothing`, `StepsConfined` and `ChangesStayInWorkspace`. |
| Workspace.NoMutationWithoutApproval | coding_agent/coding_agent.py:40-97 | An edit that changes the disk or the approvals had its target inside the workspace. It was cleared by auto-approve, a remembered key or a yes answer. Its key was remembered. |
| Workspace.OutsideWorkspaceChangesNothing | coding_agent/coding_agent.py:41-77 | A target outside the workspace fails before any prompt, with the disk and the approvals unchanged. |
| Workspace.RejectionChangesNothing | coding_agent/coding_agent.py:88-96 | Without auto-approve, without a remembered key, and with any answer but "y"/"yes": the edit is rejected after the prompt, and the disk and the approvals are unchanged. |
| Workspace.PromptsOnlyForNewKeys | coding_agent/coding_agent.py:84-94 | The prompt appears if and only if auto-approve is off and the key is new. When it does not appear, the answer makes no difference. |
| Workspace.ApprovalsOnlyGrow | coding_agent/coding_agent.py:85-97 | An edit adds at most its own key to the approvals and removes none. |
| Workspace.StepsConfined | coding_agent/coding_agent.py:43-63 | After approval an edit changes at most the target file and creates at most the target's ancestor directories. |
| Workspace.ChangesStayInWorkspace | coding_agent/coding_agent.py:40-80 | Every change to the disk is confined to a target that lies inside the workspace. |
| Workspace.EditsKeepWellFormed | coding_agent/coding_agent.py:40-64 | Every edit keeps the disk well formed. |
| Workspace.CreateWritesPatchedEmpty | coding_agent/coding_agent.py:40-47 | A successful create was cleared, wrote `apply_diff("", diff, mode="create")` to the target, changed no other file, and answers "Created <relative>". |
| Workspace.UpdateOfMissingFileWritesNothing | coding_agent/coding_agent.py:49-53 | Updating a missing file fails and leaves the disk unchanged. Once cleared, and when the path is free, the failure is "not found". |
| Workspace.UpdatePatchesCurrentText | coding_agent/coding_agent.py:49-57 | A successful update replaced the target's current text with `apply_diff(original, diff)` and answers "Updated <relative>". |
| Workspace.DeleteOfAbsentFileSucceeds | coding_agent/coding_agent.py:59-64 | Once cleared, deleting an absent file inside the workspace answers "Deleted <relative>" and changes no file. |
| Workspace.DeleteRemovesFile | coding_agent/coding_agent.py:59-64 | After a successful delete, the target is not a file. |
| Workspace.CreateThenUpdate | coding_agent/coding_agent.py:40-57 | A create followed by an update of the same path leaves the update's patch applied to the created text. |
| Workspace.WorkspaceEditor.constructor | coding_agent/coding_agent.py:35-38 | Auto-approve is on when the argument is true or `APPLY_PATCH_AUTO_APPROVE` is "1". |
| Workspace.WorkspaceEditor.ResolveTarget | coding_agent/coding_agent.py:70-80 | `_resolve`: an outside target or a NUL is an error and changes nothing. Without `ensure_parent` nothing changes. With it, the parent directories are created. |
| Workspace.WorkspaceEditor.RelativePath | coding_agent/coding_agent.py:66-68 | `_relative_path` creates no directory. It returns `DisplayPath(root, value)`, or the resolution error. |
| Workspace.WorkspaceEditor.RequireApproval | coding_agent/coding_agent.py:82-97 | The outcome, the prompt lines and the new approvals are those of the approval gate. |
| Workspace.WorkspaceEditor.CreateFile | coding_agent/coding_agent.py:40-47 | The result, the new disk, the new approvals and the prompt are those of `Perform(CreateFile, …)`, whose properties are the lemmas above. |
| Workspace.WorkspaceEditor.UpdateFile | coding_agent/coding_agent.py:49-57 | The same for `Perform(UpdateFile, …)`. |
| Workspace.WorkspaceEditor.DeleteFile | coding_agent/coding_agent.py:59-64 | The same for `Perform(DeleteFile, …)`. |
| Regex.RepeatSpan | coding_agent/coding_agent.py:245-271 | `k*` or `k+` followed by a pattern matches exactly when some run of class characters, of the allowed length, is followed by a match of the rest. |
| Regex.MatchAtExtends | coding_agent/coding_agent.py:245-271 | A pattern match survives appending text that starts with a non-word character. |
| Regex.AnySearchExtends | coding_agent/coding_agent.py:287-305 | A catalog that finds a match still finds one after such an append. |
| Regex.Search | coding_agent/coding_agent.py:288 | `re.search`: the pattern matches at some position of the text. Also line 304. Its contract is `SearchExtends`, `RepeatSpan` and the `FlagInsertion` lemmas. |
| Regex.SearchExtends | coding_agent/coding_agent.py:288 | A search that succeeds still succeeds after appending text that starts with a non-word character. |
| FlagInsertion.TwoWordsInsertion | coding_agent/coding_agent.py:246-276 | Inserting `" " + flag`, for a flag that does not contain the program word `a`, creates no new match of `\ba\s+b\b`. |
| FlagInsertion.ProgramThenWordInsertion | coding_agent/coding_agent.py:248-276 | The same for `\bnpx\s+[^ ]*create`. |
| Commands.FlagPosition | coding_agent/coding_agent.py:274-276 | The insertion point is the first occurrence of " -- ", or the end when there is none. |
| Commands.AppendFlag | coding_agent/coding_agent.py:273-276 | The result is the command with `" " + flag` inserted at that point. |
| Commands.AppendFlagRemovable | coding_agent/coding_agent.py:273-276 | The inserted text is exactly `" " + flag`. Taking it out gives back the command, so the rest is unchanged. |
| Commands.FlagPositionBeforeSpace | coding_agent/coding_agent.py:274-275 | The flag goes in before the space that opens " -- ", or at the end. |
| Commands.FlagPositionOfLower | coding_agent/coding_agent.py:283-290 | A command and its lower-cased form have the same insertion point. |
| Commands.LowerAppendFlag | coding_agent/coding_agent.py:289-290 | Lower-casing commutes with inserting a lower-case flag. |
| Commands.AppendFlagKeeps | coding_agent/coding_agent.py:273-276 | Inserting the flag keeps every marker (such as " --yes" or "create-next-app") that the command contained. |
| Commands.AppendFlagAdds | coding_agent/coding_agent.py:273-276 | The result contains `" " + flag`. |
| Commands.AppendFlagStripped | coding_agent/coding_agent.py:282-297 | Appending a flag to a stripped command leaves it stripped. |
| Commands.CompilerFlag | coding_agent/coding_agent.py:294-296 | The preference "use" gives `--use-react-compiler`; anything else gives `--no-use-react-compiler`. |
| Commands.HasYesFlag | coding_agent/coding_agent.py:278-279 | `_has_yes_flag`: " --yes" or " -y" occurs in the lower-cased command. Its contract is `AppendYesSaysYes` and `YesFlagSurvives`. |
| Commands.Prepare | coding_agent/coding_agent.py:281-299 | `_prepare_command`: strip, then the yes stage, then the compiler-flag stage. Its contract is `PrepareWithoutForce`, `WithYesSpec`, `WithCompilerFlagSpec`, `PreparedNeedsNoYes` and `PrepareIdempotent`. |
| Commands.PrepareWithoutForce | coding_agent/coding_agent.py:281-299 | With forcing off, the prepared command is just the stripped input. |
| Commands.NeedsYesNonEmpty | coding_agent/coding_agent.py:286-289 | A command that gets `--yes` is not empty. |
| Commands.AppendYesSaysYes | coding_agent/coding_agent.py:278-289 | After `--yes` is appended, `_has_yes_flag` holds. |
| Commands.WithYesSpec | coding_agent/coding_agent.py:285-291 | With forcing on and a yes-pattern that matches, the result carries a yes flag. No flag is added otherwise, and the result stays stripped. |
| Commands.WithCompilerFlagSpec | coding_agent/coding_agent.py:293-297 | A forced "create-next-app" command always ends up with one of the two compiler flags. The preferred flag is added only when neither was present, and otherwise nothing changes. |
| Commands.WithYes | coding_agent/coding_agent.py:286-291 | The yes stage: with forcing on, no yes flag yet and a match of some pattern of `Regex.YesFlagPatterns` (lines 245-251), `--yes` is appended; otherwise the text is unchanged. Its contract is `WithYesSpec`, `YesStageOnMatch`, `YesStageWithoutMatch` and `YesStageFlagged`. |
| Commands.WithCompilerFlag | coding_agent/coding_agent.py:293-297 | The compiler stage: a forced `create-next-app` command without either flag gets the preferred one. Its contract is `WithCompilerFlagSpec`. |
| Commands.CompilerFlagAddsNoYesPattern | coding_agent/coding_agent.py:293-297 | Adding the compiler flag makes no yes-pattern match. |
| Commands.YesFlagSurvives | coding_agent/coding_agent.py:278-297 | Adding the compiler flag keeps an existing yes flag. |
| Commands.PreparedNeedsNoYes | coding_agent/coding_agent.py:281-299 | A prepared command never needs another `--yes`, so the flag is added at most once. |
| Commands.PrepareIdempotent | coding_agent/coding_agent.py:281-299 | Preparing an already prepared command changes nothing. |
| Commands.RequiresBackground | coding_agent/coding_agent.py:301-306 | `_requires_background`: some dev-server pattern matches the stripped, lower-cased command. Its contract is `AmpersandKeepsDetection`. |
| Commands.IsBackgrounded | coding_agent/coding_agent.py:308-314 | `_is_backgrounded`: after `rstrip` the command ends with `&`, or it contains "nohup " and `&`. Its contract is `AmpersandSurvivesRStrip`, `NohupWithAmpersandAnywhere` and `AmpersandBackgrounds`. |
| Commands.NeedsBackgrounding | coding_agent/coding_agent.py:163-165 | The loop's test: `_requires_background` (a match of some pattern of `Regex.DevServerPatterns`, lines 252-271) and not `_is_backgrounded`. Its contract is `StepOf`, `BatchCorrects`, `AmpersandBackgrounds` and `AmpersandKeepsDetection`. |
| Commands.AmpersandSurvivesRStrip | coding_agent/coding_agent.py:309-312 | A trailing-space strip keeps an `&` exactly when the command has one. |
| Commands.NohupWithAmpersandAnywhere | coding_agent/coding_agent.py:312 | "nohup " followed anywhere by `&` counts as backgrounded, even if the `&` is not at the end. |
| Commands.AmpersandBackgrounds | coding_agent/coding_agent.py:308-311 | Appending " &" makes any command backgrounded, so it never needs the corrective answer. |
| Commands.AmpersandKeepsDetection | coding_agent/coding_agent.py:301-306 | A dev server is still detected after " &" is appended. |
| Shell.Get | coding_agent/coding_agent.py:114-136 | `os.environ.get(name, default)`. |
| Shell.ParseSeconds | coding_agent/coding_agent.py:115-119 | Only non-blank text parses as a timeout. |
| Shell.DefaultTimeout | coding_agent/coding_agent.py:113-120 | An explicit default timeout wins. Otherwise the variable's text is parsed, and no variable means no timeout. |
| Shell.BackgroundOnTimeout | coding_agent/coding_agent.py:122-126 | The explicit setting wins. Otherwise it is on exactly when the variable is "1". |
| Shell.ForceNonInteractive | coding_agent/coding_agent.py:129-133 | The explicit setting wins. Otherwise it is on when the variable is absent or "1". |
| Shell.NormalisePreference | coding_agent/coding_agent.py:139-141 | The preference is "use" or "no". It is "use" exactly when the stripped, lower-cased text is "use". |
| Shell.CompilerPreference | coding_agent/coding_agent.py:135-142 | An explicit argument wins, normalised. Otherwise `CODING_AGENT_SHELL_REACT_COMPILER` is used, normalised, and an unset variable gives "no". The result is always "use" or "no". |
| Shell.NormalisePreferenceIdempotent | coding_agent/coding_agent.py:139-141 | Normalising twice is normalising once. |
| Shell.SetDefault | coding_agent/coding_agent.py:147-152 | `setdefault`: the key is present afterwards, an existing value is kept, a missing one gets the default, and other keys are untouched. |
| Shell.SetDefaultsSpec | coding_agent/coding_agent.py:144-152 | After a run of `setdefault`s, the keys are the old ones plus the listed ones and old values are kept. A listed key that was absent gets the value of its first listing. |
| Shell.EnvOverridesSpec | coding_agent/coding_agent.py:127-152 | The given overrides are copied unchanged. With forcing on, the six variables (CI, npm_config_yes, …) are present, those not given take their defaults, and no other key appears. With forcing off, nothing is added. |
| Shell.EnvOverrides | coding_agent/coding_agent.py:144-152 | The copied overrides (line 127), with the six forced variables defaulted in when forcing is on. Its contract is `EnvOverridesSpec`. |
| Shell.ResolveTimeout | coding_agent/coding_agent.py:189-193 | A request's `timeout_ms`, clamped at 0, wins over the default timeout. With neither there is no timeout. |
| Shell.TimeoutText | coding_agent/coding_agent.py:189-193 | How `{timeout}` prints in the timeout messages (line 209). Its contract is `TimeoutTextShowsResolved` and `SecondsTextRoundTrip`. |
| Shell.TimeoutTextShowsResolved | coding_agent/coding_agent.py:189-193 | The text is "None" exactly when no timeout resolves, "0" for a negative request, and otherwise the seconds text of the resolved timeout. |
| Shell.FractionText | coding_agent/coding_agent.py:191-216 | The fraction digits number one to three, and are "0" exactly for whole seconds. |
| Shell.SecondsTextRoundTrip | coding_agent/coding_agent.py:117 | The seconds text of a timeout parses back, as `float` of the variable would, to the same number of milliseconds. Also lines 191, 209. |
| Shell.Corrective | coding_agent/coding_agent.py:163-179 | A dev server that is not in the background gets exit code 1, empty stdout and the corrective message. |
| Shell.Report | coding_agent/coding_agent.py:195-235 | The output names the prepared command. A finished process reports its code and output as an "exit" outcome. The outcome is "timeout" exactly when the process was still running. In background mode a timed-out command has empty stdout, the "still running in the background (pid=…)" message as stderr and no exit code. Otherwise it has the killed process's stdout, the "was terminated (pid=…)" message, a newline and its stderr, and its exit code. |
| Shell.BackgroundMessage | coding_agent/coding_agent.py:208-211 | The background-mode stderr, with the timeout text and the pid. Its contract is `Report` and `TimeoutMessagesDiffer`. |
| Shell.TerminatedMessage | coding_agent/coding_agent.py:215-218 | The terminate-mode message, with the timeout text and the pid. Its contract is `Report` and `TimeoutMessagesDiffer`. |
| Shell.TimeoutMessagesDiffer | coding_agent/coding_agent.py:204-218 | For the same timeout the two messages differ, whatever the pids, so the stderr tells which way the timeout was handled. |
| Shell.Request | coding_agent/coding_agent.py:159-193 | The spawn uses the prepared command, the executor's directory, `os.environ` updated by the overrides, and the resolved timeout. |
| Shell.StepOf | coding_agent/coding_agent.py:161-235 | Each command is rewritten. It gets the corrective answer, with no spawn, exactly when it must go to the background; otherwise it is spawned and reported. |
| Shell.Batch | coding_agent/coding_agent.py:154-243 | The outputs of `__call__` as a recursive function of the commands. Its contract is `BatchCons`, `BatchStep`, `BatchLength`, `BatchFollowsCommands`, `BatchCorrects`, `BatchTimeoutIsLast`, `BatchStopsOnlyOnTimeout`, `CorrectiveContinues`, `TimeoutStops` and `NoTimeoutRunsAll`. |
| Shell.BatchCons | coding_agent/coding_agent.py:158-238 | The first output belongs to the first command. A timeout ends the batch there, and any other outcome continues it with the rest. |
| Shell.BatchStep | coding_agent/coding_agent.py:158-238 | One loop pass: a corrective answer continues without counting a spawn, a timeout ends the batch, and an exit continues it. |
| Shell.BatchLength | coding_agent/coding_agent.py:158-238 | There are never more outputs than commands. |
| Shell.BatchFollowsCommands | coding_agent/coding_agent.py:158-161 | The k-th output is for the k-th command, and its `command` field is that command rewritten. Also lines 171-173, 225-227. |
| Shell.BatchCorrects | coding_agent/coding_agent.py:163-179 | Every output for a command that must go to the background is the corrective answer. |
| Shell.BatchTimeoutIsLast | coding_agent/coding_agent.py:237-238 | Only the last output can be a timeout. |
| Shell.BatchStopsOnlyOnTimeout | coding_agent/coding_agent.py:179-238 | A batch that ends early ends with a timeout. |
| Shell.CorrectiveContinues | coding_agent/coding_agent.py:163-179 | The corrective answer is followed by the outputs of the remaining commands, and no process is counted for it. |
| Shell.TimeoutStops | coding_agent/coding_agent.py:202-238 | A timeout is the last output: later commands produce nothing. |
| Shell.NoTimeoutRunsAll | coding_agent/coding_agent.py:188-238 | When no timeout applies and processes run to completion, every command gets an "exit" output. |
| Shell.Configure | coding_agent/coding_agent.py:103-152 | The working directory is kept. Each of the four arguments, when given, wins over the environment: default timeout, background mode, forcing, and the compiler preference (normalised). Without a preference argument, `CODING_AGENT_SHELL_REACT_COMPILER` decides, normalised, and an unset variable gives "no". The preference is always "use" or "no". The given overrides are kept, and without forcing nothing is added to them. |
| Shell.SixDefaults | coding_agent/coding_agent.py:147-152 | The six `setdefault` calls, in their order, are `SetDefaults` over the listed variables. |
| Shell.ExecutorRulesFollow | coding_agent/coding_agent.py:161-165 | The rules built from the settings rewrite each command as `_prepare_command` does and detect dev servers as `_requires_background` does. |
| Shell.BatchAdvance | coding_agent/coding_agent.py:158-238 | After one loop pass the outputs so far, followed by the batch of the remaining commands, are still the whole batch; after a timeout the outputs so far are the whole batch. |
| Shell.ShellExecutor.constructor | coding_agent/coding_agent.py:103-152 | The stored settings are `Configure` of the arguments and `os.environ`, and the executor's rules follow them (`Valid()`). |
| Shell.ShellExecutor.PrepareCommand | coding_agent/coding_agent.py:281-299 | The pattern loop's result is `Prepare`, whose properties are the `Commands` lemmas. |
| Shell.ShellExecutor.AddYesFlag | coding_agent/coding_agent.py:286-291 | The pattern loop returns `WithYes(true, stripped)` and its lower-cased text. The loop invariant: no earlier pattern matched. |
| Shell.ShellExecutor.RunCommand | coding_agent/coding_agent.py:159-235 | One loop pass yields `StepOf`'s output, and it reports a timeout exactly for a spawned command whose outcome is "timeout". |
| Shell.ShellExecutor.Call | coding_agent/coding_agent.py:154-243 | `__call__` returns the outputs of `Batch`, whose ordering and stopping rules are the lemmas above, and the executor's working directory. |
| Plan.ParseStatus | coding_agent/tools/UpdatePlanTool.py:14-17 | A status name is accepted only as the name of the status it stands for. |
| Plan.ParseStatusName | coding_agent/tools/UpdatePlanTool.py:14-17 | Each of the three statuses is read back from its name. |
| Plan.Count | coding_agent/tools/UpdatePlanTool.py:48-49 | A count is at most the number of steps. The same sum appears at line 75. |
| Plan.CountAll | coding_agent/tools/UpdatePlanTool.py:49-53 | The count equals the number of steps if and only if every step has the status. |
| Plan.CountNone | coding_agent/tools/UpdatePlanTool.py:48-56 | The count is 0 if and only if no step has the status. |
| Plan.CountOne | coding_agent/tools/UpdatePlanTool.py:48-56 | The count is 1 if and only if exactly one step has the status. |
| Plan.CountsAddUp | coding_agent/tools/UpdatePlanTool.py:48-49 | The three status counts add up to the number of steps. |
| Plan.Validate | coding_agent/tools/UpdatePlanTool.py:44-62 | `validate_in_progress_count` together with `min_length=1`. Its contract is `ValidateSpec` and `ValidUnfinishedHasCurrent`. |
| Plan.ValidateSpec | coding_agent/tools/UpdatePlanTool.py:36-62 | Validation returns the steps unchanged if and only if there is at least one step and either all are completed or exactly one is in progress. No steps is the "at least 1 item" error. Any other rejection reports the in-progress count. |
| Plan.ValidUnfinishedHasCurrent | coding_agent/tools/UpdatePlanTool.py:52-62 | A valid plan that is not finished has exactly one step in progress. |
| Plan.ErrorMessage | coding_agent/tools/UpdatePlanTool.py:57-60 | The `ValueError` text with the in-progress count, and the schema's text for an empty plan. Its contract is `ErrorMessageIdentifies`. |
| Plan.ErrorMessageIdentifies | coding_agent/tools/UpdatePlanTool.py:56-60 | Two refusals with the same message are the same refusal, down to the count. |
| Plan.RenderAll | coding_agent/tools/UpdatePlanTool.py:82-101 | One text line per summary line, in order. |
| Plan.Render | coding_agent/tools/UpdatePlanTool.py:82-99 | The text of each line, with the icons and the f-strings of the source. Its contract is `RenderedLines` and `LineHasNoNewline`. |
| Plan.FirstInProgress | coding_agent/tools/UpdatePlanTool.py:76-79 | The 1-based index of the first step in progress, or nothing exactly when no step is in progress. |
| Plan.Rows | coding_agent/tools/UpdatePlanTool.py:84-91 | One row per step, in input order, numbered from 1. |
| Plan.Closing | coding_agent/tools/UpdatePlanTool.py:96-99 | The closing line: all done, or the step in progress, or none. Its contract is `SummaryClosing`. |
| Plan.SummaryLines | coding_agent/tools/UpdatePlanTool.py:82-99 | The lines `run` joins. Its contract is `SummaryShape`, `SummaryClosing`, `ValidSummaryCloses` and `SummarySplits`. |
| Plan.Run | coding_agent/tools/UpdatePlanTool.py:64-101 | The text the loop builds is the summary lines rendered and joined with newlines. |
| Plan.SummaryShape | coding_agent/tools/UpdatePlanTool.py:74-94 | The summary opens with the title and a blank line. Then come one row per step, in order and numbered from 1, a blank line, and "Progress: c/t", with c the completed count, t the step count and c ≤ t. |
| Plan.SummaryClosing | coding_agent/tools/UpdatePlanTool.py:96-99 | The summary ends with "All steps completed!" if and only if all steps are completed. Otherwise it ends with the first in-progress step, or has no closing line when no step is in progress. |
| Plan.ValidSummaryCloses | coding_agent/tools/UpdatePlanTool.py:44-99 | A validated plan's summary always has exactly one closing line: "All steps completed!" exactly when all are completed, and otherwise the step in progress. |
| Plan.RenderedLines | coding_agent/tools/UpdatePlanTool.py:85-99 | The two closing texts differ. A step row shows the icon, the number, the description and the status name. |
| Plan.Icon | coding_agent/tools/UpdatePlanTool.py:85-89 | The status icons. Its contract is `IconIdentifies`, `RenderedLines` and `LineHasNoNewline`. |
| Plan.IconIdentifies | coding_agent/tools/UpdatePlanTool.py:85-89 | Each icon is one character, and different statuses have different icons. |
| Plan.LineHasNoNewline | coding_agent/tools/UpdatePlanTool.py:82-99 | No rendered line contains a newline unless a step's description does. |
| Plan.SummarySplits | coding_agent/tools/UpdatePlanTool.py:101 | With newline-free descriptions, splitting the text at newlines gives back the rendered lines. |
| Plan.ManualCases | coding_agent/tools/UpdatePlanTool.py:105-161 | The script's three valid plans are accepted. The plans with no and with two steps in progress are rejected with those counts. |
| Plan.FourStepSummary | coding_agent/tools/UpdatePlanTool.py:93-99 | A four-step plan with a closing line ends with a blank line, the progress line and that closing line. |
| Plan.ManualSummaries | coding_agent/tools/UpdatePlanTool.py:105-161 | The script's three plans end with "1/4 … Step 2", "2/4 … Step 3" and "4/4 … All steps completed!". |
| Text.SplitJoin | coding_agent/tools/UpdatePlanTool.py:101 | Joining pieces that do not contain the separator, and splitting the result, gives back the pieces. |
| Text.Strip | coding_agent/coding_agent.py:94 | `str.strip()`: the result has no surrounding whitespace and is no longer than the input. That nothing but the surrounding whitespace is removed is `StripSpan`. Also lines 139, 282, 302. |
| Text.StripSpan | coding_agent/coding_agent.py:94 | The result of `strip()` is a stretch of the input with only whitespace before it and only whitespace after it. Also lines 139, 282, 302. |
| Text.LStrip | coding_agent/coding_agent.py:94 | `lstrip`: the longest suffix that does not start with whitespace, and only whitespace was dropped. |
| Text.RStrip | coding_agent/coding_agent.py:309 | `rstrip`: the longest prefix that does not end with whitespace, and only whitespace was dropped. |
| Text.Lower | coding_agent/coding_agent.py:283 | `lower` on ASCII letters: same length, each character lower-cased. Also lines 94, 139, 290, 302. |
| Text.Find | coding_agent/coding_agent.py:274-275 | The first occurrence, found exactly when the text is contained. |

## Left out

- SHA-256 in `fingerprint` (coding_agent/coding_agent.py:19-25) is not modelled. The key is the hash's pre-image, which is injective. Hashing it would make equal keys equal exactly when the pre-images are, up to collisions.
- `Path.resolve()` follows symbolic links. The model resolves `.` and `..` lexically, and has no links.
- A NUL byte in a path is an error in the model. `pathlib` raises `ValueError` for it when the file system is touched.
- `print` and `input`: the prompt lines are returned, and the answer is an argument.
- `Text.Lower` folds only ASCII letters, and `\w` in the patterns (and so `\b`) is its ASCII subset. Python's `str.lower` and `re`'s `\w` are Unicode-aware. `\s` is `Text.IsSpace`, the full `str.isspace` set, which is what `re` matches.
- The regular expressions are matched by a matcher for the fragment that the two pattern catalogs use, not by Python's full `re` engine.
- UTF-8 encoding and decoding with `errors="ignore"` (coding_agent/coding_agent.py:211, 219-224) are not modelled: output text is carried as given by the process oracle.
- `asyncio.create_subprocess_shell`, `communicate`, `kill` and `pid` (coding_agent/coding_agent.py:181-221) are the oracle. A killed process's exit code and output are part of the oracle's `Expired` answer.
- `Path.cwd()` as the default working directory: the constructor receives the directory already chosen.
- Shell.DefaultTimeout: only the forms `d`, `d.`, `.d` and `d.d` are parsed, with at most three decimals and surrounding whitespace. Python's `float` also takes signs, exponents, `inf`, `nan`, underscores, more decimals and non-ASCII decimal digits (Arabic-Indic, fullwidth and the other Unicode `Nd` digits); the model treats those as unset (see `Shell.ParseSeconds`).
- Shell.SecondsTextRoundTrip: `str` of a float is written out only for timeouts below 10^15 ms, where it is exact. From 10^15 ms up to 10^19 ms Python still prints positional digits, but they may be rounded; only from 1e16 seconds (10^19 ms) on does it switch to exponent notation.
- Shell.ResolveTimeout: timeouts are whole milliseconds, not floats. An explicit default timeout is given in milliseconds.
- Shell.ShellExecutor.Call: `os.environ` is passed in, and is read once per call rather than once per command; nothing in the model changes it in between.
- The context store in `UpdatePlan.run` (coding_agent/tools/UpdatePlanTool.py:68-71) is a framework object and is not modelled.
- Plan.ValidateSpec: the message for an empty plan is pydantic's `min_length` message, whose full text the framework formats.
- `coding_agent/tools/OpenAIImageGenerationTool.py`, `agency.py` and `agent2/coding_agent.py` are not part of this model: they are network clients and bootstrapping.
- `test_shell_executor_background.py` is not part of this model: it needs real processes and clocks.
- The module-level wiring of the tools and the agent (coding_agent/coding_agent.py:317-336) is not part of this model.

## Notes on the code

- A command that must run in the background but is not backgrounded is answered with the corrective output, and the batch goes on with the next command (`continue`, coding_agent/coding_agent.py:179). It does not stop the batch.
- `_is_backgrounded` also accepts a command that contains "nohup " and an `&` anywhere, not only at the end (coding_agent/coding_agent.py:312).
- `timeout_ms` belongs to the request, so one value applies to every command of the batch.
