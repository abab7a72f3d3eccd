/**
 * The executor's command rewriting and detection: `_append_flag`, `_has_yes_flag`, the two
 * stages of `_prepare_command` and their composition `Prepare`, `_requires_background` and
 * `_is_backgrounded`. The executor's `PrepareCommand` method runs the pattern loop and is
 * proved equal to `Prepare`; the properties of the rewriting are lemmas about `Prepare`.
 */
module Commands {
  import opened Wrappers
  import opened Text
  import opened Regex
  import opened FlagInsertion

  const Separator: string := " -- "
  const YesFlag: string := "--yes"
  const UseCompilerFlag: string := "--use-react-compiler"
  const NoCompilerFlag: string := "--no-use-react-compiler"
  const CreateNextApp: string := "create-next-app"

  // ------------------------------------------------------------ `_append_flag`

  /** Where `_append_flag` puts a flag: at the first ` -- `, or at the end when there is none. */
  function FlagPosition(command: string): (k: nat)
    ensures k <= |command|
    ensures Contains(command, Separator) ==>
      OccursAt(command, Separator, k) && forall j :: 0 <= j < k ==> !OccursAt(command, Separator, j)
    ensures !Contains(command, Separator) ==> k == |command|
  {
    match Find(command, Separator)
    case Some(k) => k
    case None => |command|
  }

  /** `_append_flag`: the flag, after a space, goes in front of the first ` -- `, else at the end; nothing else changes. */
  function AppendFlag(command: string, flag: string): (r: string)
    ensures r == Insert(command, FlagPosition(command), " " + flag)
  {
    if Contains(command, Separator) then
      var r := ReplaceFirst(command, Separator, " " + flag + Separator);
      var k := FlagPosition(command);
      assert command[k..k + |Separator|] == Separator;
      assert command[k..] == Separator + command[k + |Separator|..];
      r
    else command + " " + flag
  }

  /** Taking the inserted flag out again gives back the command. */
  lemma AppendFlagRemovable(command: string, flag: string)
    ensures var k := FlagPosition(command);
      var r := AppendFlag(command, flag);
      r[k..k + 1 + |flag|] == " " + flag && r[..k] + r[k + 1 + |flag|..] == command
  {
    var k := FlagPosition(command);
    assert command[..k] + command[k..] == command;
  }

  /** The flag position's character is the space that begins ` -- `, unless it is the end. */
  lemma FlagPositionBeforeSpace(command: string)
    ensures var k := FlagPosition(command); k < |command| ==> command[k] == ' '
  {
    var k := FlagPosition(command);
    if k < |command| {
      assert command[k..k + |Separator|] == Separator;
    }
  }

  /** Lower-casing does not move ` -- `: it maps only letters, and only to letters. */
  lemma FlagPositionOfLower(command: string)
    ensures FlagPosition(Lower(command)) == FlagPosition(command)
  {
    var l := Lower(command);
    forall j | 0 <= j <= |command| ensures OccursAt(l, Separator, j) <==> OccursAt(command, Separator, j) {
      if j + |Separator| <= |command| {
        LowerSlice(command, j, j + |Separator|);
        var w := command[j..j + |Separator|];
        assert l[j..j + |Separator|] == Lower(w);
        if Lower(w) == Separator {
          assert w[0] == ' ' && w[1] == '-' && w[2] == '-' && w[3] == ' ';
          assert w == Separator;
        }
      }
    }
    if Contains(command, Separator) {
      var j :| 0 <= j <= |command| && OccursAt(command, Separator, j);
      assert OccursAt(l, Separator, j);
    }
    if Contains(l, Separator) {
      var j :| 0 <= j <= |l| && OccursAt(l, Separator, j);
      assert OccursAt(command, Separator, j);
    }
  }

  /** Lower-casing a command with a lower-case flag added is adding the flag to the lower-cased command. */
  lemma LowerAppendFlag(command: string, flag: string)
    requires IsLower(flag)
    ensures Lower(AppendFlag(command, flag)) == AppendFlag(Lower(command), flag)
  {
    FlagPositionOfLower(command);
    assert IsLower(" " + flag) by {
      assert forall i :: 1 <= i < |" " + flag| ==> (" " + flag)[i] == flag[i - 1];
    }
    LowerInsert(command, FlagPosition(command), " " + flag);
  }

  /**
   * Whatever the command contained that has no space after its first character, it still
   * contains after a flag is added.
   */
  lemma AppendFlagKeeps(command: string, flag: string, t: string)
    requires forall m :: 1 <= m < |t| ==> t[m] != ' '
    requires Contains(command, t)
    ensures Contains(AppendFlag(command, flag), t)
  {
    FlagPositionBeforeSpace(command);
    ContainsAfterInsert(command, FlagPosition(command), " " + flag, t);
  }

  /** The added flag is there afterwards, after a space. */
  lemma AppendFlagAdds(command: string, flag: string)
    ensures Contains(AppendFlag(command, flag), " " + flag)
  {
    var k := FlagPosition(command);
    assert OccursAt(AppendFlag(command, flag), " " + flag, k);
  }

  /** A stripped command keeps no surrounding whitespace when a flag ending in a non-space is added, unless it was empty. */
  lemma AppendFlagStripped(command: string, flag: string)
    requires Stripped(command) && command != []
    requires flag != [] && !IsSpace(flag[|flag| - 1])
    ensures Stripped(AppendFlag(command, flag))
  {
    var k := FlagPosition(command);
    var r := AppendFlag(command, flag);
    FlagPositionBeforeSpace(command);
    if k < |command| {
      assert k > 0;
      assert r[0] == command[0];
      assert r[|r| - 1] == r[k + |" " + flag|..][|command| - k - 1] == command[|command| - 1];
    } else {
      assert r[0] == command[0];
      assert r[|r| - 1] == flag[|flag| - 1];
    }
  }

  // ------------------------------------------------------------ `_has_yes_flag` and `_prepare_command`

  /** `_has_yes_flag`, on the lower-cased command. */
  predicate HasYesFlag(commandLower: string) {
    Contains(commandLower, " --yes") || Contains(commandLower, " -y")
  }

  /** The first stage applies: forcing is on, no yes flag is present, and some yes-flag pattern matches. */
  predicate NeedsYes(force: bool, prepared: string) {
    force && !HasYesFlag(Lower(prepared)) && AnySearch(YesFlagPatterns, Lower(prepared))
  }

  function WithYes(force: bool, prepared: string): string {
    if NeedsYes(force, prepared) then AppendFlag(prepared, YesFlag) else prepared
  }

  /** The flag for a normalised compiler preference: `use` selects the compiler, anything else declines it. */
  function CompilerFlag(preference: string): (flag: string)
    ensures flag == UseCompilerFlag || flag == NoCompilerFlag
    ensures flag == UseCompilerFlag <==> preference == "use"
  {
    if preference == "use" then UseCompilerFlag else NoCompilerFlag
  }

  /** The second stage applies: forcing is on, the command runs `create-next-app`, and neither compiler flag is given. */
  predicate NeedsCompilerFlag(force: bool, prepared: string) {
    var lower := Lower(prepared);
    force && Contains(lower, CreateNextApp) && !Contains(lower, UseCompilerFlag) && !Contains(lower, NoCompilerFlag)
  }

  function WithCompilerFlag(force: bool, preference: string, prepared: string): string {
    if NeedsCompilerFlag(force, prepared) then AppendFlag(prepared, CompilerFlag(preference)) else prepared
  }

  /** `_prepare_command`: strip, then the yes stage, then the compiler-flag stage on the result. */
  function Prepare(force: bool, preference: string, command: string): string {
    WithCompilerFlag(force, preference, WithYes(force, Strip(command)))
  }

  /** The yes stage, as the pattern loop decides it: the first matching pattern appends `--yes`. */
  lemma YesStageOnMatch(prepared: string, n: nat)
    requires n < |YesFlagPatterns| && Search(YesFlagPatterns[n], Lower(prepared)) && !HasYesFlag(Lower(prepared))
    ensures WithYes(true, prepared) == AppendFlag(prepared, YesFlag)
  {
  }

  /** When no pattern matches, the yes stage changes nothing. */
  lemma YesStageWithoutMatch(prepared: string)
    requires forall m :: 0 <= m < |YesFlagPatterns| ==> !Search(YesFlagPatterns[m], Lower(prepared))
    ensures WithYes(true, prepared) == prepared
  {
  }

  /** A command that already says yes is left alone by the yes stage. */
  lemma YesStageFlagged(prepared: string)
    requires HasYesFlag(Lower(prepared))
    ensures WithYes(true, prepared) == prepared
  {
  }

  /** Without forcing, preparing a command only strips it. */
  lemma PrepareWithoutForce(preference: string, command: string)
    ensures Prepare(false, preference, command) == Strip(command)
  {
  }

  /** Every yes-flag pattern begins with `\b`, which fails on the empty text. */
  lemma NoYesPatternInEmpty()
    ensures !AnySearch(YesFlagPatterns, "")
  {
    forall n | 0 <= n < |YesFlagPatterns| ensures !Search(YesFlagPatterns[n], "") {
      assert YesFlagPatterns[n][0] == Boundary;
      assert !AtBoundary("", 0);
    }
  }

  /** A command that needs the yes flag is not empty. */
  lemma NeedsYesNonEmpty(force: bool, prepared: string)
    requires NeedsYes(force, prepared)
    ensures prepared != []
  {
    NoYesPatternInEmpty();
  }

  lemma FlagsAreLower()
    ensures IsLower(YesFlag) && IsLower(UseCompilerFlag) && IsLower(NoCompilerFlag)
  {
    UseFlagIsLower();
    NoFlagIsLower();
  }

  lemma UseFlagIsLower()
    ensures IsLower(UseCompilerFlag)
  {
  }

  lemma NoFlagIsLower()
    ensures IsLower(NoCompilerFlag)
  {
  }

  /** A lower-case flag, once added, is in the lower-cased command. */
  lemma LowerAppendFlagAdds(command: string, flag: string)
    requires IsLower(flag)
    ensures Contains(Lower(AppendFlag(command, flag)), " " + flag)
  {
    LowerAppendFlag(command, flag);
    AppendFlagAdds(Lower(command), flag);
  }

  /** After the yes flag is added, `_has_yes_flag` sees it. */
  lemma AppendYesSaysYes(prepared: string)
    ensures HasYesFlag(Lower(AppendFlag(prepared, YesFlag)))
  {
    assert IsLower(YesFlag);
    LowerAppendFlagAdds(prepared, YesFlag);
    SpacedYesSaysYes(Lower(AppendFlag(prepared, YesFlag)));
  }

  lemma SpacedYesSaysYes(commandLower: string)
    requires Contains(commandLower, " " + YesFlag)
    ensures HasYesFlag(commandLower)
  {
    assert " " + YesFlag == " --yes";
  }

  /** The yes stage leaves a stripped command stripped, and afterwards the command says yes whenever a yes-flag pattern matched. */
  lemma WithYesSpec(force: bool, prepared: string)
    requires Stripped(prepared)
    ensures Stripped(WithYes(force, prepared))
    ensures force && AnySearch(YesFlagPatterns, Lower(prepared)) ==> HasYesFlag(Lower(WithYes(force, prepared)))
    ensures !HasYesFlag(Lower(prepared)) && !NeedsYes(force, prepared) ==> WithYes(force, prepared) == prepared
  {
    if NeedsYes(force, prepared) {
      NeedsYesNonEmpty(force, prepared);
      AppendFlagStripped(prepared, YesFlag);
      AppendYesSaysYes(prepared);
    }
  }

  /**
   * The compiler-flag stage: a forced `create-next-app` command afterwards carries a compiler
   * flag, the preferred one whenever it carried none before, and text without
   * `create-next-app` is left alone.
   */
  lemma WithCompilerFlagSpec(force: bool, preference: string, prepared: string)
    requires Stripped(prepared)
    ensures var r := WithCompilerFlag(force, preference, prepared);
      && Stripped(r)
      && (force && Contains(Lower(prepared), CreateNextApp) ==>
            Contains(Lower(r), UseCompilerFlag) || Contains(Lower(r), NoCompilerFlag))
      && (NeedsCompilerFlag(force, prepared) ==> Contains(Lower(r), CompilerFlag(preference)))
      && (!NeedsCompilerFlag(force, prepared) ==> r == prepared)
  {
    if NeedsCompilerFlag(force, prepared) {
      var flag := CompilerFlag(preference);
      assert |Lower(prepared)| >= |CreateNextApp|;
      AppendFlagStripped(prepared, flag);
      FlagsAreLower();
      LowerAppendFlagAdds(prepared, flag);
      ContainsTail(Lower(AppendFlag(prepared, flag)), " ", flag);
    }
  }

  // ------------------------------------------------------------ preparing twice

  /** A text in which no character `t[0]` is followed by `t[1]` does not contain `t`. */
  lemma AbsentPair(f: string, t: string)
    requires |t| >= 2
    requires forall m :: 0 <= m < |f| - 1 && f[m] == t[0] ==> f[m + 1] != t[1]
    ensures !Contains(f, t)
  {
    forall i | 0 <= i <= |f| ensures !OccursAt(f, t, i) {
      if i + |t| <= |f| {
        assert f[i..i + |t|][0] == f[i] && f[i..i + |t|][1] == f[i + 1];
      }
    }
  }

  /** A text without the character `c` contains no text that has it. */
  lemma AbsentChar(f: string, t: string, c: char)
    requires c in t && c !in f
    ensures !Contains(f, t)
  {
  }

  /** Neither compiler flag contains a word that a yes-flag pattern needs. */
  lemma CompilerFlagsAvoidYesWords(flag: string)
    requires flag == UseCompilerFlag || flag == NoCompilerFlag
    ensures !Contains(flag, "npm") && !Contains(flag, "yarn") && !Contains(flag, "pnpm")
    ensures !Contains(flag, "npx") && !Contains(flag, "create")
  {
    if flag == UseCompilerFlag {
      UseFlagAvoidsYesWords();
    } else {
      NoFlagAvoidsYesWords();
    }
  }

  lemma UseFlagAvoidsYesWords()
    ensures !Contains(UseCompilerFlag, "npm") && !Contains(UseCompilerFlag, "yarn") && !Contains(UseCompilerFlag, "pnpm")
    ensures !Contains(UseCompilerFlag, "npx") && !Contains(UseCompilerFlag, "create")
  {
    FlagAvoidsYesWords(UseCompilerFlag);
  }

  lemma NoFlagAvoidsYesWords()
    ensures !Contains(NoCompilerFlag, "npm") && !Contains(NoCompilerFlag, "yarn") && !Contains(NoCompilerFlag, "pnpm")
    ensures !Contains(NoCompilerFlag, "npx") && !Contains(NoCompilerFlag, "create")
  {
    FlagAvoidsYesWords(NoCompilerFlag);
  }

  /** A text with no `y` or `x` and none of "np", "pn" and "cr" contains none of the yes-flag words. */
  lemma FlagAvoidsYesWords(flag: string)
    requires 'y' !in flag && 'x' !in flag
    requires forall m :: 0 <= m < |flag| - 1 && flag[m] == 'n' ==> flag[m + 1] != 'p'
    requires forall m :: 0 <= m < |flag| - 1 && flag[m] == 'p' ==> flag[m + 1] != 'n'
    requires forall m :: 0 <= m < |flag| - 1 && flag[m] == 'c' ==> flag[m + 1] != 'r'
    ensures !Contains(flag, "npm") && !Contains(flag, "yarn") && !Contains(flag, "pnpm")
    ensures !Contains(flag, "npx") && !Contains(flag, "create")
  {
    AbsentPair(flag, "npm");
    AbsentChar(flag, "yarn", 'y');
    AbsentPair(flag, "pnpm");
    AbsentChar(flag, "npx", 'x');
    AbsentPair(flag, "create");
  }

  lemma YesWordsAreWords()
    ensures AllWordChars("npm") && AllWordChars("init") && AllWordChars("create")
    ensures AllWordChars("yarn") && AllWordChars("pnpm") && AllWordChars("npx")
  {
  }

  /** Lower-casing after adding a lower-case flag is inserting ` <flag>` into the lower-cased command in front of a space or at the end. */
  lemma LowerAppendFlagSplit(prepared: string, flag: string) returns (x: string, y: string)
    requires IsLower(flag) && flag != [] && flag[0] == '-'
    ensures Lower(AppendFlag(prepared, flag)) == x + [' '] + flag + y
    ensures x + y == Lower(prepared) && Inserted(x, flag, y)
  {
    var l := Lower(prepared);
    LowerAppendFlag(prepared, flag);
    AppendFlagAt(l, flag);
    var k := FlagPosition(l);
    FlagPositionBeforeSpace(l);
    x, y := l[..k], l[k..];
    assert l == x + y;
    if y != [] {
      assert y[0] == l[k];
    }
  }

  /** The flag and its space go in at the flag position. */
  lemma AppendFlagAt(command: string, flag: string)
    ensures var k := FlagPosition(command);
      AppendFlag(command, flag) == command[..k] + [' '] + flag + command[k..]
  {
    var k := FlagPosition(command);
    var r := AppendFlag(command, flag);
    assert r == Insert(command, k, " " + flag);
    assert " " + flag == [' '] + flag;
  }

  /** Inserting a flag that contains none of the pattern words creates no match of a yes-flag pattern. */
  lemma InsertionAddsNoYesPattern(x: string, flag: string, y: string)
    requires Inserted(x, flag, y)
    requires !Contains(flag, "npm") && !Contains(flag, "yarn") && !Contains(flag, "pnpm")
    requires !Contains(flag, "npx") && !Contains(flag, "create")
    requires !AnySearch(YesFlagPatterns, x + y)
    ensures !AnySearch(YesFlagPatterns, x + [' '] + flag + y)
  {
    var u := x + [' '] + flag + y;
    YesWordsAreWords();
    forall n | 0 <= n < |YesFlagPatterns| ensures !Search(YesFlagPatterns[n], u) {
      if Search(YesFlagPatterns[n], u) {
        if n == 0 {
          TwoWordsInsertion("npm", "init", x, flag, y);
        } else if n == 1 {
          TwoWordsInsertion("npm", "create", x, flag, y);
        } else if n == 2 {
          assert YesFlagPatterns[2] == ProgramThenWord("npx", "create");
          ProgramThenWordInsertion("npx", "create", x, flag, y);
        } else if n == 3 {
          TwoWordsInsertion("yarn", "create", x, flag, y);
        } else {
          TwoWordsInsertion("pnpm", "create", x, flag, y);
        }
      }
    }
  }

  /**
   * Adding a compiler flag creates no match of a yes-flag pattern: the flag goes in front of a
   * space or at the end, starts with `-` and contains none of the pattern words.
   */
  lemma CompilerFlagAddsNoYesPattern(prepared: string, flag: string)
    requires flag == UseCompilerFlag || flag == NoCompilerFlag
    requires !AnySearch(YesFlagPatterns, Lower(prepared))
    ensures !AnySearch(YesFlagPatterns, Lower(AppendFlag(prepared, flag)))
  {
    FlagsAreLower();
    var x, y := LowerAppendFlagSplit(prepared, flag);
    CompilerFlagsAvoidYesWords(flag);
    InsertionAddsNoYesPattern(x, flag, y);
  }

  /** A yes flag, once present, survives adding a lower-case flag. */
  lemma YesFlagSurvives(prepared: string, flag: string)
    requires IsLower(flag) && HasYesFlag(Lower(prepared))
    ensures HasYesFlag(Lower(AppendFlag(prepared, flag)))
  {
    LowerAppendFlag(prepared, flag);
    var l := Lower(prepared);
    if Contains(l, " --yes") {
      AppendFlagKeeps(l, flag, " --yes");
    } else {
      AppendFlagKeeps(l, flag, " -y");
    }
  }

  /** The yes stage changes nothing on an already prepared command. */
  lemma PreparedNeedsNoYes(force: bool, preference: string, command: string)
    ensures !NeedsYes(force, Prepare(force, preference, command))
  {
    var s := Strip(command);
    var a := WithYes(force, s);
    var p := Prepare(force, preference, command);
    WithYesSpec(force, s);
    FlagsAreLower();
    if force && p != a {
      var flag := CompilerFlag(preference);
      assert p == AppendFlag(a, flag);
      if HasYesFlag(Lower(a)) {
        YesFlagSurvives(a, flag);
      } else {
        assert a == s && !AnySearch(YesFlagPatterns, Lower(a));
        CompilerFlagAddsNoYesPattern(a, flag);
      }
    }
  }

  /**
   * Preparing is idempotent: a prepared command is stripped, says yes whenever a yes-flag
   * pattern could still match, and carries a compiler flag whenever it runs `create-next-app`.
   */
  lemma PrepareIdempotent(force: bool, preference: string, command: string)
    ensures Prepare(force, preference, Prepare(force, preference, command)) == Prepare(force, preference, command)
  {
    var s := Strip(command);
    var a := WithYes(force, s);
    var p := Prepare(force, preference, command);
    WithYesSpec(force, s);
    WithCompilerFlagSpec(force, preference, a);
    StripFixed(p);
    PreparedNeedsNoYes(force, preference, command);
    assert WithYes(force, Strip(p)) == p;
  }

  // ------------------------------------------------------------ `_requires_background` and `_is_backgrounded`

  /** `_requires_background`: some dev-server pattern matches the stripped, lower-cased command. */
  predicate RequiresBackground(command: string) {
    AnySearch(DevServerPatterns, Lower(Strip(command)))
  }

  /** `_is_backgrounded`: after `rstrip`, the command ends with `&`, or it contains both `nohup ` and `&`. */
  predicate IsBackgrounded(command: string) {
    var stripped := RStrip(command);
    (stripped != [] && stripped[|stripped| - 1] == '&')
    || (Contains(stripped, "nohup ") && Contains(stripped, "&"))
  }

  /** The check the batch loop applies before running a command: it needs the background but is not in it. */
  predicate NeedsBackgrounding(command: string) {
    RequiresBackground(command) && !IsBackgrounded(command)
  }

  /** Right-stripping removes only whitespace, so an `&` is in the stripped command exactly when it is in the command. */
  lemma AmpersandSurvivesRStrip(command: string)
    ensures Contains(RStrip(command), "&") <==> Contains(command, "&")
  {
    var r := RStrip(command);
    assert command == r + command[|r|..];
    if Contains(command, "&") {
      var i :| 0 <= i <= |command| && OccursAt(command, "&", i);
      assert command[i] == '&' && !IsSpace(command[i]);
      assert i < |r|;
      assert r[i..i + 1] == command[i..i + 1];
      assert OccursAt(r, "&", i);
    }
    if Contains(r, "&") {
      ContainsLeft(r, command[|r|..], "&");
    }
  }

  /**
   * The `nohup` rule needs an `&` anywhere, not at the end: `nohup <a>&<b>` is treated as
   * backgrounded whatever follows the `&`.
   */
  lemma NohupWithAmpersandAnywhere(a: string, b: string)
    ensures IsBackgrounded("nohup " + a + "&" + b)
  {
    var c := "nohup " + a + "&" + b;
    var r := RStrip(c);
    var keep := |"nohup " + a| + 1;
    assert c[keep - 1] == '&' && !IsSpace(c[keep - 1]);
    assert keep <= |r|;
    assert r[..6] == c[..6] == "nohup ";
    assert OccursAt(r, "nohup ", 0);
    assert r[keep - 1..keep] == "&";
    assert OccursAt(r, "&", keep - 1);
  }

  /** Following the corrective advice works: with ` &` appended a command counts as backgrounded. */
  lemma AmpersandBackgrounds(command: string)
    ensures IsBackgrounded(command + " &")
    ensures !NeedsBackgrounding(command + " &")
  {
    var c := command + " &";
    assert !IsSpace(c[|c| - 1]);
    assert RStrip(c) == c;
  }

  /** Appending ` &` does not hide a dev server from `_requires_background`. */
  lemma AmpersandKeepsDetection(command: string)
    requires RequiresBackground(command)
    ensures RequiresBackground(command + " &")
  {
    var s := Strip(command);
    NoDevPatternInEmpty();
    assert s != [];
    var w := StripThenAppend(command, " &");
    LowerConcat(s, w + " &");
    var rest := Lower(w + " &");
    assert rest[0] == LowerChar((w + " &")[0]);
    SpaceIsNotLetter((w + " &")[0]);
    AnySearchExtends(DevServerPatterns, Lower(s), rest);
  }

  /** Every dev-server pattern begins with `\b`, which fails on the empty text. */
  lemma NoDevPatternInEmpty()
    ensures !AnySearch(DevServerPatterns, "")
  {
    forall n | 0 <= n < |DevServerPatterns| ensures !Search(DevServerPatterns[n], "") {
      assert DevServerPatterns[n][0] == Boundary;
      assert !AtBoundary("", 0);
    }
  }

  /** Stripping `command + b`, for `b` ending in a non-space, keeps the stripped command, the whitespace `w` that followed it, and `b`. */
  lemma StripThenAppend(command: string, b: string) returns (w: string)
    requires Strip(command) != [] && b != [] && !IsSpace(b[|b| - 1])
    ensures Strip(command + b) == Strip(command) + (w + b)
    ensures w == [] || IsSpace(w[0])
  {
    var t := LStrip(command);
    StripOfAppend(command, b);
    w := RStripRest(t);
    var s := RStrip(t);
    assert Strip(command) == s;
    Reassociate(s, w, b);
  }

  lemma Reassociate(s: string, w: string, b: string)
    ensures (s + w) + b == s + (w + b)
  {
  }

  /** Stripping `command + b`, for `b` ending in a non-space, only strips the front of `command`. */
  lemma StripOfAppend(command: string, b: string)
    requires Strip(command) != [] && b != [] && !IsSpace(b[|b| - 1])
    ensures Strip(command + b) == LStrip(command) + b
  {
    LStripConcat(command, b);
    RStripNonSpaceEnd(LStrip(command) + b);
  }

  /** What `rstrip` removes: the rest of the text, starting with whitespace if anything. */
  lemma RStripRest(t: string) returns (w: string)
    ensures t == RStrip(t) + w
    ensures w == [] || IsSpace(w[0])
  {
    var s := RStrip(t);
    w := t[|s|..];
    assert t == s + w;
    if w != [] {
      assert w[0] == t[|s|];
    }
  }

  lemma RStripNonSpaceEnd(u: string)
    requires u != [] && !IsSpace(u[|u| - 1])
    ensures RStrip(u) == u
  {
  }

  /** `lstrip` of a concatenation whose first part has something left after stripping. */
  lemma {:induction false} LStripConcat(a: string, b: string)
    requires b != [] && !IsSpace(b[|b| - 1])
    ensures LStrip(a + b) == LStrip(a) + b || LStrip(a) == []
    ensures LStrip(a) == [] ==> LStrip(a + b) == LStrip(b)
    decreases |a|
  {
    if a == [] {
      assert a + b == b;
    } else if IsSpace(a[0]) {
      var t := a + b;
      assert t[0] == a[0] && t[1..] == a[1..] + b;
      assert LStrip(t) == LStrip(a[1..] + b) && LStrip(a) == LStrip(a[1..]);
      LStripConcat(a[1..], b);
    } else {
      assert (a + b)[0] == a[0];
    }
  }

  /** Whitespace is left alone by lower-casing and is no word character. */
  lemma SpaceIsNotLetter(c: char)
    requires IsSpace(c)
    ensures LowerChar(c) == c && !IsWordChar(c)
  {
  }
}
