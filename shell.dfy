/**
 * `ShellExecutor`: its configuration (read from the constructor's arguments, falling back on
 * environment variables), the timeout that applies to each command, and the batch loop of
 * `__call__`. Processes are not run: an oracle says how each spawned process ends, and the
 * loop is proved equal to the specification function `Batch`, about which the ordering and
 * stopping rules are lemmas.
 *
 * Timeouts are whole milliseconds. A configured or requested timeout of `ms` milliseconds is
 * the float `ms / 1000` seconds in the program, and the messages show it the way Python
 * prints that float.
 */
module Shell {
  import opened Wrappers
  import opened Text
  import opened Regex
  import opened Commands

  // ------------------------------------------------------------ configuration

  const TimeoutVariable: string := "CODING_AGENT_SHELL_TIMEOUT_SECONDS"
  const BackgroundVariable: string := "CODING_AGENT_SHELL_BACKGROUND_ON_TIMEOUT"
  const ForceVariable: string := "CODING_AGENT_SHELL_FORCE_NON_INTERACTIVE"
  const CompilerVariable: string := "CODING_AGENT_SHELL_REACT_COMPILER"

  /** `environ.get(name, default)`. */
  function Get(environ: map<string, string>, name: string, default: string): (v: string)
    ensures name in environ ==> v == environ[name]
    ensures name !in environ ==> v == default
  {
    if name in environ then environ[name] else default
  }

  function Pow10(n: nat): (r: nat)
    ensures r >= 1
  {
    if n == 0 then 1 else 10 * Pow10(n - 1)
  }

  /**
   * `float(text)` in milliseconds, for the decimal forms `d`, `d.`, `.d` and `d.d` with at
   * most three digits after the point, around which Python allows whitespace; anything
   * else is the `ValueError` case.
   */
  function ParseSeconds(text: string): (r: Option<nat>)
    ensures r.Some? ==> Strip(text) != []
  {
    ParseNumber(Strip(text))
  }

  /** `float` of a text without surrounding whitespace. */
  function ParseNumber(t: string): (r: Option<nat>)
    ensures r.Some? ==> t != []
  {
    match Find(t, ".")
    case None => if t != [] && AllDigits(t) then Some(DigitsValue(t) * 1000) else None
    case Some(k) => ParseParts(t[..k], t[k + 1..])
  }

  /** The milliseconds of `whole.fraction`, either part possibly empty but not both. */
  function ParseParts(whole: string, fraction: string): Option<nat> {
    if (whole != [] || fraction != []) && AllDigits(whole) && AllDigits(fraction) && |fraction| <= 3
    then Some(Millis(whole, fraction))
    else None
  }

  function Millis(whole: string, fraction: string): nat
    requires AllDigits(whole) && AllDigits(fraction) && |fraction| <= 3
  {
    DigitsValue(whole) * 1000 + DigitsValue(fraction) * Pow10(3 - |fraction|)
  }

  /** `default_timeout`: the argument, else the parsed environment variable; unset, empty or unparsable means none. */
  function DefaultTimeout(argument: Option<nat>, environ: map<string, string>): (r: Option<nat>)
    ensures argument.Some? ==> r == argument
    ensures argument.None? && TimeoutVariable !in environ ==> r.None?
    ensures argument.None? && TimeoutVariable in environ ==> r == ParseSeconds(environ[TimeoutVariable])
  {
    match argument
    case Some(_) => argument
    case None =>
      if TimeoutVariable in environ && environ[TimeoutVariable] != [] then ParseSeconds(environ[TimeoutVariable]) else None
  }

  /** `background_on_timeout`: the argument, else whether the variable is exactly `1` (default `0`). */
  function BackgroundOnTimeout(argument: Option<bool>, environ: map<string, string>): (r: bool)
    ensures argument.Some? ==> r == argument.value
    ensures argument.None? ==> (r <==> BackgroundVariable in environ && environ[BackgroundVariable] == "1")
  {
    match argument
    case Some(b) => b
    case None => Get(environ, BackgroundVariable, "0") == "1"
  }

  /** `force_non_interactive`: the argument, else whether the variable is exactly `1`; unset counts as `1`. */
  function ForceNonInteractive(argument: Option<bool>, environ: map<string, string>): (r: bool)
    ensures argument.Some? ==> r == argument.value
    ensures argument.None? ==> (r <==> ForceVariable !in environ || environ[ForceVariable] == "1")
  {
    match argument
    case Some(b) => b
    case None => Get(environ, ForceVariable, "1") == "1"
  }

  /** The stripped, lower-cased preference when it is `use` or `no`; `no` otherwise. */
  function NormalisePreference(preference: string): (r: string)
    ensures r == "use" || r == "no"
    ensures r == "use" <==> Lower(Strip(preference)) == "use"
  {
    var p := Lower(Strip(preference));
    if p == "use" || p == "no" then p else "no"
  }

  /** `react_compiler_preference`: the argument, else the variable (default `no`), normalised. */
  function CompilerPreference(argument: Option<string>, environ: map<string, string>): (r: string)
    ensures r == "use" || r == "no"
    ensures argument.Some? ==> r == NormalisePreference(argument.value)
    ensures argument.None? && CompilerVariable in environ ==> r == NormalisePreference(environ[CompilerVariable])
    ensures argument.None? && CompilerVariable !in environ ==> r == "no"
  {
    var raw := match argument case Some(p) => p case None => Get(environ, CompilerVariable, "no");
    NormalisePreference(raw)
  }

  /** Normalising a normalised preference changes nothing. */
  lemma NormalisePreferenceIdempotent(preference: string)
    ensures NormalisePreference(NormalisePreference(preference)) == NormalisePreference(preference)
  {
    NormalPreferences();
  }

  lemma NormalPreferences()
    ensures NormalisePreference("use") == "use" && NormalisePreference("no") == "no"
  {
    StripFixed("use");
    StripFixed("no");
    LowerOfLower("use");
    LowerOfLower("no");
  }

  /** The variables set for every command when forcing is on, in the order the constructor sets them. */
  const ForcedEnvironment: seq<(string, string)> := [
    ("CI", "1"),
    ("npm_config_yes", "true"),
    ("NPX_YES", "1"),
    ("HUSKY_SKIP_HOOKS", "1"),
    ("YARN_ENABLE_IMMUTABLE_INSTALLS", "false"),
    ("SKIP_PROMPTS", "1")
  ]

  /** `d.setdefault(key, value)`: the key keeps its value if it has one, and gets `value` otherwise. */
  function SetDefault(d: map<string, string>, key: string, value: string): (r: map<string, string>)
    ensures r.Keys == d.Keys + {key}
    ensures key in d ==> r[key] == d[key]
    ensures key !in d ==> r[key] == value
    ensures forall k :: k in d && k != key ==> r[k] == d[k]
  {
    if key in d then d else d[key := value]
  }

  /** The setdefault calls for `pairs[..n]`, one after another. */
  function SetDefaults(d: map<string, string>, pairs: seq<(string, string)>): map<string, string>
    decreases |pairs|
  {
    if pairs == [] then d else SetDefaults(SetDefault(d, pairs[0].0, pairs[0].1), pairs[1..])
  }

  /**
   * After the setdefault calls every given entry is unchanged, every listed key is present,
   * and a listed key that was absent has its listed value (the first, if listed twice);
   * nothing else is added.
   */
  lemma {:induction false} SetDefaultsSpec(d: map<string, string>, pairs: seq<(string, string)>)
    ensures var r := SetDefaults(d, pairs);
      && (forall k :: k in r <==> k in d || exists n :: 0 <= n < |pairs| && pairs[n].0 == k)
      && (forall k :: k in d ==> r[k] == d[k])
      && (forall n :: 0 <= n < |pairs| && pairs[n].0 !in d && (forall m :: 0 <= m < n ==> pairs[m].0 != pairs[n].0) ==>
            r[pairs[n].0] == pairs[n].1)
    decreases |pairs|
  {
    if pairs != [] {
      var d' := SetDefault(d, pairs[0].0, pairs[0].1);
      var rest := pairs[1..];
      SetDefaultsSpec(d', rest);
      var r := SetDefaults(d, pairs);
      assert r == SetDefaults(d', rest);
      forall k ensures k in r <==> k in d || exists n :: 0 <= n < |pairs| && pairs[n].0 == k {
        if k in r && k !in d && k != pairs[0].0 {
          var n :| 0 <= n < |rest| && rest[n].0 == k;
          assert pairs[n + 1].0 == k;
        }
        if exists n :: 0 <= n < |pairs| && pairs[n].0 == k {
          var n :| 0 <= n < |pairs| && pairs[n].0 == k;
          if n > 0 {
            assert rest[n - 1].0 == k;
          }
        }
      }
      forall n | 0 <= n < |pairs| && pairs[n].0 !in d && (forall m :: 0 <= m < n ==> pairs[m].0 != pairs[n].0)
        ensures r[pairs[n].0] == pairs[n].1
      {
        if n > 0 {
          assert rest[n - 1] == pairs[n];
          assert pairs[n].0 !in d';
          forall m | 0 <= m < n - 1 ensures rest[m].0 != rest[n - 1].0 {
            assert rest[m] == pairs[m + 1];
          }
        }
      }
    }
  }

  lemma ForcedKeysDistinct()
    ensures forall n, m :: 0 <= m < n < |ForcedEnvironment| ==> ForcedEnvironment[m].0 != ForcedEnvironment[n].0
  {
  }

  /** The six setdefault calls one after another are `SetDefaults` over the list. */
  lemma SixDefaults(d: map<string, string>)
    ensures var f := ForcedEnvironment;
      SetDefaults(d, f)
      == SetDefault(SetDefault(SetDefault(SetDefault(SetDefault(SetDefault(d,
           f[0].0, f[0].1), f[1].0, f[1].1), f[2].0, f[2].1), f[3].0, f[3].1), f[4].0, f[4].1), f[5].0, f[5].1)
  {
    var f := ForcedEnvironment;
    assert f[6..] == [];
  }

  /** The overrides after the constructor: a copy of the given ones, with the forced variables defaulted in when forcing is on. */
  function EnvOverrides(given: map<string, string>, force: bool): map<string, string> {
    if force then SetDefaults(given, ForcedEnvironment) else given
  }

  /**
   * Forcing adds exactly the six variables that were not given, with their listed values,
   * and never overrides one that was given; without forcing the overrides are the given ones.
   */
  lemma EnvOverridesSpec(given: map<string, string>, force: bool)
    ensures var r := EnvOverrides(given, force);
      && (forall k :: k in given ==> k in r && r[k] == given[k])
      && (!force ==> r == given)
      && (force ==> forall n :: 0 <= n < |ForcedEnvironment| ==> ForcedEnvironment[n].0 in r)
      && (force ==> forall n :: 0 <= n < |ForcedEnvironment| && ForcedEnvironment[n].0 !in given ==>
            r[ForcedEnvironment[n].0] == ForcedEnvironment[n].1)
      && (force ==> forall k :: k in r ==> k in given || exists n :: 0 <= n < |ForcedEnvironment| && ForcedEnvironment[n].0 == k)
  {
    if force {
      SetDefaultsSpec(given, ForcedEnvironment);
      ForcedKeysDistinct();
    }
  }

  // ------------------------------------------------------------ timeouts

  /**
   * The timeout for one command: an explicit request, clamped at zero, wins over the default,
   * which wins over none (wait indefinitely).
   */
  function ResolveTimeout(requestMs: Option<int>, defaultMs: Option<nat>): (r: Option<nat>)
    ensures requestMs.Some? ==> r == Some(if requestMs.value < 0 then 0 else requestMs.value)
    ensures requestMs.None? ==> r == defaultMs
  {
    match requestMs
    case Some(t) => Some(if t < 0 then 0 else t)
    case None => defaultMs
  }

  /** `str(f)` of the float `ms / 1000` (exact up to 10^15 ms): the whole seconds, a point, and the significant fraction digits, at least one. */
  function SecondsText(ms: nat): (r: string)
  {
    NatToString(ms / 1000) + "." + FractionText(ms % 1000)
  }

  /** The digits of `f / 1000` after the point without trailing zeros. */
  function FractionText(f: nat): (r: string)
    requires f < 1000
    ensures 1 <= |r| <= 3 && AllDigits(r)
    ensures f == 0 <==> r == "0"
  {
    var e, q := f % 10, f / 10;
    var b, a := q % 10, q / 10;
    if f == 0 then "0"
    else if b == 0 && e == 0 then [DigitChar(a)]
    else if e == 0 then [DigitChar(a), DigitChar(b)]
    else [DigitChar(a), DigitChar(b), DigitChar(e)]
  }

  /**
   * How the message shows the timeout: a clamped negative request is the integer `0` of
   * `max(x, 0)`, another timeout is the float, and no timeout at all would read `None`.
   */
  function TimeoutText(requestMs: Option<int>, defaultMs: Option<nat>): string {
    match requestMs
    case Some(t) => if t < 0 then "0" else SecondsText(t)
    case None => match defaultMs case Some(d) => SecondsText(d) case None => "None"
  }

  /**
   * The message shows the timeout `wait_for` was given: `None` exactly when there is none, `0`
   * for a clamped negative request, and otherwise the seconds of the resolved timeout.
   */
  lemma TimeoutTextShowsResolved(requestMs: Option<int>, defaultMs: Option<nat>)
    ensures TimeoutText(requestMs, defaultMs) == "None" <==> ResolveTimeout(requestMs, defaultMs).None?
    ensures requestMs.Some? && requestMs.value < 0 ==> TimeoutText(requestMs, defaultMs) == "0"
    ensures ResolveTimeout(requestMs, defaultMs).Some? && !(requestMs.Some? && requestMs.value < 0) ==>
      TimeoutText(requestMs, defaultMs) == SecondsText(ResolveTimeout(requestMs, defaultMs).value)
  {
    var r := ResolveTimeout(requestMs, defaultMs);
    if r.Some? && !(requestMs.Some? && requestMs.value < 0) {
      var w := NatToString(r.value / 1000);
      assert SecondsText(r.value)[0] == w[0] && IsDigit(w[0]);
    }
  }

  lemma DigitsValueSnoc(s: string, d: nat)
    requires AllDigits(s) && d < 10
    ensures AllDigits(s + [DigitChar(d)]) && DigitsValue(s + [DigitChar(d)]) == 10 * DigitsValue(s) + d
  {
    assert (s + [DigitChar(d)])[..|s|] == s;
  }

  lemma OneDigit(a: nat)
    requires a < 10
    ensures DigitsValue([DigitChar(a)]) == a
  {
    DigitsValueSnoc([], a);
    assert [] + [DigitChar(a)] == [DigitChar(a)];
  }

  lemma TwoDigits(a: nat, b: nat)
    requires a < 10 && b < 10
    ensures DigitsValue([DigitChar(a), DigitChar(b)]) == 10 * a + b
  {
    OneDigit(a);
    DigitsValueSnoc([DigitChar(a)], b);
    assert [DigitChar(a)] + [DigitChar(b)] == [DigitChar(a), DigitChar(b)];
  }

  lemma ThreeDigits(a: nat, b: nat, e: nat)
    requires a < 10 && b < 10 && e < 10
    ensures DigitsValue([DigitChar(a), DigitChar(b), DigitChar(e)]) == 100 * a + 10 * b + e
  {
    TwoDigits(a, b);
    DigitsValueSnoc([DigitChar(a), DigitChar(b)], e);
    assert [DigitChar(a), DigitChar(b)] + [DigitChar(e)] == [DigitChar(a), DigitChar(b), DigitChar(e)];
  }

  lemma FractionTextValue(f: nat)
    requires f < 1000
    ensures DigitsValue(FractionText(f)) * Pow10(3 - |FractionText(f)|) == f
  {
    var e, q := f % 10, f / 10;
    var b, a := q % 10, q / 10;
    assert f == 10 * q + e && q == 10 * a + b;
    if f == 0 {
      OneDigit(0);
    } else if b == 0 && e == 0 {
      OneDigit(a);
      assert Pow10(2) == 100;
    } else if e == 0 {
      TwoDigits(a, b);
      assert Pow10(1) == 10;
    } else {
      ThreeDigits(a, b, e);
    }
  }

  lemma DigitsHaveNoPoint(s: string)
    requires AllDigits(s)
    ensures '.' !in s
  {
  }

  lemma DecimalStripped(whole: string, fraction: string)
    requires whole != [] && AllDigits(whole) && AllDigits(fraction) && fraction != []
    ensures ParseSeconds(whole + ['.'] + fraction) == ParseNumber(whole + ['.'] + fraction)
  {
    var t := whole + ['.'] + fraction;
    assert t[0] == whole[0] && t[|t| - 1] == fraction[|fraction| - 1];
    StripFixed(t);
  }

  lemma DecimalPoint(whole: string, fraction: string)
    requires AllDigits(whole)
    ensures var t := whole + ['.'] + fraction;
      Find(t, ".") == Some(|whole|) && t[..|whole|] == whole && t[|whole| + 1..] == fraction
  {
    DigitsHaveNoPoint(whole);
    FindCharAfter(whole, '.', fraction);
  }

  /** `float` of a stripped decimal `whole.fraction`, in milliseconds. */
  lemma {:induction false} ParseDecimal(whole: string, fraction: string)
    requires whole != [] && AllDigits(whole) && AllDigits(fraction) && 1 <= |fraction| <= 3
    ensures ParseSeconds(whole + ['.'] + fraction) == Some(Millis(whole, fraction))
  {
    DecimalNumber(whole, fraction);
    DecimalStripped(whole, fraction);
  }

  lemma DecimalNumber(whole: string, fraction: string)
    requires AllDigits(whole)
    ensures ParseNumber(whole + ['.'] + fraction) == ParseParts(whole, fraction)
  {
    DecimalPoint(whole, fraction);
    ParseAtPoint(whole + ['.'] + fraction, |whole|);
  }

  lemma ParseAtPoint(t: string, k: nat)
    requires Find(t, ".") == Some(k)
    ensures ParseNumber(t) == ParseParts(t[..k], t[k + 1..])
  {
  }

  /** The shown timeout reads back as the same number of milliseconds. */
  lemma SecondsTextRoundTrip(ms: nat)
    ensures ParseSeconds(SecondsText(ms)) == Some(ms)
  {
    var whole, fraction := NatToString(ms / 1000), FractionText(ms % 1000);
    assert SecondsText(ms) == whole + ['.'] + fraction;
    ParseDecimal(whole, fraction);
    MillisOfSecondsText(ms);
  }

  /** The whole seconds and the fraction digits of the text add up to the milliseconds. */
  lemma MillisOfSecondsText(ms: nat)
    ensures Millis(NatToString(ms / 1000), FractionText(ms % 1000)) == ms
  {
    var q, f := ms / 1000, ms % 1000;
    DigitsValueOfNatToString(q);
    FractionTextValue(f);
    assert ms == q * 1000 + f;
  }

  // ------------------------------------------------------------ the batch loop

  /** What the loop asks to spawn: the prepared command, its working directory and environment, and the timeout. */
  datatype Spawn = Spawn(command: string, cwd: string, env: map<string, string>, timeoutMs: Option<nat>)

  /**
   * How a spawned process ends: it exits within the timeout, or it is still running when the
   * timeout expires. `afterKill` is its exit code and output once killed, used when the
   * executor does not leave it in the background.
   */
  datatype ProcessResult =
    | Finished(code: int, stdout: string, stderr: string)
    | Expired(pid: nat, killedCode: int, killedStdout: string, killedStderr: string)

  /** The process oracle: the `n`-th spawn of the executor's life and its request decide the outcome. */
  type Oracle = (nat, Spawn) -> ProcessResult

  /** Without a timeout the loop waits until the process exits. */
  ghost predicate Honest(oracle: Oracle) {
    forall n: nat, s: Spawn :: s.timeoutMs.None? ==> oracle(n, s).Finished?
  }

  datatype OutcomeKind = ExitKind | TimeoutKind
  datatype Outcome = Outcome(kind: OutcomeKind, exitCode: Option<int>)
  datatype CommandOutput = CommandOutput(command: string, stdout: string, stderr: string, outcome: Outcome)

  const CorrectiveMessage: string :=
    "Command appears to start a long-running dev server or watcher. "
    + "Always run such commands in the background by appending ' &' (for example "
    + "'npm run dev &' or 'uvicorn app:app --reload &')."

  /** The output for a dev server that is not in the background: exit code 1, nothing spawned. */
  function Corrective(prepared: string): (o: CommandOutput)
    ensures o.command == prepared && o.stdout == [] && o.stderr == CorrectiveMessage
    ensures o.outcome == Outcome(ExitKind, Some(1))
  {
    CommandOutput(prepared, "", CorrectiveMessage, Outcome(ExitKind, Some(1)))
  }

  function BackgroundMessage(shown: string, pid: nat): string {
    "Command exceeded timeout of " + shown + " seconds and is still running in the background (pid=" + NatToString(pid) + ")."
  }

  function TerminatedMessage(shown: string, pid: nat): string {
    "Command exceeded timeout of " + shown + " seconds and was terminated (pid=" + NatToString(pid) + ")."
  }

  /** For the same timeout, the background message and the termination message differ, whatever the pids. */
  lemma TimeoutMessagesDiffer(shown: string, p: nat, q: nat)
    ensures BackgroundMessage(shown, p) != TerminatedMessage(shown, q)
  {
    var x := "Command exceeded timeout of " + shown;
    var b := " seconds and is still running in the background (pid=";
    var t := " seconds and was terminated (pid=";
    assert BackgroundMessage(shown, p) == x + b + NatToString(p) + ").";
    assert TerminatedMessage(shown, q) == x + t + NatToString(q) + ").";
    assert (x + b + NatToString(p) + ").")[|x| + 13] == b[13] == 'i';
    assert (x + t + NatToString(q) + ").")[|x| + 13] == t[13] == 'w';
  }

  /** The executor's settings as the loop reads them. */
  datatype Settings = Settings(
    cwd: string,
    defaultTimeout: Option<nat>,
    backgroundOnTimeout: bool,
    envOverrides: map<string, string>,
    force: bool,
    preference: string)

  /** The output for a spawned command and whether the batch stops after it. */
  function Report(s: Settings, requestMs: Option<int>, prepared: string, result: ProcessResult): (o: CommandOutput)
    ensures o.command == prepared
    ensures result.Finished? ==> o == CommandOutput(prepared, result.stdout, result.stderr, Outcome(ExitKind, Some(result.code)))
    ensures result.Expired? <==> o.outcome.kind == TimeoutKind
    ensures result.Expired? && s.backgroundOnTimeout ==>
      o == CommandOutput(prepared, "", BackgroundMessage(TimeoutText(requestMs, s.defaultTimeout), result.pid), Outcome(TimeoutKind, None))
    ensures result.Expired? && !s.backgroundOnTimeout ==>
      o == CommandOutput(prepared, result.killedStdout,
                         TerminatedMessage(TimeoutText(requestMs, s.defaultTimeout), result.pid) + "\n" + result.killedStderr,
                         Outcome(TimeoutKind, Some(result.killedCode)))
  {
    var shown := TimeoutText(requestMs, s.defaultTimeout);
    match result
    case Finished(code, out, err) => CommandOutput(prepared, out, err, Outcome(ExitKind, Some(code)))
    case Expired(pid, code, out, err) =>
      if s.backgroundOnTimeout then
        CommandOutput(prepared, "", BackgroundMessage(shown, pid), Outcome(TimeoutKind, None))
      else
        CommandOutput(prepared, out, TerminatedMessage(shown, pid) + "\n" + err, Outcome(TimeoutKind, Some(code)))
  }

  /**
   * How the loop rewrites a command and decides that it must not run in the foreground. The
   * loop's ordering and stopping rules hold whatever these are; the executor uses
   * `ExecutorRules`.
   */
  datatype Rules = Rules(prepare: string -> string, mustBackground: string -> bool)

  /** `_prepare_command` with the executor's settings, and `_requires_background` without `_is_backgrounded`. */
  function ExecutorRules(s: Settings): Rules {
    Rules(command => Prepare(s.force, s.preference, command), prepared => NeedsBackgrounding(prepared))
  }

  /** The rules rewrite as `_prepare_command` does with the settings, and detect what needs the background as the loop does. */
  ghost predicate Follows(r: Rules, s: Settings) {
    && (forall command {:trigger Prepare(s.force, s.preference, command)} :: r.prepare(command) == Prepare(s.force, s.preference, command))
    && (forall prepared {:trigger NeedsBackgrounding(prepared)} :: r.mustBackground(prepared) == NeedsBackgrounding(prepared))
  }

  lemma ExecutorRulesFollow(s: Settings)
    ensures Follows(ExecutorRules(s), s)
  {
  }

  /** What one call of the loop works with: the executor's settings and rules, `os.environ`, the request's `timeout_ms` and the process oracle. */
  datatype Context = Context(settings: Settings, rules: Rules, environ: map<string, string>, requestMs: Option<int>, oracle: Oracle)

  /** The spawn request for a prepared command: the environment is `os.environ` updated by the overrides. */
  function Request(c: Context, prepared: string): (r: Spawn)
    ensures r.command == prepared && r.cwd == c.settings.cwd
    ensures r.env == c.environ + c.settings.envOverrides
    ensures r.timeoutMs == ResolveTimeout(c.requestMs, c.settings.defaultTimeout)
  {
    Spawn(prepared, c.settings.cwd, c.environ + c.settings.envOverrides, ResolveTimeout(c.requestMs, c.settings.defaultTimeout))
  }

  /** What the loop does with one command: answer it without a process, or run it. */
  datatype Step = Answered(output: CommandOutput) | Ran(output: CommandOutput)

  function StepOf(c: Context, command: string, spawned: nat): (r: Step)
    ensures r.output.command == c.rules.prepare(command)
    ensures r.Answered? <==> c.rules.mustBackground(r.output.command)
    ensures r.Answered? ==> r.output == Corrective(r.output.command)
    ensures r.Ran? ==> r.output == Report(c.settings, c.requestMs, r.output.command, c.oracle(spawned, Request(c, r.output.command)))
  {
    var prepared := c.rules.prepare(command);
    if c.rules.mustBackground(prepared) then Answered(Corrective(prepared))
    else Ran(Report(c.settings, c.requestMs, prepared, c.oracle(spawned, Request(c, prepared))))
  }

  /** The outputs of the commands, `spawned` processes having been started before them. */
  function Batch(c: Context, commands: seq<string>, spawned: nat): seq<CommandOutput>
    decreases |commands|
  {
    if commands == [] then []
    else
      var step := StepOf(c, commands[0], spawned);
      if step.Answered? then [step.output] + Batch(c, commands[1..], spawned)
      else if step.output.outcome.kind == TimeoutKind then [step.output]
      else [step.output] + Batch(c, commands[1..], spawned + 1)
  }

  /** One unfolding of `Batch`: the first output and the outputs that follow it. */
  lemma BatchCons(c: Context, commands: seq<string>, spawned: nat)
    requires commands != []
    ensures var outs := Batch(c, commands, spawned);
      var step := StepOf(c, commands[0], spawned);
      var next := if step.Answered? then spawned else spawned + 1;
      var rest := Batch(c, commands[1..], next);
      && outs != [] && outs[0] == step.output
      && (step.Ran? && step.output.outcome.kind == TimeoutKind ==> |outs| == 1)
      && (!(step.Ran? && step.output.outcome.kind == TimeoutKind) ==> outs == [step.output] + rest)
  {
  }

  /** The loop's view of `Batch`: the output of command `i` and the outputs after it. */
  lemma BatchStep(c: Context, commands: seq<string>, i: nat, started: nat, output: CommandOutput, ran: bool)
    requires i < |commands|
    requires (if ran then Ran(output) else Answered(output)) == StepOf(c, commands[i], started)
    ensures !ran ==> Batch(c, commands[i..], started) == [output] + Batch(c, commands[i + 1..], started)
    ensures ran && output.outcome.kind == TimeoutKind ==> Batch(c, commands[i..], started) == [output]
    ensures ran && output.outcome.kind != TimeoutKind ==>
      Batch(c, commands[i..], started) == [output] + Batch(c, commands[i + 1..], started + 1)
  {
    assert commands[i..][0] == commands[i] && commands[i..][1..] == commands[i + 1..];
  }

  /** The loop's invariant survives one command: its output joins the outputs, and the rest of the batch follows. */
  lemma BatchAdvance(c: Context, commands: seq<string>, spawned: nat, i: nat, started: nat,
                     outputs: seq<CommandOutput>, output: CommandOutput, ran: bool)
    requires i < |commands| && outputs + Batch(c, commands[i..], started) == Batch(c, commands, spawned)
    requires (if ran then Ran(output) else Answered(output)) == StepOf(c, commands[i], started)
    ensures ran && output.outcome.kind == TimeoutKind ==> outputs + [output] == Batch(c, commands, spawned)
    ensures !(ran && output.outcome.kind == TimeoutKind) ==>
      (outputs + [output]) + Batch(c, commands[i + 1..], if ran then started + 1 else started) == Batch(c, commands, spawned)
  {
    BatchStep(c, commands, i, started, output, ran);
    var next := if ran then started + 1 else started;
    if !(ran && output.outcome.kind == TimeoutKind) {
      assert (outputs + [output]) + Batch(c, commands[i + 1..], next) == outputs + ([output] + Batch(c, commands[i + 1..], next));
    }
  }

  /** At most one output per command. */
  lemma {:induction false} BatchLength(c: Context, commands: seq<string>, spawned: nat)
    ensures |Batch(c, commands, spawned)| <= |commands|
    decreases |commands|
  {
    if commands != [] {
      var step := StepOf(c, commands[0], spawned);
      BatchLength(c, commands[1..], if step.Answered? then spawned else spawned + 1);
      BatchCons(c, commands, spawned);
    }
  }

  /** The outputs follow the commands in order, each naming its command as prepared. */
  lemma {:induction false} BatchFollowsCommands(c: Context, commands: seq<string>, spawned: nat)
    ensures var outs := Batch(c, commands, spawned);
      |outs| <= |commands| && forall k :: 0 <= k < |outs| ==> outs[k].command == c.rules.prepare(commands[k])
    decreases |commands|
  {
    BatchLength(c, commands, spawned);
    if commands != [] {
      var step := StepOf(c, commands[0], spawned);
      var next := if step.Answered? then spawned else spawned + 1;
      var outs, rest := Batch(c, commands, spawned), Batch(c, commands[1..], next);
      BatchFollowsCommands(c, commands[1..], next);
      BatchCons(c, commands, spawned);
      forall k | 1 <= k < |outs|
        ensures outs[k].command == c.rules.prepare(commands[k])
      {
        assert outs[k] == rest[k - 1] && commands[k] == commands[1..][k - 1];
      }
    }
  }

  /** Every dev server not in the background gets the corrective output. */
  lemma {:induction false} BatchCorrects(c: Context, commands: seq<string>, spawned: nat)
    ensures var outs := Batch(c, commands, spawned);
      forall k :: 0 <= k < |outs| && c.rules.mustBackground(outs[k].command) ==> outs[k] == Corrective(outs[k].command)
    decreases |commands|
  {
    if commands != [] {
      var step := StepOf(c, commands[0], spawned);
      var next := if step.Answered? then spawned else spawned + 1;
      var outs, rest := Batch(c, commands, spawned), Batch(c, commands[1..], next);
      BatchCorrects(c, commands[1..], next);
      BatchCons(c, commands, spawned);
      forall k | 1 <= k < |outs| && c.rules.mustBackground(outs[k].command)
        ensures outs[k] == Corrective(outs[k].command)
      {
        assert outs[k] == rest[k - 1];
      }
    }
  }

  /** Only the last output can be a timeout. */
  lemma {:induction false} BatchTimeoutIsLast(c: Context, commands: seq<string>, spawned: nat)
    ensures var outs := Batch(c, commands, spawned);
      forall k :: 0 <= k < |outs| - 1 ==> outs[k].outcome.kind == ExitKind
    decreases |commands|
  {
    if commands != [] {
      var step := StepOf(c, commands[0], spawned);
      var next := if step.Answered? then spawned else spawned + 1;
      var outs, rest := Batch(c, commands, spawned), Batch(c, commands[1..], next);
      BatchTimeoutIsLast(c, commands[1..], next);
      BatchCons(c, commands, spawned);
      forall k | 1 <= k < |outs| - 1 ensures outs[k].outcome.kind == ExitKind {
        assert outs[k] == rest[k - 1];
      }
    }
  }

  /** The batch stops before the end of the commands only after a timeout. */
  lemma {:induction false} BatchStopsOnlyOnTimeout(c: Context, commands: seq<string>, spawned: nat)
    ensures var outs := Batch(c, commands, spawned);
      |outs| < |commands| ==> outs != [] && outs[|outs| - 1].outcome.kind == TimeoutKind
    decreases |commands|
  {
    if commands != [] {
      var step := StepOf(c, commands[0], spawned);
      var next := if step.Answered? then spawned else spawned + 1;
      var outs, rest := Batch(c, commands, spawned), Batch(c, commands[1..], next);
      BatchStopsOnlyOnTimeout(c, commands[1..], next);
      BatchCons(c, commands, spawned);
      if |outs| < |commands| && !(step.Ran? && step.output.outcome.kind == TimeoutKind) {
        assert outs[|outs| - 1] == rest[|rest| - 1];
      }
    }
  }

  /**
   * A dev server that is not in the background is answered without spawning anything and
   * the batch goes on: the processes later commands see are numbered as if it were absent.
   */
  lemma CorrectiveContinues(c: Context, command: string, commands: seq<string>, spawned: nat)
    requires c.rules.mustBackground(c.rules.prepare(command))
    ensures Batch(c, [command] + commands, spawned)
         == [Corrective(c.rules.prepare(command))] + Batch(c, commands, spawned)
  {
    assert ([command] + commands)[0] == command && ([command] + commands)[1..] == commands;
  }

  /** A command whose process outlives its timeout is the last to get an output: later commands are not run. */
  lemma TimeoutStops(c: Context, command: string, commands: seq<string>, spawned: nat)
    requires var p := c.rules.prepare(command);
      !c.rules.mustBackground(p) && c.oracle(spawned, Request(c, p)).Expired?
    ensures var outs := Batch(c, [command] + commands, spawned);
      |outs| == 1 && outs[0].outcome.kind == TimeoutKind
  {
    assert ([command] + commands)[0] == command;
  }

  /** With no timeout in force every command gets an output, and none of them is a timeout. */
  lemma {:induction false} NoTimeoutRunsAll(c: Context, commands: seq<string>, spawned: nat)
    requires Honest(c.oracle) && ResolveTimeout(c.requestMs, c.settings.defaultTimeout).None?
    ensures var outs := Batch(c, commands, spawned);
      |outs| == |commands| && forall k :: 0 <= k < |outs| ==> outs[k].outcome.kind == ExitKind
    decreases |commands|
  {
    if commands != [] {
      var step := StepOf(c, commands[0], spawned);
      var next := if step.Answered? then spawned else spawned + 1;
      var outs, rest := Batch(c, commands, spawned), Batch(c, commands[1..], next);
      NoTimeoutRunsAll(c, commands[1..], next);
      BatchCons(c, commands, spawned);
      if step.Ran? {
        assert c.oracle(spawned, Request(c, step.output.command)).Finished?;
      }
      forall k | 1 <= k < |outs| ensures outs[k].outcome.kind == ExitKind {
        assert outs[k] == rest[k - 1];
      }
    }
  }

  // ------------------------------------------------------------ the executor

  /**
   * The settings `__init__` stores: each argument that is given wins, a missing one falls back
   * on `environ`, the preference is normalised, and forcing defaults the six variables in.
   */
  function Configure(cwd: string, defaultTimeout: Option<nat>, backgroundOnTimeout: Option<bool>,
                     envOverrides: map<string, string>, forceNonInteractive: Option<bool>,
                     reactCompilerPreference: Option<string>, environ: map<string, string>): (r: Settings)
    ensures r.cwd == cwd
    ensures defaultTimeout.Some? ==> r.defaultTimeout == defaultTimeout
    ensures backgroundOnTimeout.Some? ==> r.backgroundOnTimeout == backgroundOnTimeout.value
    ensures forceNonInteractive.Some? ==> r.force == forceNonInteractive.value
    ensures r.preference == "use" || r.preference == "no"
    ensures reactCompilerPreference.Some? ==> r.preference == NormalisePreference(reactCompilerPreference.value)
    ensures reactCompilerPreference.None? && CompilerVariable in environ ==>
      r.preference == NormalisePreference(environ[CompilerVariable])
    ensures reactCompilerPreference.None? && CompilerVariable !in environ ==> r.preference == "no"
    ensures forall k :: k in envOverrides ==> k in r.envOverrides && r.envOverrides[k] == envOverrides[k]
    ensures !r.force ==> r.envOverrides == envOverrides
  {
    EnvOverridesSpec(envOverrides, ForceNonInteractive(forceNonInteractive, environ));
    var force := ForceNonInteractive(forceNonInteractive, environ);
    Settings(cwd, DefaultTimeout(defaultTimeout, environ), BackgroundOnTimeout(backgroundOnTimeout, environ),
             EnvOverrides(envOverrides, force), force, CompilerPreference(reactCompilerPreference, environ))
  }

  class ShellExecutor {
    var cwd: string
    var defaultTimeout: Option<nat>
    var backgroundOnTimeout: bool
    var envOverrides: map<string, string>
    var forceNonInteractive: bool
    var reactCompilerPreference: string
    /** The command rules the executor applies: its own preparation and dev-server detection. */
    ghost var rules: Rules

    /** The executor's rules are those of its own settings. */
    ghost predicate Valid()
      reads this
    {
      Follows(rules, Config())
    }

    function Config(): Settings
      reads this
    {
      Settings(cwd, defaultTimeout, backgroundOnTimeout, envOverrides, forceNonInteractive, reactCompilerPreference)
    }

    /**
     * `cwd` is the working directory already chosen (the argument or the process's own);
     * `None` arguments fall back on `environ`, which is `os.environ`.
     */
    constructor (cwd: string, defaultTimeout: Option<nat>, backgroundOnTimeout: Option<bool>,
                 envOverrides: map<string, string>, forceNonInteractive: Option<bool>,
                 reactCompilerPreference: Option<string>, environ: map<string, string>)
      ensures Config() == Configure(cwd, defaultTimeout, backgroundOnTimeout, envOverrides, forceNonInteractive, reactCompilerPreference, environ)
      ensures Valid()
    {
      var s := Configure(cwd, defaultTimeout, backgroundOnTimeout, envOverrides, forceNonInteractive, reactCompilerPreference, environ);
      this.cwd := s.cwd;
      this.defaultTimeout := s.defaultTimeout;
      this.backgroundOnTimeout := s.backgroundOnTimeout;
      this.envOverrides := s.envOverrides;
      this.forceNonInteractive := s.force;
      this.reactCompilerPreference := s.preference;
      new;
      assert Config() == s;
      rules := ExecutorRules(s);
      ExecutorRulesFollow(s);
    }

    /** `_prepare_command` on this executor's settings. */
    method PrepareCommand(command: string) returns (prepared: string)
      ensures prepared == Prepare(forceNonInteractive, reactCompilerPreference, command)
    {
      prepared := Strip(command);
      var lower := Lower(prepared);
      if forceNonInteractive {
        prepared, lower := AddYesFlag(prepared);
        if Contains(lower, CreateNextApp) && !Contains(lower, UseCompilerFlag) && !Contains(lower, NoCompilerFlag) {
          var flag := if reactCompilerPreference == "use" then UseCompilerFlag else NoCompilerFlag;
          prepared := AppendFlag(prepared, flag);
        }
      } else {
        PrepareWithoutForce(reactCompilerPreference, command);
      }
    }

    /** The forced yes stage of `_prepare_command`: the pattern loop appends `--yes` at the first match and stops. */
    method AddYesFlag(stripped: string) returns (prepared: string, lower: string)
      ensures prepared == WithYes(true, stripped) && lower == Lower(prepared)
    {
      prepared := stripped;
      lower := Lower(prepared);
      if HasYesFlag(lower) {
        YesStageFlagged(stripped);
        return;
      }
      var n := 0;
      while n < |YesFlagPatterns|
        invariant 0 <= n <= |YesFlagPatterns|
        invariant prepared == stripped && lower == Lower(stripped)
        invariant forall m :: 0 <= m < n ==> !Search(YesFlagPatterns[m], lower)
      {
        if Search(YesFlagPatterns[n], lower) {
          YesStageOnMatch(stripped, n);
          prepared := AppendFlag(prepared, YesFlag);
          lower := Lower(prepared);
          return;
        }
        n := n + 1;
      }
      YesStageWithoutMatch(stripped);
    }

    /**
     * One pass of the loop body: prepare the command; answer a dev server that is not in the
     * background with the corrective output; otherwise spawn it through the oracle with
     * `os.environ` updated by the overrides, and report how it ended.
     */
    method RunCommand(command: string, requestMs: Option<int>, environ: map<string, string>, oracle: Oracle, started: nat)
      returns (output: CommandOutput, ran: bool, timedOut: bool)
      requires Valid()
      ensures (if ran then Ran(output) else Answered(output))
           == StepOf(Context(Config(), rules, environ, requestMs, oracle), command, started)
      ensures timedOut <==> ran && output.outcome.kind == TimeoutKind
    {
      ghost var c := Context(Config(), rules, environ, requestMs, oracle);
      var env := environ + envOverrides;
      var prepared := PrepareCommand(command);
      assert rules.prepare(command) == prepared;
      assert rules.mustBackground(prepared) == NeedsBackgrounding(prepared);
      if RequiresBackground(prepared) && !IsBackgrounded(prepared) {
        output := Corrective(prepared);
        ran, timedOut := false, false;
        return;
      }
      var timeout := ResolveTimeout(requestMs, defaultTimeout);
      var result := oracle(started, Spawn(prepared, cwd, env, timeout));
      output := Report(Config(), requestMs, prepared, result);
      ran, timedOut := true, result.Expired?;
    }

    /**
     * `__call__`: the outputs of the batch, in order, stopping after the first timeout.
     * `spawned` counts the processes this executor started before the call.
     */
    method Call(commands: seq<string>, requestMs: Option<int>, environ: map<string, string>,
                oracle: Oracle, spawned: nat) returns (outputs: seq<CommandOutput>, workingDirectory: string)
      requires Valid()
      ensures outputs == Batch(Context(Config(), rules, environ, requestMs, oracle), commands, spawned)
      ensures workingDirectory == cwd
    {
      ghost var c := Context(Config(), rules, environ, requestMs, oracle);
      outputs := [];
      var started := spawned;
      var i := 0;
      while i < |commands|
        invariant 0 <= i <= |commands|
        invariant outputs + Batch(c, commands[i..], started) == Batch(c, commands, spawned)
      {
        var output, ran, timedOut := RunCommand(commands[i], requestMs, environ, oracle, started);
        BatchAdvance(c, commands, spawned, i, started, outputs, output, ran);
        outputs := outputs + [output];
        if timedOut {
          break;
        }
        if ran {
          started := started + 1;
        }
        i := i + 1;
      }
      workingDirectory := cwd;
    }
  }
}
