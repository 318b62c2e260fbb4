/**
 * `parseCliArgs` of update-system-metadata.ts: the command line of the
 * metadata synchroniser. Every argument must be a `--` option;
 * `--dry-run[=true|false]` sets the dry-run flag, `--path=<p>` and
 * `--paths=<p>,<p>,...` add relative paths to the filter. The first bad
 * argument stops the parse with its error.
 */
module CliArgs {
  import opened Wrappers
  import opened Text

  /** The errors `parseCliArgs` throws, each named after its message. */
  datatype CliError =
    | UnexpectedArgument(arg: string)   // Unexpected argument: <arg>
    | DryRunTakesNoValue                // --dry-run does not accept a value; ...
    | PathNeedsValue                    // --path requires a value, ...
    | PathNotRelative                   // --path must be a relative path without ".." segments
    | PathsNeedValue                    // --paths requires a comma-separated list of values
    | PathsNotRelative                  // --paths must contain relative paths without ".." segments
    | UnknownOption(flag: string)       // Unknown option: <flag>

  /** The options object: `includePaths` only when some path was given. */
  datatype CliOptions = CliOptions(dryRun: bool, includePaths: Option<seq<string>>)

  /** `path.isAbsolute` on POSIX. */
  predicate IsAbsolute(p: string) {
    |p| > 0 && p[0] == '/'
  }

  /** Neither climbs out of the root directory nor starts at the file-system root. */
  predicate SafePath(p: string) {
    !HasDotDot(p) && !IsAbsolute(p)
  }

  predicate AllSafe(paths: seq<string>) {
    forall k :: 0 <= k < |paths| ==> SafePath(paths[k])
  }

  lemma AllSafeAppend(xs: seq<string>, ys: seq<string>)
    ensures AllSafe(xs + ys) <==> AllSafe(xs) && AllSafe(ys)
  {
    if AllSafe(xs) && AllSafe(ys) {
      forall k | 0 <= k < |xs + ys| ensures SafePath((xs + ys)[k]) {
        if k >= |xs| {
          assert (xs + ys)[k] == ys[k - |xs|];
        }
      }
    }
    if AllSafe(xs + ys) {
      forall k | 0 <= k < |xs| ensures SafePath(xs[k]) {
        assert xs[k] == (xs + ys)[k];
      }
      forall k | 0 <= k < |ys| ensures SafePath(ys[k]) {
        assert ys[k] == (xs + ys)[|xs| + k];
      }
    }
  }

  /** The first element of `arg.split('=')`. */
  function FlagOf(arg: string): string {
    Split(arg, '=')[0]
  }

  /** The second element of `arg.split('=')`, when there is one; later ones are dropped. */
  function ValueOf(arg: string): Option<string> {
    var parts := Split(arg, '=');
    if |parts| > 1 then Some(parts[1]) else None
  }

  /** The trimmed, non-blank items among the first `n` pieces of a `--paths` list, in order. */
  function ItemsUpTo(parts: seq<string>, n: nat): seq<string>
    requires n <= |parts|
    decreases n
  {
    if n == 0 then []
    else
      var item := Trim(parts[n - 1]);
      ItemsUpTo(parts, n - 1) + (if item == "" then [] else [item])
  }

  /** The trimmed, non-blank items of a `--paths` list, in order. */
  function Items(parts: seq<string>): seq<string> {
    ItemsUpTo(parts, |parts|)
  }

  // ---------------------------------------------------------------------
  // One argument at a time
  // ---------------------------------------------------------------------

  /** The error an argument is rejected with, if any; it does not depend on the arguments before it. */
  function ArgError(arg: string): Option<CliError> {
    if !StartsWith(arg, "--") then Some(UnexpectedArgument(arg))
    else
      var flag, value := FlagOf(arg), ValueOf(arg);
      if flag == "--dry-run" then
        if value.Some? && value.value != "true" && value.value != "false" then Some(DryRunTakesNoValue) else None
      else if flag == "--path" then
        if value.None? || value.value == "" then Some(PathNeedsValue)
        else if !SafePath(value.value) then Some(PathNotRelative)
        else None
      else if flag == "--paths" then
        if value.None? || value.value == "" then Some(PathsNeedValue)
        else if !AllSafe(Items(Split(value.value, ','))) then Some(PathsNotRelative)
        else None
      else Some(UnknownOption(flag))
  }

  /** The paths an argument adds to the filter, in order. */
  function ArgPaths(arg: string): seq<string> {
    var flag, value := FlagOf(arg), ValueOf(arg);
    if value.None? then []
    else if flag == "--path" then [value.value]
    else if flag == "--paths" then Items(Split(value.value, ','))
    else []
  }

  /** What a `--dry-run` argument sets the flag to: on, unless its value is `false`. */
  function DryRunOf(arg: string): Option<bool> {
    if FlagOf(arg) == "--dry-run" then Some(ValueOf(arg) != Some("false")) else None
  }

  /** What an accepted argument does: the dry-run setting it makes, if any, and the paths it adds. */
  datatype ArgEffect = ArgEffect(dryRun: Option<bool>, paths: seq<string>)

  type Outcome = Result<ArgEffect, CliError>

  /** One argument on its own: its error, or what it does. */
  function OutcomeOf(arg: string): Outcome {
    match ArgError(arg)
    case Some(e) => Err(e)
    case None => Ok(ArgEffect(DryRunOf(arg), ArgPaths(arg)))
  }

  /** The outcome of each argument. */
  function Outcomes(args: seq<string>): (outs: seq<Outcome>)
    ensures |outs| == |args| && forall i :: 0 <= i < |args| ==> outs[i] == OutcomeOf(args[i])
  {
    seq(|args|, i requires 0 <= i < |args| => OutcomeOf(args[i]))
  }

  /** The options as collected so far. */
  datatype CliState = CliState(dryRun: bool, paths: seq<string>)

  /** What an accepted argument does to the options. */
  function Apply(st: CliState, e: ArgEffect): CliState {
    CliState(e.dryRun.GetOr(st.dryRun), Dedup(st.paths, e.paths))
  }

  /** Handling one more argument. */
  function Step(st: CliState, o: Outcome): Result<CliState, CliError> {
    match o
    case Err(e) => Err(e)
    case Ok(e) => Ok(Apply(st, e))
  }

  /** The options after the first `n` arguments, or the first error among them. */
  function Run(outs: seq<Outcome>, n: nat): Result<CliState, CliError>
    requires n <= |outs|
    decreases n
  {
    if n == 0 then Ok(CliState(false, []))
    else
      match Run(outs, n - 1)
      case Err(e) => Err(e)
      case Ok(st) => Step(st, outs[n - 1])
  }

  /** `parseCliArgs(argv)` */
  function ParseCli(args: seq<string>): Result<CliOptions, CliError> {
    match Run(Outcomes(args), |args|)
    case Err(e) => Err(e)
    case Ok(st) => Ok(CliOptions(st.dryRun, if |st.paths| > 0 then Some(st.paths) else None))
  }

  // ---------------------------------------------------------------------
  // The parser
  // ---------------------------------------------------------------------

  /** `value.split(',').forEach(...)` of `--paths`: adds the items to `paths`, or rejects the list. */
  method AddPathItems(value: string, paths: seq<string>) returns (r: Result<seq<string>, CliError>)
    ensures var items := Items(Split(value, ','));
      r == if !AllSafe(items) then Err(PathsNotRelative) else Ok(Dedup(paths, items))
  {
    var parts := Split(value, ',');
    var added := paths;
    var i := 0;
    while i < |parts|
      invariant 0 <= i <= |parts|
      invariant AllSafe(ItemsUpTo(parts, i)) && added == Dedup(paths, ItemsUpTo(parts, i))
    {
      var trimmed := Trim(parts[i]);
      var next := added;
      if trimmed != "" {
        if HasDotDot(trimmed) || IsAbsolute(trimmed) {
          ItemsStop(parts, i, |parts|);
          return Err(PathsNotRelative);
        }
        next := if trimmed in added then added else added + [trimmed];
      }
      AddItemStep(parts, i, paths, added, next);
      added := next;
      i := i + 1;
    }
    return Ok(added);
  }

  /** One more piece of a `--paths` list: a blank one adds nothing, a safe one is added unless already there. */
  lemma AddItemStep(parts: seq<string>, i: nat, paths: seq<string>, added: seq<string>, next: seq<string>)
    requires i < |parts| && AllSafe(ItemsUpTo(parts, i)) && added == Dedup(paths, ItemsUpTo(parts, i))
    requires Trim(parts[i]) == "" ==> next == added
    requires Trim(parts[i]) != "" ==>
      SafePath(Trim(parts[i])) && next == if Trim(parts[i]) in added then added else added + [Trim(parts[i])]
    ensures AllSafe(ItemsUpTo(parts, i + 1)) && next == Dedup(paths, ItemsUpTo(parts, i + 1))
  {
    var before, t := ItemsUpTo(parts, i), Trim(parts[i]);
    if t == "" {
      assert ItemsUpTo(parts, i + 1) == before + [] == before;
    } else {
      assert ItemsUpTo(parts, i + 1) == before + [t];
      AllSafeAppend(before, [t]);
      DedupSnoc(paths, before, t);
    }
  }

  /** An unsafe item makes every longer list of items unsafe. */
  lemma {:induction false} ItemsStop(parts: seq<string>, i: nat, n: nat)
    requires i < n <= |parts| && Trim(parts[i]) != "" && !SafePath(Trim(parts[i]))
    ensures !AllSafe(ItemsUpTo(parts, n))
    decreases n
  {
    var last := Trim(parts[n - 1]);
    var tail := if last == "" then [] else [last];
    AllSafeAppend(ItemsUpTo(parts, n - 1), tail);
    if i < n - 1 {
      ItemsStop(parts, i, n - 1);
    } else {
      assert tail == [last] && !SafePath(last);
    }
  }

  /** `parseCliArgs(argv)` */
  method ParseCliArgs(argv: seq<string>) returns (r: Result<CliOptions, CliError>)
    ensures r == ParseCli(argv)
  {
    var dryRun := false;
    var includePaths: seq<string> := [];
    var i := 0;
    while i < |argv|
      invariant 0 <= i <= |argv|
      invariant Run(Outcomes(argv), i) == Ok(CliState(dryRun, includePaths))
    {
      var next := ParseArg(dryRun, includePaths, argv[i]);
      RunNext(argv, i, CliState(dryRun, includePaths));
      if next.Err? {
        RunFails(argv, i, next.error);
        return Err(next.error);
      }
      dryRun, includePaths := next.value.dryRun, next.value.paths;
      i := i + 1;
    }
    RunSucceeds(argv, CliState(dryRun, includePaths));
    return Ok(CliOptions(dryRun, if |includePaths| > 0 then Some(includePaths) else None));
  }

  /** One more argument of the loop is one more step of the fold. */
  lemma RunNext(argv: seq<string>, i: nat, st: CliState)
    requires i < |argv| && Run(Outcomes(argv), i) == Ok(st)
    ensures Run(Outcomes(argv), i + 1) == Step(st, OutcomeOf(argv[i]))
  {
    assert Outcomes(argv)[i] == OutcomeOf(argv[i]);
  }

  /** An argument that fails ends the parse with its error. */
  lemma RunFails(argv: seq<string>, i: nat, e: CliError)
    requires i < |argv| && Run(Outcomes(argv), i + 1) == Err(e)
    ensures ParseCli(argv) == Err(e)
  {
    RunStops(Outcomes(argv), i, |argv|);
  }

  /** Once every argument is accepted, the options are those of the final state. */
  lemma RunSucceeds(argv: seq<string>, st: CliState)
    requires Run(Outcomes(argv), |argv|) == Ok(st)
    ensures ParseCli(argv) == Ok(CliOptions(st.dryRun, if |st.paths| > 0 then Some(st.paths) else None))
  {
  }

  /** The body of the argument loop of `parseCliArgs`: one argument against the options so far. */
  method ParseArg(dryRun: bool, includePaths: seq<string>, rawArg: string) returns (r: Result<CliState, CliError>)
    ensures r == Step(CliState(dryRun, includePaths), OutcomeOf(rawArg))
  {
    if !StartsWith(rawArg, "--") {
      return Err(UnexpectedArgument(rawArg));
    }
    var parts := Split(rawArg, '=');
    var flag := parts[0];
    var value := if |parts| > 1 then Some(parts[1]) else None;
    if flag == "--dry-run" {
      if value.Some? && value.value != "true" && value.value != "false" {
        return Err(DryRunTakesNoValue);
      }
      return Ok(CliState(value != Some("false"), includePaths));
    } else if flag == "--path" {
      if value.None? || value.value == "" {
        return Err(PathNeedsValue);
      }
      if HasDotDot(value.value) || IsAbsolute(value.value) {
        return Err(PathNotRelative);
      }
      DedupSnoc(includePaths, [], value.value);
      assert [] + [value.value] == [value.value];
      return Ok(CliState(dryRun, if value.value in includePaths then includePaths else includePaths + [value.value]));
    } else if flag == "--paths" {
      if value.None? || value.value == "" {
        return Err(PathsNeedValue);
      }
      var added := AddPathItems(value.value, includePaths);
      if added.Err? {
        return Err(added.error);
      }
      return Ok(CliState(dryRun, added.value));
    } else {
      return Err(UnknownOption(flag));
    }
  }

  /** Once an argument fails, the rest are not looked at. */
  lemma {:induction false} RunStops(outs: seq<Outcome>, i: nat, n: nat)
    requires i < n <= |outs| && Run(outs, i + 1).Err?
    ensures Run(outs, n) == Run(outs, i + 1)
    decreases n
  {
    if i + 1 < n {
      RunStops(outs, i, n - 1);
    }
  }

  // ---------------------------------------------------------------------
  // What the argument loop promises, whatever the arguments do
  // ---------------------------------------------------------------------

  /** The run fails exactly when some argument fails, with the error of the first that does. */
  lemma {:induction false} RunFailure(outs: seq<Outcome>, n: nat)
    requires n <= |outs|
    ensures Run(outs, n).Err? <==> exists i :: 0 <= i < n && outs[i].Err?
    ensures Run(outs, n).Err? ==>
      exists i :: 0 <= i < n && outs[i] == Err(Run(outs, n).error) && forall j :: 0 <= j < i ==> outs[j].Ok?
    decreases n
  {
    if n > 0 {
      RunFailure(outs, n - 1);
      if Run(outs, n - 1).Ok? {
        assert forall i :: 0 <= i < n && outs[i].Err? ==> i == n - 1;
      }
    }
  }

  /** An accepted run is an accepted run followed by one accepted argument. */
  lemma RunLast(outs: seq<Outcome>, n: nat)
    requires 0 < n <= |outs| && Run(outs, n).Ok?
    ensures Run(outs, n - 1).Ok? && outs[n - 1].Ok?
    ensures Run(outs, n).value == Apply(Run(outs, n - 1).value, outs[n - 1].value)
  {
  }

  /** One of the first `n` accepted arguments adds path `p`. */
  predicate Added(outs: seq<Outcome>, n: nat, p: string)
    requires n <= |outs|
  {
    exists i :: 0 <= i < n && outs[i].Ok? && p in outs[i].value.paths
  }

  lemma AddedSnoc(outs: seq<Outcome>, n: nat, p: string)
    requires 0 < n <= |outs| && outs[n - 1].Ok?
    ensures Added(outs, n, p) <==> Added(outs, n - 1, p) || p in outs[n - 1].value.paths
  {
    if Added(outs, n, p) && p !in outs[n - 1].value.paths {
      var i :| 0 <= i < n && outs[i].Ok? && p in outs[i].value.paths;
      assert i < n - 1;
    }
  }

  /** The paths collected: each path some argument adds, exactly once. */
  lemma {:induction false} RunPaths(outs: seq<Outcome>, n: nat)
    requires n <= |outs| && Run(outs, n).Ok?
    ensures var ps := Run(outs, n).value.paths;
      NoDuplicates(ps) && forall p :: p in ps <==> Added(outs, n, p)
    decreases n
  {
    if n > 0 {
      RunLast(outs, n);
      RunPaths(outs, n - 1);
      DedupSpec(Run(outs, n - 1).value.paths, outs[n - 1].value.paths);
      forall p ensures Added(outs, n, p) <==> Added(outs, n - 1, p) || p in outs[n - 1].value.paths {
        AddedSnoc(outs, n, p);
      }
    }
  }

  /** Among the first `n` arguments, one turns dry running on and no later one sets it again. */
  predicate LastSetOn(outs: seq<Outcome>, n: nat)
    requires n <= |outs|
  {
    exists i :: 0 <= i < n && outs[i].Ok? && outs[i].value.dryRun == Some(true)
      && forall j :: i < j < n ==> !(outs[j].Ok? && outs[j].value.dryRun.Some?)
  }

  lemma LastSetOnSnoc(outs: seq<Outcome>, n: nat)
    requires 0 < n <= |outs| && outs[n - 1].Ok?
    ensures LastSetOn(outs, n) == outs[n - 1].value.dryRun.GetOr(LastSetOn(outs, n - 1))
  {
    var last := outs[n - 1].value.dryRun;
    if last == Some(true) {
      assert LastSetOn(outs, n);
    } else if last.None? {
      if LastSetOn(outs, n) {
        var i :| 0 <= i < n && outs[i].Ok? && outs[i].value.dryRun == Some(true)
                 && forall j :: i < j < n ==> !(outs[j].Ok? && outs[j].value.dryRun.Some?);
        assert LastSetOn(outs, n - 1);
      }
      if LastSetOn(outs, n - 1) {
        var i :| 0 <= i < n - 1 && outs[i].Ok? && outs[i].value.dryRun == Some(true)
                 && forall j :: i < j < n - 1 ==> !(outs[j].Ok? && outs[j].value.dryRun.Some?);
        assert LastSetOn(outs, n);
      }
    }
  }

  /** The dry-run flag is the last setting's, and off when nothing sets it. */
  lemma {:induction false} RunDryRun(outs: seq<Outcome>, n: nat)
    requires n <= |outs| && Run(outs, n).Ok?
    ensures Run(outs, n).value.dryRun <==> LastSetOn(outs, n)
    decreases n
  {
    if n > 0 {
      RunLast(outs, n);
      RunDryRun(outs, n - 1);
      LastSetOnSnoc(outs, n);
    }
  }

  // ---------------------------------------------------------------------
  // What the parse promises about the command line
  // ---------------------------------------------------------------------

  /** Every path an accepted argument adds is non-empty and safe. */
  lemma ArgPathsSafe(arg: string)
    requires ArgError(arg).None?
    ensures forall p :: p in ArgPaths(arg) ==> p != "" && SafePath(p)
  {
    var value := ValueOf(arg);
    if FlagOf(arg) == "--paths" && value.Some? {
      var parts := Split(value.value, ',');
      var items := Items(parts);
      ItemsNonBlank(parts, |parts|);
      forall p | p in items ensures SafePath(p) {
        var k :| 0 <= k < |items| && items[k] == p;
      }
    }
  }

  lemma {:induction false} ItemsNonBlank(parts: seq<string>, n: nat)
    requires n <= |parts|
    ensures forall p :: p in ItemsUpTo(parts, n) ==> p != ""
    decreases n
  {
    if n > 0 {
      ItemsNonBlank(parts, n - 1);
    }
  }

  /** `parseCliArgs` throws exactly when an argument is bad, with the first bad argument's error. */
  lemma ParseCliRejectsFirstBadArgument(args: seq<string>)
    ensures ParseCli(args).Err? <==> exists i :: 0 <= i < |args| && ArgError(args[i]).Some?
    ensures ParseCli(args).Err? ==>
      exists i :: 0 <= i < |args| && ArgError(args[i]) == Some(ParseCli(args).error)
        && forall j :: 0 <= j < i ==> ArgError(args[j]).None?
  {
    var outs := Outcomes(args);
    RunFailure(outs, |args|);
    forall i | 0 <= i < |args| ensures outs[i].Err? <==> ArgError(args[i]).Some?
      ensures outs[i].Err? ==> ArgError(args[i]) == Some(outs[i].error) {
    }
  }

  /** An accepted command line has every argument accepted. */
  lemma AllAccepted(args: seq<string>)
    requires ParseCli(args).Ok?
    ensures forall i :: 0 <= i < |args| ==>
      ArgError(args[i]).None? && Outcomes(args)[i] == Ok(ArgEffect(DryRunOf(args[i]), ArgPaths(args[i])))
  {
    RunFailure(Outcomes(args), |args|);
  }

  /** One of the first `n` arguments names path `p`. */
  predicate Mentioned(args: seq<string>, n: nat, p: string)
    requires n <= |args|
  {
    exists i :: 0 <= i < n && p in ArgPaths(args[i])
  }

  /**
   * The path filter holds each path the arguments name, once, each non-empty
   * and neither absolute nor containing `..`; it is absent when they name none.
   */
  lemma ParseCliPaths(args: seq<string>)
    requires ParseCli(args).Ok?
    ensures var ps := ParseCli(args).value.includePaths.GetOr([]);
      && (ParseCli(args).value.includePaths.Some? ==> |ps| > 0)
      && NoDuplicates(ps)
      && (forall p :: p in ps <==> Mentioned(args, |args|, p))
      && (forall p :: p in ps ==> p != "" && SafePath(p))
  {
    var outs := Outcomes(args);
    RunPaths(outs, |args|);
    AllAccepted(args);
    forall p ensures Added(outs, |args|, p) <==> Mentioned(args, |args|, p) {
      if Mentioned(args, |args|, p) {
        var i :| 0 <= i < |args| && p in ArgPaths(args[i]);
        assert outs[i].Ok? && p in outs[i].value.paths;
      }
    }
    forall p | Mentioned(args, |args|, p) ensures p != "" && SafePath(p) {
      var i :| 0 <= i < |args| && p in ArgPaths(args[i]);
      ArgPathsSafe(args[i]);
    }
  }

  /** Among the first `n` arguments, a `--dry-run` whose value is not `false` that no later `--dry-run` overrides. */
  predicate LastDryRunOn(args: seq<string>, n: nat)
    requires n <= |args|
  {
    exists i :: 0 <= i < n && FlagOf(args[i]) == "--dry-run" && ValueOf(args[i]) != Some("false")
      && forall j :: i < j < n ==> FlagOf(args[j]) != "--dry-run"
  }

  /** Read through the outcomes of accepted arguments, the last setting is the last `--dry-run`. */
  lemma LastSetOnIff(outs: seq<Outcome>, args: seq<string>, n: nat)
    requires n <= |outs| && n <= |args|
    requires forall i :: 0 <= i < n ==> outs[i].Ok? && outs[i].value.dryRun == DryRunOf(args[i])
    ensures LastSetOn(outs, n) <==> LastDryRunOn(args, n)
  {
    if LastSetOn(outs, n) {
      var i :| 0 <= i < n && outs[i].Ok? && outs[i].value.dryRun == Some(true)
               && forall j :: i < j < n ==> !(outs[j].Ok? && outs[j].value.dryRun.Some?);
      assert forall j :: i < j < n ==> DryRunOf(args[j]).None?;
      assert LastDryRunOn(args, n);
    }
    if LastDryRunOn(args, n) {
      var i :| 0 <= i < n && FlagOf(args[i]) == "--dry-run" && ValueOf(args[i]) != Some("false")
               && forall j :: i < j < n ==> FlagOf(args[j]) != "--dry-run";
      assert forall j :: i < j < n ==> DryRunOf(args[j]).None?;
      assert LastSetOn(outs, n);
    }
  }

  /** `--dry-run` and `--dry-run=true` turn dry running on, `--dry-run=false` off; the last one wins. */
  lemma ParseCliDryRun(args: seq<string>)
    requires ParseCli(args).Ok?
    ensures ParseCli(args).value.dryRun <==> LastDryRunOn(args, |args|)
  {
    RunDryRun(Outcomes(args), |args|);
    AllAccepted(args);
    LastSetOnIff(Outcomes(args), args, |args|);
  }
}
