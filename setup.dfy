/** The first-run setup flow of setup_manager.py (`SetupManager`): the rule
    that turns a typed line into a model choice, the disk-space gate before
    a download, and the select / confirm / download / retry loop. The lines
    the user types are a finite sequence; running out of them is where
    Python's `input()` would raise `EOFError`. */
module Setup {
  import opened Common
  import opened PyText
  import opened Models

  // ---------------------------------------------------------------------
  // Python's int() on a typed line

  predicate IsDigit(c: char) {
    '0' <= c <= '9'
  }

  /** The digits `int()` accepts after the sign: ASCII digits, with single
      underscores allowed between two digits. */
  predicate DigitBody(s: string) {
    && s != [] && IsDigit(s[0]) && IsDigit(s[|s| - 1])
    && (forall k :: 0 <= k < |s| ==> IsDigit(s[k]) || s[k] == '_')
    && (forall k :: 0 <= k < |s| - 1 ==> s[k] == '_' ==> s[k + 1] != '_')
  }

  /** The value of a run of digits and underscores, read left to right. */
  function DigitsValue(s: string): nat
    requires forall k :: 0 <= k < |s| ==> IsDigit(s[k]) || s[k] == '_'
  {
    if s == [] then 0
    else if s[|s| - 1] == '_' then DigitsValue(s[..|s| - 1])
    else 10 * DigitsValue(s[..|s| - 1]) + DigitValue(s[|s| - 1])
  }

  function DigitValue(c: char): nat
    requires IsDigit(c)
  {
    c as int - '0' as int
  }

  /** `int(s)`: surrounding whitespace is ignored, one optional sign, then a
      digit body; anything else is a `ValueError`, here `None`. */
  function ParseInt(s: string): Option<int> {
    var t := Strip(s);
    if t == [] then None
    else
      var body := if t[0] == '-' || t[0] == '+' then t[1..] else t;
      if !DigitBody(body) then None
      else
        var v: int := DigitsValue(body);
        Some(if t[0] == '-' then -v else v)
  }

  /** `str(n)`: the decimal digits of `n`, the way the menu numbers the models. */
  function Decimal(n: nat): (s: string)
    ensures s != [] && forall k :: 0 <= k < |s| ==> IsDigit(s[k])
  {
    if n < 10 then [('0' as int + n) as char]
    else Decimal(n / 10) + [('0' as int + n % 10) as char]
  }

  /** `int()` reads back every decimal number. */
  lemma {:induction false} DigitsValueOfDecimal(n: nat)
    ensures DigitsValue(Decimal(n)) == n
  {
    var s := Decimal(n);
    if n >= 10 {
      DigitsValueOfDecimal(n / 10);
      assert s[..|s| - 1] == Decimal(n / 10);
    }
  }

  lemma ParseIntOfDecimal(n: nat)
    ensures ParseInt(Decimal(n)) == Some(n)
  {
    var s := Decimal(n);
    StripUnpadded(s);
    assert !IsDigit('-') && !IsDigit('+');
    assert s[0] != '-' && s[0] != '+';
    assert DigitBody(s);
    DigitsValueOfDecimal(n);
  }

  // ---------------------------------------------------------------------
  // The choice rule of get_user_model_choice

  /** What one typed line does at the model prompt. */
  datatype LineChoice = Quit | Pick(model: string) | Retry

  /** `q` in either case quits; a number from 1 to the number of models
      picks that model; anything else asks again. */
  function ChoiceRule(line: string, models: seq<string>): LineChoice {
    if LowerStr(line) == "q" then Quit
    else match ParseInt(line)
      case None => Retry
      case Some(k) => if 0 <= k - 1 < |models| then Pick(models[k - 1]) else Retry
  }

  /** Only `q` and `Q` quit. */
  lemma QuitIffQ(line: string, models: seq<string>)
    ensures ChoiceRule(line, models) == Quit <==> line == "q" || line == "Q"
  {
    if LowerStr(line) == "q" {
      assert |line| == 1 && Lower(line[0]) == 'q';
      assert line == [line[0]];
    }
    if line == "Q" {
      assert LowerStr(line)[0] == 'q';
    }
  }

  /** The confirmation and retry answers (`input(...).lower() == 'y'`)
      accept exactly `y` and `Y`. */
  lemma ConfirmIffY(answer: string)
    ensures LowerStr(answer) == "y" <==> answer == "y" || answer == "Y"
  {
    LowerIsLetter(answer, 'y');
  }

  /** Menu number `k` picks the `k`-th model, and the numbers just outside
      the menu are refused. */
  lemma MenuNumbersPick(models: seq<string>, k: nat)
    ensures 1 <= k <= |models| ==> ChoiceRule(Decimal(k), models) == Pick(models[k - 1])
    ensures k == 0 || k > |models| ==> ChoiceRule(Decimal(k), models) == Retry
  {
    ParseIntOfDecimal(k);
  }

  /** `int()` ignores surrounding whitespace: " 2\t" picks the second model. */
  lemma ChoiceOfPaddedNumber()
    ensures ChoiceRule(" 2\t", ModelNames) == Pick("base")
  {
    assert LowerStr(" 2\t")[1] == '2';
    assert TrimLeft(" 2\t") == TrimLeft("2\t") == "2\t";
    assert TrimRight("2\t") == TrimRight("2") == "2";
  }

  /** A plus sign is accepted: "+3" is the third model. */
  lemma ChoiceOfPlusSign()
    ensures ChoiceRule("+3", ModelNames) == Pick("small")
  {
    assert LowerStr("+3")[0] == '+';
    StripUnpadded("+3");
    var body := "+3"[1..];
    assert body == "3" && DigitBody(body);
    assert DigitsValue(body) == 10 * DigitsValue([]) + 3;
  }

  /** Single underscores between digits are accepted: "0_4" is the fourth
      model. */
  lemma ChoiceOfUnderscore()
    ensures ChoiceRule("0_4", ModelNames) == Pick("medium")
  {
    var s := "0_4";
    assert LowerStr(s)[0] == '0';
    StripUnpadded(s);
    assert s[0] == '0' && s[1] == '_' && s[2] == '4';
    assert DigitBody(s);
    assert s[..2] == "0_" && "0_"[..1] == "0" && "0"[..0] == [];
    assert DigitsValue("0") == 0;
    assert DigitsValue("0_") == 0;
    assert DigitsValue(s) == 4;
  }

  /** A double underscore, a decimal point and a negative number ask again. */
  lemma ChoiceOfMalformedNumbers()
    ensures ChoiceRule("1__0", ModelNames) == Retry
    ensures ChoiceRule("2.0", ModelNames) == Retry
    ensures ChoiceRule("-1", ModelNames) == Retry
  {
    assert LowerStr("1__0")[0] == '1';
    StripUnpadded("1__0");
    assert "1__0"[1] == '_' && "1__0"[2] == '_';
    assert LowerStr("2.0")[0] == '2';
    StripUnpadded("2.0");
    assert "2.0"[1] == '.';
    assert LowerStr("-1")[0] == '-';
    StripUnpadded("-1");
  }

  /** A picked model is always one of the offered ones. */
  lemma PickIsOffered(line: string, models: seq<string>)
    ensures ChoiceRule(line, models).Pick? ==> ChoiceRule(line, models).model in models
  {
  }

  /** The result of the whole prompt: a model, a cancellation, or the input
      ran out. */
  datatype Choice = Chosen(model: string) | Cancelled | InputEnded

  /** The rule of the model prompt: `ChoiceRule` over the model table. */
  function MenuRule(line: string): LineChoice {
    ChoiceRule(line, ModelNames)
  }

  /** The prompt's answer under a per-line rule, and the lines left after it. */
  function FirstChoice(rule: string -> LineChoice, lines: seq<string>): (r: (Choice, seq<string>))
    ensures r.0 != InputEnded ==> |r.1| < |lines|
  {
    if lines == [] then (InputEnded, [])
    else match rule(lines[0])
      case Quit => (Cancelled, lines[1..])
      case Pick(m) => (Chosen(m), lines[1..])
      case Retry => FirstChoice(rule, lines[1..])
  }

  /** The position of the first line that quits or picks a model, or the
      number of lines when there is none. */
  function FirstDecisive(rule: string -> LineChoice, lines: seq<string>): (i: nat)
    ensures i <= |lines|
    ensures forall k :: 0 <= k < i ==> rule(lines[k]) == Retry
    ensures i < |lines| ==> rule(lines[i]) != Retry
  {
    if lines == [] || rule(lines[0]) != Retry then 0
    else 1 + FirstDecisive(rule, lines[1..])
  }

  /** The choice a decisive line stands for. */
  function Decision(c: LineChoice): Choice
    requires c != Retry
  {
    if c == Quit then Cancelled else Chosen(c.model)
  }

  /** The prompt answers with the first decisive line and leaves the lines
      after it; without one the input runs out. */
  lemma {:induction false} FirstChoiceSpec(rule: string -> LineChoice, lines: seq<string>)
    ensures var i := FirstDecisive(rule, lines);
      FirstChoice(rule, lines) == if i == |lines| then (InputEnded, [])
                                  else (Decision(rule(lines[i])), lines[i + 1..])
  {
    if lines != [] && rule(lines[0]) == Retry {
      FirstChoiceSpec(rule, lines[1..]);
      var i := FirstDecisive(rule, lines[1..]);
      if i < |lines[1..]| {
        assert lines[1..][i + 1..] == lines[i + 2..];
      }
    }
  }

  /** A model chosen at the prompt is one of the offered ones. */
  lemma ChosenIsAvailable(lines: seq<string>)
    ensures FirstChoice(MenuRule, lines).0.Chosen? ==> IsAvailable(FirstChoice(MenuRule, lines).0.model)
  {
    FirstChoiceSpec(MenuRule, lines);
    var i := FirstDecisive(MenuRule, lines);
    if i < |lines| {
      PickIsOffered(lines[i], ModelNames);
    }
  }

  /** A first line that quits cancels the prompt. */
  lemma QuitAtOnce(lines: seq<string>)
    requires lines != [] && MenuRule(lines[0]) == Quit
    ensures FirstChoice(MenuRule, lines).0 == Cancelled
  {
  }

  /** The prompt's answer from line `i` on: that line's verdict, or the
      answer from the next line when it asks again. */
  lemma FirstChoiceAt(rule: string -> LineChoice, lines: seq<string>, i: nat)
    requires i < |lines|
    ensures FirstChoice(rule, lines[i..]) ==
      match rule(lines[i])
        case Quit => (Cancelled, lines[i + 1..])
        case Pick(m) => (Chosen(m), lines[i + 1..])
        case Retry => FirstChoice(rule, lines[i + 1..])
  {
    assert lines[i..][1..] == lines[i + 1..];
  }

  /** `get_user_model_choice`: reads lines until one quits or picks a model. */
  method GetUserModelChoice(lines: seq<string>) returns (c: Choice, rest: seq<string>)
    ensures (c, rest) == FirstChoice(MenuRule, lines)
    ensures c != InputEnded ==> |rest| < |lines|
  {
    var i := 0;
    while i < |lines|
      invariant 0 <= i <= |lines|
      invariant FirstChoice(MenuRule, lines[i..]) == FirstChoice(MenuRule, lines)
    {
      var line := lines[i];
      FirstChoiceAt(MenuRule, lines, i);
      if LowerStr(line) == "q" {
        assert MenuRule(line) == Quit;
        return Cancelled, lines[i + 1..];
      }
      var choice := ParseInt(line);
      if choice.Some? && 0 <= choice.value - 1 < |ModelNames| {
        assert MenuRule(line) == Pick(ModelNames[choice.value - 1]);
        return Chosen(ModelNames[choice.value - 1]), lines[i + 1..];
      }
      assert MenuRule(line) == Retry;
      i := i + 1;
    }
    return InputEnded, [];
  }

  // ---------------------------------------------------------------------
  // Download and the setup loop

  /** What `check_disk_space` answers: whether there is room, and its message. */
  datatype SpaceCheck = SpaceCheck(hasSpace: bool, message: string)

  /** `handle_model_download`: without room the download is not attempted
      and the space message is returned; otherwise the answer is exactly
      that of `download_model`. */
  method HandleModelDownload(manager: ModelManager, name: string, space: SpaceCheck, outcome: DownloadOutcome)
    returns (ok: bool, msg: string)
    modifies manager`present
    ensures !space.hasSpace ==> !ok && msg == space.message && manager.present == old(manager.present)
    ensures space.hasSpace ==>
      && manager.present == (if IsAvailable(name) && outcome.Fetched? then old(manager.present) + outcome.added else old(manager.present))
      && (ok <==> IsAvailable(name) && outcome.Fetched? && manager.LocationOf(name) != Nowhere)
      && (!IsAvailable(name) ==> msg == InvalidName(name))
      && (ok ==> msg == "Model downloaded successfully to " + LocationName(manager.LocationOf(name)))
      && (IsAvailable(name) && outcome.FetchRaised? ==> msg == "Error downloading model: " + outcome.error)
      && (IsAvailable(name) && outcome.Fetched? && !ok ==> msg == "Model download failed: Model not found after download")
  {
    if !space.hasSpace {
      return false, space.message;
    }
    ok, msg := manager.DownloadModel(name, outcome);
  }

  /** How setup ended: with `run_setup`'s boolean, or because the input ran out. */
  datatype SetupResult = Finished(completed: bool) | InputRanOut

  /** The end of a setup run: how it ended, the paths that exist afterwards,
      and the model it made active, if any. */
  datatype SetupRun = SetupRun(result: SetupResult, present: set<Path>, selected: Option<string>)

  /** What `run_setup` does on the typed `lines`, when `present` are the
      paths that exist and `attempt` downloads were tried before. A model is
      picked at the prompt; a confirmation other than `y` goes back to the
      prompt; a confirmed download that leaves the model installed makes it
      active and completes setup; a failed one asks whether to retry. */
  function SetupOutcome(m: ModelManager, present: set<Path>, lines: seq<string>, attempt: nat,
                        space: nat -> SpaceCheck, fetch: nat -> DownloadOutcome): SetupRun
    decreases |lines|
  {
    var (choice, after) := FirstChoice(MenuRule, lines);
    match choice
    case InputEnded => SetupRun(InputRanOut, present, None)
    case Cancelled => SetupRun(Finished(false), present, None)
    case Chosen(model) =>
      if after == [] then SetupRun(InputRanOut, present, None)
      else if LowerStr(after[0]) != "y" then SetupOutcome(m, present, after[1..], attempt, space, fetch)
      else
        var fetched := space(attempt).hasSpace && IsAvailable(model) && fetch(attempt).Fetched?;
        var grown := if fetched then present + fetch(attempt).added else present;
        if fetched && m.LocationAmong(model, grown) != Nowhere then SetupRun(Finished(true), grown, Some(model))
        else if after[1..] == [] then SetupRun(InputRanOut, grown, None)
        else if LowerStr(after[1]) != "y" then SetupRun(Finished(false), grown, None)
        else SetupOutcome(m, grown, after[2..], attempt + 1, space, fetch)
  }

  /** Setup completes exactly when it made a model active, and that model is
      one of the offered ones and is installed; the paths that existed
      before still exist. */
  lemma {:induction false} SetupCompletesOnlyInstalled(m: ModelManager, present: set<Path>, lines: seq<string>, attempt: nat,
                                                      space: nat -> SpaceCheck, fetch: nat -> DownloadOutcome)
    ensures var run := SetupOutcome(m, present, lines, attempt, space, fetch);
      && (run.result == Finished(true) <==> run.selected.Some?)
      && (run.selected.Some? ==> IsAvailable(run.selected.value) && m.LocationAmong(run.selected.value, run.present) != Nowhere)
      && present <= run.present
    decreases |lines|
  {
    var (choice, after) := FirstChoice(MenuRule, lines);
    if choice.Chosen? && after != [] {
      var model := choice.model;
      var fetched := space(attempt).hasSpace && IsAvailable(model) && fetch(attempt).Fetched?;
      var grown := if fetched then present + fetch(attempt).added else present;
      if LowerStr(after[0]) != "y" {
        SetupCompletesOnlyInstalled(m, present, after[1..], attempt, space, fetch);
      } else if !(fetched && m.LocationAmong(model, grown) != Nowhere) && after[1..] != [] && LowerStr(after[1]) == "y" {
        SetupCompletesOnlyInstalled(m, grown, after[2..], attempt + 1, space, fetch);
      }
    }
  }

  /** A first line that quits ends setup at once, downloading nothing. */
  lemma QuitEndsSetup(m: ModelManager, present: set<Path>, lines: seq<string>, attempt: nat,
                      space: nat -> SpaceCheck, fetch: nat -> DownloadOutcome)
    requires lines != [] && MenuRule(lines[0]) == Quit
    ensures SetupOutcome(m, present, lines, attempt, space, fetch) == SetupRun(Finished(false), present, None)
  {
    QuitAtOnce(lines);
  }

  /** Without input, setup cannot even ask for a model. */
  lemma NoInputNoSetup(m: ModelManager, present: set<Path>, attempt: nat,
                       space: nat -> SpaceCheck, fetch: nat -> DownloadOutcome)
    ensures SetupOutcome(m, present, [], attempt, space, fetch) == SetupRun(InputRanOut, present, None)
  {
  }

  /** A model picked and then not confirmed sends setup back to the model
      prompt, with nothing downloaded. */
  lemma DeclinedChoiceAsksAgain(m: ModelManager, present: set<Path>, pick: string, answer: string, rest: seq<string>,
                                attempt: nat, space: nat -> SpaceCheck, fetch: nat -> DownloadOutcome)
    requires MenuRule(pick).Pick? && LowerStr(answer) != "y"
    ensures SetupOutcome(m, present, [pick, answer] + rest, attempt, space, fetch)
         == SetupOutcome(m, present, rest, attempt, space, fetch)
  {
    var lines := [pick, answer] + rest;
    assert lines[0] == pick && lines[1..] == [answer] + rest;
    assert FirstChoice(MenuRule, lines) == (Chosen(MenuRule(pick).model), [answer] + rest);
    assert ([answer] + rest)[1..] == rest;
  }

  /** `run_setup`. The disk-space answer and the download outcome of the
      n-th download attempt are `space(n)` and `fetch(n)`; `saveFails` says
      whether writing the configuration fails. The run ends as
      `SetupOutcome` says; the model it selects becomes the current model
      and is written to the configuration, and otherwise the selection and
      the configuration are left as they were. */
  method RunSetup(manager: ModelManager, lines: seq<string>, space: nat -> SpaceCheck,
                  fetch: nat -> DownloadOutcome, saveFails: bool) returns (r: SetupResult)
    modifies manager`present, manager`currentModel, manager`configFile
    ensures var run := SetupOutcome(manager, old(manager.present), lines, 0, space, fetch);
      && r == run.result && manager.present == run.present
      && (run.selected.None? ==>
            manager.currentModel == old(manager.currentModel) && manager.configFile == old(manager.configFile))
      && (run.selected.Some? ==>
            && manager.currentModel == run.selected
            && manager.configFile == if saveFails then old(manager.configFile)
                                     else Some(LoadedConfig(old(manager.configFile))["current_model" := run.selected.value]))
  {
    var rest := lines;
    var attempt: nat := 0;
    while true
      invariant SetupOutcome(manager, manager.present, rest, attempt, space, fetch)
             == SetupOutcome(manager, old(manager.present), lines, 0, space, fetch)
      invariant manager.currentModel == old(manager.currentModel) && manager.configFile == old(manager.configFile)
      decreases |rest|
    {
      var choice, after := GetUserModelChoice(rest);
      if choice == InputEnded {
        return InputRanOut;
      } else if choice == Cancelled {
        return Finished(false);
      }
      var model := choice.model;
      if after == [] {
        return InputRanOut;
      }
      var confirm := LowerStr(after[0]);
      rest := after[1..];
      if confirm == "y" {
        var ok, message := HandleModelDownload(manager, model, space(attempt), fetch(attempt));
        attempt := attempt + 1;
        if ok {
          var _, _ := manager.SetActiveModel(model, saveFails);
          return Finished(true);
        }
        if rest == [] {
          return InputRanOut;
        }
        var retry := LowerStr(rest[0]);
        rest := rest[1..];
        if retry != "y" {
          return Finished(false);
        }
      }
    }
  }
}
