/**
 * The service runner: the command a module's systemd service starts with, and
 * how the runner turns its arguments back into a module to import and a
 * function to call.
 */
module ServiceRunner {
  import Strs

  /** The runner's executable, with systemd's `%h` standing for the user's home folder. */
  const RUNNER := "%h/.local/bin/loytra-service-runner"

  /** `get_service_run_command(module, function="")` */
  function ServiceRunCommand(modName: string, funcName: string := ""): string {
    var result := RUNNER + (" '" + modName + "'");
    if |funcName| > 0 then result + (" '" + funcName + "'") else result
  }

  /** One effect of the runner on the interpreter. */
  datatype Step =
    | /** `importlib.import_module(module)` */
      Import(modName: string)
    | /** `getattr(module, function)()` */
      CallFunction(modName: string, funcName: string)

  /** `_call_module_function(module, function="")` */
  function CallModuleFunction(modName: string, funcName: string := ""): (steps: seq<Step>)
    ensures |steps| > 0 && steps[0] == Import(modName)
    ensures CallFunction(modName, funcName) in steps <==> |funcName| > 0
    ensures forall s | s in steps[1..] :: s == CallFunction(modName, funcName)
  {
    [Import(modName)] + if |funcName| > 0 then [CallFunction(modName, funcName)] else []
  }

  /** `run_systemd_service`, after it has told systemd that the service is ready. */
  function RunSystemdService(argv: seq<string>): seq<Step> {
    if |argv| >= 3 then CallModuleFunction(argv[1], argv[2])
    else if |argv| == 2 then CallModuleFunction(argv[1])
    else []
  }

  /**
   * Without a module argument nothing is imported; otherwise the module is
   * imported, a function is called exactly when a non-empty third argument
   * names one, and later arguments are ignored.
   */
  lemma RunSystemdServiceSpec(argv: seq<string>)
    ensures |argv| < 2 <==> RunSystemdService(argv) == []
    ensures |argv| >= 2 ==> RunSystemdService(argv)[0] == Import(argv[1])
    ensures (exists s :: s in RunSystemdService(argv) && s.CallFunction?) <==> |argv| >= 3 && |argv[2]| > 0
    ensures |argv| > 3 ==> RunSystemdService(argv) == RunSystemdService(argv[..3])
  {
    if |argv| >= 3 && |argv[2]| > 0 {
      assert RunSystemdService(argv)[1].CallFunction?;
    }
  }

  /** Drops one pair of single quotes around a word. */
  function Unquote(w: string): (r: string)
    ensures |w| >= 2 && w[0] == '\'' && w[|w| - 1] == '\'' ==> "'" + r + "'" == w
    ensures !(|w| >= 2 && w[0] == '\'' && w[|w| - 1] == '\'') ==> r == w
  {
    if |w| >= 2 && w[0] == '\'' && w[|w| - 1] == '\'' then w[1..|w| - 1] else w
  }

  /** Unquoting undoes quoting. */
  lemma UnquoteQuoted(w: string)
    ensures Unquote("'" + w + "'") == w
  {
    var q := "'" + w + "'";
    assert q[1..|q| - 1] == w;
  }

  /**
   * The arguments a command line gives the program, for words without spaces
   * or quotes inside: the line split at spaces, each word unquoted.
   */
  function CommandWords(cmd: string): (argv: seq<string>)
    ensures |argv| == |Strs.Split(cmd, ' ')|
  {
    var words := Strs.Split(cmd, ' ');
    seq(|words|, i requires 0 <= i < |words| => Unquote(words[i]))
  }

  ghost predicate Plain(w: string) {
    ' ' !in w && '\'' !in w
  }

  /** The words of the run command: the runner, the module and, when given, the function. */
  lemma CommandSplit(modName: string, funcName: string)
    requires Plain(modName) && Plain(funcName)
    ensures Strs.Split(ServiceRunCommand(modName, funcName), ' ')
      == [RUNNER, "'" + modName + "'"] + if |funcName| > 0 then ["'" + funcName + "'"] else []
  {
    var qm, qf := "'" + modName + "'", "'" + funcName + "'";
    var cmd := ServiceRunCommand(modName, funcName);
    RunnerPlain();
    QuotedWord(modName);
    SpaceQuoted(modName);
    if |funcName| > 0 {
      QuotedWord(funcName);
      SpaceQuoted(funcName);
      calc {
        cmd;
        RUNNER + (" '" + modName + "'") + (" '" + funcName + "'");
        RUNNER + ([' '] + qm) + ([' '] + qf);
        { TwoWords(RUNNER, qm, qf); }
        RUNNER + [' '] + (qm + [' '] + qf);
      }
      calc {
        Strs.Split(cmd, ' ');
        { Strs.SplitCons(RUNNER, ' ', qm + [' '] + qf); }
        [RUNNER] + Strs.Split(qm + [' '] + qf, ' ');
        { Strs.SplitCons(qm, ' ', qf); }
        [RUNNER] + ([qm] + [qf]);
        [RUNNER, qm] + [qf];
      }
    } else {
      calc {
        cmd;
        RUNNER + (" '" + modName + "'");
        RUNNER + ([' '] + qm);
        RUNNER + [' '] + qm;
      }
      calc {
        Strs.Split(cmd, ' ');
        { Strs.SplitCons(RUNNER, ' ', qm); }
        [RUNNER] + [qm];
        [RUNNER, qm] + [];
      }
    }
  }

  lemma RunnerPlain()
    ensures ' ' !in RUNNER
  {
    assert forall i | 0 <= i < |RUNNER| :: RUNNER[i] != ' ';
  }

  /** A quoted plain word holds no space, so it splits into itself. */
  lemma QuotedWord(w: string)
    requires Plain(w)
    ensures ' ' !in "'" + w + "'"
    ensures Strs.Split("'" + w + "'", ' ') == ["'" + w + "'"]
  {
    assert ' ' !in "'";
  }

  lemma SpaceQuoted(w: string)
    ensures " '" + w + "'" == [' '] + ("'" + w + "'")
  {
    assert " '" == [' '] + "'";
  }

  lemma TwoWords(r: string, a: string, b: string)
    ensures r + ([' '] + a) + ([' '] + b) == r + [' '] + (a + [' '] + b)
  {
  }

  /**
   * The service started with the run command imports the module it names and
   * calls the function it names, or none when none is named.
   */
  lemma RunCommandRoundTrip(modName: string, funcName: string)
    requires Plain(modName) && Plain(funcName)
    ensures RunSystemdService(CommandWords(ServiceRunCommand(modName, funcName)))
      == CallModuleFunction(modName, funcName)
  {
    CommandSplit(modName, funcName);
    var words := Strs.Split(ServiceRunCommand(modName, funcName), ' ');
    var argv := CommandWords(ServiceRunCommand(modName, funcName));
    UnquoteQuoted(modName);
    assert argv[1] == Unquote(words[1]) == modName;
    if |funcName| > 0 {
      UnquoteQuoted(funcName);
      assert argv[2] == Unquote(words[2]) == funcName;
      assert RunSystemdService(argv) == CallModuleFunction(argv[1], argv[2]);
    } else {
      assert RunSystemdService(argv) == CallModuleFunction(argv[1]);
    }
  }
}
