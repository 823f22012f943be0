/**
 * The systemd user-service side of a module: `Servicer`'s settings, the filling
 * of the unit-file template, and the `journalctl` command of `logs`.
 */
module Servicers {
  import opened Wrappers
  import Strs

  /** `Servicer`: the settings given at construction, never changed afterwards. */
  datatype Servicer = Servicer(
    name: string,
    execStart: seq<string>,
    description: seq<string>,
    serviceType: seq<string>,
    environment: seq<string>,
    execStartPre: seq<string>)

  /** `Servicer(name, exec_start, description, type="simple", environment=(), exec_start_pre=())` */
  function NewServicer(name: string, execStart: string, description: string, serviceType: string := "simple",
                       environment: seq<string> := [], execStartPre: seq<string> := []): (s: Servicer)
    ensures s.name == name
    ensures s.execStart == [execStart] && s.description == [description] && s.serviceType == [serviceType]
    ensures s.environment == environment && s.execStartPre == execStartPre
  {
    Servicer(name, [execStart], [description], [serviceType], environment, execStartPre)
  }

  /** `PythonServicer`: a `notify` service with unbuffered Python output. */
  function PythonServicer(name: string, execStart: string, description: string): Servicer {
    NewServicer(name, execStart, description, "notify", ["PYTHONUNBUFFERED=true"])
  }

  /** The settings of a `PythonServicer`, and those left at `Servicer`'s defaults. */
  lemma PythonServicerSettings(name: string, execStart: string, description: string)
    ensures var s := PythonServicer(name, execStart, description);
      && s.serviceType == ["notify"] && s.environment == ["PYTHONUNBUFFERED=true"] && s.execStartPre == []
      && s.execStart == [execStart] && s.description == [description]
    ensures NewServicer(name, execStart, description).serviceType == ["simple"]
  {
  }

  // ---------------------------------------------------------------------------
  // The unit file

  const DESCRIPTION := "Description="
  const EXEC_START := "ExecStart="
  const TYPE := "Type="
  const ENVIRONMENT := "Environment="
  const EXEC_START_PRE := "ExecStartPre="

  /** `SYSTEMD_SERVICE_TEMPLATE` */
  const TEMPLATE: seq<string> := [
    "[Unit]",
    DESCRIPTION,
    "StartLimitIntervalSec=0",
    "",
    "[Service]",
    TYPE,
    ENVIRONMENT,
    EXEC_START_PRE,
    EXEC_START,
    "TimeoutStopSec=2",
    "",
    "Restart=always",
    "RestartSec=1",
    "",
    "[Install]",
    "WantedBy=default.target"
  ]

  /** The index of the first line that contains `field`. */
  function FirstContaining(lines: seq<string>, field: string): (r: Option<nat>)
    ensures r.None? <==> forall i | 0 <= i < |lines| :: !Strs.Contains(lines[i], field)
    ensures r.Some? ==> r.value < |lines| && Strs.Contains(lines[r.value], field)
    ensures r.Some? ==> forall i | 0 <= i < r.value :: !Strs.Contains(lines[i], field)
  {
    if |lines| == 0 then None
    else if Strs.Contains(lines[0], field) then Some(0)
    else
      var r := FirstContaining(lines[1..], field);
      assert forall i | 1 <= i < |lines| :: lines[i] == lines[1..][i - 1];
      if r.None? then None else Some(r.value + 1)
  }

  /** The value lines `field + v`, one per value. */
  function Prefixed(field: string, values: seq<string>): (r: seq<string>)
    ensures |r| == |values|
    ensures forall j | 0 <= j < |values| :: r[j] == field + values[j]
  {
    if |values| == 0 then [] else Prefixed(field, values[..|values| - 1]) + [field + values[|values| - 1]]
  }

  /** `s` in reverse order. */
  function Reversed<T>(s: seq<T>): (r: seq<T>)
    ensures |r| == |s|
    ensures forall j | 0 <= j < |s| :: r[j] == s[|s| - 1 - j]
  {
    if |s| == 0 then [] else [s[|s| - 1]] + Reversed(s[..|s| - 1])
  }

  /**
   * `_add_field_values_to_file_lines` on `lines`: the first line containing
   * `field` is replaced by the value lines, which come out in reverse order. A
   * match at line 0 counts as no match (the values are dropped, yet line 0 is
   * removed), and no match at all raises (`pop(None)`).
   */
  function Filled(field: string, values: seq<string>, lines: seq<string>): Outcome<seq<string>> {
    match FirstContaining(lines, field)
    case None => Raises
    case Some(i) =>
      if i == 0 then Returns(lines[1..])
      else Returns(lines[..i] + Reversed(Prefixed(field, values)) + lines[i + 1..])
  }

  /** Deleting the element right after `pre` leaves the rest in order. */
  lemma DropAt<T>(pre: seq<T>, x: T, mid: seq<T>, post: seq<T>)
    ensures var l := pre + [x] + mid + post; l[..|pre|] + l[|pre| + 1..] == pre + mid + post
  {
    var l := pre + [x] + mid + post;
    assert l[..|pre|] == pre;
    assert l[|pre| + 1..] == mid + post;
  }

  /** The list `file_lines` that the template filler edits in place. */
  class FileLines {
    var lines: seq<string>

    /** `list(SYSTEMD_SERVICE_TEMPLATE)`: a copy; the template itself is a constant. */
    constructor (template: seq<string>)
      ensures lines == template
    {
      lines := template;
    }

    /** `_add_field_values_to_file_lines(field, values, self)`; `raised` when `pop` raises, leaving the lines as they were. */
    method AddFieldValues(field: string, values: seq<string>) returns (raised: bool)
      modifies this
      ensures Filled(field, values, old(lines)) == if raised then Raises else Returns(lines)
      ensures raised ==> lines == old(lines)
    {
      var index := FirstContaining(lines, field);
      if index.None? {
        return true;
      }
      var i := index.value;
      ghost var orig := lines;
      if i != 0 {
        InsertValues(i, field, values);
        assert orig[..i + 1] == orig[..i] + [orig[i]];
        DropAt(orig[..i], orig[i], Reversed(Prefixed(field, values)), orig[i + 1..]);
      } else {
        assert lines[..0] + lines[1..] == lines[1..];
      }
      lines := lines[..i] + lines[i + 1..];
      raised := false;
    }

    /** The loop of `file_lines.insert(index + 1, field + value)`: each value lands right after line `i`. */
    method InsertValues(i: nat, field: string, values: seq<string>)
      requires i < |lines|
      modifies this
      ensures lines == old(lines)[..i + 1] + Reversed(Prefixed(field, values)) + old(lines)[i + 1..]
    {
      ghost var orig := lines;
      assert orig[..i + 1] + [] + orig[i + 1..] == orig;
      for k := 0 to |values|
        invariant lines == orig[..i + 1] + Reversed(Prefixed(field, values[..k])) + orig[i + 1..]
      {
        ghost var done := Reversed(Prefixed(field, values[..k]));
        assert values[..k + 1][..k] == values[..k];
        assert Reversed(Prefixed(field, values[..k + 1])) == [field + values[k]] + done;
        InsertAfter(orig, i, done, field + values[k]);
        lines := lines[..i + 1] + [field + values[k]] + lines[i + 1..];
      }
      assert values[..|values|] == values;
    }
  }

  /** Inserting `line` right after line `i` puts it in front of the lines inserted there before. */
  lemma InsertAfter(orig: seq<string>, i: nat, done: seq<string>, line: string)
    requires i < |orig|
    ensures var cur := orig[..i + 1] + done + orig[i + 1..];
      cur[..i + 1] + [line] + cur[i + 1..] == orig[..i + 1] + ([line] + done) + orig[i + 1..]
  {
    var cur := orig[..i + 1] + done + orig[i + 1..];
    assert cur[..i + 1] == orig[..i + 1];
    assert cur[i + 1..] == done + orig[i + 1..];
  }

  /**
   * When the first line containing `field` is not the first line, the value lines
   * take its place in reverse order and the other lines are unchanged, so the
   * file grows by `|values| - 1` lines (an empty `values` just removes it).
   */
  lemma FilledSpec(field: string, values: seq<string>, lines: seq<string>, i: nat)
    requires FirstContaining(lines, field) == Some(i) && i > 0
    ensures var r := Filled(field, values, lines).value;
      && |r| == |lines| + |values| - 1
      && r[..i] == lines[..i]
      && r[i + |values|..] == lines[i + 1..]
      && forall j | i <= j < i + |values| :: r[j] == field + values[|values| - 1 - (j - i)]
  {
    var mid := Reversed(Prefixed(field, values));
    var r := lines[..i] + mid + lines[i + 1..];
    assert r[..i] == lines[..i];
    assert r[i + |values|..] == lines[i + 1..];
    forall j | i <= j < i + |values|
      ensures r[j] == field + values[|values| - 1 - (j - i)]
    {
      assert r[j] == mid[j - i];
    }
  }

  /** A field found only at line 0 drops its values but still loses line 0; a missing field raises. */
  lemma FilledQuirks(field: string, values: seq<string>, lines: seq<string>)
    ensures |lines| > 0 && Strs.Contains(lines[0], field) ==> Filled(field, values, lines) == Returns(lines[1..])
    ensures (forall i | 0 <= i < |lines| :: !Strs.Contains(lines[i], field)) ==> Filled(field, values, lines).Raises?
  {
  }

  /** `_generate_systemd_service`, as a function: the five fields filled in turn on a copy of the template. */
  function Generated(s: Servicer): Outcome<seq<string>> {
    match Filled(DESCRIPTION, s.description, TEMPLATE)
    case Raises => Raises
    case Returns(l1) =>
      match Filled(EXEC_START, s.execStart, l1)
      case Raises => Raises
      case Returns(l2) =>
        match Filled(TYPE, s.serviceType, l2)
        case Raises => Raises
        case Returns(l3) =>
          match Filled(ENVIRONMENT, s.environment, l3)
          case Raises => Raises
          case Returns(l4) => Filled(EXEC_START_PRE, s.execStartPre, l4)
  }

  /** `_generate_systemd_service` */
  method GenerateService(s: Servicer) returns (r: Outcome<seq<string>>)
    ensures r == Generated(s)
  {
    var file := new FileLines(TEMPLATE);
    var raised := file.AddFieldValues(DESCRIPTION, s.description);
    if raised { return Raises; }
    raised := file.AddFieldValues(EXEC_START, s.execStart);
    if raised { return Raises; }
    raised := file.AddFieldValues(TYPE, s.serviceType);
    if raised { return Raises; }
    raised := file.AddFieldValues(ENVIRONMENT, s.environment);
    if raised { return Raises; }
    raised := file.AddFieldValues(EXEC_START_PRE, s.execStartPre);
    if raised { return Raises; }
    r := Returns(file.lines);
  }

  // ---------------------------------------------------------------------------
  // Filling never raises

  /** An occurrence of `p` in `s` puts each character of `p` in `s`. */
  lemma {:induction false} ContainsChars(s: string, p: string, c: char)
    requires Strs.Contains(s, p) && c in p
    ensures c in s
    decreases |s|
  {
    if Strs.StartsWith(s, p) {
      assert c in s[..|p|];
    } else {
      ContainsChars(s[1..], p, c);
    }
  }

  /** `ExecStart=` does not occur in `ExecStartPre=`: its `=` would have to be the last character. */
  lemma ExecStartNotInPre()
    ensures !Strs.Contains(EXEC_START_PRE, EXEC_START)
  {
    var s, p := EXEC_START_PRE, EXEC_START;
    assert !Strs.StartsWith(s, p) by { assert s[9] != p[9]; }
    assert !Strs.StartsWith(s[1..], p) by { assert s[1..][9] != p[9]; }
    assert !Strs.StartsWith(s[2..], p) by { assert s[2..][9] != p[9]; }
    assert !Strs.StartsWith(s[3..], p) by { assert s[3..][0] != p[0]; }
    assert !Strs.Contains(s[4..], p) by { FewerNoContain(s[4..], p); }
    assert s[1..][1..] == s[2..] && s[2..][1..] == s[3..] && s[3..][1..] == s[4..];
  }

  /** A string shorter than `p` does not contain it. */
  lemma {:induction false} FewerNoContain(s: string, p: string)
    requires |s| < |p|
    ensures !Strs.Contains(s, p)
    decreases |s|
  {
    if |s| > 0 {
      FewerNoContain(s[1..], p);
    }
  }

  /** Line 0 stays `[Unit]` and the given placeholders are still there: the file is ready for the next field. */
  ghost predicate Ready(lines: seq<string>, pending: seq<string>) {
    |lines| > 0 && lines[0] == "[Unit]" && forall f | f in pending :: f in lines
  }

  /**
   * Filling `field` into a ready file finds it past line 0, and keeps every
   * pending placeholder that does not contain `field`.
   */
  lemma FillStep(field: string, values: seq<string>, lines: seq<string>, pending: seq<string>)
    requires Ready(lines, [field] + pending)
    requires |field| > 0 && field[0] !in "[Unit]"
    requires forall f | f in pending :: !Strs.Contains(f, field)
    ensures Filled(field, values, lines).Returns?
    ensures |Filled(field, values, lines).value| == |lines| + |values| - 1
    ensures Ready(Filled(field, values, lines).value, pending)
  {
    assert field in [field] + pending;
    var k :| 0 <= k < |lines| && lines[k] == field;
    assert Strs.StartsWith(lines[k], field);
    var i := FirstContaining(lines, field).value;
    if i == 0 {
      ContainsChars(lines[0], field, field[0]);
    }
    FilledSpec(field, values, lines, i);
    var r := Filled(field, values, lines).value;
    forall f | f in pending
      ensures f in r
    {
      assert f in [field] + pending;
      assert f != lines[i];
      KeptAround(lines, r, i, |values|, f);
    }
  }

  /** A line other than line `i` survives replacing line `i` by `n` lines. */
  lemma KeptAround(lines: seq<string>, r: seq<string>, i: nat, n: nat, f: string)
    requires i < |lines| && |r| == |lines| + n - 1
    requires r[..i] == lines[..i] && r[i + n..] == lines[i + 1..]
    requires f in lines && f != lines[i]
    ensures f in r
  {
    var m :| 0 <= m < |lines| && lines[m] == f;
    if m < i {
      assert r[..i][m] == lines[..i][m];
    } else {
      assert r[i + n..][m - i - 1] == lines[i + 1..][m - i - 1];
    }
  }

  /**
   * Generating the unit file of any servicer never raises: each field finds its
   * placeholder (or an earlier line containing it) past line 0, so the file has
   * the template's lines, minus the five placeholders, plus one line per value.
   */
  lemma GeneratedNeverRaises(s: Servicer)
    ensures Generated(s).Returns?
    ensures |Generated(s).value| == |TEMPLATE| - 5 + |s.description| + |s.execStart| + |s.serviceType|
      + |s.environment| + |s.execStartPre|
    ensures Generated(s).value[0] == "[Unit]"
  {
    TemplateReady();
    PlaceholdersApart();
    PlaceholdersStartApart();
    FillStep(DESCRIPTION, s.description, TEMPLATE, [EXEC_START, TYPE, ENVIRONMENT, EXEC_START_PRE]);
    var l1 := Filled(DESCRIPTION, s.description, TEMPLATE).value;
    FillStep(EXEC_START, s.execStart, l1, [TYPE, ENVIRONMENT, EXEC_START_PRE]);
    var l2 := Filled(EXEC_START, s.execStart, l1).value;
    FillStep(TYPE, s.serviceType, l2, [ENVIRONMENT, EXEC_START_PRE]);
    var l3 := Filled(TYPE, s.serviceType, l2).value;
    FillStep(ENVIRONMENT, s.environment, l3, [EXEC_START_PRE]);
    var l4 := Filled(ENVIRONMENT, s.environment, l3).value;
    FillStep(EXEC_START_PRE, s.execStartPre, l4, []);
  }

  /** The template starts with `[Unit]` and holds the five placeholders. */
  lemma TemplateReady()
    ensures Ready(TEMPLATE, [DESCRIPTION, EXEC_START, TYPE, ENVIRONMENT, EXEC_START_PRE])
  {
    assert TEMPLATE[1] == DESCRIPTION && TEMPLATE[8] == EXEC_START && TEMPLATE[5] == TYPE;
    assert TEMPLATE[6] == ENVIRONMENT && TEMPLATE[7] == EXEC_START_PRE;
  }

  /** No placeholder starts with a character of the first line, `[Unit]`. */
  lemma PlaceholdersStartApart()
    ensures DESCRIPTION[0] !in "[Unit]" && EXEC_START[0] !in "[Unit]" && TYPE[0] !in "[Unit]"
    ensures ENVIRONMENT[0] !in "[Unit]" && EXEC_START_PRE[0] !in "[Unit]"
  {
  }

  /** No placeholder holds one filled before it. */
  lemma PlaceholdersApart()
    ensures forall f | f in [EXEC_START, TYPE, ENVIRONMENT, EXEC_START_PRE] :: !Strs.Contains(f, DESCRIPTION)
    ensures forall f | f in [TYPE, ENVIRONMENT, EXEC_START_PRE] :: !Strs.Contains(f, EXEC_START)
    ensures forall f | f in [ENVIRONMENT, EXEC_START_PRE] :: !Strs.Contains(f, TYPE)
    ensures forall f | f in [EXEC_START_PRE] :: !Strs.Contains(f, ENVIRONMENT)
  {
    DescriptionApart();
    ExecStartApart();
    TypeApart();
    EnvironmentApart();
  }

  lemma DescriptionApart()
    ensures forall f | f in [EXEC_START, TYPE, ENVIRONMENT, EXEC_START_PRE] :: !Strs.Contains(f, DESCRIPTION)
  {
    assert 'D' in DESCRIPTION by { assert DESCRIPTION[0] == 'D'; }
    NotContainedByChar([EXEC_START, TYPE, ENVIRONMENT, EXEC_START_PRE], DESCRIPTION, 'D');
  }

  lemma ExecStartApart()
    ensures forall f | f in [TYPE, ENVIRONMENT, EXEC_START_PRE] :: !Strs.Contains(f, EXEC_START)
  {
    assert 'x' in EXEC_START by { assert EXEC_START[1] == 'x'; }
    NotContainedByChar([TYPE, ENVIRONMENT], EXEC_START, 'x');
    ExecStartNotInPre();
  }

  lemma TypeApart()
    ensures forall f | f in [ENVIRONMENT, EXEC_START_PRE] :: !Strs.Contains(f, TYPE)
  {
    assert 'T' in TYPE by { assert TYPE[0] == 'T'; }
    NotContainedByChar([ENVIRONMENT, EXEC_START_PRE], TYPE, 'T');
  }

  lemma EnvironmentApart()
    ensures forall f | f in [EXEC_START_PRE] :: !Strs.Contains(f, ENVIRONMENT)
  {
    assert 'n' in ENVIRONMENT by { assert ENVIRONMENT[1] == 'n'; }
    NotContainedByChar([EXEC_START_PRE], ENVIRONMENT, 'n');
  }

  /** Strings that lack a character of `p` do not contain `p`. */
  lemma NotContainedByChar(fs: seq<string>, p: string, c: char)
    requires c in p && forall f | f in fs :: c !in f
    ensures forall f | f in fs :: !Strs.Contains(f, p)
  {
    forall f | f in fs
      ensures !Strs.Contains(f, p)
    {
      if Strs.Contains(f, p) {
        ContainsChars(f, p, c);
      }
    }
  }

  // ---------------------------------------------------------------------------
  // logs

  /** The shell command `logs` runs; `since` is the text of the `since` argument, when one is given. */
  function LogsCommand(name: string, follow: bool, since: Option<string>): string {
    var window := if since.Some? then " -S " + since.value else " -n 1000";
    var mode := if follow then " -f" else " --no-pager";
    "bash -c '" + ("journalctl" + " -o short-precise" + window + mode + (" --user-unit=" + name)) + "'"
  }

  /** `logs(follow, since)`: builds the command step by step; running it is left out. */
  method Logs(s: Servicer, follow: bool, since: Option<string>) returns (cmd: string)
    ensures cmd == LogsCommand(s.name, follow, since)
  {
    cmd := "journalctl";
    cmd := cmd + " -o short-precise";
    if since.Some? {
      cmd := cmd + (" -S " + since.value);
    } else {
      cmd := cmd + " -n 1000";
    }
    if follow {
      cmd := cmd + " -f";
    } else {
      cmd := cmd + " --no-pager";
    }
    cmd := cmd + (" --user-unit=" + s.name);
    cmd := "bash -c '" + cmd + "'";
  }

  /**
   * The command runs `journalctl -o short-precise` inside `bash -c '…'` on the
   * given unit; it follows the journal exactly when asked to, and otherwise
   * disables the pager.
   */
  lemma LogsCommandShape(name: string, follow: bool, since: Option<string>)
    ensures var cmd := LogsCommand(name, follow, since);
      var unit := " --user-unit=" + name + "'";
      && Strs.StartsWith(cmd, "bash -c 'journalctl -o short-precise")
      && Strs.EndsWith(cmd, unit)
      && (follow <==> Strs.EndsWith(Strs.RemoveSuffix(cmd, unit), " -f"))
      && (!follow <==> Strs.EndsWith(Strs.RemoveSuffix(cmd, unit), " --no-pager"))
  {
    var mode := if follow then " -f" else " --no-pager";
    LogsCommandParts(name, follow, since);
    Pieces("bash -c 'journalctl -o short-precise", if since.Some? then " -S " + since.value else " -n 1000",
           mode, " --user-unit=" + name + "'");
    if follow {
      OtherSuffix(Strs.RemoveSuffix(LogsCommand(name, follow, since), " --user-unit=" + name + "'"), " -f", " --no-pager");
    } else {
      OtherSuffix(Strs.RemoveSuffix(LogsCommand(name, follow, since), " --user-unit=" + name + "'"), " --no-pager", " -f");
    }
  }

  /**
   * Between `journalctl -o short-precise` and the mode and unit, the command
   * holds its window: the entries since `since` when one is given, and the
   * last 1000 entries otherwise.
   */
  lemma LogsCommandWindow(name: string, follow: bool, since: Option<string>)
    ensures var cmd := LogsCommand(name, follow, since);
      var unit := " --user-unit=" + name + "'";
      var mode := if follow then " -f" else " --no-pager";
      var rest := Strs.RemoveSuffix(Strs.RemoveSuffix(cmd, unit), mode);
      && (since.Some? ==> Strs.EndsWith(rest, " -S " + since.value))
      && (since.None? ==> Strs.EndsWith(rest, " -n 1000"))
      && Strs.RemovePrefix(rest, "bash -c 'journalctl -o short-precise") == (if since.Some? then " -S " + since.value else " -n 1000")
  {
    LogsCommandParts(name, follow, since);
    Pieces("bash -c 'journalctl -o short-precise", if since.Some? then " -S " + since.value else " -n 1000",
           if follow then " -f" else " --no-pager", " --user-unit=" + name + "'");
  }

  /** The command is the fixed lead, then the window, the mode and the unit. */
  lemma LogsCommandParts(name: string, follow: bool, since: Option<string>)
    ensures LogsCommand(name, follow, since)
      == "bash -c 'journalctl -o short-precise" + (if since.Some? then " -S " + since.value else " -n 1000")
         + (if follow then " -f" else " --no-pager") + (" --user-unit=" + name + "'")
  {
    var window := if since.Some? then " -S " + since.value else " -n 1000";
    var mode := if follow then " -f" else " --no-pager";
    Regroup("bash -c '", "journalctl" + " -o short-precise" + window, mode, " --user-unit=" + name, "'");
    assert "bash -c '" + ("journalctl" + " -o short-precise" + window) == "bash -c 'journalctl -o short-precise" + window;
  }

  /** What the suffix and prefix operations leave of `lead + window + mode + unit`. */
  lemma Pieces(lead: string, window: string, mode: string, unit: string)
    ensures var cmd := lead + window + mode + unit;
      && Strs.StartsWith(cmd, lead)
      && Strs.EndsWith(cmd, unit) && Strs.RemoveSuffix(cmd, unit) == lead + window + mode
      && Strs.EndsWith(lead + window + mode, mode) && Strs.RemoveSuffix(lead + window + mode, mode) == lead + window
      && Strs.EndsWith(lead + window, window) && Strs.RemovePrefix(lead + window, lead) == window
  {
    assert lead + window + mode + unit == lead + (window + mode + unit);
    Strs.StartsWithConcat(lead, window + mode + unit);
    ThreeParts(lead + window, mode, unit);
    ThreeParts(lead, window, mode);
    Strs.StartsWithConcat(lead, window);
    assert (lead + window)[|lead|..] == window;
  }

  /** A string that ends with `p` does not end with a `q` whose last character differs. */
  lemma OtherSuffix(s: string, p: string, q: string)
    requires Strs.EndsWith(s, p) && |p| > 0 && |q| > 0 && p[|p| - 1] != q[|q| - 1]
    ensures !Strs.EndsWith(s, q)
  {
    assert s[|s| - 1] == s[|s| - |p|..][|p| - 1];
  }

  lemma Regroup(a: string, x: string, m: string, u: string, q: string)
    ensures a + (x + m + u) + q == (a + x) + m + (u + q)
  {
  }

  /** In `a + m + u`, `u` is the suffix, and what is left ends with `m`. */
  lemma ThreeParts(a: string, m: string, u: string)
    ensures Strs.EndsWith(a + m + u, u) && Strs.RemoveSuffix(a + m + u, u) == a + m
    ensures Strs.EndsWith(a + m, m)
  {
    Strs.EndsWithConcat(a + m, u);
    Strs.EndsWithConcat(a, m);
  }
}
