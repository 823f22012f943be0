/**
 * The packager tree of a module: `Packager` and its composite kinds
 * `PackagerGroup` and `MultiPackager`, the env-file line editor of
 * `PackagerExecToPath`, and the name split of `PackagerRepoPacman`.
 *
 * The packagers that shell out (user groups, files, udev rules, package
 * repositories, pip) are `Leaf` nodes whose outcomes are given: whether they are
 * in sync, whether their `sync` and `unsync` succeed, and their status text.
 */
module Packagers {
  import opened Wrappers
  import Strs

  datatype Packager =
    | /** `Packager` itself */
      Base(name: string)
    | /** a packager that shells out, with the outcomes of its commands */
      Leaf(name: string, synced: bool, syncOk: bool, unsyncOk: bool, status: string)
    | /** `PackagerGroup` */
      Group(name: string, children: seq<Packager>)
    | /**
       * `MultiPackager`; `selection` is the number typed at its prompt, `None`
       * when the input is not an integer.
       */
      Multi(name: string, packagers: seq<Packager>, selection: Option<int>)

  /** `sync` or `unsync` */
  datatype Action = Sync | Unsync

  // ---------------------------------------------------------------------------
  // is_sync and get_status

  /** `is_sync()` */
  function IsSync(p: Packager): bool
    decreases p
  {
    match p
    case Base(_) => false
    case Leaf(_, synced, _, _, _) => synced
    case Group(_, cs) => AllSynced(cs)
    case Multi(_, ps, _) => AnySynced(ps)
  }

  /** `all([c.is_sync() for c in children])` */
  function AllSynced(cs: seq<Packager>): bool
    decreases cs
  {
    if |cs| == 0 then true else IsSync(cs[0]) && AllSynced(cs[1..])
  }

  /** The loop of `MultiPackager.is_sync`: true at the first synced packager. */
  function AnySynced(ps: seq<Packager>): bool
    decreases ps
  {
    if |ps| == 0 then false else IsSync(ps[0]) || AnySynced(ps[1..])
  }

  /** A group is in sync exactly when all of its children are (so an empty group is). */
  lemma {:induction false} GroupIsSync(name: string, cs: seq<Packager>)
    ensures IsSync(Group(name, cs)) <==> forall i | 0 <= i < |cs| :: IsSync(cs[i])
  {
    AllSyncedSpec(cs);
  }

  lemma {:induction false} AllSyncedSpec(cs: seq<Packager>)
    ensures AllSynced(cs) <==> forall i | 0 <= i < |cs| :: IsSync(cs[i])
  {
    if |cs| > 0 {
      AllSyncedSpec(cs[1..]);
      assert forall i | 1 <= i < |cs| :: cs[i] == cs[1..][i - 1];
    }
  }

  /** A multi-packager is in sync exactly when one of its packagers is. */
  lemma {:induction false} MultiIsSync(name: string, ps: seq<Packager>, selection: Option<int>)
    ensures IsSync(Multi(name, ps, selection)) <==> exists i | 0 <= i < |ps| :: IsSync(ps[i])
  {
    AnySyncedSpec(ps);
  }

  lemma {:induction false} AnySyncedSpec(ps: seq<Packager>)
    ensures AnySynced(ps) <==> exists i | 0 <= i < |ps| :: IsSync(ps[i])
  {
    if |ps| > 0 {
      AnySyncedSpec(ps[1..]);
      if AnySynced(ps[1..]) {
        var i :| 0 <= i < |ps[1..]| && IsSync(ps[1..][i]);
        assert IsSync(ps[i + 1]);
      }
      if exists i | 0 <= i < |ps| :: IsSync(ps[i]) {
        var i :| 0 <= i < |ps| && IsSync(ps[i]);
        if i > 0 {
          assert ps[1..][i - 1] == ps[i];
        }
      }
    }
  }

  /** The statuses of the synced packagers, in order. */
  function SyncedStatuses(ps: seq<Packager>): seq<string>
    decreases ps
  {
    if |ps| == 0 then []
    else (if IsSync(ps[0]) then [Status(ps[0])] else []) + SyncedStatuses(ps[1..])
  }

  /** `get_status()`: empty for the base class and for groups. */
  function Status(p: Packager): string
    decreases p
  {
    match p
    case Base(_) => ""
    case Leaf(_, _, _, _, status) => status
    case Group(_, _) => ""
    case Multi(_, ps, _) => Strs.Join(SyncedStatuses(ps), '|')
  }

  /**
   * The status of a multi-packager with a synced packager splits at `|` back
   * into the statuses of its synced packagers, in order, when none holds a `|`.
   */
  lemma MultiStatusSplits(name: string, ps: seq<Packager>, selection: Option<int>)
    requires AnySynced(ps)
    requires forall i | 0 <= i < |ps| :: '|' !in Status(ps[i])
    ensures Strs.Split(Status(Multi(name, ps, selection)), '|') == SyncedStatuses(ps)
  {
    var statuses := SyncedStatuses(ps);
    SyncedStatusesSpec(ps);
    forall j | 0 <= j < |statuses|
      ensures '|' !in statuses[j]
    {
      assert statuses[j] in statuses;
    }
    Strs.SplitJoin(statuses, '|');
  }

  /** The synced statuses are statuses of packagers, and there is one when a packager is synced. */
  lemma {:induction false} SyncedStatusesSpec(ps: seq<Packager>)
    ensures AnySynced(ps) ==> |SyncedStatuses(ps)| >= 1
    ensures forall s | s in SyncedStatuses(ps) :: exists i | 0 <= i < |ps| :: IsSync(ps[i]) && s == Status(ps[i])
  {
    if |ps| > 0 {
      SyncedStatusesSpec(ps[1..]);
      forall s | s in SyncedStatuses(ps)
        ensures exists i | 0 <= i < |ps| :: IsSync(ps[i]) && s == Status(ps[i])
      {
        if !(IsSync(ps[0]) && s == Status(ps[0])) {
          var i :| 0 <= i < |ps[1..]| && IsSync(ps[1..][i]) && s == Status(ps[1..][i]);
          assert ps[i + 1] == ps[1..][i];
        }
      }
    }
  }

  // ---------------------------------------------------------------------------
  // sync and unsync

  /**
   * Python's `xs[i]` for an integer index: negative indices count from the end;
   * `None` when the index raises `IndexError`.
   */
  function PyIndex(n: nat, i: int): (r: Option<nat>)
    ensures r.Some? ==> r.value < n
  {
    if 0 <= i < n then Some(i) else if i < 0 && 0 <= n + i then Some(n + i) else None
  }

  /** The packager a multi-packager's `sync` runs: the one selected at the prompt, if the input indexes one. */
  function Selected(ps: seq<Packager>, selection: Option<int>): (r: Option<nat>)
    ensures r.Some? ==> r.value < |ps|
  {
    if selection.None? then None else PyIndex(|ps|, selection.value)
  }

  /** What `sync()` or `unsync()` returns. */
  function Result(p: Packager, act: Action): bool
    decreases p
  {
    match p
    case Base(_) => false
    case Leaf(_, _, syncOk, unsyncOk, _) => if act == Sync then syncOk else unsyncOk
    case Group(_, cs) => AllSucceed(cs, act)
    case Multi(_, ps, selection) =>
      if act == Unsync then true
      else
        match Selected(ps, selection)
        case None => false
        case Some(i) => Result(ps[i], Sync)
  }

  /** The `all_success` flag of a group's loop over the children `cs`. */
  function AllSucceed(cs: seq<Packager>, act: Action): bool
    decreases cs
  {
    if |cs| == 0 then true else AllSucceed(cs[..|cs| - 1], act) && Result(cs[|cs| - 1], act)
  }

  /**
   * The packagers whose own `sync` or `unsync` command runs, in order: the base
   * and leaf packagers reached by the call.
   */
  function Calls(p: Packager, act: Action): seq<string>
    decreases p
  {
    match p
    case Base(name) => [name]
    case Leaf(name, _, _, _, _) => [name]
    case Group(_, cs) => ChildCalls(cs, act)
    case Multi(_, ps, selection) =>
      if act == Unsync then SyncedUnsyncCalls(ps)
      else
        match Selected(ps, selection)
        case None => []
        case Some(i) => Calls(ps[i], Sync)
  }

  /** The calls made by a group's loop over the children `cs`: every child, in order. */
  function ChildCalls(cs: seq<Packager>, act: Action): seq<string>
    decreases cs
  {
    if |cs| == 0 then [] else ChildCalls(cs[..|cs| - 1], act) + Calls(cs[|cs| - 1], act)
  }

  /** The calls made by `MultiPackager.unsync`'s loop over `ps`: only the synced packagers are unsynced. */
  function SyncedUnsyncCalls(ps: seq<Packager>): seq<string>
    decreases ps
  {
    if |ps| == 0 then []
    else SyncedUnsyncCalls(ps[..|ps| - 1]) + (if IsSync(ps[|ps| - 1]) then Calls(ps[|ps| - 1], Unsync) else [])
  }

  lemma AllSucceedSnoc(cs: seq<Packager>, i: nat, act: Action)
    requires i < |cs|
    ensures AllSucceed(cs[..i + 1], act) == (AllSucceed(cs[..i], act) && Result(cs[i], act))
    ensures ChildCalls(cs[..i + 1], act) == ChildCalls(cs[..i], act) + Calls(cs[i], act)
    ensures SyncedUnsyncCalls(cs[..i + 1]) ==
      SyncedUnsyncCalls(cs[..i]) + (if IsSync(cs[i]) then Calls(cs[i], Unsync) else [])
  {
    assert cs[..i + 1][..i] == cs[..i];
  }

  /**
   * `sync()` / `unsync()`. A group runs the action on every child, without
   * stopping at a failure, and succeeds when all children did; a multi-packager
   * syncs the packager selected at its prompt (an input that does not index one
   * fails), and unsyncs every packager that is in sync, succeeding regardless.
   */
  method Run(p: Packager, act: Action) returns (ok: bool, calls: seq<string>)
    ensures ok == Result(p, act) && calls == Calls(p, act)
    decreases p
  {
    match p
    case Base(name) =>
      ok, calls := false, [name];
    case Leaf(name, _, syncOk, unsyncOk, _) =>
      ok, calls := if act == Sync then syncOk else unsyncOk, [name];
    case Group(_, cs) =>
      ok, calls := true, [];
      for i := 0 to |cs|
        invariant ok == AllSucceed(cs[..i], act) && calls == ChildCalls(cs[..i], act)
      {
        AllSucceedSnoc(cs, i, act);
        var childOk, childCalls := Run(cs[i], act);
        if !childOk {
          ok := false;
        }
        calls := calls + childCalls;
      }
      assert cs[..|cs|] == cs;
    case Multi(_, ps, selection) =>
      if act == Sync {
        var i := Selected(ps, selection);
        if i.None? {
          ok, calls := false, [];
        } else {
          ok, calls := Run(ps[i.value], Sync);
        }
      } else {
        calls := [];
        for i := 0 to |ps|
          invariant calls == SyncedUnsyncCalls(ps[..i])
        {
          AllSucceedSnoc(ps, i, act);
          if IsSync(ps[i]) {
            var _, childCalls := Run(ps[i], Unsync);
            calls := calls + childCalls;
          }
        }
        assert ps[..|ps|] == ps;
        ok := true;
      }
  }

  /** A group succeeds exactly when every child does. */
  lemma {:induction false} GroupResult(cs: seq<Packager>, act: Action)
    ensures AllSucceed(cs, act) <==> forall i | 0 <= i < |cs| :: Result(cs[i], act)
  {
    if |cs| > 0 {
      var n := |cs| - 1;
      GroupResult(cs[..n], act);
      assert forall i | 0 <= i < n :: cs[..n][i] == cs[i];
    }
  }

  /** A group runs the action on every child, also on those after one that failed. */
  lemma {:induction false} GroupCallsEveryChild(cs: seq<Packager>, act: Action, i: nat)
    requires i < |cs|
    ensures forall x | x in Calls(cs[i], act) :: x in ChildCalls(cs, act)
  {
    var n := |cs| - 1;
    if i < n {
      GroupCallsEveryChild(cs[..n], act, i);
      assert cs[..n][i] == cs[i];
    }
  }

  /** A multi-packager's `unsync` touches only packagers that are in sync. */
  lemma {:induction false} MultiUnsyncOnlySynced(ps: seq<Packager>)
    ensures forall x | x in SyncedUnsyncCalls(ps) :: exists i | 0 <= i < |ps| :: IsSync(ps[i]) && x in Calls(ps[i], Unsync)
  {
    if |ps| > 0 {
      var n := |ps| - 1;
      MultiUnsyncOnlySynced(ps[..n]);
      forall x | x in SyncedUnsyncCalls(ps)
        ensures exists i | 0 <= i < |ps| :: IsSync(ps[i]) && x in Calls(ps[i], Unsync)
      {
        if x !in SyncedUnsyncCalls(ps[..n]) {
          assert IsSync(ps[n]) && x in Calls(ps[n], Unsync);
        } else {
          var i :| 0 <= i < n && IsSync(ps[..n][i]) && x in Calls(ps[..n][i], Unsync);
          assert ps[..n][i] == ps[i];
        }
      }
    }
  }

  /** The base class reports nothing in sync, fails both actions and has an empty status. */
  lemma BaseDefaults(name: string)
    ensures !IsSync(Base(name)) && Status(Base(name)) == ""
    ensures !Result(Base(name), Sync) && !Result(Base(name), Unsync)
  {
  }

  // ---------------------------------------------------------------------------
  // PackagerExecToPath

  /** `generate_path_line()` */
  function PathLine(path: string): string {
    "export PATH=$PATH:" + path
  }

  /** The lines of `lines` that are in neither list, in order. */
  function Kept(lines: seq<string>, toAdd: Option<seq<string>>, toRemove: Option<seq<string>>): (r: seq<string>)
    ensures forall l | l in r :: l in lines
  {
    if |lines| == 0 then []
    else
      var rest := Kept(lines[1..], toAdd, toRemove);
      if Dropped(lines[0], toAdd, toRemove) then rest else [lines[0]] + rest
  }

  /** Whether the editor deletes a line: it is listed to be added or to be removed. */
  predicate Dropped(l: string, toAdd: Option<seq<string>>, toRemove: Option<seq<string>>) {
    (toAdd.Some? && l in toAdd.value) || (toRemove.Some? && l in toRemove.value)
  }

  /** The file contents after the edit: the kept lines, then the lines to add. */
  function Edited(lines: seq<string>, toAdd: Option<seq<string>>, toRemove: Option<seq<string>>): seq<string> {
    Kept(lines, toAdd, toRemove) + (if toAdd.Some? then toAdd.value else [])
  }

  /**
   * `add_and_remove_lines_from_file`: `file` is the env file's lines, `None` when
   * it does not exist; `written` is what is written back. A missing file is left
   * alone; the edit always reports success.
   */
  method EditLines(file: Option<seq<string>>, toAdd: Option<seq<string>>, toRemove: Option<seq<string>>)
    returns (written: Option<seq<string>>, ok: bool)
    ensures ok
    ensures file.None? ==> written.None?
    ensures file.Some? ==> written == Some(Edited(file.value, toAdd, toRemove))
  {
    written := None;
    if file.Some? {
      ghost var orig := file.value;
      var lines := file.value;
      var i := |lines|;
      assert orig[..i] == orig && orig[i..] == [];
      while i > 0
        invariant 0 <= i <= |orig|
        invariant lines == orig[..i] + Kept(orig[i..], toAdd, toRemove)
      {
        i := i - 1;
        BackStep(orig, i, lines, toAdd, toRemove);
        if (toAdd.Some? && lines[i] in toAdd.value) || (toRemove.Some? && lines[i] in toRemove.value) {
          lines := lines[..i] + lines[i + 1..];
        }
      }
      assert orig[..0] == [] && orig[0..] == orig;
      assert lines == Kept(orig, toAdd, toRemove);
      if toAdd.Some? {
        lines := lines + toAdd.value;
      } else {
        assert lines + [] == lines;
      }
      written := Some(lines);
    }
    ok := true;
  }

  /** One step of the backwards scan: line `i` is deleted exactly when it is dropped. */
  lemma BackStep(orig: seq<string>, i: nat, lines: seq<string>, toAdd: Option<seq<string>>, toRemove: Option<seq<string>>)
    requires i < |orig| && lines == orig[..i + 1] + Kept(orig[i + 1..], toAdd, toRemove)
    ensures i < |lines| && lines[i] == orig[i]
    ensures Dropped(orig[i], toAdd, toRemove) ==> lines[..i] + lines[i + 1..] == orig[..i] + Kept(orig[i..], toAdd, toRemove)
    ensures !Dropped(orig[i], toAdd, toRemove) ==> lines == orig[..i] + Kept(orig[i..], toAdd, toRemove)
  {
    var rest := Kept(orig[i + 1..], toAdd, toRemove);
    KeptAt(orig, i, toAdd, toRemove);
    assert orig[..i + 1] == orig[..i] + [orig[i]];
    assert lines == orig[..i] + ([orig[i]] + rest);
    assert lines[..i] == orig[..i] && lines[i + 1..] == rest;
  }

  /** The lines kept from position `i` on, one line at a time. */
  lemma KeptAt(lines: seq<string>, i: nat, toAdd: Option<seq<string>>, toRemove: Option<seq<string>>)
    requires i < |lines|
    ensures Kept(lines[i..], toAdd, toRemove) ==
      if Dropped(lines[i], toAdd, toRemove) then Kept(lines[i + 1..], toAdd, toRemove)
      else [lines[i]] + Kept(lines[i + 1..], toAdd, toRemove)
  {
    assert lines[i..][1..] == lines[i + 1..];
  }

  /** The kept lines are exactly the lines that are not dropped. */
  lemma {:induction false} KeptSpec(lines: seq<string>, toAdd: Option<seq<string>>, toRemove: Option<seq<string>>)
    ensures forall l | l in Kept(lines, toAdd, toRemove) :: !Dropped(l, toAdd, toRemove)
    ensures forall l | l in lines && !Dropped(l, toAdd, toRemove) :: l in Kept(lines, toAdd, toRemove)
  {
    if |lines| > 0 {
      KeptSpec(lines[1..], toAdd, toRemove);
      assert forall l | l in lines && l != lines[0] :: l in lines[1..];
    }
  }

  /** Keeping lines twice keeps the same lines. */
  lemma {:induction false} KeptTwice(lines: seq<string>, toAdd: Option<seq<string>>, toRemove: Option<seq<string>>)
    ensures Kept(Kept(lines, toAdd, toRemove), toAdd, toRemove) == Kept(lines, toAdd, toRemove)
  {
    if |lines| > 0 {
      KeptTwice(lines[1..], toAdd, toRemove);
      var rest := Kept(lines[1..], toAdd, toRemove);
      if !Dropped(lines[0], toAdd, toRemove) {
        assert ([lines[0]] + rest)[1..] == rest;
      }
    }
  }

  /** The lines appended by the edit are all dropped by the next one. */
  lemma {:induction false} KeptDropsAdded(kept: seq<string>, added: seq<string>, toAdd: Option<seq<string>>, toRemove: Option<seq<string>>)
    requires forall l | l in added :: Dropped(l, toAdd, toRemove)
    ensures Kept(kept + added, toAdd, toRemove) == Kept(kept, toAdd, toRemove)
  {
    if |kept| > 0 {
      assert (kept + added)[1..] == kept[1..] + added;
      KeptDropsAdded(kept[1..], added, toAdd, toRemove);
    } else if |added| > 0 {
      assert Dropped(added[0], toAdd, toRemove);
      KeptDropsAdded([], added[1..], toAdd, toRemove);
      assert kept + added == added && [] + added[1..] == added[1..];
      assert Kept(added, toAdd, toRemove) == Kept(added[1..], toAdd, toRemove);
    }
  }

  /** Repeating an edit changes nothing more. */
  lemma EditIdempotent(lines: seq<string>, toAdd: Option<seq<string>>, toRemove: Option<seq<string>>)
    ensures Edited(Edited(lines, toAdd, toRemove), toAdd, toRemove) == Edited(lines, toAdd, toRemove)
  {
    var kept := Kept(lines, toAdd, toRemove);
    var added := if toAdd.Some? then toAdd.value else [];
    assert forall l | l in added :: Dropped(l, toAdd, toRemove);
    KeptDropsAdded(kept, added, toAdd, toRemove);
    KeptTwice(lines, toAdd, toRemove);
  }

  /** `PackagerExecToPath.sync`'s edit of the env file; it reports success. */
  method ExecToPathSync(file: Option<seq<string>>, path: string) returns (written: Option<seq<string>>, ok: bool)
    ensures ok
    ensures file.None? ==> written.None?
    ensures file.Some? ==> written == Some(Edited(file.value, Some([PathLine(path)]), None))
  {
    written, ok := EditLines(file, Some([PathLine(path)]), None);
    ok := true;
  }

  /** `PackagerExecToPath.unsync`: the edit's own result. */
  method ExecToPathUnsync(file: Option<seq<string>>, path: string) returns (written: Option<seq<string>>, ok: bool)
    ensures ok
    ensures file.None? ==> written.None?
    ensures file.Some? ==> written == Some(Edited(file.value, None, Some([PathLine(path)])))
  {
    written, ok := EditLines(file, None, Some([PathLine(path)]));
  }

  /** After `sync` the path line occurs exactly once, as the last line, and the other lines are kept in order. */
  lemma SyncLeavesOnePathLine(lines: seq<string>, path: string)
    ensures var r := Edited(lines, Some([PathLine(path)]), None);
      && |r| > 0 && r[|r| - 1] == PathLine(path)
      && multiset(r)[PathLine(path)] == 1
      && r[..|r| - 1] == Kept(lines, Some([PathLine(path)]), None)
  {
    var line := PathLine(path);
    var kept := Kept(lines, Some([line]), None);
    KeptSpec(lines, Some([line]), None);
    assert line !in kept;
    assert multiset(kept)[line] == 0;
    var r := kept + [line];
    assert r[..|r| - 1] == kept;
  }

  /** After `unsync` no line is the path line, and every other line is kept. */
  lemma UnsyncRemovesPathLine(lines: seq<string>, path: string)
    ensures var r := Edited(lines, None, Some([PathLine(path)]));
      && PathLine(path) !in r
      && forall l | l in lines && l != PathLine(path) :: l in r
  {
    KeptSpec(lines, None, Some([PathLine(path)]));
  }

  // ---------------------------------------------------------------------------
  // PackagerRepoPacman

  /** `PackagerRepoPacman.__init__`: `repo` and `package` are fields 0 and 1 of the `/`-split name; a name without `/` raises. */
  function PacmanNames(packageName: string): (r: Outcome<(string, string)>)
    ensures r.Returns? <==> '/' in packageName
  {
    var parts := Strs.Split(packageName, '/');
    if |parts| < 2 then Raises else Returns((parts[0], parts[1]))
  }

  /** A `repo/package` name with `/`-free parts splits back into them. */
  lemma PacmanNamesRoundTrip(repo: string, package: string)
    requires '/' !in repo && '/' !in package
    ensures PacmanNames(repo + "/" + package) == Returns((repo, package))
  {
    Strs.SplitCons(repo, '/', package);
    Strs.SplitJoin([package], '/');
  }
}
