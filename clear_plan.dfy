/**
 * The plan of clear_routes, independent of how the table and the settings are read:
 * which interfaces are cleared, the deletes for them, and the loops that issue them.
 */
module ClearPlan {
  import opened Wrappers
  import opened Sequences
  import opened Routes
  import opened Commands

  /** re.match('[Nn][Oo]', state[:2]): the link state starts with "no" in either case ("None", "not set"). */
  predicate IsDown(state: string) {
    |state| >= 2 && (state[0] == 'N' || state[0] == 'n') && (state[1] == 'O' || state[1] == 'o')
  }

  /**
   * The clear list after the interface loop: the forced interfaces, then each listed
   * interface that is down and not safe, unless the list already holds it.
   */
  function ClearNics(force: seq<string>, nics: seq<string>, safe: seq<string>, linkState: string -> string): seq<string>
    decreases |nics|
  {
    if nics == [] then force
    else
      var n := |nics| - 1;
      var clear := ClearNics(force, nics[..n], safe, linkState);
      if nics[n] !in safe && IsDown(linkState(nics[n])) && nics[n] !in clear then clear + [nics[n]] else clear
  }

  lemma ClearNicsSnoc(force: seq<string>, nics: seq<string>, nic: string, safe: seq<string>, linkState: string -> string)
    ensures ClearNics(force, nics + [nic], safe, linkState)
         == var clear := ClearNics(force, nics, safe, linkState);
            if nic !in safe && IsDown(linkState(nic)) && nic !in clear then clear + [nic] else clear
  {
    assert (nics + [nic])[..|nics|] == nics;
  }

  /**
   * The clear list holds exactly the forced interfaces and the listed ones that are
   * down and not safe; it starts with the forced list, and each interface it adds
   * after that appears once and is not a forced one.
   */
  lemma {:induction false} ClearNicsExact(force: seq<string>, nics: seq<string>, safe: seq<string>, linkState: string -> string)
    ensures forall x :: x in ClearNics(force, nics, safe, linkState) <==>
      x in force || (x in nics && x !in safe && IsDown(linkState(x)))
    ensures force <= ClearNics(force, nics, safe, linkState)
    ensures var clear := ClearNics(force, nics, safe, linkState);
      forall i, j :: |force| <= i < j < |clear| ==> clear[i] != clear[j]
    ensures var clear := ClearNics(force, nics, safe, linkState);
      forall i :: |force| <= i < |clear| ==> clear[i] !in force
    decreases |nics|
  {
    if nics != [] {
      var n := |nics| - 1;
      var before, nic := nics[..n], nics[n];
      assert nics == before + [nic];
      ClearNicsExact(force, before, safe, linkState);
      ClearNicsSnoc(force, before, nic, safe, linkState);
      var clear := ClearNics(force, before, safe, linkState);
      forall x ensures x in ClearNics(force, nics, safe, linkState) <==>
        x in force || (x in nics && x !in safe && IsDown(linkState(x)))
      {
        assert x in nics <==> x in before || x == nic;
      }
      if nic !in safe && IsDown(linkState(nic)) && nic !in clear {
        var clear' := clear + [nic];
        assert force <= clear';
        assert forall i :: 0 <= i < |clear| ==> clear'[i] == clear[i];
      }
    }
  }

  /** An interface on the safe list but not the force list is never cleared. */
  lemma SafeNicKept(force: seq<string>, nics: seq<string>, safe: seq<string>, linkState: string -> string, nic: string)
    requires nic in safe && nic !in force
    ensures nic !in ClearNics(force, nics, safe, linkState)
  {
    ClearNicsExact(force, nics, safe, linkState);
  }

  /** An empty link state never makes an unforced interface cleared. */
  lemma EmptyStateKept(force: seq<string>, nics: seq<string>, safe: seq<string>, linkState: string -> string, nic: string)
    requires linkState(nic) == "" && nic !in force
    ensures nic !in ClearNics(force, nics, safe, linkState)
  {
    ClearNicsExact(force, nics, safe, linkState);
  }

  /** route_cmd(route=[target, mask, gateway], routeverb='delete') for a table row. */
  function DeleteCommand(row: TableRow): RouteCommand {
    RouteCommand(Delete, row.target, StrMask(row.mask), row.gateway)
  }

  /** The deletes for one interface: one per row on that interface, in table order. */
  function DeletesFor(nic: string, rows: seq<TableRow>): seq<RouteCommand>
    decreases |rows|
  {
    if rows == [] then []
    else
      var n := |rows| - 1;
      DeletesFor(nic, rows[..n]) + (if rows[n].nic == nic then [DeleteCommand(rows[n])] else [])
  }

  /** The deletes of clear_routes: interface by interface in clear-list order, each in table order. */
  function Deletes(clear: seq<string>, rows: seq<TableRow>): seq<RouteCommand>
    decreases |clear|
  {
    if clear == [] then [] else Deletes(clear[..|clear| - 1], rows) + DeletesFor(clear[|clear| - 1], rows)
  }

  lemma DeletesForSnoc(nic: string, rows: seq<TableRow>, row: TableRow)
    ensures DeletesFor(nic, rows + [row]) == DeletesFor(nic, rows) + (if row.nic == nic then [DeleteCommand(row)] else [])
  {
    assert (rows + [row])[..|rows|] == rows;
  }

  /** The deletes for one interface are those of its rows. */
  lemma {:induction false} DeletesForExact(nic: string, rows: seq<TableRow>)
    ensures forall c :: c in DeletesFor(nic, rows) <==>
      exists i :: 0 <= i < |rows| && rows[i].nic == nic && c == DeleteCommand(rows[i])
    decreases |rows|
  {
    if rows != [] {
      var n := |rows| - 1;
      var before, row := rows[..n], rows[n];
      assert rows == before + [row];
      DeletesForExact(nic, before);
      DeletesForSnoc(nic, before, row);
      forall c ensures c in DeletesFor(nic, rows) <==>
        exists i :: 0 <= i < |rows| && rows[i].nic == nic && c == DeleteCommand(rows[i])
      {
        if c in DeletesFor(nic, before) {
          var i :| 0 <= i < |before| && before[i].nic == nic && c == DeleteCommand(before[i]);
          assert rows[i] == before[i];
        }
        if exists i :: 0 <= i < |rows| && rows[i].nic == nic && c == DeleteCommand(rows[i]) {
          var i :| 0 <= i < |rows| && rows[i].nic == nic && c == DeleteCommand(rows[i]);
          if i < n {
            assert before[i] == rows[i];
          }
        }
      }
    }
  }

  /** A delete is issued exactly for the rows whose interface is on the clear list. */
  lemma {:induction false} DeletesExact(clear: seq<string>, rows: seq<TableRow>)
    ensures forall c :: c in Deletes(clear, rows) <==>
      exists i :: 0 <= i < |rows| && rows[i].nic in clear && c == DeleteCommand(rows[i])
    decreases |clear|
  {
    if clear != [] {
      var n := |clear| - 1;
      var before, nic := clear[..n], clear[n];
      assert clear == before + [nic];
      DeletesExact(before, rows);
      DeletesForExact(nic, rows);
      forall c ensures c in Deletes(clear, rows) <==>
        exists i :: 0 <= i < |rows| && rows[i].nic in clear && c == DeleteCommand(rows[i])
      {
        if exists i :: 0 <= i < |rows| && rows[i].nic in clear && c == DeleteCommand(rows[i]) {
          var i :| 0 <= i < |rows| && rows[i].nic in clear && c == DeleteCommand(rows[i]);
          assert rows[i].nic in before || rows[i].nic == nic;
        }
      }
    }
  }

  lemma {:induction false} DeletesForPrefix(nic: string, rows: seq<TableRow>, j: nat)
    requires j <= |rows|
    ensures DeletesFor(nic, rows[..j]) <= DeletesFor(nic, rows)
    decreases |rows| - j
  {
    if j < |rows| {
      var n := |rows| - 1;
      assert rows[..n][..j] == rows[..j];
      DeletesForPrefix(nic, rows[..n], j);
    } else {
      assert rows[..j] == rows;
    }
  }

  lemma {:induction false} DeletesPrefix(clear: seq<string>, rows: seq<TableRow>, i: nat)
    requires i <= |clear|
    ensures Deletes(clear[..i], rows) <= Deletes(clear, rows)
    decreases |clear| - i
  {
    if i < |clear| {
      var n := |clear| - 1;
      assert clear[..n][..i] == clear[..i];
      DeletesPrefix(clear[..n], rows, i);
    } else {
      assert clear[..i] == clear;
    }
  }

  /** The interface loop of clear_routes, extending the forced list. */
  method CollectClearNics(force: seq<string>, nics: seq<string>, safeList: seq<string>, linkState: string -> string)
    returns (clearNics: seq<string>)
    ensures clearNics == ClearNics(force, nics, safeList, linkState)
  {
    clearNics := force;
    var k := 0;
    while k < |nics|
      invariant 0 <= k <= |nics|
      invariant clearNics == ClearNics(force, nics[..k], safeList, linkState)
    {
      var nic := nics[k];
      ClearNicsSnoc(force, nics[..k], nic, safeList, linkState);
      assert nics[..k + 1] == nics[..k] + [nic];
      if nic !in safeList {
        if IsDown(linkState(nic)) {
          if nic !in clearNics {
            clearNics := clearNics + [nic];
          }
        }
      }
      k := k + 1;
    }
    assert nics[..k] == nics;
  }

  /**
   * The inner delete loop of clear_routes: each row of the table on the interface is
   * deleted in table order, continuing the run so far; a failing command stops it.
   */
  method DeleteRoutesOf(ghost front: seq<RouteCommand>, nic: string, rows: seq<TableRow>, run: Runner,
                        log0: seq<RouteCommand>, outs0: seq<string>)
    returns (log: seq<RouteCommand>, outs: seq<string>, failed: bool)
    requires RunAll(front, run) == Outcome(log0, Ok(outs0))
    ensures RunAll(front + DeletesFor(nic, rows), run) == Outcome(log, if failed then Err(CalledProcessError) else Ok(outs))
  {
    log, outs := log0, outs0;
    var j := 0;
    assert front + DeletesFor(nic, rows[..0]) == front;
    while j < |rows|
      invariant 0 <= j <= |rows|
      invariant RunAll(front + DeletesFor(nic, rows[..j]), run) == Outcome(log, Ok(outs))
    {
      ghost var done := front + DeletesFor(nic, rows[..j]);
      DeletesForSnoc(nic, rows[..j], rows[j]);
      assert rows[..j + 1] == rows[..j] + [rows[j]];
      if nic == rows[j].nic {
        var command := DeleteCommand(rows[j]);
        RunAllSnoc(done, command, run);
        assert front + DeletesFor(nic, rows[..j + 1]) == done + [command];
        var out := run(log, command);
        log := log + [command];
        if out.None? {
          DeletesForPrefix(nic, rows, j + 1);
          PrefixAppend(front, DeletesFor(nic, rows[..j + 1]), DeletesFor(nic, rows));
          RunAllStops(done + [command], front + DeletesFor(nic, rows), run);
          return log, outs, true;
        }
        outs := outs + [out.value];
      } else {
        assert front + DeletesFor(nic, rows[..j + 1]) == done;
      }
      j := j + 1;
    }
    assert rows[..j] == rows;
    failed := false;
  }

  /**
   * The nested delete loops of clear_routes: for each interface on the clear list,
   * each row of the table on that interface is deleted; the stdouts are discarded and
   * a failing command raises and stops the deletes.
   */
  method IssueDeletes(clearNics: seq<string>, rows: seq<TableRow>, run: Runner)
    returns (log: seq<RouteCommand>, r: Result<()>)
    ensures log == RunAll(Deletes(clearNics, rows), run).log
    ensures r.Ok? <==> RunAll(Deletes(clearNics, rows), run).result.Ok?
    ensures r.Err? ==> r.error == RunAll(Deletes(clearNics, rows), run).result.error
  {
    log := [];
    var outs: seq<string> := [];
    var i := 0;
    while i < |clearNics|
      invariant 0 <= i <= |clearNics|
      invariant RunAll(Deletes(clearNics[..i], rows), run) == Outcome(log, Ok(outs))
    {
      var nic := clearNics[i];
      assert clearNics[..i + 1][..i] == clearNics[..i];
      assert Deletes(clearNics[..i + 1], rows) == Deletes(clearNics[..i], rows) + DeletesFor(nic, rows);
      var failed;
      log, outs, failed := DeleteRoutesOf(Deletes(clearNics[..i], rows), nic, rows, run, log, outs);
      if failed {
        DeletesPrefix(clearNics, rows, i + 1);
        RunAllStops(Deletes(clearNics[..i + 1], rows), Deletes(clearNics, rows), run);
        return log, Err(CalledProcessError);
      }
      i := i + 1;
    }
    assert clearNics[..i] == clearNics;
    r := Ok(());
  }
}
