/**
 * The `route` commands the scripts issue through subprocess.check_output, which
 * returns a command's stdout or raises CalledProcessError; the first failing
 * command ends the run.
 */
module Commands {
  import opened Wrappers
  import opened Routes
  import opened Sequences

  /**
   * subprocess.check_output on one `route` command, given the commands the run has
   * already issued: its stdout, or None where it raises CalledProcessError. The history
   * lets a command fail because an earlier one changed the table, as a second identical
   * `route add` does with "File exists".
   */
  type Runner = (seq<RouteCommand>, RouteCommand) -> Option<string>

  /** The commands issued so far, in order, and the stdouts collected or the error that stopped the run. */
  datatype Outcome = Outcome(log: seq<RouteCommand>, result: Result<seq<string>>)

  /** Issuing one more command after a run that has not failed. */
  function Issue(log: seq<RouteCommand>, outs: seq<string>, command: RouteCommand, run: Runner): (o: Outcome)
    ensures o.log == log + [command]
    ensures o.result.Ok? <==> run(log, command).Some?
  {
    match run(log, command)
    case None => Outcome(log + [command], Err(CalledProcessError))
    case Some(out) => Outcome(log + [command], Ok(outs + [out]))
  }

  /** Issuing commands one after the other, stopping at the first that fails. */
  function RunAll(commands: seq<RouteCommand>, run: Runner): Outcome
    decreases |commands|
  {
    if commands == [] then Outcome([], Ok([]))
    else
      var n := |commands| - 1;
      var o := RunAll(commands[..n], run);
      if o.result.Err? then o else Issue(o.log, o.result.value, commands[n], run)
  }

  lemma RunAllSnoc(commands: seq<RouteCommand>, command: RouteCommand, run: Runner)
    ensures RunAll(commands + [command], run)
         == var o := RunAll(commands, run);
            if o.result.Err? then o else Issue(o.log, o.result.value, command, run)
  {
    assert (commands + [command])[..|commands|] == commands;
  }

  /**
   * What a run issues: a prefix of the commands; all of them with one stdout each when
   * it succeeds, and otherwise up to and including the first command that fails.
   */
  lemma RunAllShape(commands: seq<RouteCommand>, run: Runner)
    ensures RunAll(commands, run).log <= commands
    ensures RunAll(commands, run).result.Ok? ==>
      RunAll(commands, run).log == commands
      && |RunAll(commands, run).result.value| == |commands|
      && forall i :: 0 <= i < |commands| ==> run(commands[..i], commands[i]) == Some(RunAll(commands, run).result.value[i])
    ensures RunAll(commands, run).result.Err? ==>
      var log := RunAll(commands, run).log;
      RunAll(commands, run).result.error == CalledProcessError
      && log != [] && run(log[..|log| - 1], log[|log| - 1]).None?
      && forall i :: 0 <= i < |log| - 1 ==> run(log[..i], log[i]).Some?
  {
    RunAllPrefix(commands, run);
    if RunAll(commands, run).result.Ok? {
      RunAllOk(commands, run);
    } else {
      RunAllErr(commands, run);
    }
  }

  /** A run logs a prefix of its commands, and all of them, one stdout each, when it succeeds. */
  lemma {:induction false} RunAllPrefix(commands: seq<RouteCommand>, run: Runner)
    ensures RunAll(commands, run).log <= commands
    ensures RunAll(commands, run).result.Ok? ==>
      RunAll(commands, run).log == commands && |RunAll(commands, run).result.value| == |commands|
    decreases |commands|
  {
    if commands != [] {
      var n := |commands| - 1;
      RunAllPrefix(commands[..n], run);
      RunAllSnoc(commands[..n], commands[n], run);
      assert commands == commands[..n] + [commands[n]];
    }
  }

  /** In a run that succeeds, each command succeeded after those before it, giving its stdout. */
  lemma {:induction false} RunAllOk(commands: seq<RouteCommand>, run: Runner)
    requires RunAll(commands, run).result.Ok?
    ensures |RunAll(commands, run).result.value| == |commands|
    ensures forall i :: 0 <= i < |commands| ==> run(commands[..i], commands[i]) == Some(RunAll(commands, run).result.value[i])
    decreases |commands|
  {
    if commands != [] {
      var n := |commands| - 1;
      var before, command := commands[..n], commands[n];
      assert commands == before + [command];
      RunAllSnoc(before, command, run);
      RunAllPrefix(before, run);
      RunAllOk(before, run);
      var o, o' := RunAll(before, run), RunAll(commands, run);
      forall i | 0 <= i < |commands|
        ensures run(commands[..i], commands[i]) == Some(o'.result.value[i])
      {
        if i < n {
          assert commands[i] == before[i] && commands[..i] == before[..i];
          assert o'.result.value[i] == o.result.value[i];
        }
      }
    }
  }

  /** A run that fails ends with the one command that failed, after commands that all succeeded. */
  lemma {:induction false} RunAllErr(commands: seq<RouteCommand>, run: Runner)
    requires RunAll(commands, run).result.Err?
    ensures var log := RunAll(commands, run).log;
      RunAll(commands, run).result.error == CalledProcessError
      && log != [] && run(log[..|log| - 1], log[|log| - 1]).None?
      && forall i :: 0 <= i < |log| - 1 ==> run(log[..i], log[i]).Some?
    decreases |commands|
  {
    var n := |commands| - 1;
    var before, command := commands[..n], commands[n];
    assert commands == before + [command];
    RunAllSnoc(before, command, run);
    var o := RunAll(before, run);
    if o.result.Err? {
      RunAllErr(before, run);
    } else {
      RunAllPrefix(before, run);
      RunAllOk(before, run);
      var log := RunAll(commands, run).log;
      assert log == before + [command] && log[..n] == before;
      forall i | 0 <= i < |log| - 1
        ensures run(log[..i], log[i]).Some?
      {
        assert log[i] == before[i] && log[..i] == before[..i];
      }
    }
  }

  /** Once a run has failed, further commands are never issued. */
  lemma {:induction false} RunAllStops(commands: seq<RouteCommand>, more: seq<RouteCommand>, run: Runner)
    requires commands <= more
    requires RunAll(commands, run).result.Err?
    ensures RunAll(more, run) == RunAll(commands, run)
    decreases |more|
  {
    if more != commands {
      var n := |more| - 1;
      assert commands <= more[..n];
      RunAllStops(commands, more[..n], run);
      RunAllSnoc(more[..n], more[n], run);
      assert more == more[..n] + [more[n]];
    }
  }

  /**
   * A table that refuses a command it has already taken, as `route add` does with
   * "File exists": the same command issued twice succeeds once and ends the run the
   * second time.
   */
  lemma RunAllRepeatFails(command: RouteCommand)
    ensures var run: Runner := (issued: seq<RouteCommand>, c: RouteCommand) =>
              if c in issued then None else Some("");
      RunAll([command, command], run) == Outcome([command, command], Err(CalledProcessError))
  {
    var run: Runner := (issued: seq<RouteCommand>, c: RouteCommand) =>
      if c in issued then None else Some("");
    RunAllSnoc([], command, run);
    RunAllSnoc([command], command, run);
    assert [command] + [command] == [command, command];
  }

  // ---------------------------------------------------------------------------
  // the adds of set_routes, for any decision of which routes to add

  /** A decision whether to add a route: yes, no, or the error it raises. */
  type Decision = Route -> Result<bool>

  function AddCommand(route: Route): RouteCommand {
    RouteCommand(Add, route.subnet, route.mask, route.gateway)
  }

  /** The reference list of adds: one per route the decision accepts, in list order. */
  function Planned(routes: seq<Route>, decide: Decision): seq<RouteCommand>
    decreases |routes|
  {
    if routes == [] then []
    else
      var n := |routes| - 1;
      Planned(routes[..n], decide) + (if decide(routes[n]) == Ok(true) then [AddCommand(routes[n])] else [])
  }

  /** An add for every route, in list order. */
  function AllAdds(routes: seq<Route>): (commands: seq<RouteCommand>)
    ensures |commands| == |routes|
    decreases |routes|
  {
    if routes == [] then [] else AllAdds(routes[..|routes| - 1]) + [AddCommand(routes[|routes| - 1])]
  }

  lemma PlannedSnoc(routes: seq<Route>, route: Route, decide: Decision)
    ensures Planned(routes + [route], decide)
         == Planned(routes, decide) + (if decide(route) == Ok(true) then [AddCommand(route)] else [])
    ensures AllAdds(routes + [route]) == AllAdds(routes) + [AddCommand(route)]
  {
    assert (routes + [route])[..|routes|] == routes;
  }

  /**
   * The planned adds are exactly the adds of the accepted routes, and they come in
   * list order.
   */
  lemma {:induction false} PlannedExact(routes: seq<Route>, decide: Decision)
    ensures SubsequenceOf(Planned(routes, decide), AllAdds(routes))
    ensures forall c :: c in Planned(routes, decide) <==>
      exists i :: 0 <= i < |routes| && decide(routes[i]) == Ok(true) && c == AddCommand(routes[i])
    decreases |routes|
  {
    if routes != [] {
      var n := |routes| - 1;
      var before, route := routes[..n], routes[n];
      assert routes == before + [route];
      PlannedExact(before, decide);
      PlannedSnoc(before, route, decide);
      var p := Planned(before, decide);
      SubsequenceSnoc(p, AllAdds(before), AddCommand(route));
      if decide(route) == Ok(true) {
        assert Planned(routes, decide) == p + [AddCommand(route)];
      } else {
        assert Planned(routes, decide) == p;
      }
      forall c ensures c in Planned(routes, decide) <==>
        exists i :: 0 <= i < |routes| && decide(routes[i]) == Ok(true) && c == AddCommand(routes[i])
      {
        if c in p {
          var i :| 0 <= i < |before| && decide(before[i]) == Ok(true) && c == AddCommand(before[i]);
          assert routes[i] == before[i];
        }
        if exists i :: 0 <= i < |routes| && decide(routes[i]) == Ok(true) && c == AddCommand(routes[i]) {
          var i :| 0 <= i < |routes| && decide(routes[i]) == Ok(true) && c == AddCommand(routes[i]);
          if i < n {
            assert before[i] == routes[i];
          }
        }
      }
    }
  }

  /**
   * The loop over the routes: each route is decided in turn, an accepted one is
   * issued; a raising decision or a failing command stops the loop.
   */
  function Adds(routes: seq<Route>, decide: Decision, run: Runner): Outcome
    decreases |routes|
  {
    if routes == [] then Outcome([], Ok([]))
    else
      var n := |routes| - 1;
      var o := Adds(routes[..n], decide, run);
      if o.result.Err? then o
      else
        match decide(routes[n])
        case Err(e) => Outcome(o.log, Err(e))
        case Ok(false) => o
        case Ok(true) => Issue(o.log, o.result.value, AddCommand(routes[n]), run)
  }

  lemma AddsSnoc(routes: seq<Route>, route: Route, decide: Decision, run: Runner)
    ensures Adds(routes + [route], decide, run)
         == var o := Adds(routes, decide, run);
            if o.result.Err? then o
            else match decide(route)
              case Err(e) => Outcome(o.log, Err(e))
              case Ok(false) => o
              case Ok(true) => Issue(o.log, o.result.value, AddCommand(route), run)
  {
    assert (routes + [route])[..|routes|] == routes;
  }

  /** After the loop has stopped, the later routes are not looked at. */
  lemma {:induction false} AddsStops(routes: seq<Route>, k: nat, decide: Decision, run: Runner)
    requires k <= |routes|
    requires Adds(routes[..k], decide, run).result.Err?
    ensures Adds(routes, decide, run) == Adds(routes[..k], decide, run)
    decreases |routes| - k
  {
    if k < |routes| {
      var n := |routes| - 1;
      assert routes[..n][..k] == routes[..k];
      AddsStops(routes[..n], k, decide, run);
      AddsSnoc(routes[..n], routes[n], decide, run);
      assert routes == routes[..n] + [routes[n]];
    } else {
      assert routes[..k] == routes;
    }
  }

  /**
   * The adds issued follow the plan: when no decision raises, the loop issues the
   * planned adds one after the other and stops at the first that fails.
   */
  lemma {:induction false} AddsFollowPlan(routes: seq<Route>, decide: Decision, run: Runner)
    requires forall i :: 0 <= i < |routes| ==> decide(routes[i]).Ok?
    ensures Adds(routes, decide, run) == RunAll(Planned(routes, decide), run)
    decreases |routes|
  {
    if routes != [] {
      var n := |routes| - 1;
      var before, route := routes[..n], routes[n];
      assert routes == before + [route];
      AddsFollowPlan(before, decide, run);
      AddsSnoc(before, route, decide, run);
      PlannedSnoc(before, route, decide);
      var p := Planned(before, decide);
      if decide(route) == Ok(true) {
        RunAllSnoc(p, AddCommand(route), run);
      } else {
        assert Planned(routes, decide) == p;
      }
    }
  }

  /**
   * A raising decision stops the loop at that route: the adds of the routes before it
   * have been issued and have all succeeded, and the call raises the decision's error.
   */
  lemma {:induction false} AddsRaise(routes: seq<Route>, k: nat, decide: Decision, run: Runner)
    requires k < |routes|
    requires forall i :: 0 <= i < k ==> decide(routes[i]).Ok?
    requires decide(routes[k]).Err?
    requires RunAll(Planned(routes[..k], decide), run).result.Ok?
    ensures Adds(routes, decide, run) == Outcome(Planned(routes[..k], decide), Err(decide(routes[k]).error))
  {
    var before := routes[..k];
    AddsFollowPlan(before, decide, run);
    RunAllShape(Planned(before, decide), run);
    AddsSnoc(before, routes[k], decide, run);
    assert routes[..k + 1] == before + [routes[k]];
    AddsStops(routes, k + 1, decide, run);
  }
}
