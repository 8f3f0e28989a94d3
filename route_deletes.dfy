/**
 * clear_routes: which interfaces have their routes deleted, and the deletes issued.
 * The interface list and the link state of each interface are inputs, and
 * subprocess.check_output is a runner.
 */
module RouteDeletes {
  import opened Wrappers
  import opened Text
  import opened Routes
  import opened RouteTable
  import opened Commands
  import opened ClearPlan

  /** The words of a setting, each stripped. */
  function Words(setting: string): (r: seq<string>)
    ensures |r| == |SplitWhitespace(setting)|
  {
    var ws := SplitWhitespace(setting);
    seq(|ws|, i requires 0 <= i < |ws| => Strip(ws[i]))
  }

  /** The loops building clear_nics and safenics_list from a setting. */
  method StrippedWords(setting: string) returns (list: seq<string>)
    ensures list == Words(setting)
  {
    var ws := SplitWhitespace(setting);
    list := [];
    for i := 0 to |ws|
      invariant list == Words(setting)[..i]
    {
      assert Words(setting)[..i + 1] == Words(setting)[..i] + [Strip(ws[i])];
      list := list + [Strip(ws[i])];
    }
  }

  /**
   * clear_routes(forcenics, safenics): reads the routing table, builds the clear list,
   * then deletes each route of each interface on it. The stdouts are discarded; a
   * failing command raises and stops the deletes.
   */
  method ClearRoutes(forceNics: string, safeNics: string, table: seq<seq<string>>, nics: seq<string>,
                     linkState: string -> string, run: Runner)
    returns (log: seq<RouteCommand>, r: Result<()>)
    ensures RouteTableWithMasks(table).Err? ==> log == [] && r == Err(RouteTableWithMasks(table).error)
    ensures RouteTableWithMasks(table).Ok? ==>
      var o := RunAll(Deletes(ClearNics(Words(forceNics), nics, Words(safeNics), linkState), RouteTableWithMasks(table).value), run);
      log == o.log && (r.Ok? <==> o.result.Ok?) && (r.Err? ==> r.error == o.result.error)
  {
    var routes := GetRouteTableWithMasks(table);
    if routes.Err? {
      return [], Err(routes.error);
    }
    var rows := routes.value;
    var force := StrippedWords(forceNics);
    var safeList := StrippedWords(safeNics);
    var clearNics := CollectClearNics(force, nics, safeList, linkState);
    log, r := IssueDeletes(clearNics, rows, run);
  }
}
