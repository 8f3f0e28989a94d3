/**
 * The routing table as the scripts read it from `netstat -f inet -rn`: the rows kept
 * as IPv4 routes (get_ipv4_routes), their normalised form with padded targets and
 * classful masks (get_route_table_with_masks), and the interface of the default
 * route (get_default_nic). The netstat output arrives already split: a row is the
 * list of whitespace-separated fields of one line.
 */
module RouteTable {
  import opened Wrappers
  import opened Text
  import opened Sequences
  import opened Address
  import opened Routes

  // ---------------------------------------------------------------------------
  // get_ipv4_routes

  /** Length of the leading run of decimal digits of s. */
  function DigitRun(s: string): (n: nat)
    ensures n <= |s|
    ensures n < |s| ==> !IsDigit(s[n])
    ensures forall i :: 0 <= i < n ==> IsDigit(s[i])
  {
    if s == [] || !IsDigit(s[0]) then 0 else 1 + DigitRun(s[1..])
  }

  /**
   * re.match(r'\d+\.\d+\.\d+\.\d+', s) for groups == 4: s starts with `groups` runs
   * of decimal digits separated by single dots. A run of digits can only be followed
   * by the dot the pattern wants when the whole run is taken, so reading runs
   * greedily decides the match.
   */
  predicate DottedPrefix(s: string, groups: nat)
    decreases groups
  {
    var n := DigitRun(s);
    n >= 1 && (groups <= 1 || (n < |s| && s[n] == '.' && DottedPrefix(s[n + 1..], groups - 1)))
  }

  /** The three tests a netstat row passes to count as an IPv4 route. */
  predicate IsIpv4Row(row: seq<string>) {
    |row| >= 6 && DottedPrefix(row[1], 4) && !Contains(row[0], "default")
  }

  /** The reference reading: the IPv4 rows of the table, in table order. */
  function Ipv4Rows(table: seq<seq<string>>): (rows: seq<seq<string>>)
    decreases |table|
  {
    if table == [] then []
    else
      var n := |table| - 1;
      Ipv4Rows(table[..n]) + (if IsIpv4Row(table[n]) then [table[n]] else [])
  }

  lemma Ipv4RowsSnoc(before: seq<seq<string>>, row: seq<string>)
    ensures Ipv4Rows(before + [row]) == Ipv4Rows(before) + (if IsIpv4Row(row) then [row] else [])
  {
    assert (before + [row])[..|before|] == before;
  }

  /** get_ipv4_routes(route_table) */
  method GetIpv4Routes(table: seq<seq<string>>) returns (only: seq<seq<string>>)
    ensures only == Ipv4Rows(table)
  {
    only := [];
    var k := 0;
    while k < |table|
      invariant 0 <= k <= |table|
      invariant only == Ipv4Rows(table[..k])
    {
      var item := table[k];
      assert table[..k + 1] == table[..k] + [item];
      Ipv4RowsSnoc(table[..k], item);
      if |item| >= 6 {
        if DottedPrefix(item[1], 4) {
          if !Contains(item[0], "default") {
            only := only + [item];
          }
        }
      }
      k := k + 1;
    }
    assert table[..k] == table;
  }

  /** The filter keeps table order. */
  lemma {:induction false} Ipv4RowsOrdered(table: seq<seq<string>>)
    ensures SubsequenceOf(Ipv4Rows(table), table)
    decreases |table|
  {
    if table != [] {
      var n := |table| - 1;
      var before, row := table[..n], table[n];
      assert table == before + [row];
      Ipv4RowsOrdered(before);
      Ipv4RowsSnoc(before, row);
      SubsequenceSnoc(Ipv4Rows(before), before, row);
      if IsIpv4Row(row) {
        assert Ipv4Rows(table) == Ipv4Rows(before) + [row];
      } else {
        assert Ipv4Rows(table) == Ipv4Rows(before);
      }
    }
  }

  /** The filter keeps only IPv4 rows. */
  lemma {:induction false} Ipv4RowsKept(table: seq<seq<string>>)
    ensures forall i :: 0 <= i < |Ipv4Rows(table)| ==> IsIpv4Row(Ipv4Rows(table)[i])
    decreases |table|
  {
    if table != [] {
      var n := |table| - 1;
      var before, row := table[..n], table[n];
      Ipv4RowsKept(before);
      Ipv4RowsSnoc(before, row);
      assert table == before + [row];
    }
  }

  /** The filter keeps every IPv4 row of the table. */
  lemma {:induction false} Ipv4RowsComplete(table: seq<seq<string>>)
    ensures forall i :: 0 <= i < |table| && IsIpv4Row(table[i]) ==> table[i] in Ipv4Rows(table)
    decreases |table|
  {
    if table != [] {
      var n := |table| - 1;
      var before, row := table[..n], table[n];
      Ipv4RowsComplete(before);
      Ipv4RowsSnoc(before, row);
      assert table == before + [row];
      var kept, rest := Ipv4Rows(before), Ipv4Rows(table);
      assert rest == kept + (if IsIpv4Row(row) then [row] else []);
      forall i | 0 <= i < |table| && IsIpv4Row(table[i])
        ensures table[i] in rest
      {
        if i < n {
          assert table[i] == before[i];
          assert table[i] in kept;
        } else {
          assert rest[|rest| - 1] == row;
        }
      }
    }
  }

  lemma {:induction false} DigitRunOf(num: string, tail: string)
    requires num != [] && AllDigits(num)
    ensures DigitRun(num + tail) >= |num|
    ensures tail != [] && !IsDigit(tail[0]) ==> DigitRun(num + tail) == |num|
    decreases |num|
  {
    var s := num + tail;
    assert s[0] == num[0] && IsDigit(s[0]);
    assert DigitRun(s) == 1 + DigitRun(s[1..]);
    if |num| > 1 {
      assert s[1..] == num[1..] + tail;
      DigitRunOf(num[1..], tail);
    } else {
      assert s[1..] == tail;
    }
  }

  /** One run of digits and a dot in front of text that matches the rest of the pattern. */
  lemma DottedPrefixCons(num: string, tail: string, groups: nat)
    requires num != [] && AllDigits(num) && groups >= 1
    requires DottedPrefix(tail, groups)
    ensures DottedPrefix(num + "." + tail, groups + 1)
  {
    var s := num + "." + tail;
    assert s == num + ("." + tail);
    DigitRunOf(num, "." + tail);
    assert s[|num|] == '.';
    assert s[|num| + 1..] == tail;
  }

  /** One more run of digits in front of a matching dotted text still matches, with one group more. */
  lemma JoinMatchesCons(num: string, parts: seq<string>, rest: string)
    requires num != [] && AllDigits(num) && |parts| >= 1
    requires DottedPrefix(Join(parts, ".") + rest, |parts|)
    ensures DottedPrefix(Join([num] + parts, ".") + rest, |parts| + 1)
  {
    var tail := Join(parts, ".");
    assert ([num] + parts)[1..] == parts;
    assert Join([num] + parts, ".") == num + "." + tail;
    DottedPrefixCons(num, tail + rest, |parts|);
    assert num + "." + tail + rest == num + "." + (tail + rest);
  }

  /** Runs of digits joined by dots match the pattern with as many groups, whatever follows. */
  lemma {:induction false} JoinMatches(parts: seq<string>, rest: string)
    requires |parts| >= 1
    requires forall i :: 0 <= i < |parts| ==> parts[i] != [] && AllDigits(parts[i])
    ensures DottedPrefix(Join(parts, ".") + rest, |parts|)
    decreases |parts|
  {
    if |parts| == 1 {
      DigitRunOf(parts[0], rest);
    } else {
      var num, more := parts[0], parts[1..];
      assert forall i :: 0 <= i < |more| ==> more[i] == parts[i + 1];
      JoinMatches(more, rest);
      assert parts == [num] + more;
      JoinMatchesCons(num, more, rest);
    }
  }

  /** Every address written as a dotted quad passes the IPv4 pattern, whatever follows it. */
  lemma DottedQuadMatches(ip: IPv4, rest: string)
    ensures DottedPrefix(DottedQuad(ip) + rest, 4)
  {
    JoinMatches([NatToString(ip.a), NatToString(ip.b), NatToString(ip.c), NatToString(ip.d)], rest);
  }

  // ---------------------------------------------------------------------------
  // get_route_table_with_masks

  /** n copies of s, one after the other. */
  function Repeat(s: string, n: nat): string {
    if n == 0 then "" else Repeat(s, n - 1) + s
  }

  /** The target padded with ".0" until it has three dots; one with three or more is kept. */
  function Padded(target: string): (r: string) {
    target + Repeat(".0", Missing(target))
  }

  /** How many dots the target lacks for three. */
  function Missing(target: string): nat {
    var c := Count(target, '.');
    if c < 3 then 3 - c else 0
  }

  lemma {:induction false} RepeatDots(n: nat)
    ensures Count(Repeat(".0", n), '.') == n
  {
    if n > 0 {
      CountAppend(Repeat(".0", n - 1), ".0", '.');
      RepeatDots(n - 1);
    }
  }

  /** Padding leaves the target in front and ends with exactly three dots, or as many as there were. */
  lemma PaddedDots(target: string)
    ensures Padded(target)[..|target|] == target
    ensures Count(Padded(target), '.') == if Count(target, '.') < 3 then 3 else Count(target, '.')
  {
    var pad := Repeat(".0", Missing(target));
    CountAppend(target, pad, '.');
    RepeatDots(Missing(target));
    assert (target + pad)[..|target|] == target;
  }

  /** s[:n], which Python cuts short at the end of s. */
  function Head(s: string, n: nat): string {
    if n <= |s| then s[..n] else s
  }

  /**
   * The mask the code infers from the leading bits of the target: '8' after a 0 bit,
   * '16' after the bits 10. The third test compares a three-character slice with the
   * two-character '11', which never holds, so the mask of such a target stays empty.
   */
  function MaskOfBits(bits: string): string {
    var m := if Head(bits, 1) == "0" then "8" else "";
    var m := if Head(bits, 2) == "10" then "16" else m;
    if Head(bits, 3) == "11" then "24" else m
  }

  /** The three tests on a bit string of three or more characters: only the first two bits matter. */
  lemma MaskOfLeadingBits(bits: string)
    requires |bits| >= 3
    ensures MaskOfBits(bits) == if bits[0] == '0' then "8" else if bits[..2] == "10" then "16" else ""
  {
    assert Head(bits, 1) == [bits[0]];
    assert |Head(bits, 3)| == 3;
  }

  /** The mask by the first octet: class A gets 8, class B 16, and from 192 up nothing. */
  function ClassfulMask(ip: IPv4): string {
    if ip.a < 128 then "8" else if ip.a < 192 then "16" else ""
  }

  /** The tests on the bit string of an address infer the classful mask of its first octet. */
  lemma InferredMask(ip: IPv4)
    ensures MaskOfBits(BitString(Word(ip))) == ClassfulMask(ip)
  {
    var w := Word(ip);
    var bits := BitString(w);
    MaskOfLeadingBits(bits);
    LeadingBitsOfWord(ip);
    assert bits[0] == BitChar(w[0]) && bits[1] == BitChar(w[1]);
    assert bits[..2] == [bits[0], bits[1]];
  }

  /**
   * `target, mask = route[0].split('/')` when route[0] has a '/': the unpacking raises
   * ValueError unless there is exactly one. Without a '/' the mask is empty.
   */
  function SplitTarget(field: string): Result<(string, string)> {
    if '/' !in field then Ok((field, ""))
    else
      var parts := Split(field, '/');
      if |parts| == 2 then Ok((parts[0], parts[1])) else Err(ValueError)
  }

  /** The three cases of the target field by its number of slashes. */
  lemma SplitTargetCases(field: string)
    ensures Count(field, '/') == 0 ==> SplitTarget(field) == Ok((field, ""))
    ensures Count(field, '/') == 1 ==>
      (SplitTarget(field).Ok?
       && SplitTarget(field).value.0 + "/" + SplitTarget(field).value.1 == field
       && '/' !in SplitTarget(field).value.0 && '/' !in SplitTarget(field).value.1)
    ensures Count(field, '/') >= 2 ==> SplitTarget(field) == Err(ValueError)
  {
    CountLacks(field, '/');
    SplitCount(field, '/');
    SplitPiecesLack(field, '/');
    SplitJoinBack(field, '/');
    var parts := Split(field, '/');
    if |parts| == 2 {
      assert parts[1..] == [parts[1]];
      CountLacks(parts[0], '/');
      CountLacks(parts[1], '/');
    }
  }

  /**
   * One IPv4 row in the normalised form [target, mask, gateway, interface]. The rows
   * given to it have six fields; on a shorter one route[0] or route[5] raises IndexError.
   */
  function NormalisedRow(row: seq<string>): Result<TableRow> {
    if row == [] then Err(IndexError)
    else
      match SplitTarget(row[0])
      case Err(e) => Err(e)
      case Ok((t, m)) =>
        var target := Padded(t);
        var mask :=
          if m != "" then Ok(m)
          else
            match ParseDottedQuad(target)
            case None => Err(SocketError)
            case Some(ip) => Ok(ClassfulMask(ip));
        if mask.Err? then Err(mask.error)
        else if |row| < 6 then Err(IndexError)
        else Ok(TableRow(target, mask.value, row[1], row[5]))
  }

  /**
   * What a normalised row holds: the padded target, an explicit mask verbatim, else the
   * classful mask of the target's first octet, then the gateway and interface fields.
   */
  lemma NormalisedRowShape(row: seq<string>)
    requires |row| >= 6
    ensures NormalisedRow(row).Err? <==>
      Count(row[0], '/') >= 2 ||
      (SplitTarget(row[0]).Ok? && SplitTarget(row[0]).value.1 == "" && ParseDottedQuad(Padded(SplitTarget(row[0]).value.0)).None?)
    ensures NormalisedRow(row).Ok? ==>
      var tr := NormalisedRow(row).value;
      var (t, m) := SplitTarget(row[0]).value;
      tr.gateway == row[1] && tr.nic == row[5] &&
      tr.target[..|t|] == t && Count(tr.target, '.') >= 3 &&
      (m != "" ==> tr.mask == m) &&
      (m == "" ==> var ip := ParseDottedQuad(tr.target).value;
                   tr.mask == if ip.a < 128 then "8" else if ip.a < 192 then "16" else "")
  {
    SplitTargetCases(row[0]);
    if SplitTarget(row[0]).Ok? {
      var (t, m) := SplitTarget(row[0]).value;
      PaddedDots(t);
    }
  }

  /** The outcome of normalising each row on its own. */
  function Normalised(rows: seq<seq<string>>): (rs: seq<Result<TableRow>>)
    ensures |rs| == |rows|
    ensures forall i :: 0 <= i < |rows| ==> rs[i] == NormalisedRow(rows[i])
  {
    seq(|rows|, i requires 0 <= i < |rows| => NormalisedRow(rows[i]))
  }

  /** The rows normalised in order; the first row that raises ends the whole. */
  function NormaliseAll(rows: seq<seq<string>>): Result<seq<TableRow>> {
    Collect(Normalised(rows))
  }

  /** get_route_table_with_masks() on the split netstat output. */
  function RouteTableWithMasks(table: seq<seq<string>>): Result<seq<TableRow>> {
    NormaliseAll(Ipv4Rows(table))
  }

  /**
   * The normalised table: when no row raises, one normalised row per IPv4 row of the
   * table, in table order; otherwise the error of the first IPv4 row that raises.
   */
  lemma RouteTableRows(table: seq<seq<string>>)
    ensures (forall i :: 0 <= i < |Ipv4Rows(table)| ==> NormalisedRow(Ipv4Rows(table)[i]).Ok?) ==>
      RouteTableWithMasks(table).Ok?
    ensures RouteTableWithMasks(table).Ok? ==>
      (|RouteTableWithMasks(table).value| == |Ipv4Rows(table)| &&
       forall i :: 0 <= i < |Ipv4Rows(table)| ==>
         Ok(RouteTableWithMasks(table).value[i]) == NormalisedRow(Ipv4Rows(table)[i]))
    ensures RouteTableWithMasks(table).Err? ==>
      exists i :: 0 <= i < |Ipv4Rows(table)| &&
        NormalisedRow(Ipv4Rows(table)[i]) == Err(RouteTableWithMasks(table).error) &&
        forall j :: 0 <= j < i ==> NormalisedRow(Ipv4Rows(table)[j]).Ok?
  {
    var rows := Ipv4Rows(table);
    var rs := Normalised(rows);
    assert forall i :: 0 <= i < |rows| ==> rs[i] == NormalisedRow(rows[i]);
    CollectOk(rs);
    assert RouteTableWithMasks(table) == Collect(rs);
    if forall i :: 0 <= i < |rows| ==> NormalisedRow(rows[i]).Ok? {
      assert forall i :: 0 <= i < |rs| ==> rs[i].Ok?;
    }
    CollectErr(rs);
  }

  /** The padding loop of get_route_table_with_masks. */
  method PadTarget(t: string) returns (target: string)
    ensures target == Padded(t)
  {
    target := t;
    ghost var added := 0;
    while Count(target, '.') < 3
      invariant target == t + Repeat(".0", added)
      invariant Count(target, '.') == Count(t, '.') + added
      invariant added > 0 ==> Count(target, '.') <= 3
      decreases 3 - Count(target, '.')
    {
      CountAppend(target, ".0", '.');
      assert t + Repeat(".0", added) + ".0" == t + Repeat(".0", added + 1);
      target := target + ".0";
      added := added + 1;
    }
  }

  /** The body of the loop of get_route_table_with_masks, for one IPv4 row. */
  method NormaliseRow(route: seq<string>) returns (r: Result<TableRow>)
    ensures r == NormalisedRow(route)
  {
    if route == [] {
      return Err(IndexError);
    }
    var target, mask;
    if '/' in route[0] {
      var parts := Split(route[0], '/');
      if |parts| != 2 {
        return Err(ValueError);
      }
      target, mask := parts[0], parts[1];
    } else {
      target, mask := route[0], "";
    }
    target := PadTarget(target);
    if mask == "" {
      var ip := ParseDottedQuad(target);
      if ip.None? {
        return Err(SocketError);
      }
      var bitSubnet := IpAddressTo32Bit(ip.value);
      if Head(bitSubnet, 1) == "0" {
        mask := "8";
      }
      if Head(bitSubnet, 2) == "10" {
        mask := "16";
      }
      if Head(bitSubnet, 3) == "11" {
        mask := "24";
      }
      InferredMask(ip.value);
    }
    if |route| < 6 {
      return Err(IndexError);
    }
    r := Ok(TableRow(target, mask, route[1], route[5]));
  }

  /** get_route_table_with_masks() on the split netstat output. */
  method GetRouteTableWithMasks(table: seq<seq<string>>) returns (r: Result<seq<TableRow>>)
    ensures r == RouteTableWithMasks(table)
  {
    var onlyIpv4Routes := GetIpv4Routes(table);
    r := NormaliseRows(onlyIpv4Routes);
  }

  /** The loop of get_route_table_with_masks over the IPv4 rows. */
  method NormaliseRows(rows: seq<seq<string>>) returns (r: Result<seq<TableRow>>)
    ensures r == NormaliseAll(rows)
  {
    ghost var results := Normalised(rows);
    var routes: seq<TableRow> := [];
    var k := 0;
    while k < |rows|
      invariant 0 <= k <= |rows|
      invariant Collect(results[..k]) == Ok(routes)
    {
      var row := NormaliseRow(rows[k]);
      assert results[..k + 1] == results[..k] + [row];
      CollectSnoc(results[..k], row);
      if row.Err? {
        CollectPrefixErr(results, k + 1);
        return Err(row.error);
      }
      routes := routes + [row.value];
      k := k + 1;
    }
    assert results[..k] == results;
    r := Ok(routes);
  }

  // ---------------------------------------------------------------------------
  // get_default_nic

  /** re.search('^default', line) */
  predicate IsDefaultLine(line: string) {
    |line| >= 7 && line[..7] == "default"
  }

  /** Line i is the last default line. */
  predicate IsLastDefault(lines: seq<string>, i: int) {
    0 <= i < |lines| && IsDefaultLine(lines[i]) && forall j :: i < j < |lines| ==> !IsDefaultLine(lines[j])
  }

  /**
   * get_default_nic() over the netstat lines: the sixth field of the last default line,
   * or 'en1' without one; a default line with fewer than six fields raises IndexError.
   */
  method GetDefaultNic(lines: seq<string>) returns (r: Result<string>)
    ensures r.Err? <==> exists i :: 0 <= i < |lines| && IsDefaultLine(lines[i]) && |SplitWhitespace(lines[i])| < 6
    ensures r.Err? ==> r.error == IndexError
    ensures r.Ok? && (forall i :: 0 <= i < |lines| ==> !IsDefaultLine(lines[i])) ==> r.value == "en1"
    ensures r.Ok? ==> forall i :: IsLastDefault(lines, i) ==> r.value == SplitWhitespace(lines[i])[5]
  {
    var nic := "en1";
    ghost var last := -1;
    var k := 0;
    while k < |lines|
      invariant 0 <= k <= |lines| && -1 <= last < k
      invariant forall i :: 0 <= i < k && IsDefaultLine(lines[i]) ==> |SplitWhitespace(lines[i])| >= 6
      invariant forall i :: last < i < k ==> !IsDefaultLine(lines[i])
      invariant last == -1 ==> nic == "en1"
      invariant last >= 0 ==> IsDefaultLine(lines[last]) && nic == SplitWhitespace(lines[last])[5]
    {
      var line := lines[k];
      if IsDefaultLine(line) {
        var fields := SplitWhitespace(line);
        if |fields| < 6 {
          return Err(IndexError);
        }
        nic := fields[5];
        last := k;
      }
      k := k + 1;
    }
    r := Ok(nic);
  }
}
