/**
 * get_option: the scan of `ipconfig getpacket` output for the hex-dump block of one
 * DHCP option. The packet text arrives already split into lines; a line containing
 * the option code opens the block, the lines after it up to the next empty line are
 * its data.
 */
module Packet {
  import opened Text
  import opened Sequences

  /**
   * After the lines `before`, the block of the option is open: some line of `before`
   * contains the code, and no line after that one is empty.
   */
  predicate Opened(before: seq<string>, code: string) {
    exists j :: 0 <= j < |before| && Contains(before[j], code) &&
      forall m :: j < m < |before| ==> before[m] != ""
  }

  /**
   * The reference reading of the block: the non-empty lines that come while it is
   * open, in their order.
   */
  function OptionLines(lines: seq<string>, code: string): (r: seq<string>)
    decreases |lines|
  {
    if lines == [] then []
    else
      var n := |lines| - 1;
      OptionLines(lines[..n], code) + (if lines[n] != "" && Opened(lines[..n], code) then [lines[n]] else [])
  }

  lemma OptionLinesSnoc(before: seq<string>, line: string, code: string)
    ensures OptionLines(before + [line], code)
         == OptionLines(before, code) + (if line != "" && Opened(before, code) then [line] else [])
  {
    assert (before + [line])[..|before|] == before;
  }

  /**
   * The flag of the scan: after one more line the block is open exactly when that
   * line contains the code, or the block was open and the line is not empty.
   */
  lemma OpenedSnoc(before: seq<string>, line: string, code: string)
    ensures Opened(before + [line], code) <==> Contains(line, code) || (Opened(before, code) && line != "")
  {
    var after := before + [line];
    var n := |before|;
    assert after[n] == line;
    if Opened(after, code) && !Contains(line, code) {
      var j :| 0 <= j < |after| && Contains(after[j], code) && forall m :: j < m < |after| ==> after[m] != "";
      assert j < n && after[j] == before[j];
      assert after[n] != "";
      assert forall m :: j < m < n ==> before[m] == after[m];
    }
    if Contains(line, code) {
      assert Contains(after[n], code);
    }
    if Opened(before, code) && line != "" {
      var j :| 0 <= j < n && Contains(before[j], code) && forall m :: j < m < n ==> before[m] != "";
      assert Contains(after[j], code);
      assert forall m :: j < m < |after| ==> after[m] != "";
    }
  }

  /** get_option(packet, option_code) over the lines of the packet. */
  method GetOption(lines: seq<string>, code: string) returns (optionData: seq<string>)
    ensures optionData == OptionLines(lines, code)
  {
    var option := false;
    optionData := [];
    var k := 0;
    while k < |lines|
      invariant 0 <= k <= |lines|
      invariant option == Opened(lines[..k], code)
      invariant optionData == OptionLines(lines[..k], code)
    {
      var line := lines[k];
      assert lines[..k + 1] == lines[..k] + [line];
      OptionLinesSnoc(lines[..k], line, code);
      OpenedSnoc(lines[..k], line, code);
      if option {
        if line != "" {
          optionData := optionData + [line];
        } else {
          option := false;
        }
      }
      if Contains(line, code) {
        option := true;
      }
      k := k + 1;
    }
    assert lines[..k] == lines;
  }

  /** What the scan returns are lines of the packet, in packet order. */
  lemma {:induction false} OptionLinesInOrder(lines: seq<string>, code: string)
    ensures SubsequenceOf(OptionLines(lines, code), lines)
    decreases |lines|
  {
    if lines != [] {
      var n := |lines| - 1;
      var before, line := lines[..n], lines[n];
      assert lines == before + [line];
      OptionLinesInOrder(before, code);
      OptionLinesSnoc(before, line, code);
      var kept := OptionLines(before, code);
      SubsequenceSnoc(kept, before, line);
      if line != "" && Opened(before, code) {
        assert OptionLines(lines, code) == kept + [line];
      } else {
        assert OptionLines(lines, code) == kept;
      }
    }
  }

  /** None of the lines the scan returns is empty. */
  lemma {:induction false} OptionLinesNonEmpty(lines: seq<string>, code: string)
    ensures forall i :: 0 <= i < |OptionLines(lines, code)| ==> OptionLines(lines, code)[i] != ""
    decreases |lines|
  {
    if lines != [] {
      var n := |lines| - 1;
      var before, line := lines[..n], lines[n];
      assert lines == before + [line];
      OptionLinesNonEmpty(before, code);
      OptionLinesSnoc(before, line, code);
    }
  }

  /** The first line is never returned: nothing is open before it. */
  lemma OptionLinesShort(lines: seq<string>, code: string)
    ensures |lines| <= 1 ==> OptionLines(lines, code) == []
  {
    if |lines| == 1 {
      assert lines[..0] == [];
      assert !Opened(lines[..0], code);
    }
  }

  /** Without a line containing the code there is no block. */
  lemma {:induction false} NoHeaderNoData(lines: seq<string>, code: string)
    requires forall i :: 0 <= i < |lines| ==> !Contains(lines[i], code)
    ensures OptionLines(lines, code) == []
    decreases |lines|
  {
    if lines != [] {
      var n := |lines| - 1;
      NoHeaderNoData(lines[..n], code);
      assert !Opened(lines[..n], code);
    }
  }

  /**
   * The block itself: after a header line, every following non-empty line belongs to the
   * block; an empty line closes it, and the line after an empty one that contains no code
   * is not read.
   */
  lemma BlockLines(before: seq<string>, line: string, next: string, code: string)
    ensures Contains(line, code) && next != "" ==>
      OptionLines(before + [line, next], code) == OptionLines(before + [line], code) + [next]
    ensures !Contains("", code) ==> OptionLines(before + ["", line], code) == OptionLines(before + [""], code)
  {
    OpenedSnoc(before, line, code);
    OptionLinesSnoc(before + [line], next, code);
    assert before + [line, next] == (before + [line]) + [next];
    OpenedSnoc(before, "", code);
    OptionLinesSnoc(before + [""], line, code);
    assert before + ["", line] == (before + [""]) + [line];
  }
}
