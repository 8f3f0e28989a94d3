/**
 * The line scan of process_plist_file, over what the scan looks at in each line: the
 * DHCPRequestedParameterList key, the entry of the option code, the end of the array,
 * whether the line is an integer line, and the length of its text before the first '<'.
 */
module PlistScan {
  import opened Wrappers

  /** What the loop body tests of one line. */
  datatype Kind = Kind(key: bool, entry: bool, arrayEnd: bool, integer: bool, indent: nat)

  type Classifier = string -> Kind

  /** tab_offset * '\t' */
  function Tabs(n: nat): (t: string)
    ensures |t| == n && forall i :: 0 <= i < n ==> t[i] == '\t'
  {
    seq(n, i => '\t')
  }

  /** A line's effect on tab_offset: while it is 0, an integer line sets it to its indent. */
  function TabStep(tab: nat, kind: Kind): nat {
    if tab == 0 && kind.integer then kind.indent else tab
  }

  /**
   * The variables of the loop: dhcp_key_in_file, option_in_plist, end_of_array,
   * tab_offset, file_needs_change and new_file_data.
   */
  datatype Scan = Scan(keySeen: bool, optionFound: bool, arrayEnded: bool, tabOffset: nat, changed: bool, out: seq<string>)

  const Start := Scan(false, false, false, 0, false, [])

  /** After the key line, before the end of the array or the entry has been seen. */
  predicate Active(s: Scan) {
    s.keySeen && !s.optionFound && !s.arrayEnded
  }

  /**
   * One pass of the loop body over a line of the given kind: inside the array the tab
   * offset, the entry and the end are checked, and at the end of an array without the
   * entry the indented insert key goes in before the line; the line itself always
   * follows, and a key line opens the array for the lines after it.
   */
  function Step(s: Scan, line: string, kind: Kind, insertKey: string): Scan {
    if Active(s) then
      var tab := TabStep(s.tabOffset, kind);
      var insert := !kind.entry && kind.arrayEnd && tab != 0;
      Scan(true, kind.entry, kind.arrayEnd, tab, s.changed || insert,
           s.out + (if insert then [Tabs(tab) + insertKey] else []) + [line])
    else
      s.(keySeen := s.keySeen || kind.key, out := s.out + [line])
  }

  /** The loop run over the lines, from the initial values of its variables. */
  function ScanOf(lines: seq<string>, classify: Classifier, insertKey: string): Scan
    decreases |lines|
  {
    if lines == [] then Start
    else
      var n := |lines| - 1;
      Step(ScanOf(lines[..n], classify, insertKey), lines[n], classify(lines[n]), insertKey)
  }

  lemma ScanOfSnoc(lines: seq<string>, line: string, classify: Classifier, insertKey: string)
    ensures ScanOf(lines + [line], classify, insertKey)
         == Step(ScanOf(lines, classify, insertKey), line, classify(line), insertKey)
  {
    assert (lines + [line])[..|lines|] == lines;
  }

  /** The loop after the first i lines. */
  function Prefix(lines: seq<string>, i: nat, classify: Classifier, insertKey: string): Scan
    requires i <= |lines|
  {
    ScanOf(lines[..i], classify, insertKey)
  }

  lemma PrefixStep(lines: seq<string>, i: nat, classify: Classifier, insertKey: string)
    requires i < |lines|
    ensures Prefix(lines, i + 1, classify, insertKey)
         == Step(Prefix(lines, i, classify, insertKey), lines[i], classify(lines[i]), insertKey)
  {
    assert lines[..i + 1] == lines[..i] + [lines[i]];
    ScanOfSnoc(lines[..i], lines[i], classify, insertKey);
  }

  // ---------------------------------------------------------------------------
  // the segments of the lines

  /** The tests the scan makes of a line to find where its segments end. */
  datatype Test =
    | HasKey    // the DHCPRequestedParameterList key
    | EndsScan  // the end of the array, or the entry already present
    | GivesTab  // an integer line with text before its '<'

  predicate Passes(t: Test, kind: Kind) {
    match t
    case HasKey => kind.key
    case EndsScan => kind.arrayEnd || kind.entry
    case GivesTab => kind.integer && kind.indent > 0
  }

  /** The index of the first line from lo on that passes t, or |lines| when none does. */
  function FirstFrom(lines: seq<string>, classify: Classifier, t: Test, lo: nat): (i: nat)
    requires lo <= |lines|
    ensures lo <= i <= |lines|
    decreases |lines| - lo
  {
    if lo == |lines| then |lines|
    else if Passes(t, classify(lines[lo])) then lo
    else FirstFrom(lines, classify, t, lo + 1)
  }

  /** The line at the first index, when there is one, passes t. */
  lemma {:induction false} FirstFound(lines: seq<string>, classify: Classifier, t: Test, lo: nat)
    requires lo <= |lines|
    ensures var i := FirstFrom(lines, classify, t, lo); i < |lines| ==> Passes(t, classify(lines[i]))
    decreases |lines| - lo
  {
    if lo < |lines| && !Passes(t, classify(lines[lo])) {
      FirstFound(lines, classify, t, lo + 1);
    }
  }

  /** No line from lo up to the first index passes t. */
  lemma {:induction false} FirstBefore(lines: seq<string>, classify: Classifier, t: Test, lo: nat, j: nat)
    requires lo <= j <= |lines|
    requires j < FirstFrom(lines, classify, t, lo)
    ensures !Passes(t, classify(lines[j]))
    decreases j - lo
  {
    if lo < j {
      FirstBefore(lines, classify, t, lo + 1, j);
    }
  }

  /** A line that passes t with none before it from lo on is the first. */
  lemma FirstAt(lines: seq<string>, classify: Classifier, t: Test, lo: nat, i: nat)
    requires lo <= i < |lines| && Passes(t, classify(lines[i]))
    requires forall j :: lo <= j < i ==> !Passes(t, classify(lines[j]))
    ensures FirstFrom(lines, classify, t, lo) == i
  {
    var f := FirstFrom(lines, classify, t, lo);
    if f < i {
      FirstFound(lines, classify, t, lo);
    } else if f > i {
      FirstBefore(lines, classify, t, lo, i);
    }
  }

  /** When no line from lo on passes t, the first index is the length. */
  lemma FirstNone(lines: seq<string>, classify: Classifier, t: Test, lo: nat)
    requires lo <= |lines|
    requires forall j :: lo <= j < |lines| ==> !Passes(t, classify(lines[j]))
    ensures FirstFrom(lines, classify, t, lo) == |lines|
  {
    FirstFound(lines, classify, t, lo);
  }

  /** tab_offset after the lines from lo up to hi, starting from 0. */
  function TabOver(lines: seq<string>, classify: Classifier, lo: nat, hi: nat): nat
    requires lo <= hi <= |lines|
    decreases hi
  {
    if hi == lo then 0 else TabStep(TabOver(lines, classify, lo, hi - 1), classify(lines[hi - 1]))
  }

  /** The tab offset over some lines is the indent of the first indented integer line among them, or 0. */
  lemma {:induction false} TabOverFirst(lines: seq<string>, classify: Classifier, lo: nat, hi: nat)
    requires lo <= hi <= |lines|
    ensures TabOver(lines, classify, lo, hi)
         == (var q := FirstFrom(lines, classify, GivesTab, lo); if q < hi then classify(lines[q]).indent else 0)
    decreases hi - lo
  {
    if hi > lo {
      TabOverFirst(lines, classify, lo, hi - 1);
      var q := FirstFrom(lines, classify, GivesTab, lo);
      FirstFound(lines, classify, GivesTab, lo);
      if q > hi - 1 {
        FirstBefore(lines, classify, GivesTab, lo, hi - 1);
      }
    }
  }

  // ---------------------------------------------------------------------------
  // the reference reading

  /** Where the insert key goes, and after how many tabs. */
  datatype Insert = Insert(at: nat, tab: nat)

  /** No insertion before a line holding the entry, nor without a tab offset. */
  function Choose(entry: bool, at: nat, tab: nat): (r: Option<Insert>)
    ensures r.Some? <==> !entry && tab != 0
    ensures r.Some? ==> r.value == Insert(at, tab)
  {
    if entry || tab == 0 then None else Some(Insert(at, tab))
  }

  /**
   * The reference reading of the patch. After the first key line k, the first line p
   * that ends the array or holds the entry: the insert key goes before it when it ends
   * the array without holding the entry, and some integer line from k + 1 up to and
   * including p gives a non-zero indent.
   */
  function Insertion(lines: seq<string>, classify: Classifier): (r: Option<Insert>)
    ensures r.Some? ==> r.value.at < |lines|
  {
    var k := FirstFrom(lines, classify, HasKey, 0);
    if k == |lines| then None
    else
      var p := FirstFrom(lines, classify, EndsScan, k + 1);
      if p == |lines| then None
      else Choose(classify(lines[p]).entry, p, TabOver(lines, classify, k + 1, p + 1))
  }

  /** The lines with the insertion made, if there is one, and whether there is. */
  function Inserted(lines: seq<string>, ins: Option<Insert>, insertKey: string): (seq<string>, bool)
    requires ins.Some? ==> ins.value.at <= |lines|
  {
    match ins
    case None => (lines, false)
    case Some(i) => (lines[..i.at] + [Tabs(i.tab) + insertKey] + lines[i.at..], true)
  }

  // ---------------------------------------------------------------------------
  // the loop against the reference reading

  /** Up to the first key line every line is copied and nothing else changes. */
  lemma {:induction false} BeforeKey(lines: seq<string>, classify: Classifier, insertKey: string, i: nat)
    requires i <= FirstFrom(lines, classify, HasKey, 0)
    ensures Prefix(lines, i, classify, insertKey) == Start.(out := lines[..i])
  {
    if i > 0 {
      BeforeKey(lines, classify, insertKey, i - 1);
      PrefixStep(lines, i - 1, classify, insertKey);
      FirstBefore(lines, classify, HasKey, 0, i - 1);
      assert lines[..i - 1] + [lines[i - 1]] == lines[..i];
    }
  }

  /**
   * Inside the array, up to its first stopping line p, lines are copied and only the tab
   * offset moves.
   */
  lemma {:induction false} InArray(lines: seq<string>, classify: Classifier, insertKey: string, k: nat, i: nat)
    requires k == FirstFrom(lines, classify, HasKey, 0) < |lines|
    requires k < i <= FirstFrom(lines, classify, EndsScan, k + 1)
    ensures Prefix(lines, i, classify, insertKey)
         == Scan(true, false, false, TabOver(lines, classify, k + 1, i), false, lines[..i])
  {
    PrefixStep(lines, i - 1, classify, insertKey);
    assert lines[..i - 1] + [lines[i - 1]] == lines[..i];
    if i - 1 == k {
      BeforeKey(lines, classify, insertKey, k);
      FirstFound(lines, classify, HasKey, 0);
    } else {
      InArray(lines, classify, insertKey, k, i - 1);
      FirstBefore(lines, classify, EndsScan, k + 1, i - 1);
    }
  }

  /** The line that stops the scan of the array: the insertion before it, or none. */
  lemma AtStop(lines: seq<string>, classify: Classifier, insertKey: string, k: nat, p: nat)
    requires k == FirstFrom(lines, classify, HasKey, 0) < |lines|
    requires p == FirstFrom(lines, classify, EndsScan, k + 1) < |lines|
    ensures var s, tab := Prefix(lines, p + 1, classify, insertKey), TabOver(lines, classify, k + 1, p + 1);
      var insert := !classify(lines[p]).entry && tab != 0;
      (s.optionFound || s.arrayEnded)
      && s.changed == insert
      && s.out == lines[..p] + (if insert then [Tabs(tab) + insertKey] else []) + [lines[p]]
  {
    InArray(lines, classify, insertKey, k, p);
    PrefixStep(lines, p, classify, insertKey);
    FirstFound(lines, classify, EndsScan, k + 1);
  }

  /** Once the array has ended or the entry has been seen, every line is copied. */
  lemma {:induction false} AfterStop(lines: seq<string>, classify: Classifier, insertKey: string, lo: nat, i: nat)
    requires lo <= i <= |lines|
    requires Prefix(lines, lo, classify, insertKey).optionFound || Prefix(lines, lo, classify, insertKey).arrayEnded
    ensures var s, r := Prefix(lines, lo, classify, insertKey), Prefix(lines, i, classify, insertKey);
      (r.optionFound || r.arrayEnded) && r.changed == s.changed && r.out == s.out + lines[lo..i]
    decreases i - lo
  {
    if i > lo {
      AfterStop(lines, classify, insertKey, lo, i - 1);
      PrefixStep(lines, i - 1, classify, insertKey);
      assert lines[lo..i - 1] + [lines[i - 1]] == lines[lo..i];
    }
  }

  /** The lines around the stopping line p, with or without the insertion before it. */
  lemma Assemble(lines: seq<string>, p: nat, entry: bool, tab: nat, insertKey: string)
    requires p < |lines|
    ensures var insert := !entry && tab != 0;
      (lines[..p] + (if insert then [Tabs(tab) + insertKey] else []) + [lines[p]] + lines[p + 1..], insert)
      == Inserted(lines, Choose(entry, p, tab), insertKey)
  {
    var added := if !entry && tab != 0 then [Tabs(tab) + insertKey] else [];
    assert lines[p..] == [lines[p]] + lines[p + 1..];
    assert lines[..p] + added + [lines[p]] + lines[p + 1..] == lines[..p] + added + lines[p..];
    assert lines[..p] + [] + lines[p..] == lines;
  }

  /** When the array has a stopping line p, the whole scan makes the reference insertion or none. */
  lemma StopCase(lines: seq<string>, classify: Classifier, insertKey: string, k: nat, p: nat)
    requires k == FirstFrom(lines, classify, HasKey, 0) < |lines|
    requires p == FirstFrom(lines, classify, EndsScan, k + 1) < |lines|
    ensures var r := Prefix(lines, |lines|, classify, insertKey);
      (r.out, r.changed) == Inserted(lines, Insertion(lines, classify), insertKey)
  {
    var entry, tab := classify(lines[p]).entry, TabOver(lines, classify, k + 1, p + 1);
    AtStop(lines, classify, insertKey, k, p);
    AfterStop(lines, classify, insertKey, p + 1, |lines|);
    assert lines[p + 1..|lines|] == lines[p + 1..];
    Assemble(lines, p, entry, tab, insertKey);
    assert Insertion(lines, classify) == Choose(entry, p, tab);
  }

  /**
   * The loop computes the reference reading: the lines unchanged and no change flagged
   * when there is no insertion, and otherwise the indented insert key before the
   * reference position, with the change flagged.
   */
  lemma ScanIsExpected(lines: seq<string>, classify: Classifier, insertKey: string)
    ensures var r := ScanOf(lines, classify, insertKey);
      (r.out, r.changed) == Inserted(lines, Insertion(lines, classify), insertKey)
  {
    var n := |lines|;
    assert lines[..n] == lines;
    var k := FirstFrom(lines, classify, HasKey, 0);
    if k == n {
      BeforeKey(lines, classify, insertKey, n);
      assert Insertion(lines, classify) == None;
    } else {
      var p := FirstFrom(lines, classify, EndsScan, k + 1);
      if p == n {
        InArray(lines, classify, insertKey, k, n);
        assert Insertion(lines, classify) == None;
      } else {
        StopCase(lines, classify, insertKey, k, p);
      }
    }
  }

  // ---------------------------------------------------------------------------
  // what the reference reading promises

  /**
   * The insertion goes just before the first line after the key line that ends the
   * array, which does not hold the entry; no line between them holds it either.
   */
  lemma InsertionPosition(lines: seq<string>, classify: Classifier)
    requires Insertion(lines, classify).Some?
    ensures var p, k := Insertion(lines, classify).value.at, FirstFrom(lines, classify, HasKey, 0);
      k < p && classify(lines[p]).arrayEnd && !classify(lines[p]).entry
      && forall j :: k < j < p ==> !classify(lines[j]).arrayEnd && !classify(lines[j]).entry
  {
    var k := FirstFrom(lines, classify, HasKey, 0);
    var p := FirstFrom(lines, classify, EndsScan, k + 1);
    FirstFound(lines, classify, EndsScan, k + 1);
    forall j | k < j < p
      ensures !classify(lines[j]).arrayEnd && !classify(lines[j]).entry
    {
      FirstBefore(lines, classify, EndsScan, k + 1, j);
    }
  }

  /** Without a key line there is no insertion. */
  lemma NoKeyNoInsertion(lines: seq<string>, classify: Classifier)
    requires forall j :: 0 <= j < |lines| ==> !classify(lines[j]).key
    ensures Insertion(lines, classify).None?
  {
    FirstNone(lines, classify, HasKey, 0);
  }

  /**
   * When a line j after the first key line k already holds the entry, and no line
   * between them ends the array, there is no insertion.
   */
  lemma NoDuplicate(lines: seq<string>, classify: Classifier, k: nat, j: nat)
    requires k == FirstFrom(lines, classify, HasKey, 0)
    requires k < j < |lines| && classify(lines[j]).entry
    requires forall i :: k < i < j ==> !classify(lines[i]).arrayEnd
    ensures Insertion(lines, classify).None?
  {
    var p := FirstFrom(lines, classify, EndsScan, k + 1);
    if p > j {
      FirstBefore(lines, classify, EndsScan, k + 1, j);
      assert false;
    }
    FirstFound(lines, classify, EndsScan, k + 1);
  }

  /**
   * When no integer line with text before its '<' comes after the first key line k, up
   * to and including a line e that ends the array, there is no insertion.
   */
  lemma NoIndentNoInsertion(lines: seq<string>, classify: Classifier, k: nat, e: nat)
    requires k == FirstFrom(lines, classify, HasKey, 0)
    requires k < e < |lines| && classify(lines[e]).arrayEnd
    requires forall j :: k < j <= e ==> !Passes(GivesTab, classify(lines[j]))
    ensures Insertion(lines, classify).None?
  {
    var p := FirstFrom(lines, classify, EndsScan, k + 1);
    if p > e {
      FirstBefore(lines, classify, EndsScan, k + 1, e);
      assert false;
    }
    TabOverFirst(lines, classify, k + 1, p + 1);
    FirstFound(lines, classify, GivesTab, k + 1);
  }

  /**
   * The tab count of the insertion is not zero, and it is the indent of the first
   * integer line after the key line that has text before its '<'.
   */
  lemma InsertionIndent(lines: seq<string>, classify: Classifier)
    requires Insertion(lines, classify).Some?
    ensures var ins, k := Insertion(lines, classify).value, FirstFrom(lines, classify, HasKey, 0);
      ins.tab > 0
      && exists q :: k < q <= ins.at && Passes(GivesTab, classify(lines[q])) && classify(lines[q]).indent == ins.tab
                     && forall i :: k < i < q ==> !Passes(GivesTab, classify(lines[i]))
  {
    var k := FirstFrom(lines, classify, HasKey, 0);
    var p := FirstFrom(lines, classify, EndsScan, k + 1);
    TabOverFirst(lines, classify, k + 1, p + 1);
    var q := FirstFrom(lines, classify, GivesTab, k + 1);
    FirstFound(lines, classify, GivesTab, k + 1);
    forall i | k < i < q
      ensures !Passes(GivesTab, classify(lines[i]))
    {
      FirstBefore(lines, classify, GivesTab, k + 1, i);
    }
  }

  /**
   * The lines with the insertion made have no insertion of their own, as long as the
   * inserted line is read back as holding the entry.
   */
  lemma InsertedHasNone(lines: seq<string>, classify: Classifier, insertKey: string)
    requires Insertion(lines, classify).Some?
    requires forall t: nat :: classify(Tabs(t) + insertKey).entry
    ensures Insertion(Inserted(lines, Insertion(lines, classify), insertKey).0, classify).None?
  {
    var ins := Insertion(lines, classify).value;
    var p, k := ins.at, FirstFrom(lines, classify, HasKey, 0);
    var line := Tabs(ins.tab) + insertKey;
    var out := lines[..p] + [line] + lines[p..];
    InsertionPosition(lines, classify);
    FirstFound(lines, classify, HasKey, 0);
    forall j | 0 <= j < k
      ensures !Passes(HasKey, classify(out[j]))
    {
      FirstBefore(lines, classify, HasKey, 0, j);
    }
    FirstAt(out, classify, HasKey, 0, k);
    assert out[p] == line && classify(line).entry;
    FirstAt(out, classify, EndsScan, k + 1, p);
  }

  /**
   * Scanning the scanned lines again inserts nothing and changes nothing, as long as
   * the inserted line is read back as holding the entry.
   */
  lemma ScanIdempotent(lines: seq<string>, classify: Classifier, insertKey: string)
    requires forall t: nat :: classify(Tabs(t) + insertKey).entry
    ensures var out := ScanOf(lines, classify, insertKey).out;
      var again := ScanOf(out, classify, insertKey);
      again.out == out && !again.changed
  {
    var out := ScanOf(lines, classify, insertKey).out;
    ScanIsExpected(lines, classify, insertKey);
    ScanIsExpected(out, classify, insertKey);
    if Insertion(lines, classify).Some? {
      InsertedHasNone(lines, classify, insertKey);
    }
  }
}
