/**
 * process_plist_file: the patch of IPConfiguration.bundle's Info.plist that adds a DHCP
 * option code to the DHCPRequestedParameterList array. The file arrives as the list of
 * its lines, each with its newline as readlines() gives them; the result is the patched
 * list of lines and the flag saying whether it differs. The scan itself, over what it
 * tests of each line, is PlistScan; this module fixes those tests to the substrings the
 * source looks for.
 */
module PlistPatch {
  import opened Text
  import opened PlistScan

  /** The key whose array lists the requested DHCP options. */
  const DhcpKey := "<key>DHCPRequestedParameterList</key>"
  const ArrayEnd := "</array>"
  /** DEFAULT_OPTION_CODE: the classless static route option. */
  const DefaultOptionCode := "121"

  /** option_code or '121': an empty code falls back to the default, any other is kept. */
  function EffectiveCode(optionCode: string): (code: string)
    ensures code != ""
    ensures optionCode != "" ==> code == optionCode
  {
    if optionCode == "" then DefaultOptionCode else optionCode
  }

  /** '<integer>%s</integer>' % code: the array entry of an option code. */
  function Entry(code: string): string {
    "<integer>" + code + "</integer>"
  }

  /** insert_key: the entry on a line of its own. */
  function InsertKey(code: string): string {
    Entry(code) + "\n"
  }

  /** len(line.split('<')[0]) */
  function Indent(line: string): nat {
    |Split(line, '<')[0]|
  }

  /** The indent counts the characters before the line's first '<'. */
  lemma IndentBeforeFirstBracket(line: string)
    ensures Indent(line) <= |line| && Lacks(line[..Indent(line)], '<')
    ensures Indent(line) < |line| ==> line[Indent(line)] == '<'
  {
    var i := IndexOf(line, '<');
    if i < |line| {
      assert Split(line, '<') == [line[..i]] + Split(line[i + 1..], '<');
    }
  }

  /** '<integer>' in line and '</integer>' in line */
  predicate IsIntegerLine(line: string) {
    Contains(line, "<integer>") && Contains(line, "</integer>")
  }

  /** The tests the loop body makes of a line, for the given option code. */
  function Classify(code: string): Classifier {
    line => Kind(Contains(line, DhcpKey), Contains(line, Entry(code)), Contains(line, ArrayEnd),
                 IsIntegerLine(line), Indent(line))
  }

  /** The tests of one line, spelled out. */
  lemma ClassifyLine(code: string, line: string)
    ensures Classify(code)(line)
         == Kind(Contains(line, DhcpKey), Contains(line, Entry(code)), Contains(line, ArrayEnd),
                 IsIntegerLine(line), Indent(line))
  {
  }

  /** What process_plist_file returns for the given lines and option code. */
  function Patch(lines: seq<string>, optionCode: string): (seq<string>, bool) {
    var code := EffectiveCode(optionCode);
    var s := ScanOf(lines, Classify(code), InsertKey(code));
    (s.out, s.changed)
  }

  /**
   * One pass of the loop body of process_plist_file: the loop's variables before the
   * line in, after it out.
   */
  method ReadLine(line: string, code: string, insertKey: string,
                  dhcpKeyInFile: bool, optionInPlist: bool, endOfArray: bool, tabOffset: nat,
                  fileNeedsChange: bool, newFileData: seq<string>)
    returns (dhcpKeyInFile': bool, optionInPlist': bool, endOfArray': bool, tabOffset': nat,
             fileNeedsChange': bool, newFileData': seq<string>)
    ensures Scan(dhcpKeyInFile', optionInPlist', endOfArray', tabOffset', fileNeedsChange', newFileData')
         == Step(Scan(dhcpKeyInFile, optionInPlist, endOfArray, tabOffset, fileNeedsChange, newFileData),
                 line, Classify(code)(line), insertKey)
  {
    dhcpKeyInFile', optionInPlist', endOfArray', tabOffset' := dhcpKeyInFile, optionInPlist, endOfArray, tabOffset;
    fileNeedsChange', newFileData' := fileNeedsChange, newFileData;
    if dhcpKeyInFile' && !optionInPlist' && !endOfArray' {
      if Contains(line, "<integer>") && Contains(line, "</integer>") && tabOffset' == 0 {
        tabOffset' := |Split(line, '<')[0]|;
      }
      if Contains(line, "<integer>" + code + "</integer>") {
        optionInPlist' := true;
      }
      if Contains(line, "</array>") {
        endOfArray' := true;
      }
      if !optionInPlist' && endOfArray' && tabOffset' != 0 {
        var newKey := Tabs(tabOffset') + insertKey;
        newFileData' := newFileData' + [newKey];
        fileNeedsChange' := true;
      }
    }
    if Contains(line, "<key>DHCPRequestedParameterList</key>") {
      dhcpKeyInFile' := true;
    }
    newFileData' := newFileData' + [line];
  }

  /**
   * process_plist_file over the lines already read from the file. The loop's variables
   * after each line are the scan of the lines read so far.
   */
  method ProcessPlistFile(fileData: seq<string>, optionCode: string)
    returns (newFileData: seq<string>, fileNeedsChange: bool)
    ensures (newFileData, fileNeedsChange) == Patch(fileData, optionCode)
  {
    var code := if optionCode == "" then DefaultOptionCode else optionCode;
    var insertKey := "<integer>" + code + "</integer>" + "\n";
    var dhcpKeyInFile := false;
    var optionInPlist := false;
    var endOfArray := false;
    fileNeedsChange := false;
    var tabOffset: nat := 0;
    newFileData := [];
    for k := 0 to |fileData|
      invariant ScanOf(fileData[..k], Classify(code), insertKey)
        == Scan(dhcpKeyInFile, optionInPlist, endOfArray, tabOffset, fileNeedsChange, newFileData)
    {
      var line := fileData[k];
      dhcpKeyInFile, optionInPlist, endOfArray, tabOffset, fileNeedsChange, newFileData :=
        ReadLine(line, code, insertKey, dhcpKeyInFile, optionInPlist, endOfArray, tabOffset,
                 fileNeedsChange, newFileData);
      assert fileData[..k + 1] == fileData[..k] + [line];
      ScanOfSnoc(fileData[..k], line, Classify(code), insertKey);
    }
    assert fileData[..|fileData|] == fileData;
  }

  /**
   * Without a change the lines come back as they were; with one, exactly one line is
   * added: the entry after a non-zero number of tabs, before a line that closes the
   * array and after the first key line.
   */
  lemma PatchKeepsLines(lines: seq<string>, optionCode: string)
    ensures var code := EffectiveCode(optionCode);
      var (out, changed) := Patch(lines, optionCode);
      |out| == |lines| + (if changed then 1 else 0)
      && (!changed ==> out == lines)
      && (changed ==>
            exists p, tab: nat ::
              0 < p < |lines| && tab > 0 && Contains(lines[p], ArrayEnd)
              && out == lines[..p] + [Tabs(tab) + InsertKey(code)] + lines[p..])
  {
    var code := EffectiveCode(optionCode);
    ScanIsExpected(lines, Classify(code), InsertKey(code));
    var ins := Insertion(lines, Classify(code));
    if ins.Some? {
      InsertionPosition(lines, Classify(code));
      InsertionIndent(lines, Classify(code));
      var p, tab := ins.value.at, ins.value.tab;
      assert Contains(lines[p], ArrayEnd);
      assert Patch(lines, optionCode).0 == lines[..p] + [Tabs(tab) + InsertKey(code)] + lines[p..];
    }
  }

  /**
   * Where the line goes: just before the first line holding `</array>` after the first
   * key line, and neither that line nor any between them holds the entry.
   */
  lemma PatchPosition(lines: seq<string>, optionCode: string)
    requires Patch(lines, optionCode).1
    ensures var code := EffectiveCode(optionCode);
      var out := Patch(lines, optionCode).0;
      exists k, p ::
        0 <= k < p < |lines| && |out| == |lines| + 1 && out == lines[..p] + [out[p]] + lines[p..]
        && Contains(lines[k], DhcpKey) && (forall j :: 0 <= j < k ==> !Contains(lines[j], DhcpKey))
        && Contains(lines[p], ArrayEnd) && (forall j :: k < j < p ==> !Contains(lines[j], ArrayEnd))
        && (forall j :: k < j <= p ==> !Contains(lines[j], Entry(code)))
  {
    var code := EffectiveCode(optionCode);
    var classify := Classify(code);
    ScanIsExpected(lines, classify, InsertKey(code));
    InsertionPosition(lines, classify);
    var k := FirstFrom(lines, classify, HasKey, 0);
    var p := Insertion(lines, classify).value.at;
    FirstFound(lines, classify, HasKey, 0);
    forall j | 0 <= j < k
      ensures !classify(lines[j]).key
    {
      FirstBefore(lines, classify, HasKey, 0, j);
    }
    PositionAt(lines, code, k, p);
    var out := Patch(lines, optionCode).0;
    assert out == lines[..p] + [out[p]] + lines[p..];
  }

  /** The facts of PatchPosition, from the tests of the lines to the substrings they look for. */
  lemma PositionAt(lines: seq<string>, code: string, k: nat, p: nat)
    requires k < p < |lines|
    requires Classify(code)(lines[k]).key && forall j :: 0 <= j < k ==> !Classify(code)(lines[j]).key
    requires Classify(code)(lines[p]).arrayEnd && !Classify(code)(lines[p]).entry
    requires forall j :: k < j < p ==> !Classify(code)(lines[j]).arrayEnd && !Classify(code)(lines[j]).entry
    ensures Contains(lines[k], DhcpKey) && forall j :: 0 <= j < k ==> !Contains(lines[j], DhcpKey)
    ensures Contains(lines[p], ArrayEnd) && forall j :: k < j < p ==> !Contains(lines[j], ArrayEnd)
    ensures forall j :: k < j <= p ==> !Contains(lines[j], Entry(code))
  {
    forall j | 0 <= j <= k
      ensures Classify(code)(lines[j]).key == Contains(lines[j], DhcpKey)
    {
      ClassifyLine(code, lines[j]);
    }
    forall j | k < j <= p
      ensures Classify(code)(lines[j]).arrayEnd == Contains(lines[j], ArrayEnd)
      ensures Classify(code)(lines[j]).entry == Contains(lines[j], Entry(code))
    {
      ClassifyLine(code, lines[j]);
    }
  }

  /** A file without the DHCPRequestedParameterList key is left alone. */
  lemma NoKeyUnchanged(lines: seq<string>, optionCode: string)
    requires forall j :: 0 <= j < |lines| ==> !Contains(lines[j], DhcpKey)
    ensures Patch(lines, optionCode) == (lines, false)
  {
    var code := EffectiveCode(optionCode);
    ScanIsExpected(lines, Classify(code), InsertKey(code));
    NoKeyNoInsertion(lines, Classify(code));
  }

  /** The inserted line holds the entry it adds. */
  lemma EntryInNewKey(tab: nat, code: string)
    ensures Contains(Tabs(tab) + InsertKey(code), Entry(code))
  {
    var e := Entry(code);
    assert OccursAt(e, e, 0);
    ContainsInConcat(Tabs(tab), e, e);
    assert Tabs(tab) + InsertKey(code) == Tabs(tab) + e + "\n";
    ContainsInConcat(Tabs(tab) + e, "\n", e);
  }

  /** Patching a patched file changes nothing more. */
  lemma PatchIdempotent(lines: seq<string>, optionCode: string)
    ensures var out := Patch(lines, optionCode).0;
      Patch(out, optionCode) == (out, false)
  {
    var code := EffectiveCode(optionCode);
    forall t: nat
      ensures Classify(code)(Tabs(t) + InsertKey(code)).entry
    {
      EntryInNewKey(t, code);
    }
    ScanIdempotent(lines, Classify(code), InsertKey(code));
  }
}
