/**
 * decode_option_121: DHCP option 121 (Classless Static Routes, RFC 3442) read from
 * the hex dump `ipconfig getpacket` prints.
 *
 * The dump lines are split into tokens; tokens shorter than three characters other
 * than ".." are taken as data bytes (`int(token, 16)`). A counter-driven state
 * machine then reads a prefix byte p, p / 8 subnet octets (floor division, where
 * RFC 3442 section 3 says ceil(p / 8)), then four gateway octets, and emits
 * (subnet padded with zero octets to four, p, gateway). A prefix byte of 0 is
 * falsy, so the next byte is read as a prefix again; a record cut short by the end
 * of the stream emits nothing.
 */
module Option121 {
  import opened Wrappers
  import opened Text
  import opened Routes

  // ---------------------------------------------------------------------------
  // Token filter

  /** t == "..", stated character by character. */
  predicate IsDotDot(t: string) {
    |t| == 2 && t[0] == '.' && t[1] == '.'
  }

  /** A dump token that enters the byte stream: shorter than three characters and not "..". */
  predicate IsByteToken(t: string) {
    |t| < 3 && !IsDotDot(t)
  }

  predicate AllByteTokens(tokens: seq<string>) {
    forall i :: 0 <= i < |tokens| ==> IsByteToken(tokens[i])
  }

  /** The byte tokens among the tokens of one line, in order. */
  function KeepByteTokens(tokens: seq<string>): (r: seq<string>)
    ensures AllByteTokens(r)
  {
    if tokens == [] then []
    else
      var last := tokens[|tokens| - 1];
      KeepByteTokens(tokens[..|tokens| - 1]) + (if IsByteToken(last) then [last] else [])
  }

  /** The byte stream decode_option_121 builds from the dump lines, in order. */
  function ByteTokens(lines: seq<string>): (r: seq<string>)
    ensures AllByteTokens(r)
  {
    if lines == [] then []
    else ByteTokens(lines[..|lines| - 1]) + KeepByteTokens(SplitWhitespace(lines[|lines| - 1]))
  }

  /** int(token, 16) for each token in turn; None as soon as one raises ValueError. */
  function ParseBytes(tokens: seq<string>): (r: Option<seq<int>>)
    requires AllByteTokens(tokens)
    ensures r.Some? <==> forall i :: 0 <= i < |tokens| ==> HexTokenValue(tokens[i]).Some?
    ensures r.Some? ==> |r.value| == |tokens| && forall i :: 0 <= i < |tokens| ==> HexTokenValue(tokens[i]) == Some(r.value[i])
  {
    if tokens == [] then Some([])
    else
      match HexTokenValue(tokens[0])
      case None => None
      case Some(v) =>
        match ParseBytes(tokens[1..])
        case None => None
        case Some(vs) => Some([v] + vs)
  }

  // ---------------------------------------------------------------------------
  // Records

  /** One decoded route before rendering: the prefix byte and the subnet and gateway octets. */
  datatype Record = Record(prefix: int, subnet: seq<int>, gateway: seq<int>)

  /** The subnet octets followed by zero octets up to four (none added once there are four). */
  function Pad4(octets: seq<int>): (r: seq<int>)
    ensures |octets| <= 4 ==> |r| == 4
    ensures |octets| >= 4 ==> r == octets
    ensures r[..|octets|] == octets
    ensures forall i :: |octets| <= i < |r| ==> r[i] == 0
  {
    if |octets| >= 4 then octets else octets + seq(4 - |octets|, i => 0)
  }

  /**
   * The routes of a byte stream, read record by record: a 0 byte is skipped; a prefix
   * byte p is followed by p / 8 subnet octets and four gateway octets; a negative
   * octet count or a stream that ends inside the record ends the decoding.
   */
  function DecodeRecords(bytes: seq<int>): seq<Record>
    decreases |bytes|
  {
    if bytes == [] then []
    else if bytes[0] == 0 then DecodeRecords(bytes[1..])
    else
      var p, rest := bytes[0], bytes[1..];
      var n := p / 8;
      if n < 0 || |rest| < n + 4 then []
      else [Record(p, Pad4(rest[..n]), rest[n..n + 4])] + DecodeRecords(rest[n + 4..])
  }

  function Strs(octets: seq<int>): (r: seq<string>)
    ensures |r| == |octets|
  {
    seq(|octets|, i requires 0 <= i < |octets| => IntToString(octets[i]))
  }

  /** The tuple decode_option_121 appends: ('.'.join of str of each octet, prefix, gateway text). */
  function Render(r: Record): Route {
    Route(Join(Strs(r.subnet), "."), IntMask(r.prefix), Join(Strs(r.gateway), "."))
  }

  function RenderAll(rs: seq<Record>): (routes: seq<Route>)
    ensures |routes| == |rs|
  {
    if rs == [] then [] else [Render(rs[0])] + RenderAll(rs[1..])
  }

  lemma {:induction false} RenderAllAppend(rs: seq<Record>, more: seq<Record>)
    ensures RenderAll(rs + more) == RenderAll(rs) + RenderAll(more)
  {
    if rs == [] {
      assert rs + more == more;
    } else {
      assert (rs + more)[1..] == rs[1..] + more;
      RenderAllAppend(rs[1..], more);
      assert [Render(rs[0])] + RenderAll(rs[1..]) + RenderAll(more) == [Render(rs[0])] + (RenderAll(rs[1..]) + RenderAll(more));
    }
  }

  /** The routes a filtered byte stream decodes to, or the ValueError its first non-hexadecimal token raises. */
  function DecodeStream(tokens: seq<string>): Result<seq<Route>>
    requires AllByteTokens(tokens)
  {
    match ParseBytes(tokens)
    case None => Err(ValueError)
    case Some(bytes) => Ok(RenderAll(DecodeRecords(bytes)))
  }

  /** What decode_option_121 returns for the given dump lines, or the ValueError it raises. */
  function DecodeDump(lines: seq<string>): Result<seq<Route>> {
    DecodeStream(ByteTokens(lines))
  }

  // ---------------------------------------------------------------------------
  // The state machine, and what the rest of the stream yields from each of its states

  /**
   * The records still to come when the state machine holds the given counters and
   * partial octet lists and `rest` is the remainder of the byte stream.
   */
  function Resume(mask: int, netBytes: int, gatewayBytes: int, subnet: seq<int>, gateway: seq<int>, rest: seq<int>): seq<Record> {
    if mask == 0 then DecodeRecords(rest)
    else if netBytes < 0 || gatewayBytes < 0 || |rest| < netBytes + gatewayBytes then []
    else
      [Record(mask, Pad4(subnet + rest[..netBytes]), gateway + rest[netBytes..netBytes + gatewayBytes])]
        + DecodeRecords(rest[netBytes + gatewayBytes..])
  }

  /** One byte read in the subnet or gateway part of a record, the gateway not yet complete. */
  lemma StepPartial(mask: int, netBytes: int, gatewayBytes: int, subnet: seq<int>, gateway: seq<int>, v: int, rest: seq<int>)
    requires mask != 0 && gatewayBytes >= 1
    requires netBytes != 0 || gatewayBytes >= 2
    ensures netBytes != 0 ==>
      Resume(mask, netBytes, gatewayBytes, subnet, gateway, [v] + rest)
      == Resume(mask, netBytes - 1, gatewayBytes, subnet + [v], gateway, rest)
    ensures netBytes == 0 ==>
      Resume(mask, 0, gatewayBytes, subnet, gateway, [v] + rest)
      == Resume(mask, 0, gatewayBytes - 1, subnet, gateway + [v], rest)
  {
    var s := [v] + rest;
    if netBytes > 0 && |rest| >= netBytes - 1 + gatewayBytes {
      assert s[..netBytes] == [v] + rest[..netBytes - 1];
      assert s[netBytes..netBytes + gatewayBytes] == rest[netBytes - 1..netBytes - 1 + gatewayBytes];
      assert s[netBytes + gatewayBytes..] == rest[netBytes - 1 + gatewayBytes..];
      assert subnet + s[..netBytes] == (subnet + [v]) + rest[..netBytes - 1];
    }
    if netBytes == 0 && |rest| >= gatewayBytes - 1 {
      assert s[..0] == [] && rest[..0] == [];
      assert s[0..gatewayBytes] == [v] + rest[0..gatewayBytes - 1];
      assert s[gatewayBytes..] == rest[gatewayBytes - 1..];
      assert gateway + s[0..gatewayBytes] == (gateway + [v]) + rest[0..gatewayBytes - 1];
    }
  }

  /** The fourth gateway byte completes the record. */
  lemma StepComplete(mask: int, subnet: seq<int>, gateway: seq<int>, v: int, rest: seq<int>)
    requires mask != 0
    ensures Resume(mask, 0, 1, subnet, gateway, [v] + rest)
      == [Record(mask, Pad4(subnet), gateway + [v])] + DecodeRecords(rest)
  {
    var s := [v] + rest;
    assert s[..0] == [] && s[0..1] == [v] && s[1..] == rest;
    assert subnet + s[..0] == subnet;
  }

  /** A byte read while no record is open becomes the prefix of the next one. */
  lemma StepPrefix(v: int, rest: seq<int>)
    ensures DecodeRecords([v] + rest) == Resume(v, v / 8, 4, [], [], rest)
  {
    assert ([v] + rest)[1..] == rest;
    if v != 0 && v / 8 >= 0 && |rest| >= v / 8 + 4 {
      assert [] + rest[..v / 8] == rest[..v / 8];
      assert [] + rest[v / 8..v / 8 + 4] == rest[v / 8..v / 8 + 4];
    }
  }

  lemma KeepByteTokensStep(tokens: seq<string>, j: int)
    requires 0 <= j < |tokens|
    ensures KeepByteTokens(tokens[..j + 1]) == KeepByteTokens(tokens[..j]) + (if IsByteToken(tokens[j]) then [tokens[j]] else [])
  {
    assert tokens[..j + 1][..j] == tokens[..j];
  }

  lemma ByteTokensStep(lines: seq<string>, i: int)
    requires 0 <= i < |lines|
    ensures ByteTokens(lines[..i + 1]) == ByteTokens(lines[..i]) + KeepByteTokens(SplitWhitespace(lines[i]))
  {
    assert lines[..i + 1][..i] == lines[..i];
  }

  /** The first loop of decode_option_121: the short tokens of every line, in order, other than "..". */
  method FilterByteStream(optionData: seq<string>) returns (byteStream: seq<string>)
    ensures byteStream == ByteTokens(optionData)
  {
    byteStream := [];
    var i := 0;
    while i < |optionData|
      invariant 0 <= i <= |optionData|
      invariant byteStream == ByteTokens(optionData[..i])
    {
      var splitted := SplitWhitespace(optionData[i]);
      var j := 0;
      while j < |splitted|
        invariant 0 <= j <= |splitted|
        invariant byteStream == ByteTokens(optionData[..i]) + KeepByteTokens(splitted[..j])
      {
        var entry := splitted[j];
        KeepByteTokensStep(splitted, j);
        if |entry| < 3 {
          if entry != ".." {
            assert ByteTokens(optionData[..i]) + KeepByteTokens(splitted[..j]) + [entry] == ByteTokens(optionData[..i]) + (KeepByteTokens(splitted[..j]) + [entry]);
            byteStream := byteStream + [entry];
          }
        }
        j := j + 1;
      }
      assert splitted[..j] == splitted;
      ByteTokensStep(optionData, i);
      i := i + 1;
    }
    assert optionData[..i] == optionData;
  }

  /** The padding loop of decode_option_121: zero octets are appended until there are four. */
  method PadSubnet(octets: seq<int>) returns (padded: seq<int>)
    ensures padded == Pad4(octets)
  {
    padded := octets;
    while |padded| < 4
      invariant |octets| <= |padded| <= |Pad4(octets)|
      invariant padded == Pad4(octets)[..|padded|]
      invariant |Pad4(octets)| == 4 || padded == octets
    {
      padded := padded + [0];
    }
  }

  /** The state machine's variables: the prefix byte of the open record (0 when none), the counters and the octets read so far. */
  datatype Machine = Machine(subnetMask: int, netBytes: int, gatewayBytes: int, dotSubnet: seq<int>, dotGateway: seq<int>)

  const Initial := Machine(0, 0, 4, [], [])

  /** What the state machine's variables satisfy between two bytes. */
  predicate Between(m: Machine) {
    1 <= m.gatewayBytes <= 4 &&
    (m.subnetMask == 0 ==> m.netBytes == 0 && m.gatewayBytes == 4 && m.dotSubnet == [] && m.dotGateway == [])
  }

  /**
   * One pass of the loop body once the byte is converted: a prefix byte opens a
   * record; a subnet or gateway byte extends it; the fourth gateway byte pads the
   * subnet, emits the record and resets the variables.
   */
  function Step(m: Machine, byte: int): (Machine, seq<Record>) {
    if m.subnetMask != 0 then
      var m' :=
        if m.netBytes != 0 then m.(dotSubnet := m.dotSubnet + [byte], netBytes := m.netBytes - 1)
        else m.(dotGateway := m.dotGateway + [byte], gatewayBytes := m.gatewayBytes - 1);
      if m'.gatewayBytes == 0 then
        (m'.(subnetMask := 0, dotSubnet := [], dotGateway := [], gatewayBytes := 4),
         [Record(m.subnetMask, Pad4(m'.dotSubnet), m'.dotGateway)])
      else (m', [])
    else (m.(subnetMask := byte, netBytes := byte / 8), [])
  }

  /** The variables after the loop has read `bytes`, and the records it has emitted. */
  function Run(bytes: seq<int>): (r: (Machine, seq<Record>))
    ensures Between(r.0)
  {
    if bytes == [] then (Initial, [])
    else
      var (m, done) := Run(bytes[..|bytes| - 1]);
      var (m', emitted) := Step(m, bytes[|bytes| - 1]);
      (m', done + emitted)
  }

  lemma RunSnoc(bytes: seq<int>, v: int)
    ensures Run(bytes + [v]) == (Step(Run(bytes).0, v).0, Run(bytes).1 + Step(Run(bytes).0, v).1)
  {
    assert (bytes + [v])[..|bytes|] == bytes;
  }


  /** Whatever follows a byte, the step emits the records the decoding starts with. */
  lemma StepResumes(m: Machine, v: int, rest: seq<int>)
    requires Between(m)
    ensures Resume(m.subnetMask, m.netBytes, m.gatewayBytes, m.dotSubnet, m.dotGateway, [v] + rest)
      == Step(m, v).1 + Resume(Step(m, v).0.subnetMask, Step(m, v).0.netBytes, Step(m, v).0.gatewayBytes,
                               Step(m, v).0.dotSubnet, Step(m, v).0.dotGateway, rest)
  {
    if m.subnetMask != 0 {
      if m.netBytes == 0 && m.gatewayBytes == 1 {
        StepComplete(m.subnetMask, m.dotSubnet, m.dotGateway, v, rest);
      } else {
        StepPartial(m.subnetMask, m.netBytes, m.gatewayBytes, m.dotSubnet, m.dotGateway, v, rest);
      }
    } else {
      StepPrefix(v, rest);
    }
  }

  /**
   * The state machine decodes what DecodeRecords decodes: after reading `bytes`, the
   * records it has emitted followed by those still to come from its variables are
   * the decoding of the whole stream, whatever follows.
   */
  lemma {:induction false} RunDecodes(bytes: seq<int>, rest: seq<int>)
    ensures var (m, done) := Run(bytes);
      DecodeRecords(bytes + rest) == done + Resume(m.subnetMask, m.netBytes, m.gatewayBytes, m.dotSubnet, m.dotGateway, rest)
    decreases |bytes|
  {
    if bytes == [] {
      assert bytes + rest == rest;
    } else {
      var init, v := bytes[..|bytes| - 1], bytes[|bytes| - 1];
      var (m, done) := Run(init);
      var (m', emitted) := Step(m, v);
      var tail := Resume(m'.subnetMask, m'.netBytes, m'.gatewayBytes, m'.dotSubnet, m'.dotGateway, rest);
      assert done + emitted + tail == done + (emitted + tail);
      assert bytes + rest == init + ([v] + rest);
      RunDecodes(init, [v] + rest);
      StepResumes(m, v, rest);
    }
  }

  /** The state machine run over a whole stream emits exactly DecodeRecords of it. */
  lemma RunIsDecode(bytes: seq<int>)
    ensures Run(bytes).1 == DecodeRecords(bytes)
  {
    RunDecodes(bytes, []);
    assert bytes + [] == bytes;
    var (m, done) := Run(bytes);
    assert Resume(m.subnetMask, m.netBytes, m.gatewayBytes, m.dotSubnet, m.dotGateway, []) == [];
    assert done + [] == done;
  }

  /**
   * One pass of decode_option_121's loop body over an already parsed byte: the state
   * variables move as Step says, and a completed record is emitted with its subnet
   * padded to four octets.
   */
  method ReadByte(m: Machine, byte: int) returns (m': Machine, emitted: seq<Record>)
    ensures (m', emitted) == Step(m, byte)
  {
    var subnetMask, netBytes, gatewayBytes := m.subnetMask, m.netBytes, m.gatewayBytes;
    var dotSubnet, dotGateway := m.dotSubnet, m.dotGateway;
    emitted := [];
    if subnetMask != 0 {
      if netBytes != 0 {
        dotSubnet := dotSubnet + [byte];
        netBytes := netBytes - 1;
      } else {
        dotGateway := dotGateway + [byte];
        gatewayBytes := gatewayBytes - 1;
      }
      if gatewayBytes == 0 {
        dotSubnet := PadSubnet(dotSubnet);
        emitted := [Record(subnetMask, dotSubnet, dotGateway)];
        subnetMask := 0;
        dotSubnet := [];
        dotGateway := [];
        gatewayBytes := 4;
      }
    } else {
      subnetMask := byte;
      netBytes := subnetMask / 8;
    }
    m' := Machine(subnetMask, netBytes, gatewayBytes, dotSubnet, dotGateway);
  }

  /**
   * decode_option_121: filter the dump's tokens into the byte stream, then run the
   * state machine over it. The result is the record-by-record decoding of the
   * stream, rendered, or ValueError when a kept token is not hexadecimal.
   */
  method DecodeOption121(optionData: seq<string>) returns (r: Result<seq<Route>>)
    ensures r == DecodeDump(optionData)
  {
    var byteStream := FilterByteStream(optionData);
    r := ReadByteStream(byteStream);
  }

  /** The second loop of decode_option_121: convert each token and feed it to the state machine. */
  method ReadByteStream(byteStream: seq<string>) returns (r: Result<seq<Route>>)
    requires AllByteTokens(byteStream)
    ensures r == DecodeStream(byteStream)
  {
    var m := Initial;
    ghost var read: seq<int> := [];
    ghost var done: seq<Record> := [];
    var routes: seq<Route> := [];
    var k := 0;
    while k < |byteStream|
      invariant 0 <= k <= |byteStream| && |read| == k
      invariant forall j :: 0 <= j < k ==> HexTokenValue(byteStream[j]) == Some(read[j])
      invariant Run(read) == (m, done)
      invariant routes == RenderAll(done)
    {
      var parsed := HexTokenValue(byteStream[k]);
      if parsed.None? {
        return Err(ValueError);
      }
      RunSnoc(read, parsed.value);
      var emitted;
      m, emitted := ReadByte(m, parsed.value);
      RenderAllAppend(done, emitted);
      routes := routes + RenderAll(emitted);
      done := done + emitted;
      read := read + [parsed.value];
      k := k + 1;
    }
    assert ParseBytes(byteStream).value == read;
    RunIsDecode(read);
    r := Ok(routes);
  }

  // ---------------------------------------------------------------------------
  // Properties

  /** The wire form of a record: the prefix byte, its subnet octets, its gateway octets. */
  function Encode(rs: seq<Record>): seq<int> {
    if rs == [] then [] else EncodeOne(rs[0]) + Encode(rs[1..])
  }

  function EncodeOne(r: Record): seq<int> {
    [r.prefix] + r.subnet + r.gateway
  }

  /** A record as the source's own wire convention writes it: prefix / 8 subnet octets (floor), four gateway octets. */
  predicate WellFormed(r: Record) {
    r.prefix >= 1 && |r.subnet| == r.prefix / 8 && |r.gateway| == 4
  }

  function PadRecord(r: Record): Record {
    Record(r.prefix, Pad4(r.subnet), r.gateway)
  }

  function PadAll(rs: seq<Record>): (out: seq<Record>)
    ensures |out| == |rs|
    ensures forall i :: 0 <= i < |rs| ==> out[i] == PadRecord(rs[i])
  {
    if rs == [] then [] else [PadRecord(rs[0])] + PadAll(rs[1..])
  }

  /**
   * Round trip: encoded records followed by any further bytes decode to the same
   * records, zero-padded, in the same order, followed by the decoding of the rest.
   */
  lemma {:induction false} DecodeEncode(rs: seq<Record>, tail: seq<int>)
    requires forall r :: r in rs ==> WellFormed(r)
    ensures DecodeRecords(Encode(rs) + tail) == PadAll(rs) + DecodeRecords(tail)
  {
    if rs != [] {
      var r := rs[0];
      assert r in rs;
      assert forall x :: x in rs[1..] ==> x in rs;
      var after := Encode(rs[1..]) + tail;
      assert Encode(rs) + tail == EncodeOne(r) + after;
      calc {
        DecodeRecords(Encode(rs) + tail);
        DecodeRecords(EncodeOne(r) + after);
        { DecodeOne(r, after); }
        [PadRecord(r)] + DecodeRecords(after);
        { DecodeEncode(rs[1..], tail); }
        [PadRecord(r)] + (PadAll(rs[1..]) + DecodeRecords(tail));
        ([PadRecord(r)] + PadAll(rs[1..])) + DecodeRecords(tail);
        PadAll(rs) + DecodeRecords(tail);
      }
    } else {
      assert Encode(rs) + tail == tail;
    }
  }

  /** One well-formed record on the wire decodes to itself, zero-padded, and decoding resumes after it. */
  lemma DecodeOne(r: Record, after: seq<int>)
    requires WellFormed(r)
    ensures DecodeRecords(EncodeOne(r) + after) == [PadRecord(r)] + DecodeRecords(after)
  {
    var n := r.prefix / 8;
    var bytes := EncodeOne(r) + after;
    var rest := bytes[1..];
    assert rest == r.subnet + r.gateway + after;
    assert rest[..n] == r.subnet;
    assert rest[n..n + 4] == r.gateway;
    assert rest[n + 4..] == after;
  }

  /** Every decoded route has a four-octet gateway; a prefix up to 32 gives a four-octet subnet whose octets past prefix / 8 are zero. */
  lemma {:induction false} DecodedShape(bytes: seq<int>)
    ensures forall r :: r in DecodeRecords(bytes) ==> |r.gateway| == 4
    ensures forall r :: r in DecodeRecords(bytes) && r.prefix <= 32 ==>
      r.prefix >= 1 && |r.subnet| == 4 && forall i :: r.prefix / 8 <= i < 4 ==> r.subnet[i] == 0
    decreases |bytes|
  {
    if bytes != [] {
      if bytes[0] == 0 {
        DecodedShape(bytes[1..]);
      } else {
        var p, rest := bytes[0], bytes[1..];
        var n := p / 8;
        if n >= 0 && |rest| >= n + 4 {
          DecodedShape(rest[n + 4..]);
        }
      }
    }
  }

  /** The octets a well-formed record's subnet comes from are the first prefix / 8 bytes after the prefix. */
  lemma DecodedSubnetFromStream(p: int, subnet: seq<int>, gateway: seq<int>, tail: seq<int>)
    requires WellFormed(Record(p, subnet, gateway)) && p <= 32
    ensures DecodeRecords([p] + subnet + gateway + tail)[0].subnet[..p / 8] == subnet
  {
    DecodeEncode([Record(p, subnet, gateway)], tail);
    assert Encode([Record(p, subnet, gateway)]) == [p] + subnet + gateway + [];
    assert [p] + subnet + gateway + [] + tail == [p] + subnet + gateway + tail;
  }

  /** A prefix byte of 0 starts no record: the byte after it is read as the prefix. */
  lemma ZeroPrefixSkipped(bytes: seq<int>)
    ensures DecodeRecords([0] + bytes) == DecodeRecords(bytes)
  {
    assert ([0] + bytes)[1..] == bytes;
  }

  /** A trailing record that ends before its fourth gateway byte emits nothing. */
  lemma TruncatedTailDropped(rs: seq<Record>, p: int, partial: seq<int>)
    requires forall r :: r in rs ==> WellFormed(r)
    requires p >= 1 && |partial| < p / 8 + 4
    ensures DecodeRecords(Encode(rs) + ([p] + partial)) == PadAll(rs)
  {
    DecodeEncode(rs, [p] + partial);
    assert ([p] + partial)[1..] == partial;
  }

  /**
   * The option 121 bytes of the `ipconfig getpacket en1` dump in decode_option_121's
   * documentation, in dump order, one display per record as the source's wire
   * convention delimits them (the last one as RFC 3442 does).
   */
  const SampleBytes: seq<int> :=
      [0x18, 0xc0, 0xa8, 0x01, 0xc0, 0xa8, 0x00, 0x1d]
    + ([0x18, 0xc0, 0xa8, 0x02, 0xc0, 0xa8, 0x00, 0x1d]
    + ([0x18, 0xc0, 0xa8, 0x03, 0xc0, 0xa8, 0x00, 0x1d]
    + ([0x08, 0x05, 0xc0, 0xa8, 0x00, 0xfe]
    + ([0x18, 0xc0, 0xa8, 0x04, 0xc0, 0xa8, 0x00, 0x1d]
    + ([0x18, 0xc0, 0xa8, 0x05, 0xc0, 0xa8, 0x00, 0x1d]
    + ([0x18, 0xc0, 0xa8, 0x06, 0xc0, 0xa8, 0x00, 0x1d]
    + [0x11, 0x0a, 0x02, 0xf0, 0xc0, 0xa8, 0x0a, 0xc8]))))))

  /** A /24 record of the sample, via 192.168.0.29, on the wire and decoded. */
  lemma SampleRoute(third: int, after: seq<int>)
    ensures DecodeRecords([0x18, 0xc0, 0xa8, third, 0xc0, 0xa8, 0x00, 0x1d] + after)
         == [Record(24, [192, 168, third, 0], [192, 168, 0, 29])] + DecodeRecords(after)
  {
    var r := Record(24, [192, 168, third], [192, 168, 0, 29]);
    assert EncodeOne(r) == [0x18, 0xc0, 0xa8, third, 0xc0, 0xa8, 0x00, 0x1d];
    DecodeOne(r, after);
    assert Pad4([192, 168, third]) == [192, 168, third, 0];
  }

  /** The last record of the sample, read with two subnet octets where it carries three. */
  lemma SampleTail()
    ensures DecodeRecords([0x11, 0x0a, 0x02, 0xf0, 0xc0, 0xa8, 0x0a, 0xc8])
         == [Record(17, [10, 2, 0, 0], [240, 192, 168, 10])]
  {
    var last := [0x11, 0x0a, 0x02, 0xf0, 0xc0, 0xa8, 0x0a, 0xc8];
    assert last[1..][..2] == [10, 2];
    assert last[1..][2..6] == [240, 192, 168, 10];
    assert last[1..][6..] == [200];
    assert DecodeRecords([200]) == [];
    assert Pad4([10, 2]) == [10, 2, 0, 0];
  }

  /** The first seven records of the sample, before any further bytes, decode as written. */
  lemma SampleHead(tail: seq<int>)
    ensures DecodeRecords(
                [0x18, 0xc0, 0xa8, 0x01, 0xc0, 0xa8, 0x00, 0x1d]
              + ([0x18, 0xc0, 0xa8, 0x02, 0xc0, 0xa8, 0x00, 0x1d]
              + ([0x18, 0xc0, 0xa8, 0x03, 0xc0, 0xa8, 0x00, 0x1d]
              + ([0x08, 0x05, 0xc0, 0xa8, 0x00, 0xfe]
              + ([0x18, 0xc0, 0xa8, 0x04, 0xc0, 0xa8, 0x00, 0x1d]
              + ([0x18, 0xc0, 0xa8, 0x05, 0xc0, 0xa8, 0x00, 0x1d]
              + ([0x18, 0xc0, 0xa8, 0x06, 0xc0, 0xa8, 0x00, 0x1d]
              + tail)))))))
         == [Record(24, [192, 168, 1, 0], [192, 168, 0, 29])]
          + ([Record(24, [192, 168, 2, 0], [192, 168, 0, 29])]
          + ([Record(24, [192, 168, 3, 0], [192, 168, 0, 29])]
          + ([Record(8, [5, 0, 0, 0], [192, 168, 0, 254])]
          + ([Record(24, [192, 168, 4, 0], [192, 168, 0, 29])]
          + ([Record(24, [192, 168, 5, 0], [192, 168, 0, 29])]
          + ([Record(24, [192, 168, 6, 0], [192, 168, 0, 29])]
          + DecodeRecords(tail)))))))
  {
    var t6 := [0x18, 0xc0, 0xa8, 0x06, 0xc0, 0xa8, 0x00, 0x1d] + tail;
    SampleRoute(6, tail);
    var t5 := [0x18, 0xc0, 0xa8, 0x05, 0xc0, 0xa8, 0x00, 0x1d] + t6;
    SampleRoute(5, t6);
    var t4 := [0x18, 0xc0, 0xa8, 0x04, 0xc0, 0xa8, 0x00, 0x1d] + t5;
    SampleRoute(4, t5);
    var t3 := [0x08, 0x05, 0xc0, 0xa8, 0x00, 0xfe] + t4;
    var wire := Record(8, [5], [192, 168, 0, 254]);
    assert EncodeOne(wire) == [0x08, 0x05, 0xc0, 0xa8, 0x00, 0xfe];
    DecodeOne(wire, t4);
    assert Pad4([5]) == [5, 0, 0, 0];
    var t2 := [0x18, 0xc0, 0xa8, 0x03, 0xc0, 0xa8, 0x00, 0x1d] + t3;
    SampleRoute(3, t3);
    var t1 := [0x18, 0xc0, 0xa8, 0x02, 0xc0, 0xa8, 0x00, 0x1d] + t2;
    SampleRoute(2, t2);
    SampleRoute(1, t1);
  }

  /**
   * The documented sample, all eight records. The first seven (six /24 routes via
   * 192.168.0.29 and 5.0.0.0/8 via 192.168.0.254) decode as written. The last,
   * 11 0a 02 f0 c0 a8 0a c8, is written the RFC 3442 way (three subnet octets for a
   * /17); the floor rule reads two: 10.2.0.0/17 via 240.192.168.10, and the trailing
   * c8 (200) starts a record that never completes.
   */
  lemma FloorRuleOnSample()
    ensures DecodeRecords(SampleBytes) == [
      Record(24, [192, 168, 1, 0], [192, 168, 0, 29]),
      Record(24, [192, 168, 2, 0], [192, 168, 0, 29]),
      Record(24, [192, 168, 3, 0], [192, 168, 0, 29]),
      Record(8, [5, 0, 0, 0], [192, 168, 0, 254]),
      Record(24, [192, 168, 4, 0], [192, 168, 0, 29]),
      Record(24, [192, 168, 5, 0], [192, 168, 0, 29]),
      Record(24, [192, 168, 6, 0], [192, 168, 0, 29]),
      Record(17, [10, 2, 0, 0], [240, 192, 168, 10])]
  {
    SampleHead([0x11, 0x0a, 0x02, 0xf0, 0xc0, 0xa8, 0x0a, 0xc8]);
    SampleTail();
  }

  // ---------------------------------------------------------------------------
  // Properties of the token filter

  /** Every value is a byte. */
  predicate AreBytes(bs: seq<int>) {
    forall i :: 0 <= i < |bs| ==> 0 <= bs[i] < 256
  }

  /** The data bytes of a dump line as ipconfig prints them. */
  function HexBytes(bs: seq<int>): (ts: seq<string>)
    requires AreBytes(bs)
    ensures |ts| == |bs|
    ensures forall i :: 0 <= i < |bs| ==> ts[i] == HexByte(bs[i])
  {
    if bs == [] then [] else HexBytes(bs[..|bs| - 1]) + [HexByte(bs[|bs| - 1])]
  }

  /** The filter on a token list extended by one token. */
  lemma KeepSnoc(tokens: seq<string>, t: string)
    ensures KeepByteTokens(tokens + [t]) == KeepByteTokens(tokens) + (if IsByteToken(t) then [t] else [])
  {
    assert (tokens + [t])[..|tokens|] == tokens;
  }

  /** The byte stream of a single line is the filtered tokens of that line. */
  lemma ByteTokensOfLine(line: string)
    ensures ByteTokens([line]) == KeepByteTokens(SplitWhitespace(line))
  {
    assert [line][..0] == [];
  }

  /** Every printed byte passes the filter. */
  lemma HexBytesAreByteTokens(bs: seq<int>)
    requires AreBytes(bs)
    ensures AllByteTokens(HexBytes(bs))
    ensures AreWords(HexBytes(bs))
  {
    forall i | 0 <= i < |bs| ensures IsByteToken(HexBytes(bs)[i]) && IsWord(HexBytes(bs)[i]) {
      HexByteValue(bs[i]);
    }
  }

  /** The filter keeps every printed byte that follows the tokens it has already seen. */
  lemma {:induction false} KeepHexBytes(bs: seq<int>, front: seq<string>)
    requires AreBytes(bs)
    ensures KeepByteTokens(front + HexBytes(bs)) == KeepByteTokens(front) + HexBytes(bs)
    decreases |bs|
  {
    if bs == [] {
      assert front + HexBytes(bs) == front;
      assert KeepByteTokens(front) + HexBytes(bs) == KeepByteTokens(front);
    } else {
      var init := bs[..|bs| - 1];
      var t := HexByte(bs[|bs| - 1]);
      HexByteValue(bs[|bs| - 1]);
      assert HexBytes(bs) == HexBytes(init) + [t];
      assert front + HexBytes(init) + [t] == front + (HexBytes(init) + [t]);
      KeepSnoc(front + HexBytes(init), t);
      KeepHexBytes(init, front);
      assert KeepByteTokens(front) + HexBytes(init) + [t] == KeepByteTokens(front) + (HexBytes(init) + [t]);
    }
  }

  /** The bytes printed by ipconfig read back as themselves. */
  lemma ParseHexBytes(bs: seq<int>)
    requires AreBytes(bs)
    ensures AllByteTokens(HexBytes(bs))
    ensures ParseBytes(HexBytes(bs)) == Some(bs)
  {
    HexBytesAreByteTokens(bs);
    var ts := HexBytes(bs);
    forall i | 0 <= i < |ts| ensures HexTokenValue(ts[i]) == Some(bs[i]) {
      HexByteValue(bs[i]);
    }
    var r := ParseBytes(ts);
    assert r.value == bs;
  }

  /**
   * A dump line "offset b1 b2 ... gutter" keeps exactly its data bytes: the offset label
   * and the gutter of dots, both at least three characters wide, are dropped, and the
   * bytes read back as themselves.
   */
  lemma DumpLineBytes(offset: string, bs: seq<int>, gutter: string)
    requires AreBytes(bs)
    requires |offset| >= 3 && NoSpace(offset) && |gutter| >= 3 && NoSpace(gutter)
    ensures ByteTokens([Join([offset] + HexBytes(bs) + [gutter], " ")]) == HexBytes(bs)
    ensures ParseBytes(HexBytes(bs)) == Some(bs)
  {
    var words := [offset] + HexBytes(bs) + [gutter];
    DumpLineWords(offset, bs, gutter);
    SplitJoinWhitespace(words);
    ByteTokensOfLine(Join(words, " "));
    KeepDumpLineWords(offset, bs, gutter);
    ParseHexBytes(bs);
  }

  lemma DumpLineWords(offset: string, bs: seq<int>, gutter: string)
    requires AreBytes(bs)
    requires |offset| >= 3 && NoSpace(offset) && |gutter| >= 3 && NoSpace(gutter)
    ensures AreWords([offset] + HexBytes(bs) + [gutter])
  {
    HexBytesAreByteTokens(bs);
    assert AreWords([offset]) && AreWords([gutter]);
    AreWordsAppend([offset], HexBytes(bs));
    AreWordsAppend([offset] + HexBytes(bs), [gutter]);
  }

  lemma KeepDumpLineWords(offset: string, bs: seq<int>, gutter: string)
    requires AreBytes(bs)
    requires |offset| >= 3 && |gutter| >= 3
    ensures KeepByteTokens([offset] + HexBytes(bs) + [gutter]) == HexBytes(bs)
  {
    KeepSnoc([offset] + HexBytes(bs), gutter);
    KeepHexBytes(bs, [offset]);
    KeepSnoc([], offset);
    assert [] + [offset] == [offset];
  }

  /**
   * A last dump line holding a single byte has a one-dot gutter; "." is short and is
   * not "..", so it enters the byte stream and int('.', 16) raises ValueError.
   */
  lemma OneByteLineRaises(offset: string, b: int)
    requires 0 <= b < 256 && |offset| >= 3 && NoSpace(offset)
    ensures DecodeDump([Join([offset, HexByte(b), "."], " ")]) == Err(ValueError)
  {
    var words := [offset, HexByte(b), "."];
    HexByteValue(b);
    assert AreWords(words);
    SplitJoinWhitespace(words);
    ByteTokensOfLine(Join(words, " "));
    KeepOneByteLine(offset, b);
    assert HexTokenValue(".") == None;
  }

  lemma KeepOneByteLine(offset: string, b: int)
    requires 0 <= b < 256 && |offset| >= 3
    ensures KeepByteTokens([offset, HexByte(b), "."]) == [HexByte(b), "."]
  {
    HexByteValue(b);
    KeepSnoc([offset, HexByte(b)], ".");
    KeepSnoc([offset], HexByte(b));
    KeepSnoc([], offset);
    assert [] + [offset] == [offset];
    assert [offset] + [HexByte(b)] == [offset, HexByte(b)];
    assert [offset, HexByte(b)] + ["."] == [offset, HexByte(b), "."];
  }
}
