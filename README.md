# DHCP option 121 for macOS, modelled in Dafny

The repository has two Python 2 scripts.

- `dhcp_121.py` reads the DHCP Classless Static Routes option (RFC 3442, option 121) from `ipconfig getpacket`. It removes stale static routes from interfaces that are down, and adds the decoded routes whose gateway one of the machine's own subnets can reach.
- `add_dhcp_request_option.py` patches the `DHCPRequestedParameterList` array of IPConfiguration.bundle's `Info.plist`, so that the DHCP client asks for option 121 (or another code).

This project models the logic of both scripts and proves properties of it. Each part is modelled in the form the source has.

- Python functions that only compute a value become Dafny functions, with lemmas stating what they promise.
- Each Python loop becomes a `method` with a `while` or `for` loop. Its loop invariants tie it to the function that specifies it.
- The route list that `set_routes` extends in place becomes a class, `RouteLists.RouteList`.

Collaborators that run programs or read the system become parameters:

- `subprocess.check_output` on a `route` command becomes a `Runner`. The runner is given the command and the commands the run has already issued, so a command can fail because an earlier one changed the table (a second identical `route add`, say). It returns the command's stdout, or nothing where the command fails; a failure ends the run with `CalledProcessError`. Every command issued is recorded in an output log.
- The interface list, the link state of each interface, the interface addresses and the `override` settings are inputs.
- The `netstat` output arrives as its lines, or as its rows already split into fields.
- The packet text arrives as its lines, and so do the lines of `Info.plist`.

A Python exception that the code lets escape becomes an `Err` value of `Wrappers.Result`, and the model stops there as Python would. The four such exceptions are `ValueError`, `IndexError`, `CalledProcessError` and `socket.error`.

Modules:

- `Wrappers`: `Option`, `Result`, the Python exceptions, and two folds. `ReadAll` is a loop that reads items until the first failure. `Collect` gathers a list of outcomes.
- `Text`: the parts of Python's `str` the scripts use. These are `split()`, `split(c)`, `strip()`, `in`, `count`, `str(n)` and `int(s, 16)`.
- `Sequences`: order-keeping selection from a list (the subsequence relation).
- `Address`: dotted quads as `socket.inet_aton` reads them, the big-endian value `struct.unpack('!L', …)` gives, `subnet_check` and `ip_address_to_32bit`. A 32-bit value is modelled as its 32 bits, most significant first. `>>`, `^` and `&` are written out bit by bit.
- `Routes`: routes, table rows and `route` commands. A mask keeps its provenance: `IntMask` for a decoded route and `StrMask` for table rows and override routes, because Python's `==` between an `int` and a `str` is `False`.
- `Option121`: `decode_option_121`. The token filter is one method; the byte-by-byte state machine is a method that reads one byte and a loop over the stream. Both are proved against the function `DecodeRecords`, which is defined by reading records directly.
- `Packet`: `get_option`.
- `RouteTable`: `get_ipv4_routes`, the parsing body of `get_route_table_with_masks`, and the parse in `get_default_nic`.
- `Commands`: issuing `route` commands through the runner, and the adds of `set_routes` as a plan.
- `StaticRoutes` and `RouteLists`: the `staticroutes` override appended in place to the route list.
- `RouteAdds`: the decision of `set_routes` and the loop that issues the adds.
- `ClearPlan` and `RouteDeletes`: `clear_routes`. These cover the interfaces to clear and the deletes issued for them.
- `PlistScan`: the line scan of `process_plist_file` over what it tests of each line. This covers the key line, the entry, the end of the array, the integer lines and their indent. It is proved equal to a reference reading that states where the line goes.
- `PlistPatch`: `process_plist_file` itself, with those tests fixed to the substrings the source looks for.

The code is followed where the description of the scripts and the code differ, and where the code differs from RFC 3442.

- **Prefix bytes.** The decoder reads `prefix / 8` subnet octets with floor division, where RFC 3442 section 3 asks for the ceiling. In the docstring's own sample, the first seven records decode as written. The last record (`11 0a 02 f0 c0 a8 0a c8`) decodes to 10.2.0.0/17 via 240.192.168.10, and its last byte is dropped. `Option121.FloorRuleOnSample` states this for all 62 bytes of the sample.
- **Classful masks.** A table target with no explicit mask whose first octet is 192 or more gets the mask `''`, not `'24'`. The test `bit_subnet[:3] == '11'` compares a three-character slice with a two-character string, so it never holds.
- **Decoded routes are never suppressed.** A decoded route carries an `int` mask while table masks are strings. The "route already present" test of `set_routes` therefore never fires for decoded routes; only override routes can be suppressed.
- **The dump's dot gutter.** In a dump line that holds exactly one data byte, the gutter `.` is shorter than three characters and is not `'..'`. It enters the byte stream, and `int('.', 16)` raises `ValueError` (`Option121.OneByteLineRaises`).

## Model

| member | source | states |
|---|---|---|
| Wrappers.ReadAllShape | dhcp_121.py:572-576 | reading items in order until the first failure keeps exactly the values of the items before it; the error, if any, is the first failing item's |
| Wrappers.CollectOk | dhcp_121.py:478-503 | a loop that raises on the first failing row succeeds exactly when every row does, and then returns every row's value in order |
| Wrappers.CollectErr | dhcp_121.py:478-503 | when it fails, its error is that of a row all of whose predecessors succeeded |
| Address.ParseDottedQuadRoundTrip | dhcp_121.py:620-621 | inet_aton reads the dotted-quad text of any address back as the same four octets |
| Address.WordIsBigEndian | dhcp_121.py:620-621 | the 32 bits of an address, read most significant first, are the value struct.unpack('!L') gives: a·2^24 + b·2^16 + c·2^8 + d |
| Address.WordInjective | dhcp_121.py:620-621 | two addresses with the same 32-bit value are the same address |
| Address.Netmask | dhcp_121.py:622 | (0xFFFFFFFF >> n) ^ 0xFFFFFFFF has exactly its top n bits set, n capped at 32 |
| Address.SubnetCheck | dhcp_121.py:603-623 | subnet_check holds exactly when ip and target agree on their first min(n, 32) bits |
| Address.SubnetCheckBoundaries | dhcp_121.py:620-623 | a /0 check accepts every target; a check of 32 bits or more accepts only the address itself; the check is symmetric in ip and target and true when they are equal |
| Address.SubnetCheckOctets | dhcp_121.py:620-623 | /8, /16 and /24 checks compare exactly the first one, two and three octets |
| Address.BinOfAddress | dhcp_121.py:513-518 | bin() of the address's value, without '0b' and with zeros in front up to 32 characters, is the address's bit string |
| Address.IpAddressTo32Bit | dhcp_121.py:508-519 | the padding loop returns the 32-character big-endian bit string of the address |
| Address.LeadingBitsOfWord | dhcp_121.py:493-496 | the first bit of an address is 1 exactly when its first octet is 128 or more, the second exactly when that octet modulo 128 is 64 or more |
| RouteTable.GetIpv4Routes | dhcp_121.py:389-404 | the filter loop returns Ipv4Rows of the table |
| RouteTable.Ipv4RowsOrdered | dhcp_121.py:399-403 | the kept rows are a subsequence of the table, in table order |
| RouteTable.Ipv4RowsKept | dhcp_121.py:400-403 | every kept row has six fields or more, a second field starting with four dot-separated digit runs, and a first field without 'default' |
| RouteTable.Ipv4RowsComplete | dhcp_121.py:399-403 | every table row with those three properties is kept |
| RouteTable.DottedQuadMatches | dhcp_121.py:401 | any dotted quad, whatever follows it, matches the pattern \d+\.\d+\.\d+\.\d+ |
| RouteTable.SplitTargetCases | dhcp_121.py:480-484 | a target without '/' keeps all of its text and gets mask ''; with one '/' it splits into the text before and after it; with two or more the unpacking raises ValueError |
| RouteTable.PaddedDots | dhcp_121.py:488-489 | padding keeps the target as a prefix and brings its dot count up to three, or leaves a larger count as it was |
| RouteTable.InferredMask | dhcp_121.py:491-498 | the mask inferred from the bit string is '8' for a first octet below 128, '16' below 192, and '' otherwise |
| RouteTable.MaskOfLeadingBits | dhcp_121.py:493-498 | a bit string starting with 0 gives '8', one starting with 10 gives '16', and the three-character test against '11' never matches |
| RouteTable.NormalisedRowShape | dhcp_121.py:478-503 | a six-field row fails exactly on two '/' or on a padded target inet_aton rejects; otherwise it becomes [padded target, explicit mask or the classful mask, gateway, interface] |
| RouteTable.PadTarget | dhcp_121.py:488-489 | the padding loop returns Padded of the target |
| RouteTable.NormaliseRow | dhcp_121.py:479-503 | the loop body returns NormalisedRow of the row |
| RouteTable.NormaliseRows | dhcp_121.py:477-505 | the loop returns every row normalised, in order, or the first row's error |
| RouteTable.RouteTableRows | dhcp_121.py:471-505 | the table succeeds when every IPv4 row normalises, and then row i is the i-th IPv4 row normalised; a failure is the error of an IPv4 row all of whose predecessors normalise |
| RouteTable.GetRouteTableWithMasks | dhcp_121.py:465-505 | the function returns RouteTableWithMasks of the split netstat rows |
| RouteTable.GetDefaultNic | dhcp_121.py:312-327 | the result is the sixth field of the last line starting with 'default', or 'en1' when there is no such line; it raises IndexError exactly when some default line has fewer than six fields |
| Packet.GetOption | dhcp_121.py:407-432 | the scan returns OptionLines of the packet lines |
| Packet.OpenedSnoc | dhcp_121.py:423-431 | after a line the block is open exactly when that line contains the option code, or the block was open and the line is not empty |
| Packet.OptionLinesInOrder | dhcp_121.py:420-432 | the option's lines are a subsequence of the packet lines, in order |
| Packet.OptionLinesNonEmpty | dhcp_121.py:424-425 | no returned line is empty |
| Packet.OptionLinesShort | dhcp_121.py:422-431 | a packet of fewer than two lines yields nothing, since the header line itself is never returned |
| Packet.NoHeaderNoData | dhcp_121.py:430-431 | without a line containing the option code nothing is returned |
| Packet.BlockLines | dhcp_121.py:423-431 | any non-empty line right after a header line is returned, and an empty line closes the block |
| Option121.FilterByteStream | dhcp_121.py:238-248 | the filter loop returns ByteTokens of the dump lines: the tokens shorter than three characters other than '..', in order |
| Option121.KeepDumpLineWords | dhcp_121.py:244-248 | of a dump line's words, the offset label and the gutter are dropped and exactly the byte tokens kept |
| Option121.DumpLineBytes | dhcp_121.py:238-248 | a dump line with its offset, bytes and gutter yields exactly its bytes, and int(t, 16) reads them back |
| Option121.OneByteLineRaises | dhcp_121.py:244-248 | a dump line holding one byte lets the gutter '.' through, and the decoder raises ValueError on it |
| Option121.ParseBytes | dhcp_121.py:269 | int(t, 16) of every token succeeds exactly when each token is a hexadecimal literal, and then gives each token's value in order |
| Option121.Pad4 | dhcp_121.py:289-290 | the subnet octets keep their order and are followed by zeros up to four |
| Option121.PadSubnet | dhcp_121.py:289-290 | the padding loop returns Pad4 of the octets |
| Option121.ReadByte | dhcp_121.py:269-308 | one pass of the loop body is one Step of the state machine |
| Option121.RunIsDecode | dhcp_121.py:267-308 | the records the state machine emits over a byte stream are DecodeRecords of that stream |
| Option121.ReadByteStream | dhcp_121.py:250-309 | the decoding loop returns the routes of the byte stream, or ValueError for a token that is not hexadecimal |
| Option121.DecodeOption121 | dhcp_121.py:202-309 | decode_option_121 returns DecodeDump of the option's lines |
| Option121.DecodeEncode | dhcp_121.py:267-308 | records laid out as [p, p/8 subnet octets, 4 gateway octets] with p in 1..32 decode to the same records, subnets zero-padded to four, in order |
| Option121.DecodedShape | dhcp_121.py:280-293 | every record has four gateway octets; one whose prefix is at most 32 has a prefix of at least 1 and four subnet octets, those from p/8 on being 0 |
| Option121.DecodedSubnetFromStream | dhcp_121.py:274-276 | a record's first p/8 subnet octets are the bytes after its prefix byte |
| Option121.ZeroPrefixSkipped | dhcp_121.py:273-308 | a prefix byte of 0 starts no record: the next byte is read as a prefix |
| Option121.TruncatedTailDropped | dhcp_121.py:288-293 | a last record cut off before its fourth gateway byte emits nothing |
| Option121.FloorRuleOnSample | dhcp_121.py:224-227 | the docstring's whole sample decodes to its eight routes: six /24 routes via 192.168.0.29 and 5.0.0.0/8 via 192.168.0.254 as written, and then 10.2.0.0/17 via 240.192.168.10 with the trailing c8 dropped |
| StaticRoutes.ParseStaticRoute | dhcp_121.py:573-576 | an override route fails only with IndexError, and its mask is a string mask |
| StaticRoutes.ParseStaticRouteOf | dhcp_121.py:573-576 | 'subnet/mask gateway' is read back as (subnet, mask, gateway) |
| StaticRoutes.TrailingSemicolonRaises | dhcp_121.py:572-575 | a setting that ends in ';' raises, since its empty last piece has no '/' |
| StaticRoutes.AppendStatic | dhcp_121.py:571-576 | the override routes are appended to the route list in place, in setting order, up to the first piece that raises |
| RouteLists.RouteList.AppendParsed | dhcp_121.py:572-576 | the list grows by the values read before the first failure, and reports that failure |
| RouteAdds.DecideCases | dhcp_121.py:579-595 | with a well-formed gateway, a route gets an add exactly when the check is off or some address's subnet holds the gateway, and no current row has its subnet and an equal mask; the decision raises socket.error exactly when the check is on, there is an address, and the gateway is malformed |
| RouteAdds.DecodedRouteDecided | dhcp_121.py:593-595 | a decoded route is never found present in the table, so only the gateway test decides it |
| RouteAdds.DecideRoute | dhcp_121.py:579-595 | the two loops of one route compute Decide |
| RouteAdds.IssueAdds | dhcp_121.py:578-598 | the route loop issues Adds: the routes decided true, in list order, stopping at the first error |
| RouteAdds.SetRoutes | dhcp_121.py:559-600 | a table error leaves everything untouched; otherwise the override routes are appended in place, and either their parse error is returned or the adds of the extended list are issued |
| Commands.Issue | dhcp_121.py:522-556 | issuing a command logs it and succeeds exactly when the runner does, given the commands issued before it |
| Commands.RunAllShape | dhcp_121.py:195-199 | a run logs a prefix of its commands; on success it logs all of them and collects each stdout in order, each command run after those before it; on failure the last logged command is the only one that failed |
| Commands.RunAllRepeatFails | dhcp_121.py:590-598 | against a table that refuses a command it has already taken, the same command issued twice succeeds once and ends the run with CalledProcessError the second time |
| Commands.RunAllStops | dhcp_121.py:195-199 | nothing after a failed command runs |
| Commands.PlannedExact | dhcp_121.py:578-598 | the planned adds are a subsequence of all routes' adds, and hold exactly the adds of routes decided true |
| Commands.AddsFollowPlan | dhcp_121.py:578-598 | when no decision raises, the adds issued are the planned adds, in list order |
| Commands.AddsRaise | dhcp_121.py:583-598 | when the decision of route k raises, the run stops there with that error, after the planned adds of the routes before it |
| ClearPlan.ClearNicsExact | dhcp_121.py:174-192 | the clear list starts with the force list, then holds each interface that is listed, not safe and down, once, and none already forced; membership is exactly "forced, or listed, not safe and down" |
| ClearPlan.SafeNicKept | dhcp_121.py:186-187 | a safe interface that is not forced is never cleared |
| ClearPlan.EmptyStateKept | dhcp_121.py:189 | an interface with an empty link state is never cleared unless forced |
| ClearPlan.DeletesForExact | dhcp_121.py:196-199 | the deletes for one interface are exactly those of the table rows on that interface |
| ClearPlan.DeletesExact | dhcp_121.py:195-199 | the deletes are exactly those of the rows whose interface is in the clear list |
| ClearPlan.CollectClearNics | dhcp_121.py:186-191 | the interface loop builds ClearNics |
| ClearPlan.DeleteRoutesOf | dhcp_121.py:196-199 | the inner loop issues the deletes of one interface after those already issued |
| ClearPlan.IssueDeletes | dhcp_121.py:195-199 | the nested loops issue Deletes in clear-list order, then table order, and stop at the first failure |
| RouteDeletes.StrippedWords | dhcp_121.py:175-176 | the loop returns the stripped words of the setting |
| RouteDeletes.ClearRoutes | dhcp_121.py:155-199 | a table error issues nothing; otherwise the deletes of the rows of every cleared interface are run, and the result is the run's |
| PlistPatch.EffectiveCode | add_dhcp_request_option.py:81 | the code used is never empty, and a non-empty code is kept |
| PlistPatch.IndentBeforeFirstBracket | add_dhcp_request_option.py:96 | len(line.split('<')[0]) counts the characters before the line's first '<' |
| PlistPatch.ReadLine | add_dhcp_request_option.py:92-115 | one pass of the loop body is one Step of the scan over the line's tests |
| PlistPatch.ProcessPlistFile | add_dhcp_request_option.py:70-117 | the loop returns Patch of the lines and the option code |
| PlistScan.Tabs | add_dhcp_request_option.py:108 | tab_offset * '\t' is that many tab characters |
| PlistScan.Choose | add_dhcp_request_option.py:107 | a line is inserted exactly when the entry is absent and the tab offset is not 0 |
| PlistScan.TabOverFirst | add_dhcp_request_option.py:95-96 | the tab offset at a line is the indent of the first integer line after the key line with text before its '<', or 0 without one |
| PlistScan.ScanIsExpected | add_dhcp_request_option.py:91-117 | the scan's lines and change flag are the input with the reference insertion made, and the flag is set exactly when a line is inserted |
| PlistScan.InsertionPosition | add_dhcp_request_option.py:102-112 | the insertion goes before the first line after the key line that ends the array, and neither it nor any line between holds the entry |
| PlistScan.NoKeyNoInsertion | add_dhcp_request_option.py:92 | without a key line nothing is inserted |
| PlistScan.NoDuplicate | add_dhcp_request_option.py:97-99 | an entry after the key line and before the end of the array prevents the insertion |
| PlistScan.NoIndentNoInsertion | add_dhcp_request_option.py:95-96 | without an integer line with text before its '<', from the key line to the end of the array, nothing is inserted |
| PlistScan.InsertionIndent | add_dhcp_request_option.py:95-108 | the inserted line's tab count is non-zero and is the indent of the first integer line after the key line that has one |
| PlistScan.ScanIdempotent | add_dhcp_request_option.py:97-110 | scanning the output again inserts nothing, as long as the inserted line is read as holding the entry |
| PlistPatch.PatchKeepsLines | add_dhcp_request_option.py:91-115 | without a change the lines come back as they were; with one, the output is the input with one line, tabs followed by the entry and a newline, inserted before a line holding '</array>' |
| PlistPatch.PatchPosition | add_dhcp_request_option.py:92-112 | the line goes before the first '</array>' line after the first key line, and neither it nor any line between them holds the entry |
| PlistPatch.NoKeyUnchanged | add_dhcp_request_option.py:111-112 | a file without the DHCPRequestedParameterList key is returned unchanged, with no change reported |
| PlistPatch.EntryInNewKey | add_dhcp_request_option.py:83-108 | the inserted line contains the entry it adds |
| PlistPatch.PatchIdempotent | add_dhcp_request_option.py:97-110 | patching the patched lines again changes nothing and reports no change |

## Left out

- `main` of both scripts, `check_root`, `check_version`, `get_argv` and the `print` statements: these cover start-up, privilege and version checks and console output.
- `check_for_override_file`: reading the override file is file I/O, so its settings are inputs. Its returned tuple lists `force_nics` before `safe_nics`, but `main` unpacks them the other way round, and `force_nics` is never set. The model takes both lists as given.
- `get_hardware_link_state`, `get_ip_addresses`, `get_ipv4_interfaces`, `get_packet` and `get_route_table` run programs and parse their text. The link state, the addresses with their prefix lengths, the interface list, the packet lines and the netstat rows are inputs instead.
- The interface-name regex of `clear_routes` (`^\w+: `) is not modelled, because the interface list is an input.
- `str.splitlines()` is not modelled: the packet, the netstat output and the plist file arrive as lists of lines.
- `route_cmd`'s `subprocess.check_output` is the `Runner` parameter. The stdouts collected by `set_routes` are modelled, but `main` discards them.
- Commands.Runner: the history a runner is given is that of the current run, the deletes of `clear_routes` or the adds of `set_routes`. `main`, which runs one after the other, is not modelled, so the adds do not see the deletes issued before them.
- `open_plist_file`, `get_file_handle` and `write_plist_file` are file I/O.
- Address.ParseDottedQuad: it accepts only four decimal fields from 0 to 255. `inet_aton`'s other spellings (fewer parts, hexadecimal or octal fields) are not modelled, so such a table target is treated as one inet_aton rejects.
- Address.IpAddressTo32Bit: it takes an address that is already parsed; the inet_aton failure on bad text is modelled where the table parser calls it (`RouteTable.NormalisedRowShape`).
- Option121.FilterByteStream: the test `entry is not '..'` is an identity test in Python; it is modelled as string inequality.
