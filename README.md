# py2firewall / pynetfilter core in Dafny

This project models the core of py2firewall (packaged as pynetfilter): how it describes
host firewall rules and how its Windows backend turns them into `netsh` commands and reads
them back from the registry.

- **Selector algebra** (`selectors.dfy`, `address.dfy`). An IP or port selector is a single
  value, an inclusive range, the wildcard or an ordered union of selectors. The grammar is
  written once, generic over the value kind:
  - text with `*` anywhere is the wildcard;
  - text with a `,` is the union of its segments' parses;
  - a comma-free segment is a single value (no `-`), a range (one `-`) or an error (more).

  The same module defines rendering (`__str__`), membership (`__contains__`), `is_any` and
  the variant-typed `__eq__`. Addresses are 4-tuples of unbounded ints ordered
  lexicographically; ports are ints ordered numerically. Python's `str.split`/`str.join`
  are in `text.dfy`. `int()` on ASCII decimal digits and `str()` of an int are in
  `decimal.dfy`.
- **Rule builder** (`rule.dfy`). `RuleBuilder` is a class. It has mutable direction,
  action, protocol and `building` fields, and four union objects (`SelectorList`) that the
  `add_*` methods append to in place. `build()` is one-shot. The rule it returns keeps
  the builder's non-empty union objects and gets the wildcard for each empty one. So a
  port added after `build()` still shows in a field that was non-empty at build time, as
  in the code. The mutators do not check `building`.
- **Windows translation** (`windows.dfy`):
  - the `add_rule` argument list, including the protocol-ANY check;
  - the `remove_rule` delete command;
  - the registry side: `|`-separated `key=value` fragments become an attribute map, and
    `_parse_rule` decodes that map through finite lookup tables;
  - `get_rules` and `get_rules_by_name`, as loops proved against fold functions.

  The terminal is a function from an argument list to a return code. The registry is the
  sequence of the rule values' data strings.

Where the code's behaviour differs from what its names and structure suggest, the model follows the code:
- the `add_*` methods still work after `build()`;
- with protocol ANY, `add_rule` fails only when *both* ports are not any;
- a decoded rule always has protocol ANY, because the protocol table is keyed by the ints
  6 and 17 while the registry gives strings;
- address octets are not bounded to 0..255;
- rendering a parsed text gives the text back only for canonical digits (no leading zeros):
  `010.0.0.1` renders as `10.0.0.1`, and `080` as `80` (`Address.LeadingZeroIpText`,
  `Address.LeadingZeroPortText`; the canonical case is `Address.IpTextCanonicalRoundTrip` and
  `Address.PortTextCanonicalRoundTrip`);
- selector text is not trimmed by `from_str`. Python's `int()` does strip whitespace around each
  component, so the source accepts `80, 443`, which the model rejects (see the `Decimal.ParseInt`
  line under "## Left out");
- parsing gives back the rendered selector only for the shapes `Selectors.Reparsable`
  names. The block-ssh rule
  (`RuleBuilder("block-ssh").set_action(BLOCK).set_protocol(TCP).add_remote_port(22).build()`)
  reads back from its `netsh` command with a bare remote port, not the one-member union it
  was built with (`Windows.BlockSshCommandLosesUnion`);
- with protocol ANY, `add_rule` passes no port or address argument at all, so a rule given
  only a remote address applies to every address (`Windows.AddRemoteIpOnly`).

## Model

| member | source | states |
|---|---|---|
| Text.Split | pynetfilter/address.py:14 | `str.split`: one part more than there are separators, no part holds the separator, and joining the parts gives the text back |
| Text.Join | pynetfilter/address.py:136-137 | `sep.join(parts)`: the parts in order with one separator between neighbours, the empty text for no parts and the part itself for one |
| Decimal.ParseInt | pynetfilter/address.py:192 | `int()` on a component succeeds iff the text is non-empty and all decimal digits, with a non-negative value |
| Decimal.IntToStr | pynetfilter/address.py:197-198 | `str()` of an int: the decimal digits without leading zeros, preceded by `-` when negative |
| Decimal.ParseIntOfIntToStr | pynetfilter/address.py:197-198 | `int(str(n)) == n` for every non-negative n (Python's 4300-digit conversion limit is not modelled) |
| Decimal.IntToStrNegative | py2firewall/address.py:197-198 | `str()` of a negative int starts with `-`, the character the grammar splits ranges on |
| Decimal.NatToStrOfDigitsValue | pynetfilter/address.py:197-198 | `str(int(s)) == s` for digit text without a superfluous leading zero |
| Decimal.IntToStrOfParseInt | pynetfilter/address.py:190-198 | `int()` accepts canonical digit text, and `str()` of the result is that text |
| Decimal.LeadingZeroIsDropped | pynetfilter/address.py:190-198 | `int("080")` is 80, whose `str()` is `80`: a leading zero is lost |
| Selectors.Parse | pynetfilter/address.py:11-24 | `from_str`: text with `*` anywhere is Any; otherwise text with a `,` is the Union of its comma-separated segments' parses, or the first segment's error (`IpUnion.from_str`, `PortUnion.from_str`); a comma-free segment with no `-` is the single-value parse, with one `-` the range parse of its two sides, with more InvalidSelector |
| Selectors.Render | pynetfilter/address.py:60-137 | `__str__`: a single value is its atom text, a range is `start-end`, Any is `*`, and a union is its members' texts joined with `,` |
| Selectors.Contains | pynetfilter/address.py:66-143 | `__contains__`: equality for a single value, `start <= v <= end` in the value order for a range, always for Any, and some member containing it for a union |
| Selectors.IsAny | pynetfilter/address.py:57-134 | `is_any`: false for a single value and a range, true for Any, and for a union true iff some member `is_any` |
| Selectors.Same | pynetfilter/address.py:63-140 | `__eq__`: the same variant with equal value, equal ends, or (for unions) the same number of members, pairwise equal |
| Selectors.ParseEach | pynetfilter/address.py:126-127 | `list(map(from_str, segments))`: one parse per segment, in order, or the error of the first segment that fails |
| Selectors.StarParsesToAny | pynetfilter/address.py:12-13 | any text holding `*` parses to the wildcard, whatever else it holds |
| Selectors.CommaParsesToUnion | pynetfilter/address.py:14-16 | star-free text with a comma parses to a union with one member per comma-separated segment, in order (at least two); otherwise the first failing segment's error |
| Selectors.SegmentShapes | pynetfilter/address.py:18-24 | a comma-free segment with no `-` is a single value, with one `-` a range of the two sides, with more an InvalidSelector error |
| Selectors.SameIsEquality | pynetfilter/address.py:139-140 | the variant-typed `__eq__`, with unions compared member by member, holds iff the two selectors are identical |
| Selectors.IsAnyContainsAll | pynetfilter/address.py:133-134 | a selector that `is_any` contains every value |
| Selectors.NotAnyMissesSome | pynetfilter/address.py:142-143 | a selector that is not `is_any` misses every value above some bound |
| Selectors.UnionAppendContains | pynetfilter/address.py:271-272 | appending a member to a union adds exactly that member's values to its membership |
| Selectors.UnionAppendIsAny | pynetfilter/address.py:262-263 | a union with one more member `is_any` iff it was, or the new member is |
| Selectors.ReparsableIsAnyIsWildcard | pynetfilter/address.py:133-134 | among the selectors that parse back from their text, `is_any` holds of the wildcard alone |
| Selectors.ParsePlain | pynetfilter/address.py:93-94 | the text of a single value or range parses back to it when the atom parsers invert the atom renderer |
| Selectors.ParseRender | pynetfilter/address.py:136-137 | round trip: a single value, range, wildcard or union of at least two plain members parses back from its text |
| Selectors.SingletonUnionLosesUnion | py2firewall/address.py:136-137 | a one-member union renders as its member alone and parses back as that member, not as a union |
| Selectors.EmptyUnionRendersEmpty | py2firewall/address.py:265-266 | the empty union renders as the empty text |
| Selectors.UnionWithAnyParsesToAny | py2firewall/address.py:12-13 | a union with the wildcard among its members parses back as the wildcard |
| Selectors.NestedUnionFlattens | pynetfilter/address.py:265-266 | a union nested as the first member renders as the flat union, so nesting is lost |
| Address.SingleIpFromStr | pynetfilter/address.py:50-55 | `SingleIp.from_str`: `int()` of each `.`-separated part, then exactly four parts or InvalidAddress |
| Address.IpRangeFromStr | pynetfilter/address.py:75-81 | `IpRange.from_str`: `int()` of every part of the start, then of the end, then both ends must have four parts or InvalidAddress |
| Address.IpRangeFromStrRange | pynetfilter/address.py:83-88 | `IpRange.from_str_range`: exactly two `-`-separated parts, else InvalidRange; then `IpRange.from_str` of the two |
| Address.SinglePortFromStr | pynetfilter/address.py:190-192 | `SinglePort.from_str`: `int()` of the text, or InvalidLiteral |
| Address.PortRangeFromStr | pynetfilter/address.py:212-214 | `PortRange.from_str`: `int()` of the start, then of the end |
| Address.PortRangeFromStrRange | pynetfilter/address.py:216-221 | `PortRange.from_str_range`: exactly two `-`-separated parts, else InvalidRange; then `PortRange.from_str` of the two |
| Address.IpToStr | pynetfilter/address.py:60-61 | `str(SingleIp)`: the four octets' `str()` joined with `.` |
| Address.IpLe | pynetfilter/address.py:103-104 | Python's tuple `<=` on addresses: lexicographic on the four octets |
| Address.IpRangeEndsShape | pynetfilter/address.py:75-81 | a range parses iff both ends parse as addresses, and then it is the two addresses; the start's `int()` error comes first, then the end's, and only then InvalidAddress |
| Address.RangeReportsLiteralBeforeShape | pynetfilter/address.py:75-81 | `1.2.3` alone is InvalidAddress, but the range `1.2.3`-`x.0.0.1` fails on the literal `x`, because both ends are converted before either count is checked |
| Address.IntsOf | pynetfilter/address.py:52 | `tuple(map(int, parts))`: one value per part, each `int()` of its part, or the first part `int()` rejects |
| Address.IpTextShape | pynetfilter/address.py:51-55 | address text parses iff it has exactly four dot-separated integer parts, each octet being that part's value; an integer-only text with a wrong count is InvalidAddress |
| Address.OctetAbove255Accepted | py2firewall/address.py:51-55 | octets are not bounded: `10.0.0.300` parses as given |
| Address.IpTextRoundTrip | pynetfilter/address.py:60-61 | the dotted text of an address with non-negative octets holds no grammar character and parses back to the address |
| Address.IpTextCanonicalRoundTrip | pynetfilter/address.py:50-61 | `str(from_str(s)) == s` for dotted text of four canonical digit parts, both for `SingleIp` and for `IpSelector.from_str` |
| Address.LeadingZeroIpText | pynetfilter/address.py:50-61 | `010.0.0.1` parses to 10.0.0.1, which renders `10.0.0.1`: the text side of the round trip fails for leading zeros |
| Address.IpAtomsRoundTrip | pynetfilter/address.py:76-81 | the address atom parsers invert the dotted rendering on non-negative octets |
| Address.PortAtomsRoundTrip | pynetfilter/address.py:213-214 | the port atom parsers invert `str()` on non-negative ports |
| Address.IpSelectorRoundTrip | pynetfilter/address.py:11-24 | `IpSelector.from_str(str(s)) == s` for every reparsable IP selector with non-negative octets |
| Address.PortSelectorRoundTrip | py2firewall/address.py:151-164 | `PortSelector.from_str(str(s)) == s` for every reparsable port selector with non-negative ports |
| Address.PortTextCanonicalRoundTrip | pynetfilter/address.py:190-198 | canonical digit text parses to the single port it denotes, which renders as the text |
| Address.LeadingZeroPortText | pynetfilter/address.py:190-198 | `080` parses to port 80, which renders `80` |
| Address.NegativePortDoesNotRoundTrip | pynetfilter/address.py:197-198 | a negative port renders with a leading `-` and reparses as a range with an empty start, which `int()` rejects |
| Address.IpRangeFromStrRangeAgrees | pynetfilter/address.py:83-88 | `IpRange.from_str_range` rejects text without exactly one `-` and otherwise agrees with `from_str` on star-free, comma-free text |
| Address.PortRangeFromStrRangeAgrees | py2firewall/address.py:216-221 | the same for `PortRange.from_str_range` |
| Address.IpUnionFromStrList | pynetfilter/address.py:130-131 | `IpUnion.from_str_list`: a union with one member per text, each that text's parse, in order, or the first failing text's error |
| Address.IpLeIsNumericOrder | pynetfilter/address.py:103-104 | for byte octets, the tuple order of range membership is the order of the addresses' 32-bit numbers |
| Address.PortIsAnyIffContainsAll | py2firewall/address.py:262-263 | a port selector `is_any` iff it contains every port; ports are unbounded ints, so `0-65535` is not `is_any` |
| Address.IpIsAnyIffContainsAll | py2firewall/address.py:133-134 | an IP selector `is_any` iff it contains every address; octets are unbounded ints, so the full 0..255 range is not `is_any` |
| Rules.Direction.Value | pynetfilter/rule.py:16-18 | the enum value: `in` or `out` |
| Rules.Action.Value | pynetfilter/rule.py:21-23 | the enum value: `allow` or `block` |
| Rules.Protocol.Value | pynetfilter/rule.py:26-29 | the enum value: `tcp`, `udp` or `*` |
| Rules.SelectorList.constructor | pynetfilter/address.py:255-256 | a new union has no members |
| Rules.SelectorList.Append | pynetfilter/rule.py:87 | `append` adds the selector at the end of the union and changes nothing else |
| Rules.UnionOrAny | pynetfilter/rule.py:68-71 | `union or Any()`: the wildcard for an empty union, the union object itself (denoting its members) otherwise |
| Rules.RuleBuilder.constructor | pynetfilter/rule.py:48-57 | a new builder is inbound, block, protocol ANY, with four distinct empty unions, and building |
| Rules.RuleBuilder.Create | pynetfilter/rule.py:45-57 | an empty name is an error (and only then); otherwise a fresh builder in the initial state |
| Rules.RuleBuilder.Build | pynetfilter/rule.py:59-72 | the first build clears `building` and returns the rule with empty unions replaced by the wildcard and non-empty ones shared; any later build is AlreadyBuilt |
| Rules.RuleBuilder.SetDirection | pynetfilter/rule.py:74-76 | sets the direction only and returns the same builder |
| Rules.RuleBuilder.SetAction | pynetfilter/rule.py:78-80 | sets the action only and returns the same builder |
| Rules.RuleBuilder.SetProtocol | pynetfilter/rule.py:82-84 | sets the protocol only and returns the same builder |
| Rules.RuleBuilder.AddLocalPort | pynetfilter/rule.py:86-88 | appends `SinglePort(n)` to the local union only; its membership becomes the old membership or `p == n` |
| Rules.RuleBuilder.AddRemotePort | pynetfilter/rule.py:90-92 | the same on the remote port union |
| Rules.RuleBuilder.AddLocalPortStr | pynetfilter/rule.py:94-96 | appends the parsed port selector; a parse error is returned and the union is unchanged |
| Rules.RuleBuilder.AddRemotePortStr | pynetfilter/rule.py:98-100 | the same on the remote port union |
| Rules.RuleBuilder.AddLocalIp | pynetfilter/rule.py:102-104 | appends the parsed IP selector; a parse error is returned and the union is unchanged |
| Rules.RuleBuilder.AddRemoteIp | pynetfilter/rule.py:106-108 | the same on the remote IP union |
| Rules.RuleBuilder.AddLocalDomain | pynetfilter/rule.py:110-112 | appends the union of the resolved address texts as one member, or returns the first parse error and leaves the union unchanged |
| Rules.RuleBuilder.AddRemoteDomain | pynetfilter/rule.py:114-116 | the same on the remote IP union |
| Rules.BuildDefault | pynetfilter/rule.py:59-72 | building a fresh builder at once gives the inbound block rule over any protocol, ports and addresses; a second build fails |
| Rules.AddAfterBuild | pynetfilter/rule.py:63-72 | a port added after build shows in a built field that was non-empty, not in one that was empty at build time |
| Rules.BlockSsh | pynetfilter/rule.py:78-92 | the block-ssh builder chain gives a TCP rule whose remote port renders `22` and whose local port renders `*` |
| Windows.AddRuleCommand | pynetfilter/impl/windows.py:67-90 | the command fails iff the protocol is ANY and both ports are not any; otherwise its first nine arguments are `netsh advfirewall firewall add rule` with the name, direction, action and protocol, and for ANY they are the whole command; TCP/UDP add four more |
| Windows.AddRule | pynetfilter/impl/windows.py:67-98 | the ValueError comes before the terminal runs; otherwise the terminal gets exactly the command, and the call succeeds iff its return code is 0 |
| Windows.HeadRoundTrip | pynetfilter/impl/windows.py:68-78 | name, direction, action and protocol are read back from the first nine arguments |
| Windows.SelectorsRoundTrip | pynetfilter/impl/windows.py:80-88 | the four port and address arguments give back reparsable selectors, `any` standing for the wildcard |
| Windows.PortArgRoundTrip | pynetfilter/impl/windows.py:83-84 | a port argument (`any` when `is_any`, else the rendering) decodes to the selector |
| Windows.IpArgRoundTrip | pynetfilter/impl/windows.py:85-86 | an address argument decodes to the selector |
| Windows.AddCommandRoundTrip | pynetfilter/impl/windows.py:68-90 | the add command carries the whole rule: reading it back gives the rule, for TCP/UDP rules with reparsable selectors and for ANY rules with wildcard selectors |
| Windows.AnyProtocolDropsSelectors | pynetfilter/impl/windows.py:80-90 | with protocol ANY and at least one port any, the command is accepted and holds no `localport=`, `remoteport=`, `localip=` or `remoteip=` argument |
| Windows.HeadHasNoSelectorArgs | pynetfilter/impl/windows.py:68-78 | none of the nine head arguments is a port or address argument, whatever the rule's name |
| Windows.AddRemoteIpOnly | pynetfilter/impl/windows.py:80-90 | a fresh builder given only a remote address gives an ANY rule whose command is the head alone, with no `remoteip=`; a bad address text is the parse error and nothing runs |
| Windows.BlockSshCommand | pynetfilter/impl/windows.py:68-88 | the block-ssh rule's exact command |
| Windows.BlockSshCommandLosesUnion | pynetfilter/impl/windows.py:80-88 | the block-ssh command reads back with remote port `SinglePort(22)`, which differs from the built one-member union |
| Windows.AddDefaultRule | tests/test_windows.py:8-9 | the default built rule is accepted: the command is the six-argument prefix plus `dir=in action=block protocol=any` |
| Windows.RemoveRule | pynetfilter/impl/windows.py:100-114 | the delete command runs, and the call succeeds iff its return code is 0 |
| Windows.RemoveTargetsAddedName | pynetfilter/impl/windows.py:100-109 | the delete command is `netsh advfirewall firewall delete rule` plus the `name=` argument of the add command, and depends on the name alone |
| Windows.ParseRule | pynetfilter/impl/windows.py:116-131 | a decoded rule takes Name, maps Dir and Action through their tables, and takes the four selectors from their texts (default `*`); a missing Name, Dir or Action or an unknown code is a KeyError, and otherwise the first of LPort, RPort, LAddr, RAddr whose text does not parse gives its error, in that order |
| Windows.ParseRuleAccepts | pynetfilter/impl/windows.py:116-131 | decoding succeeds iff Name is present, Dir is In/Out, Action is Block/Allow and the four selector texts parse; an absent port or address gives the wildcard |
| Windows.DecodedProtocolIsAlwaysAny | pynetfilter/impl/windows.py:123-126 | every decoded rule has protocol ANY, whatever the Protocol attribute holds |
| Windows.ParseFragment | pynetfilter/impl/windows.py:139-142 | a fragment is skipped iff it has no `=`, is an error iff it has two or more, and otherwise is its key and value around the `=` |
| Windows.CollectAttrs | pynetfilter/impl/windows.py:137-142 | the fragment loop computes the left fold of the fragments into the attribute map |
| Windows.AttrsDefined | pynetfilter/impl/windows.py:138-142 | every key some fragment defines is in the attribute map |
| Windows.AttrsLastWins | pynetfilter/impl/windows.py:143 | a key in the map comes from the last fragment defining it, with that fragment's value |
| Windows.AttrsFailIff | pynetfilter/impl/windows.py:142 | reading the attributes fails iff some fragment holds two or more `=` |
| Windows.GetRules | pynetfilter/impl/windows.py:133-145 | the loop over the registry values computes the fold that decodes every value |
| Windows.DecodeAllEach | pynetfilter/impl/windows.py:133-145 | a successful `get_rules` (the fold with each value's decoding) gives one rule per registry value, in order, each that value's decoding |
| Windows.DecodeAllFirstError | pynetfilter/impl/windows.py:133-145 | a failing `get_rules` fails with the error of the first value that does not decode |
| Windows.GetRulesByName | pynetfilter/impl/windows.py:147-160 | the loop computes the fold that decodes only the values with a matching Name |
| Windows.RulesNamedHaveName | pynetfilter/impl/windows.py:158-159 | every rule `get_rules_by_name` returns has the name asked for |
| Windows.NamedDecodeAllNeedsNames | pynetfilter/impl/windows.py:158 | `get_rules_by_name` (the fold with `_parse_rule` as its decoder) succeeds only when every value's attributes read and hold a Name |
| Windows.RulesNamedFiltersAllRules | pynetfilter/impl/windows.py:147-160 | when every value decodes, `get_rules_by_name` returns exactly the rules of that name from `get_rules`, in registry order |

## Left out

- `SubprocessTerminal` and `WindowsRegistry` (pynetfilter/impl/windows.py:26-55): OS I/O. The terminal is a function from arguments to a return code. The registry is a given sequence of value data strings.
- `TestTerminal` (pynetfilter/impl/windows.py:170-177): it only prints and returns 0, which a constant `run` function models.
- DNS resolution (`get_ip_list`, py2firewall/helper.py:5-7): a foreign call with set-ordered output. `AddLocalDomain`/`AddRemoteDomain` take the resolved address texts as a parameter.
- The `Firewall` abstract classes and `get_firewall` dispatch (pynetfilter/firewall.py, py2firewall/firewall.py): interface declarations and OS dispatch with no logic. `impl.linux` and `impl.test` are not part of this model.
- `Decimal.ParseInt`: does not model the leniency of Python's `int()` (surrounding whitespace, `+`, `_` separators, non-ASCII digits). Components are ASCII decimal digit strings. A `-` never reaches `int()`, because the grammar splits on `-` first.
- Integer width: ports and octets are unbounded ints, as Python's are, so there is no wrap-around to model. Ranges and values outside 0..65535 or 0..255 are accepted, as the code does.
- `Decimal.ParseInt`: does not model Python's default 4300-digit limit on decimal int/str conversion (3.11 and later). `int()` of a longer component raises ValueError in the source, so `SinglePort.from_str` of such text fails there, while the model parses it.
- `Decimal.IntToStr`: does not model the same 4300-digit limit. `str()` of a longer int raises in the source. `Decimal.ParseIntOfIntToStr` therefore holds in the source only below that limit.
- The `from ..firewall import NetFilter` import (pynetfilter/impl/windows.py:9) names a class that pynetfilter/firewall.py does not define (it defines `Firewall`). As written, importing the Windows backend would fail. The model ignores this import and models the backend's methods as if the module loaded.
- `__repr__`, `setup.py` and `pynetfilter/__init__.py`: debug text and packaging.
- `py2firewall/rule.py` and `py2firewall/impl/*`: the test imports them, but they are not part of this model. The test's rule and command are modelled with pynetfilter's.
- Exception messages: errors are datatype constructors (`ParseError`, `BuilderError`, `FirewallError`) without the source's message texts.
- `Windows.RulesNamedFiltersAllRules`: relates the two queries only when every registry value decodes. `get_rules_by_name` can succeed where `get_rules` fails, because it does not decode values with another name.
