/**
 * The Windows backend's translation: a rule becomes the argument list of a
 * `netsh advfirewall firewall add rule` command, removal is a `delete rule name=...`
 * command, and registry values (`|`-separated `key=value` fragments) decode back into
 * rules through finite lookup tables. The terminal is a function from an argument list to
 * a return code; the registry is the sequence of the rule values' data strings.
 */
module Windows {
  import opened Wrappers
  import Text
  import opened Selectors
  import opened Address
  import opened Rules

  datatype FirewallError =
    | AnyProtocolWithPorts          // ValueError: ports given with protocol ANY
    | AddFailed(code: int)          // RuntimeError: the add command returned non-zero
    | RemoveFailed(code: int)       // RuntimeError: the delete command returned non-zero
    | MissingKey(key: string)       // KeyError: an absent attribute or an unknown code
    | MalformedFragment(fragment: string)  // ValueError: a fragment with more than one '='
    | BadSelector(error: ParseError)       // ValueError from a selector parser

  const AddPrefix: seq<string> := ["netsh", "advfirewall", "firewall", "add", "rule"]
  const DeletePrefix: seq<string> := ["netsh", "advfirewall", "firewall", "delete", "rule"]

  /** The text after `key=`: "any" for a selector that is_any, else its rendering. */
  function PortArgValue(sel: PortSelector): string
  {
    if IsAny(sel) then "any" else PortSelectorToStr(sel)
  }

  function IpArgValue(sel: IpSelector): string
  {
    if IsAny(sel) then "any" else IpSelectorToStr(sel)
  }

  function ProtocolArgValue(p: Protocol): string
  {
    if p == AnyProtocol then "any" else p.Value()
  }

  /** The arguments add_rule always passes: command, name, direction, action and protocol. */
  function HeadArgs(rule: Rule): seq<string>
  {
    AddPrefix + ["name=" + rule.name, "dir=" + rule.direction.Value(), "action=" + rule.action.Value(),
                 "protocol=" + ProtocolArgValue(rule.protocol)]
  }

  /** The port and address arguments add_rule appends for TCP and UDP rules. */
  function SelectorArgs(rule: Rule): seq<string>
  {
    ["localport=" + PortArgValue(rule.localPort), "remoteport=" + PortArgValue(rule.remotePort),
     "localip=" + IpArgValue(rule.localIp), "remoteip=" + IpArgValue(rule.remoteIp)]
  }

  /**
   * The command add_rule runs for a rule, or the ValueError it raises first: with protocol
   * ANY it fails exactly when both ports are not any, and otherwise emits no port or address
   * arguments; with TCP or UDP it emits all four.
   */
  function AddRuleCommand(rule: Rule): (r: Result<seq<string>, FirewallError>)
    ensures r.Err? <==> rule.protocol == AnyProtocol && !IsAny(rule.localPort) && !IsAny(rule.remotePort)
    ensures r.Err? ==> r.error == AnyProtocolWithPorts
    ensures r.Ok? ==> |r.value| == (if rule.protocol == AnyProtocol then 9 else 13) &&
                      r.value[..|AddPrefix|] == AddPrefix && r.value[5] == "name=" + rule.name
    ensures r.Ok? ==> |r.value| >= 9 && r.value[..9] == HeadArgs(rule)
    ensures r.Ok? && rule.protocol == AnyProtocol ==> r.value == HeadArgs(rule)
    ensures r.Ok? && rule.protocol != AnyProtocol ==> r.value == HeadArgs(rule) + SelectorArgs(rule)
  {
    if rule.protocol != AnyProtocol then Ok(HeadArgs(rule) + SelectorArgs(rule))
    else if !IsAny(rule.localPort) && !IsAny(rule.remotePort) then Err(AnyProtocolWithPorts)
    else Ok(HeadArgs(rule))
  }

  /**
   * add_rule: builds the argument list, extending it for TCP/UDP or raising before the
   * terminal runs, then runs it; a non-zero return code is an error. `issued` is the
   * argument list the terminal received, if it ran.
   */
  method AddRule(rule: Rule, run: seq<string> -> int) returns (issued: Option<seq<string>>, r: Result<(), FirewallError>)
    ensures AddRuleCommand(rule).Err? ==> issued == None && r == Err(AnyProtocolWithPorts)
    ensures AddRuleCommand(rule).Ok? ==> issued == Some(AddRuleCommand(rule).value)
    ensures issued.Some? ==> (r.Ok? <==> run(issued.value) == 0)
    ensures issued.Some? && r.Err? ==> r.error == AddFailed(run(issued.value))
  {
    var args := AddPrefix;
    args := args + ["name=" + rule.name, "dir=" + rule.direction.Value(), "action=" + rule.action.Value()];
    args := args + ["protocol=" + ProtocolArgValue(rule.protocol)];
    if rule.protocol != AnyProtocol {
      args := args + SelectorArgs(rule);
    } else if !IsAny(rule.localPort) && !IsAny(rule.remotePort) {
      return None, Err(AnyProtocolWithPorts);
    }
    assert args == if rule.protocol != AnyProtocol then HeadArgs(rule) + SelectorArgs(rule) else HeadArgs(rule);
    issued := Some(args);
    var code := run(args);
    if code != 0 {
      return issued, Err(AddFailed(code));
    }
    r := Ok(());
  }

  /** The command remove_rule runs: delete by the rule's name alone. */
  function RemoveRuleCommand(rule: Rule): seq<string>
  {
    DeletePrefix + ["name=" + rule.name]
  }

  /** remove_rule: runs the delete command; a non-zero return code is an error. */
  function RemoveRule(rule: Rule, run: seq<string> -> int): (r: Result<(), FirewallError>)
    ensures r.Ok? <==> run(RemoveRuleCommand(rule)) == 0
    ensures r.Err? ==> r.error == RemoveFailed(run(RemoveRuleCommand(rule)))
  {
    var code := run(RemoveRuleCommand(rule));
    if code != 0 then Err(RemoveFailed(code)) else Ok(())
  }

  /** Removal targets the name the add command installed, and depends on nothing else of the rule. */
  lemma RemoveTargetsAddedName(rule: Rule, other: Rule)
    requires AddRuleCommand(rule).Ok?
    ensures RemoveRuleCommand(rule) == DeletePrefix + [AddRuleCommand(rule).value[5]]
    ensures other.name == rule.name ==> RemoveRuleCommand(other) == RemoveRuleCommand(rule)
  {
  }

  // ---------------------------------------------------------------------------------
  // An independent reading of the add command's arguments, to show what they carry.

  /** The text after `prefix` (a key and '=') when `arg` starts with it. */
  function ValueAfter(arg: string, prefix: string): Option<string>
  {
    if |prefix| <= |arg| && arg[..|prefix|] == prefix then Some(arg[|prefix|..]) else None
  }

  function DecodeDirection(text: string): Option<Direction>
  {
    if text == "in" then Some(Inbound) else if text == "out" then Some(Outbound) else None
  }

  function DecodeAction(text: string): Option<Action>
  {
    if text == "allow" then Some(Allow) else if text == "block" then Some(Block) else None
  }

  function DecodeProtocolArg(text: string): Option<Protocol>
  {
    if text == "any" then Some(AnyProtocol)
    else if text == "tcp" then Some(Tcp)
    else if text == "udp" then Some(Udp)
    else None
  }

  function DecodePortArg(text: string): Option<PortSelector>
  {
    if text == "any" then Some(Any)
    else match PortSelectorFromStr(text)
      case Ok(sel) => Some(sel)
      case Err(_) => None
  }

  function DecodeIpArg(text: string): Option<IpSelector>
  {
    if text == "any" then Some(Any)
    else match IpSelectorFromStr(text)
      case Ok(sel) => Some(sel)
      case Err(_) => None
  }

  /** Reads name, direction, action and protocol back from the first nine arguments. */
  function DecodeHead(args: seq<string>): Option<(string, Direction, Action, Protocol)>
  {
    if |args| != 9 || args[..5] != AddPrefix then None
    else
      var name :- ValueAfter(args[5], "name=");
      var dirText :- ValueAfter(args[6], "dir=");
      var direction :- DecodeDirection(dirText);
      var actionText :- ValueAfter(args[7], "action=");
      var action :- DecodeAction(actionText);
      var protocolText :- ValueAfter(args[8], "protocol=");
      var protocol :- DecodeProtocolArg(protocolText);
      Some((name, direction, action, protocol))
  }

  function PortArg(arg: string, prefix: string): Option<PortSelector>
  {
    var text :- ValueAfter(arg, prefix);
    DecodePortArg(text)
  }

  function IpArg(arg: string, prefix: string): Option<IpSelector>
  {
    var text :- ValueAfter(arg, prefix);
    DecodeIpArg(text)
  }

  /** Reads the two ports and the two addresses back from the last four arguments. */
  function DecodeSelectors(args: seq<string>): Option<(PortSelector, PortSelector, IpSelector, IpSelector)>
  {
    if |args| != 4 then None
    else
      var lp :- PortArg(args[0], "localport=");
      var rp :- PortArg(args[1], "remoteport=");
      var li :- IpArg(args[2], "localip=");
      var ri :- IpArg(args[3], "remoteip=");
      Some((lp, rp, li, ri))
  }

  /** Reads a rule back from an add command; a rule with protocol any has wildcard selectors. */
  function DecodeAddCommand(args: seq<string>): Option<Rule>
  {
    if |args| < 9 then None
    else
      var head :- DecodeHead(args[..9]);
      if head.3 == AnyProtocol then
        if |args| == 9 then Some(Rule(head.0, head.1, head.2, head.3, Any, Any, Any, Any)) else None
      else
        var sels :- DecodeSelectors(args[9..]);
        Some(Rule(head.0, head.1, head.2, head.3, sels.0, sels.1, sels.2, sels.3))
  }

  lemma ValueAfterPrefix(prefix: string, value: string)
    ensures ValueAfter(prefix + value, prefix) == Some(value)
  {
    var arg := prefix + value;
    assert arg[..|prefix|] == prefix;
    assert arg[|prefix|..] == value;
  }

  /** The wildcard token "any" is not port selector text. */
  lemma AnyIsNoPortText()
    ensures PortSelectorFromStr("any").Err?
  {
    Text.SplitWithoutSeparator("any", ',');
    Text.SplitWithoutSeparator("any", '-');
  }

  /** The wildcard token "any" is not IP selector text. */
  lemma AnyIsNoIpText()
    ensures IpSelectorFromStr("any").Err?
  {
    Text.SplitWithoutSeparator("any", ',');
    Text.SplitWithoutSeparator("any", '-');
    Text.SplitWithoutSeparator("any", '.');
  }

  /** A port selector that parses back from its text goes through its add argument unchanged. */
  lemma PortArgRoundTrip(sel: PortSelector)
    requires Reparsable(sel, NonNegativePort)
    ensures DecodePortArg(PortArgValue(sel)) == Some(sel)
  {
    PortSelectorRoundTrip(sel);
    ReparsableIsAnyIsWildcard(sel, NonNegativePort);
    if !IsAny(sel) {
      AnyIsNoPortText();
    }
  }

  /** An IP selector that parses back from its text goes through its add argument unchanged. */
  lemma IpArgRoundTrip(sel: IpSelector)
    requires Reparsable(sel, NonNegativeIp)
    ensures DecodeIpArg(IpArgValue(sel)) == Some(sel)
  {
    IpSelectorRoundTrip(sel);
    ReparsableIsAnyIsWildcard(sel, NonNegativeIp);
    if !IsAny(sel) {
      AnyIsNoIpText();
    }
  }

  /**
   * The add command carries the whole rule: for a TCP/UDP rule whose selectors parse back
   * from their text, and for an any-protocol rule with wildcard selectors, reading the
   * command gives the rule back.
   */
  lemma AddCommandRoundTrip(rule: Rule)
    requires rule.protocol != AnyProtocol ==>
               Reparsable(rule.localPort, NonNegativePort) && Reparsable(rule.remotePort, NonNegativePort) &&
               Reparsable(rule.localIp, NonNegativeIp) && Reparsable(rule.remoteIp, NonNegativeIp)
    requires rule.protocol == AnyProtocol ==>
               rule.localPort == Any && rule.remotePort == Any && rule.localIp == Any && rule.remoteIp == Any
    ensures AddRuleCommand(rule).Ok?
    ensures DecodeAddCommand(AddRuleCommand(rule).value) == Some(rule)
  {
    var args := AddRuleCommand(rule).value;
    HeadRoundTrip(rule);
    assert args[..9] == HeadArgs(rule);
    if rule.protocol != AnyProtocol {
      SelectorsRoundTrip(rule);
      assert args[9..] == SelectorArgs(rule);
    }
  }

  lemma HeadRoundTrip(rule: Rule)
    ensures DecodeHead(HeadArgs(rule)) == Some((rule.name, rule.direction, rule.action, rule.protocol))
  {
    ValueAfterPrefix("name=", rule.name);
    ValueAfterPrefix("dir=", rule.direction.Value());
    ValueAfterPrefix("action=", rule.action.Value());
    ValueAfterPrefix("protocol=", ProtocolArgValue(rule.protocol));
    assert HeadArgs(rule)[..5] == AddPrefix;
  }

  lemma PortArgFieldRoundTrip(prefix: string, sel: PortSelector)
    requires Reparsable(sel, NonNegativePort)
    ensures PortArg(prefix + PortArgValue(sel), prefix) == Some(sel)
  {
    ValueAfterPrefix(prefix, PortArgValue(sel));
    PortArgRoundTrip(sel);
  }

  lemma IpArgFieldRoundTrip(prefix: string, sel: IpSelector)
    requires Reparsable(sel, NonNegativeIp)
    ensures IpArg(prefix + IpArgValue(sel), prefix) == Some(sel)
  {
    ValueAfterPrefix(prefix, IpArgValue(sel));
    IpArgRoundTrip(sel);
  }

  lemma SelectorsRoundTrip(rule: Rule)
    requires Reparsable(rule.localPort, NonNegativePort) && Reparsable(rule.remotePort, NonNegativePort)
    requires Reparsable(rule.localIp, NonNegativeIp) && Reparsable(rule.remoteIp, NonNegativeIp)
    ensures DecodeSelectors(SelectorArgs(rule)) == Some((rule.localPort, rule.remotePort, rule.localIp, rule.remoteIp))
  {
    PortArgFieldRoundTrip("localport=", rule.localPort);
    PortArgFieldRoundTrip("remoteport=", rule.remotePort);
    IpArgFieldRoundTrip("localip=", rule.localIp);
    IpArgFieldRoundTrip("remoteip=", rule.remoteIp);
  }

  /** The keys of the port and address arguments. */
  const SelectorKeys: seq<string> := ["localport=", "remoteport=", "localip=", "remoteip="]

  /** No argument of `args` is a port or address argument. */
  predicate NoSelectorArgs(args: seq<string>)
  {
    forall a, k :: a in args && k in SelectorKeys ==> !(k <= a)
  }

  /** The head arguments never include a port or address argument, whatever the name. */
  lemma HeadHasNoSelectorArgs(rule: Rule)
    ensures NoSelectorArgs(HeadArgs(rule))
  {
    var head := HeadArgs(rule);
    forall a, k | a in head && k in SelectorKeys ensures !(k <= a) {
      assert k[0] == 'l' || k[0] == 'r';
      assert |a| < |k| || (a[0] != 'l' && a[0] != 'r');
    }
  }

  /**
   * With protocol ANY and at least one port any, the command is accepted and is the head
   * alone: no port and no address argument is passed, so the rule applies to every port
   * and every address.
   */
  lemma AnyProtocolDropsSelectors(rule: Rule)
    requires rule.protocol == AnyProtocol && (IsAny(rule.localPort) || IsAny(rule.remotePort))
    ensures AddRuleCommand(rule) == Ok(HeadArgs(rule))
    ensures NoSelectorArgs(AddRuleCommand(rule).value)
  {
    HeadHasNoSelectorArgs(rule);
  }

  /**
   * A fresh builder given only a remote address keeps protocol ANY, so the command it adds
   * carries no `remoteip=` argument: the address is dropped and the rule blocks every address.
   */
  method AddRemoteIpOnly(name: string, text: string, run: seq<string> -> int)
    returns (issued: Option<seq<string>>, r: Result<(), FirewallError>)
    requires name != ""
    ensures IpSelectorFromStr(text).Err? ==> issued == None && r == Err(BadSelector(IpSelectorFromStr(text).error))
    ensures IpSelectorFromStr(text).Ok? ==>
              issued == Some(AddPrefix + ["name=" + name, "dir=in", "action=block", "protocol=any"])
    ensures issued.Some? ==> NoSelectorArgs(issued.value) && (r.Ok? <==> run(issued.value) == 0)
  {
    var created := RuleBuilder.Create(name);
    var b := created.value;
    var added := b.AddRemoteIp(text);
    if added.Err? {
      return None, Err(BadSelector(added.error));
    }
    var built := b.Build();
    var rule := built.value.Snapshot();
    assert rule == Rule(name, Inbound, Block, AnyProtocol, Any, Any, Any, Union([IpSelectorFromStr(text).value]));
    assert "dir=" + "in" == "dir=in";
    assert "action=" + "block" == "action=block";
    assert "protocol=" + "any" == "protocol=any";
    assert HeadArgs(rule) == AddPrefix + ["name=" + name, "dir=in", "action=block", "protocol=any"];
    AnyProtocolDropsSelectors(rule);
    issued, r := AddRule(rule, run);
  }

  /** The block-ssh rule: TCP, blocking remote port 22 given as a one-member union. */
  const BlockSshRule := Rule("block-ssh", Inbound, Block, Tcp, Any, Union([Single(22)]), Any, Any)

  /** The block-ssh rule's command: port 22 for the remote port, "any" for the rest. */
  lemma BlockSshCommand()
    ensures AddRuleCommand(BlockSshRule) ==
              Ok(AddPrefix + ["name=block-ssh", "dir=in", "action=block", "protocol=tcp",
                              "localport=any", "remoteport=22", "localip=any", "remoteip=any"])
  {
    var rule := BlockSshRule;
    assert PortSelectorToStr(Single(22)) == "22";
    assert PortArgValue(rule.remotePort) == "22";
    assert "remoteport=" + "22" == "remoteport=22";
    assert "localport=" + "any" == "localport=any";
    assert "localip=" + "any" == "localip=any";
    assert "remoteip=" + "any" == "remoteip=any";
    assert "name=" + "block-ssh" == "name=block-ssh";
    assert SelectorArgs(rule) == ["localport=any", "remoteport=22", "localip=any", "remoteip=any"];
    assert "protocol=" + "tcp" == "protocol=tcp";
    assert "dir=" + "in" == "dir=in";
    assert "action=" + "block" == "action=block";
    assert HeadArgs(rule) == AddPrefix + ["name=block-ssh", "dir=in", "action=block", "protocol=tcp"];
    assert AddRuleCommand(rule) == Ok(HeadArgs(rule) + SelectorArgs(rule));
    assert AddPrefix + ["name=block-ssh", "dir=in", "action=block", "protocol=tcp"] +
           ["localport=any", "remoteport=22", "localip=any", "remoteip=any"] ==
           AddPrefix + ["name=block-ssh", "dir=in", "action=block", "protocol=tcp",
                        "localport=any", "remoteport=22", "localip=any", "remoteip=any"];
  }

  /**
   * The block-ssh command reads back with a bare remote port: the one-member union renders
   * like the single port, so the rule read back differs from the rule added.
   */
  lemma BlockSshCommandLosesUnion()
    ensures DecodeAddCommand(AddRuleCommand(BlockSshRule).value) == Some(BlockSshRule.(remotePort := Single(22)))
    ensures BlockSshRule.(remotePort := Single(22)) != BlockSshRule
  {
    var bare := BlockSshRule.(remotePort := Single(22));
    assert Render(Union([Single(22)]), PortToStr) == Render(Single(22), PortToStr);
    assert SelectorArgs(BlockSshRule) == SelectorArgs(bare);
    assert AddRuleCommand(BlockSshRule) == AddRuleCommand(bare);
    AddCommandRoundTrip(bare);
  }

  /** The rule built by a fresh builder is accepted by add_rule. */
  method AddDefaultRule(name: string, run: seq<string> -> int) returns (issued: Option<seq<string>>, r: Result<(), FirewallError>)
    requires name != ""
    ensures issued == Some(AddPrefix + ["name=" + name, "dir=in", "action=block", "protocol=any"])
    ensures r.Ok? <==> run(issued.value) == 0
  {
    var created := RuleBuilder.Create(name);
    var built := created.value.Build();
    var rule := built.value.Snapshot();
    assert rule == Rule(name, Inbound, Block, AnyProtocol, Any, Any, Any, Any);
    assert "dir=" + "in" == "dir=in";
    assert "action=" + "block" == "action=block";
    assert "protocol=" + "any" == "protocol=any";
    assert HeadArgs(rule) == AddPrefix + ["name=" + name, "dir=in", "action=block", "protocol=any"];
    assert AddRuleCommand(rule) == Ok(HeadArgs(rule));
    issued, r := AddRule(rule, run);
  }

  // ---------------------------------------------------------------------------------
  // Reading rules from registry values.

  /** A key as Python compares it: ints never equal strings. */
  datatype Key = IntKey(n: int) | StrKey(s: string)

  const DirectionCodes: map<string, Direction> := map["In" := Inbound, "Out" := Outbound]
  const ActionCodes: map<string, Action> := map["Block" := Block, "Allow" := Allow]
  /** The protocol table is keyed by the protocol numbers as ints. */
  const ProtocolCodes: map<Key, Protocol> := map[IntKey(6) := Tcp, IntKey(17) := Udp]

  /** dict.get(key, default) */
  function Get(attrs: map<string, string>, key: string, default: string): string
  {
    if key in attrs then attrs[key] else default
  }

  function PortField(text: string): Result<PortSelector, FirewallError>
  {
    match PortSelectorFromStr(text)
    case Ok(sel) => Ok(sel)
    case Err(e) => Err(BadSelector(e))
  }

  function IpField(text: string): Result<IpSelector, FirewallError>
  {
    match IpSelectorFromStr(text)
    case Ok(sel) => Ok(sel)
    case Err(e) => Err(BadSelector(e))
  }

  /** Name is present and Dir and Action hold known codes. */
  predicate HeadDecodes(attrs: map<string, string>)
  {
    "Name" in attrs && "Dir" in attrs && attrs["Dir"] in DirectionCodes && "Action" in attrs && attrs["Action"] in ActionCodes
  }

  /**
   * _parse_rule: Name, Dir and Action are required and decoded through their tables (a
   * missing key or an unknown code is a KeyError); the protocol is looked up, as a string,
   * in the int-keyed table; absent ports and addresses default to "*".
   */
  function ParseRule(attrs: map<string, string>): (r: Result<Rule, FirewallError>)
    ensures r.Ok? ==> "Name" in attrs && r.value.name == attrs["Name"]
    ensures r.Ok? ==> "Dir" in attrs && attrs["Dir"] in DirectionCodes && r.value.direction == DirectionCodes[attrs["Dir"]]
    ensures r.Ok? ==> "Action" in attrs && attrs["Action"] in ActionCodes && r.value.action == ActionCodes[attrs["Action"]]
    ensures r.Ok? ==> PortSelectorFromStr(Get(attrs, "LPort", "*")) == Ok(r.value.localPort)
    ensures r.Ok? ==> PortSelectorFromStr(Get(attrs, "RPort", "*")) == Ok(r.value.remotePort)
    ensures r.Ok? ==> IpSelectorFromStr(Get(attrs, "LAddr", "*")) == Ok(r.value.localIp)
    ensures r.Ok? ==> IpSelectorFromStr(Get(attrs, "RAddr", "*")) == Ok(r.value.remoteIp)
    ensures "Name" !in attrs ==> r == Err(MissingKey("Name"))
    ensures "Name" in attrs && "Dir" !in attrs ==> r == Err(MissingKey("Dir"))
    ensures "Name" in attrs && "Dir" in attrs && attrs["Dir"] !in DirectionCodes ==> r == Err(MissingKey(attrs["Dir"]))
    ensures ("Name" in attrs && "Dir" in attrs && attrs["Dir"] in DirectionCodes && "Action" !in attrs) ==>
              r == Err(MissingKey("Action"))
    ensures ("Name" in attrs && "Dir" in attrs && attrs["Dir"] in DirectionCodes && "Action" in attrs &&
             attrs["Action"] !in ActionCodes) ==> r == Err(MissingKey(attrs["Action"]))
    ensures HeadDecodes(attrs) && PortSelectorFromStr(Get(attrs, "LPort", "*")).Err? ==>
              r == Err(BadSelector(PortSelectorFromStr(Get(attrs, "LPort", "*")).error))
    ensures (HeadDecodes(attrs) && PortSelectorFromStr(Get(attrs, "LPort", "*")).Ok? &&
             PortSelectorFromStr(Get(attrs, "RPort", "*")).Err?) ==>
              r == Err(BadSelector(PortSelectorFromStr(Get(attrs, "RPort", "*")).error))
    ensures (HeadDecodes(attrs) && PortSelectorFromStr(Get(attrs, "LPort", "*")).Ok? &&
             PortSelectorFromStr(Get(attrs, "RPort", "*")).Ok? && IpSelectorFromStr(Get(attrs, "LAddr", "*")).Err?) ==>
              r == Err(BadSelector(IpSelectorFromStr(Get(attrs, "LAddr", "*")).error))
    ensures (HeadDecodes(attrs) && PortSelectorFromStr(Get(attrs, "LPort", "*")).Ok? &&
             PortSelectorFromStr(Get(attrs, "RPort", "*")).Ok? && IpSelectorFromStr(Get(attrs, "LAddr", "*")).Ok? &&
             IpSelectorFromStr(Get(attrs, "RAddr", "*")).Err?) ==>
              r == Err(BadSelector(IpSelectorFromStr(Get(attrs, "RAddr", "*")).error))
  {
    if "Name" !in attrs then Err(MissingKey("Name"))
    else if "Dir" !in attrs then Err(MissingKey("Dir"))
    else if attrs["Dir"] !in DirectionCodes then Err(MissingKey(attrs["Dir"]))
    else if "Action" !in attrs then Err(MissingKey("Action"))
    else if attrs["Action"] !in ActionCodes then Err(MissingKey(attrs["Action"]))
    else
      var code := StrKey(Get(attrs, "Protocol", "*"));
      var protocol := if code in ProtocolCodes then ProtocolCodes[code] else AnyProtocol;
      var localPort :- PortField(Get(attrs, "LPort", "*"));
      var remotePort :- PortField(Get(attrs, "RPort", "*"));
      var localIp :- IpField(Get(attrs, "LAddr", "*"));
      var remoteIp :- IpField(Get(attrs, "RAddr", "*"));
      Ok(Rule(attrs["Name"], DirectionCodes[attrs["Dir"]], ActionCodes[attrs["Action"]], protocol,
              localPort, remotePort, localIp, remoteIp))
  }

  /** Whatever the Protocol attribute says (6 and 17 included), a decoded rule has protocol ANY. */
  lemma DecodedProtocolIsAlwaysAny(attrs: map<string, string>)
    requires ParseRule(attrs).Ok?
    ensures ParseRule(attrs).value.protocol == AnyProtocol
  {
    assert forall t :: StrKey(t) !in ProtocolCodes;
  }

  /**
   * _parse_rule succeeds iff Name is present, Dir and Action are known codes and the four
   * selector texts parse; an absent port or address attribute gives the wildcard.
   */
  lemma ParseRuleAccepts(attrs: map<string, string>)
    ensures ParseRule(attrs).Ok? <==>
              "Name" in attrs && "Dir" in attrs && attrs["Dir"] in {"In", "Out"} &&
              "Action" in attrs && attrs["Action"] in {"Block", "Allow"} &&
              PortSelectorFromStr(Get(attrs, "LPort", "*")).Ok? && PortSelectorFromStr(Get(attrs, "RPort", "*")).Ok? &&
              IpSelectorFromStr(Get(attrs, "LAddr", "*")).Ok? && IpSelectorFromStr(Get(attrs, "RAddr", "*")).Ok?
    ensures ParseRule(attrs).Ok? && "LPort" !in attrs ==> ParseRule(attrs).value.localPort == Any
    ensures ParseRule(attrs).Ok? && "RPort" !in attrs ==> ParseRule(attrs).value.remotePort == Any
    ensures ParseRule(attrs).Ok? && "LAddr" !in attrs ==> ParseRule(attrs).value.localIp == Any
    ensures ParseRule(attrs).Ok? && "RAddr" !in attrs ==> ParseRule(attrs).value.remoteIp == Any
  {
    assert DirectionCodes.Keys == {"In", "Out"};
    assert ActionCodes.Keys == {"Block", "Allow"};
  }

  /**
   * One fragment of a registry value: skipped (None) without '=', a key and a value with
   * exactly one '=', and a ValueError with more (the two-name unpacking fails).
   */
  function ParseFragment(fragment: string): (r: Result<Option<(string, string)>, FirewallError>)
    ensures r == Ok(None) <==> '=' !in fragment
    ensures r.Err? <==> Text.Occurrences(fragment, '=') >= 2
    ensures r.Ok? && r.value.Some? ==> fragment == r.value.value.0 + "=" + r.value.value.1
  {
    Text.OccursIff(fragment, '=');
    if '=' !in fragment then Ok(None)
    else
      var parts := Text.Split(fragment, '=');
      if |parts| != 2 then Err(MalformedFragment(fragment))
      else
        assert Text.Join(parts, '=') == parts[0] + "=" + parts[1];
        Ok(Some((parts[0], parts[1])))
  }

  /** The key a fragment defines, if it defines one. */
  function KeyOf(fragment: string): Option<string>
  {
    match ParseFragment(fragment)
    case Ok(Some(kv)) => Some(kv.0)
    case _ => None
  }

  /** The attribute map after reading the fragments in order, or the first fragment's error. */
  function AttrsOf(fragments: seq<string>): Result<map<string, string>, FirewallError>
  {
    if fragments == [] then Ok(map[])
    else
      var attrs :- AttrsOf(fragments[..|fragments| - 1]);
      var kv :- ParseFragment(fragments[|fragments| - 1]);
      if kv.None? then Ok(attrs) else Ok(attrs[kv.value.0 := kv.value.1])
  }

  /**
   * The loop of get_rules over one value: split on '|', skip fragments without '=',
   * store each key and value, a later fragment overriding an earlier one.
   */
  method CollectAttrs(value: string) returns (r: Result<map<string, string>, FirewallError>)
    ensures r == AttrsOf(Text.Split(value, '|'))
  {
    var fragments := Text.Split(value, '|');
    var attrs: map<string, string> := map[];
    var i := 0;
    while i < |fragments|
      invariant 0 <= i <= |fragments|
      invariant AttrsOf(fragments[..i]) == Ok(attrs)
    {
      assert fragments[..i + 1][..i] == fragments[..i];
      var kv := ParseFragment(fragments[i]);
      if kv.Err? {
        assert AttrsOf(fragments[..i + 1]) == Err(kv.error);
        AttrsErrorPersists(fragments, i + 1);
        return Err(kv.error);
      }
      if kv.value.Some? {
        attrs := attrs[kv.value.value.0 := kv.value.value.1];
      }
      i := i + 1;
    }
    assert fragments[..i] == fragments;
    r := Ok(attrs);
  }

  /** Once a prefix of the fragments fails, every longer prefix fails with the same error. */
  lemma {:induction false} AttrsErrorPersists(fragments: seq<string>, k: nat)
    requires k <= |fragments| && AttrsOf(fragments[..k]).Err?
    ensures AttrsOf(fragments) == AttrsOf(fragments[..k])
    decreases |fragments| - k
  {
    if k < |fragments| {
      assert fragments[..k + 1][..k] == fragments[..k];
      AttrsErrorPersists(fragments, k + 1);
    } else {
      assert fragments[..k] == fragments;
    }
  }

  /** A key some fragment defines is in the attribute map. */
  lemma {:induction false} AttrsDefined(fragments: seq<string>, key: string, i: nat)
    requires AttrsOf(fragments).Ok? && i < |fragments| && KeyOf(fragments[i]) == Some(key)
    ensures key in AttrsOf(fragments).value
  {
    var n := |fragments| - 1;
    var prefix := fragments[..n];
    assert AttrsOf(prefix).Ok?;
    if i < n {
      assert prefix[i] == fragments[i];
      AttrsDefined(prefix, key, i);
    }
  }

  /**
   * A key in the attribute map comes from the last fragment that defines it, and takes that
   * fragment's value: returns that fragment's index.
   */
  lemma {:induction false} AttrsLastWins(fragments: seq<string>, key: string) returns (i: nat)
    requires AttrsOf(fragments).Ok? && key in AttrsOf(fragments).value
    ensures i < |fragments| && KeyOf(fragments[i]) == Some(key)
    ensures fragments[i] == key + "=" + AttrsOf(fragments).value[key]
    ensures forall j :: i < j < |fragments| ==> KeyOf(fragments[j]) != Some(key)
  {
    var n := |fragments| - 1;
    var prefix := fragments[..n];
    var m := AttrsOf(fragments).value;
    assert AttrsOf(prefix).Ok?;
    var kv := ParseFragment(fragments[n]);
    if KeyOf(fragments[n]) == Some(key) {
      assert m[key] == kv.value.value.1;
      i := n;
    } else {
      assert key in AttrsOf(prefix).value && m[key] == AttrsOf(prefix).value[key];
      i := AttrsLastWins(prefix, key);
      assert prefix[i] == fragments[i];
      forall j | i < j < |fragments| ensures KeyOf(fragments[j]) != Some(key) {
        if j < n {
          assert prefix[j] == fragments[j];
        }
      }
    }
  }

  /** Reading the attribute map fails iff some fragment holds two or more '='. */
  lemma {:induction false} AttrsFailIff(fragments: seq<string>)
    ensures AttrsOf(fragments).Err? <==> exists i :: 0 <= i < |fragments| && Text.Occurrences(fragments[i], '=') >= 2
  {
    if fragments != [] {
      var n := |fragments| - 1;
      AttrsFailIff(fragments[..n]);
      if exists i :: 0 <= i < n + 1 && Text.Occurrences(fragments[i], '=') >= 2 {
        var i :| 0 <= i < n + 1 && Text.Occurrences(fragments[i], '=') >= 2;
        if i < n {
          assert fragments[..n][i] == fragments[i];
        }
      }
    }
  }

  /** One registry value decoded: its attribute map, then _parse_rule. */
  function DecodeEntry(value: string): Result<Rule, FirewallError>
  {
    var attrs :- AttrsOf(Text.Split(value, '|'));
    ParseRule(attrs)
  }

  /** Every registry value decoded by `decode`, in order, or the error of the first that fails. */
  function DecodeAll<T>(values: seq<string>, decode: string -> Result<T, FirewallError>): Result<seq<T>, FirewallError>
  {
    if values == [] then Ok([])
    else
      var decoded :- DecodeAll(values[..|values| - 1], decode);
      var last :- decode(values[|values| - 1]);
      Ok(decoded + [last])
  }

  /** get_rules as a specification: every value decoded into a rule, in registry order, or the first error. */
  function AllRules(values: seq<string>): Result<seq<Rule>, FirewallError>
  {
    DecodeAll(values, DecodeEntry)
  }

  /**
   * The values whose Name is `name`, each read into attributes and decoded by `parse`, in
   * order; a value without a Name, or whose attributes do not read, is an error.
   */
  function NamedDecodeAll(values: seq<string>, name: string, parse: map<string, string> -> Result<Rule, FirewallError>)
    : Result<seq<Rule>, FirewallError>
  {
    if values == [] then Ok([])
    else
      var rules :- NamedDecodeAll(values[..|values| - 1], name, parse);
      var attrs :- AttrsOf(Text.Split(values[|values| - 1], '|'));
      if "Name" !in attrs then Err(MissingKey("Name"))
      else if attrs["Name"] != name then Ok(rules)
      else
        var rule :- parse(attrs);
        Ok(rules + [rule])
  }

  /** get_rules_by_name as a specification: the values whose Name is `name`, decoded, in order. */
  function RulesNamed(values: seq<string>, name: string): Result<seq<Rule>, FirewallError>
  {
    NamedDecodeAll(values, name, ParseRule)
  }

  /** Once a prefix of the values fails, every longer prefix fails with the same error. */
  lemma {:induction false} DecodeAllErrorPersists<T>(values: seq<string>, decode: string -> Result<T, FirewallError>, k: nat)
    requires k <= |values| && DecodeAll(values[..k], decode).Err?
    ensures DecodeAll(values, decode) == DecodeAll(values[..k], decode)
    decreases |values| - k
  {
    if k < |values| {
      assert values[..k + 1][..k] == values[..k];
      DecodeAllErrorPersists(values, decode, k + 1);
    } else {
      assert values[..k] == values;
    }
  }

  lemma {:induction false} NamedDecodeAllErrorPersists(values: seq<string>, name: string,
                                                       parse: map<string, string> -> Result<Rule, FirewallError>, k: nat)
    requires k <= |values| && NamedDecodeAll(values[..k], name, parse).Err?
    ensures NamedDecodeAll(values, name, parse) == NamedDecodeAll(values[..k], name, parse)
    decreases |values| - k
  {
    if k < |values| {
      assert values[..k + 1][..k] == values[..k];
      NamedDecodeAllErrorPersists(values, name, parse, k + 1);
    } else {
      assert values[..k] == values;
    }
  }

  /** One more value: its decoding is appended, or its error ends the list. */
  lemma DecodeAllStep<T>(values: seq<string>, decode: string -> Result<T, FirewallError>, i: nat)
    requires i < |values| && DecodeAll(values[..i], decode).Ok?
    ensures DecodeAll(values[..i + 1], decode) ==
              if decode(values[i]).Ok? then Ok(DecodeAll(values[..i], decode).value + [decode(values[i]).value])
              else Err(decode(values[i]).error)
  {
    assert values[..i + 1][..i] == values[..i];
  }

  /** get_rules: the loop over the registry values, decoding each and appending it. */
  method GetRules(values: seq<string>) returns (r: Result<seq<Rule>, FirewallError>)
    ensures r == AllRules(values)
  {
    var rules: seq<Rule> := [];
    var i := 0;
    while i < |values|
      invariant 0 <= i <= |values|
      invariant DecodeAll(values[..i], DecodeEntry) == Ok(rules)
    {
      DecodeAllStep(values, DecodeEntry, i);
      var attrs := CollectAttrs(values[i]);
      if attrs.Err? {
        DecodeAllErrorPersists(values, DecodeEntry, i + 1);
        return Err(attrs.error);
      }
      var rule := ParseRule(attrs.value);
      assert DecodeEntry(values[i]) == rule;
      if rule.Err? {
        DecodeAllErrorPersists(values, DecodeEntry, i + 1);
        return Err(rule.error);
      }
      rules := rules + [rule.value];
      i := i + 1;
    }
    assert values[..i] == values;
    r := Ok(rules);
  }

  /**
   * get_rules_by_name: the same loop, reading Name (a KeyError when absent) and decoding
   * only the values whose Name matches.
   */
  method GetRulesByName(values: seq<string>, name: string) returns (r: Result<seq<Rule>, FirewallError>)
    ensures r == RulesNamed(values, name)
  {
    var rules: seq<Rule> := [];
    var i := 0;
    while i < |values|
      invariant 0 <= i <= |values|
      invariant NamedDecodeAll(values[..i], name, ParseRule) == Ok(rules)
    {
      assert values[..i + 1][..i] == values[..i];
      var attrs := CollectAttrs(values[i]);
      if attrs.Err? {
        NamedDecodeAllErrorPersists(values, name, ParseRule, i + 1);
        return Err(attrs.error);
      }
      if "Name" !in attrs.value {
        NamedDecodeAllErrorPersists(values, name, ParseRule, i + 1);
        return Err(MissingKey("Name"));
      }
      if attrs.value["Name"] == name {
        var rule := ParseRule(attrs.value);
        if rule.Err? {
          NamedDecodeAllErrorPersists(values, name, ParseRule, i + 1);
          return Err(rule.error);
        }
        rules := rules + [rule.value];
      }
      i := i + 1;
    }
    assert values[..i] == values;
    r := Ok(rules);
  }

  /**
   * A successful decoding of the registry has one entry per value, in order, each that
   * value's decoding (for get_rules: each value's rule).
   */
  lemma {:induction false} DecodeAllEach<T>(values: seq<string>, decode: string -> Result<T, FirewallError>)
    requires DecodeAll(values, decode).Ok?
    ensures |DecodeAll(values, decode).value| == |values|
    ensures forall i :: 0 <= i < |values| ==> decode(values[i]) == Ok(DecodeAll(values, decode).value[i])
  {
    if values != [] {
      var n := |values| - 1;
      var prefix := values[..n];
      DecodeAllEach(prefix, decode);
      forall i | 0 <= i < n ensures values[i] == prefix[i] { }
    }
  }

  /** A failing decoding of the registry fails with the error of the first value that does not decode. */
  lemma {:induction false} DecodeAllFirstError<T>(values: seq<string>, decode: string -> Result<T, FirewallError>)
    requires DecodeAll(values, decode).Err?
    ensures exists i :: 0 <= i < |values| && decode(values[i]) == Err(DecodeAll(values, decode).error) &&
                        forall j :: 0 <= j < i ==> decode(values[j]).Ok?
  {
    var n := |values| - 1;
    var prefix := values[..n];
    if DecodeAll(prefix, decode).Ok? {
      DecodeAllEach(prefix, decode);
      assert decode(values[n]) == Err(DecodeAll(values, decode).error);
      assert forall j :: 0 <= j < n ==> values[j] == prefix[j];
    } else {
      DecodeAllFirstError(prefix, decode);
      var i :| 0 <= i < n && decode(prefix[i]) == Err(DecodeAll(prefix, decode).error) &&
               forall j :: 0 <= j < i ==> decode(prefix[j]).Ok?;
      assert values[i] == prefix[i];
      assert forall j :: 0 <= j < i ==> values[j] == prefix[j];
    }
  }

  /** The rules of a given name among a list of rules, in order. */
  function Named(rules: seq<Rule>, name: string): seq<Rule>
  {
    if rules == [] then []
    else if rules[|rules| - 1].name == name then Named(rules[..|rules| - 1], name) + [rules[|rules| - 1]]
    else Named(rules[..|rules| - 1], name)
  }

  /** Every rule get_rules_by_name returns has the name asked for. */
  lemma {:induction false} RulesNamedHaveName(values: seq<string>, name: string)
    requires RulesNamed(values, name).Ok?
    ensures forall r :: r in RulesNamed(values, name).value ==> r.name == name
  {
    if values != [] {
      RulesNamedHaveName(values[..|values| - 1], name);
    }
  }

  /** A registry value whose attributes read and hold a Name. */
  predicate HasName(value: string)
  {
    var attrs := AttrsOf(Text.Split(value, '|'));
    attrs.Ok? && "Name" in attrs.value
  }

  /** A successful get_rules_by_name succeeded on all but the last value, and the last one has a Name. */
  lemma NamedDecodeAllPrefixOk(values: seq<string>, name: string, parse: map<string, string> -> Result<Rule, FirewallError>)
    requires values != [] && NamedDecodeAll(values, name, parse).Ok?
    ensures NamedDecodeAll(values[..|values| - 1], name, parse).Ok? && HasName(values[|values| - 1])
  {
  }

  /** get_rules_by_name succeeds only when every value's attributes read and hold a Name. */
  lemma {:induction false} NamedDecodeAllNeedsNames(values: seq<string>, name: string,
                                                   parse: map<string, string> -> Result<Rule, FirewallError>)
    requires NamedDecodeAll(values, name, parse).Ok?
    ensures forall v :: v in values ==> HasName(v)
  {
    if values != [] {
      var prefix := values[..|values| - 1];
      NamedDecodeAllPrefixOk(values, name, parse);
      NamedDecodeAllNeedsNames(prefix, name, parse);
      assert values == prefix + [values[|values| - 1]];
    }
  }

  /**
   * When every value decodes, get_rules_by_name returns exactly the rules of that name
   * among those of get_rules, in registry order.
   */
  lemma {:induction false} RulesNamedFiltersAllRules(values: seq<string>, name: string)
    requires AllRules(values).Ok?
    ensures RulesNamed(values, name) == Ok(Named(AllRules(values).value, name))
  {
    if values != [] {
      var n := |values| - 1;
      var prefix := values[..n];
      var rule := DecodeAllLast(values, DecodeEntry);
      RulesNamedFiltersAllRules(prefix, name);
      var attrs := AttrsOf(Text.Split(values[n], '|')).value;
      RulesNamedLast(values, name, attrs, rule);
      var all := AllRules(values).value;
      assert all[..|all| - 1] == AllRules(prefix).value;
    }
  }

  /** A successful decoding is that of all but the last value, then the last one's decoding. */
  lemma DecodeAllLast<T>(values: seq<string>, decode: string -> Result<T, FirewallError>) returns (last: T)
    requires values != [] && DecodeAll(values, decode).Ok?
    ensures DecodeAll(values[..|values| - 1], decode).Ok? && decode(values[|values| - 1]) == Ok(last)
    ensures DecodeAll(values, decode).value == DecodeAll(values[..|values| - 1], decode).value + [last]
  {
    last := decode(values[|values| - 1]).value;
  }

  /** The last value of a get_rules_by_name step, when it decodes to `rule`. */
  lemma RulesNamedLast(values: seq<string>, name: string, attrs: map<string, string>, rule: Rule)
    requires values != [] && RulesNamed(values[..|values| - 1], name).Ok?
    requires AttrsOf(Text.Split(values[|values| - 1], '|')) == Ok(attrs) && ParseRule(attrs) == Ok(rule)
    ensures RulesNamed(values, name) ==
              Ok(if rule.name == name then RulesNamed(values[..|values| - 1], name).value + [rule]
                 else RulesNamed(values[..|values| - 1], name).value)
  {
  }
}
