/**
 * Rules and the rule builder. A Rule is a record of a name, a direction, an action, a
 * protocol and four selectors. A RuleBuilder holds four unions that its add_* methods
 * grow in place; build() hands out those very union objects (an empty one is replaced
 * by the wildcard), so a built rule keeps sharing them with the builder.
 */
module Rules {
  import opened Wrappers
  import opened Selectors
  import opened Address

  datatype Direction = Inbound | Outbound {
    /** The enum's string value. */
    function Value(): string
    {
      match this
      case Inbound => "in"
      case Outbound => "out"
    }
  }

  datatype Action = Allow | Block {
    function Value(): string
    {
      match this
      case Allow => "allow"
      case Block => "block"
    }
  }

  datatype Protocol = Tcp | Udp | AnyProtocol {
    function Value(): string
    {
      match this
      case Tcp => "tcp"
      case Udp => "udp"
      case AnyProtocol => "*"
    }
  }

  /** The rule record, as a value: the selectors it holds at the moment it is read. */
  datatype Rule = Rule(name: string, direction: Direction, action: Action, protocol: Protocol,
                       localPort: PortSelector, remotePort: PortSelector,
                       localIp: IpSelector, remoteIp: IpSelector)

  /** The list behind an IpUnion or PortUnion that a builder grows with append. */
  class SelectorList<V> {
    var items: seq<Selector<V>>

    constructor ()
      ensures items == []
    {
      items := [];
    }

    method Append(s: Selector<V>)
      modifies this
      ensures items == old(items) + [s]
    {
      items := items + [s];
    }
  }

  /** A selector field of a built rule: the builder's union object itself, or a selector of its own. */
  datatype Field<V> = Shared(list: SelectorList<V>) | Own(selector: Selector<V>) {
    function Objects(): set<object>
    {
      if Shared? then {list} else {}
    }

    /** The selector the field denotes now. */
    function Current(): Selector<V>
      reads Objects()
    {
      if Shared? then Union(list.items) else selector
    }
  }

  /** `union or Any()`: the union object when it has members, the wildcard otherwise. */
  function UnionOrAny<V>(list: SelectorList<V>): (f: Field<V>)
    reads list
    ensures list.items == [] ==> f == Own(Any)
    ensures list.items != [] ==> f == Shared(list) && f.Current() == Union(list.items)
  {
    if list.items == [] then Own(Any) else Shared(list)
  }

  /** The object build() returns, with its four selector fields possibly shared with the builder. */
  datatype BuiltRule = BuiltRule(name: string, direction: Direction, action: Action, protocol: Protocol,
                                 localPort: Field<Port>, remotePort: Field<Port>,
                                 localIp: Field<Ip>, remoteIp: Field<Ip>) {
    function Objects(): set<object>
    {
      localPort.Objects() + remotePort.Objects() + localIp.Objects() + remoteIp.Objects()
    }

    /** The rule as it reads now, through whatever union objects it shares. */
    function Snapshot(): Rule
      reads Objects()
    {
      Rule(name, direction, action, protocol,
           localPort.Current(), remotePort.Current(), localIp.Current(), remoteIp.Current())
    }
  }

  datatype BuilderError =
    | EmptyName     // ValueError: the rule name is empty
    | AlreadyBuilt  // RuntimeError: build() after build()

  class RuleBuilder {
    const name: string
    var direction: Direction
    var action: Action
    var protocol: Protocol
    const localPort: SelectorList<Port>
    const remotePort: SelectorList<Port>
    const localIp: SelectorList<Ip>
    const remoteIp: SelectorList<Ip>
    var building: bool

    /** The name is non-empty and the four unions are four distinct objects. */
    ghost predicate Valid()
      reads this
    {
      name != "" && localPort != remotePort && localIp != remoteIp
    }

    /** RuleBuilder(name) for a non-empty name: inbound, block, any protocol, four empty unions, building. */
    constructor (name: string)
      requires name != ""
      ensures Valid() && building
      ensures this.name == name && direction == Inbound && action == Block && protocol == AnyProtocol
      ensures fresh(localPort) && fresh(remotePort) && fresh(localIp) && fresh(remoteIp)
      ensures localPort.items == [] && remotePort.items == [] && localIp.items == [] && remoteIp.items == []
    {
      this.name := name;
      direction := Inbound;
      action := Block;
      protocol := AnyProtocol;
      localPort := new SelectorList();
      remotePort := new SelectorList();
      localIp := new SelectorList();
      remoteIp := new SelectorList();
      building := true;
    }

    /** RuleBuilder(name): an empty name is rejected; otherwise a fresh builder in its initial state. */
    static method Create(name: string) returns (r: Result<RuleBuilder, BuilderError>)
      ensures r.Err? <==> name == ""
      ensures r.Err? ==> r.error == EmptyName
      ensures r.Ok? ==> fresh(r.value) && r.value.Valid() && r.value.building && r.value.name == name
      ensures r.Ok? ==> r.value.direction == Inbound && r.value.action == Block && r.value.protocol == AnyProtocol
      ensures r.Ok? ==> fresh(r.value.localPort) && fresh(r.value.remotePort) && fresh(r.value.localIp) && fresh(r.value.remoteIp)
      ensures r.Ok? ==> r.value.localPort.items == [] && r.value.remotePort.items == [] &&
                        r.value.localIp.items == [] && r.value.remoteIp.items == []
    {
      if name == "" {
        return Err(EmptyName);
      }
      var b := new RuleBuilder(name);
      return Ok(b);
    }

    /**
     * build(): the first call ends building and returns a rule whose selector fields are the
     * builder's unions, each empty one replaced by the wildcard; any later call fails.
     */
    method Build() returns (r: Result<BuiltRule, BuilderError>)
      requires Valid()
      modifies this`building
      ensures !building
      ensures !old(building) ==> r == Err(AlreadyBuilt)
      ensures old(building) ==> (
                r.Ok? &&
                r.value == BuiltRule(name, direction, action, protocol, UnionOrAny(localPort),
                                     UnionOrAny(remotePort), UnionOrAny(localIp), UnionOrAny(remoteIp)))
      ensures old(building) ==> (
                r.value.Snapshot() ==
                Rule(name, direction, action, protocol,
                     if localPort.items == [] then Any else Union(localPort.items),
                     if remotePort.items == [] then Any else Union(remotePort.items),
                     if localIp.items == [] then Any else Union(localIp.items),
                     if remoteIp.items == [] then Any else Union(remoteIp.items)))
    {
      if !building {
        return Err(AlreadyBuilt);
      }
      building := false;
      r := Ok(BuiltRule(name, direction, action, protocol,
                        UnionOrAny(localPort), UnionOrAny(remotePort), UnionOrAny(localIp), UnionOrAny(remoteIp)));
    }

    method SetDirection(d: Direction) returns (self: RuleBuilder)
      modifies this`direction
      ensures direction == d && self == this
    {
      direction := d;
      return this;
    }

    method SetAction(a: Action) returns (self: RuleBuilder)
      modifies this`action
      ensures action == a && self == this
    {
      action := a;
      return this;
    }

    method SetProtocol(p: Protocol) returns (self: RuleBuilder)
      modifies this`protocol
      ensures protocol == p && self == this
    {
      protocol := p;
      return this;
    }

    /**
     * add_local_port(n): appends SinglePort(n), whether or not the builder was built; the
     * union then contains exactly the ports it contained before, and n.
     */
    method AddLocalPort(n: Port) returns (self: RuleBuilder)
      requires Valid()
      modifies localPort
      ensures localPort.items == old(localPort.items) + [Single(n)] && self == this
      ensures forall p :: PortContains(Union(localPort.items), p) <==> PortContains(Union(old(localPort.items)), p) || p == n
    {
      localPort.Append(Single(n));
      forall p ensures PortContains(Union(localPort.items), p) <==> PortContains(Union(old(localPort.items)), p) || p == n {
        UnionAppendContains(old(localPort.items), Single(n), p, PortLe);
      }
      return this;
    }

    /** add_remote_port(n): the same on the remote union. */
    method AddRemotePort(n: Port) returns (self: RuleBuilder)
      requires Valid()
      modifies remotePort
      ensures remotePort.items == old(remotePort.items) + [Single(n)] && self == this
      ensures forall p :: PortContains(Union(remotePort.items), p) <==> PortContains(Union(old(remotePort.items)), p) || p == n
    {
      remotePort.Append(Single(n));
      forall p ensures PortContains(Union(remotePort.items), p) <==> PortContains(Union(old(remotePort.items)), p) || p == n {
        UnionAppendContains(old(remotePort.items), Single(n), p, PortLe);
      }
      return this;
    }

    /** add_local_port_str(text): appends the parsed selector; a parse error leaves the union as it was. */
    method AddLocalPortStr(text: string) returns (r: Result<RuleBuilder, ParseError>)
      requires Valid()
      modifies localPort
      ensures PortSelectorFromStr(text).Ok? ==>
                r == Ok(this) && localPort.items == old(localPort.items) + [PortSelectorFromStr(text).value]
      ensures PortSelectorFromStr(text).Err? ==>
                r == Err(PortSelectorFromStr(text).error) && localPort.items == old(localPort.items)
    {
      var parsed := PortSelectorFromStr(text);
      if parsed.Err? {
        return Err(parsed.error);
      }
      localPort.Append(parsed.value);
      return Ok(this);
    }

    /** add_remote_port_str(text): the same on the remote union. */
    method AddRemotePortStr(text: string) returns (r: Result<RuleBuilder, ParseError>)
      requires Valid()
      modifies remotePort
      ensures PortSelectorFromStr(text).Ok? ==>
                r == Ok(this) && remotePort.items == old(remotePort.items) + [PortSelectorFromStr(text).value]
      ensures PortSelectorFromStr(text).Err? ==>
                r == Err(PortSelectorFromStr(text).error) && remotePort.items == old(remotePort.items)
    {
      var parsed := PortSelectorFromStr(text);
      if parsed.Err? {
        return Err(parsed.error);
      }
      remotePort.Append(parsed.value);
      return Ok(this);
    }

    /** add_local_ip(text): appends the parsed IP selector; a parse error leaves the union as it was. */
    method AddLocalIp(text: string) returns (r: Result<RuleBuilder, ParseError>)
      requires Valid()
      modifies localIp
      ensures IpSelectorFromStr(text).Ok? ==>
                r == Ok(this) && localIp.items == old(localIp.items) + [IpSelectorFromStr(text).value]
      ensures IpSelectorFromStr(text).Err? ==>
                r == Err(IpSelectorFromStr(text).error) && localIp.items == old(localIp.items)
    {
      var parsed := IpSelectorFromStr(text);
      if parsed.Err? {
        return Err(parsed.error);
      }
      localIp.Append(parsed.value);
      return Ok(this);
    }

    /** add_remote_ip(text): the same on the remote union. */
    method AddRemoteIp(text: string) returns (r: Result<RuleBuilder, ParseError>)
      requires Valid()
      modifies remoteIp
      ensures IpSelectorFromStr(text).Ok? ==>
                r == Ok(this) && remoteIp.items == old(remoteIp.items) + [IpSelectorFromStr(text).value]
      ensures IpSelectorFromStr(text).Err? ==>
                r == Err(IpSelectorFromStr(text).error) && remoteIp.items == old(remoteIp.items)
    {
      var parsed := IpSelectorFromStr(text);
      if parsed.Err? {
        return Err(parsed.error);
      }
      remoteIp.Append(parsed.value);
      return Ok(this);
    }

    /**
     * add_local_domain(domain), given the address texts the resolver returned for the
     * domain: appends their union (IpUnion.from_str_list) as one nested member.
     */
    method AddLocalDomain(resolved: seq<string>) returns (r: Result<RuleBuilder, ParseError>)
      requires Valid()
      modifies localIp
      ensures IpUnionFromStrList(resolved).Ok? ==>
                r == Ok(this) && localIp.items == old(localIp.items) + [IpUnionFromStrList(resolved).value]
      ensures IpUnionFromStrList(resolved).Err? ==>
                r == Err(IpUnionFromStrList(resolved).error) && localIp.items == old(localIp.items)
    {
      var parsed := IpUnionFromStrList(resolved);
      if parsed.Err? {
        return Err(parsed.error);
      }
      localIp.Append(parsed.value);
      return Ok(this);
    }

    /** add_remote_domain(domain): the same on the remote union. */
    method AddRemoteDomain(resolved: seq<string>) returns (r: Result<RuleBuilder, ParseError>)
      requires Valid()
      modifies remoteIp
      ensures IpUnionFromStrList(resolved).Ok? ==>
                r == Ok(this) && remoteIp.items == old(remoteIp.items) + [IpUnionFromStrList(resolved).value]
      ensures IpUnionFromStrList(resolved).Err? ==>
                r == Err(IpUnionFromStrList(resolved).error) && remoteIp.items == old(remoteIp.items)
    {
      var parsed := IpUnionFromStrList(resolved);
      if parsed.Err? {
        return Err(parsed.error);
      }
      remoteIp.Append(parsed.value);
      return Ok(this);
    }
  }

  /** The default rule: building a fresh builder at once gives an inbound block rule over any protocol, ports and addresses; a second build fails. */
  method BuildDefault(name: string) returns (rule: Result<Rule, BuilderError>, again: Result<BuiltRule, BuilderError>)
    ensures name == "" ==> rule == Err(EmptyName)
    ensures name != "" ==> rule == Ok(Rule(name, Inbound, Block, AnyProtocol, Any, Any, Any, Any))
    ensures name != "" ==> again == Err(AlreadyBuilt)
  {
    var created := RuleBuilder.Create(name);
    if created.Err? {
      rule, again := Err(created.error), Err(created.error);
      return;
    }
    var b := created.value;
    var built := b.Build();
    rule := Ok(built.value.Snapshot());
    again := b.Build();
  }

  /**
   * The rule shares the builder's non-empty unions: a port added after build() shows in a
   * field that was non-empty at build time, and not in one that was replaced by the wildcard.
   */
  method AddAfterBuild() returns (before: Rule, after: Rule)
    ensures before.localPort == Union([Single(80)]) && before.remotePort == Any
    ensures after.localPort == Union([Single(80), Single(443)]) && after.remotePort == Any
  {
    var b := new RuleBuilder("web");
    var self := b.AddLocalPort(80);
    var built := b.Build();
    before := built.value.Snapshot();
    self := b.AddLocalPort(443);
    self := b.AddRemotePort(8080);
    after := built.value.Snapshot();
  }

  /**
   * A TCP rule blocking remote port 22: the remote field is the one-member union, which
   * renders as "22", and the untouched local field renders as the wildcard.
   */
  method BlockSsh() returns (rule: Rule)
    ensures rule == Rule("block-ssh", Inbound, Block, Tcp, Any, Union([Single(22)]), Any, Any)
    ensures PortSelectorToStr(rule.remotePort) == "22" && PortSelectorToStr(rule.localPort) == "*"
  {
    var b := new RuleBuilder("block-ssh");
    var self := b.SetAction(Block);
    self := b.SetProtocol(Tcp);
    self := b.AddRemotePort(22);
    var built := b.Build();
    rule := built.value.Snapshot();
    assert PortSelectorToStr(Single(22)) == "22";
  }
}
