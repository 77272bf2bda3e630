/**
 * IP and port selectors: the selector algebra instantiated with 4-tuple addresses
 * (ordered lexicographically) and integer ports (ordered numerically), with the
 * atom parsers SingleIp/IpRange/SinglePort/PortRange.from_str and from_str_range.
 */
module Address {
  import opened Wrappers
  import Text
  import Decimal
  import opened Selectors

  /** An address as the source holds it: four ints, with no 0..255 bound. */
  type Ip = (int, int, int, int)
  type Port = int
  type IpSelector = Selector<Ip>
  type PortSelector = Selector<Port>

  /** tuple(map(int, parts)): the values of the parts, or the error for the first part int() rejects. */
  function IntsOf(parts: seq<string>): (r: Result<seq<int>, ParseError>)
    ensures r.Ok? ==> |r.value| == |parts|
    ensures r.Ok? ==> forall i :: 0 <= i < |parts| ==> Decimal.ParseInt(parts[i]) == Some(r.value[i])
    ensures r.Err? ==> exists i :: 0 <= i < |parts| && Decimal.ParseInt(parts[i]).None? &&
                                   r.error == InvalidLiteral(parts[i]) &&
                                   forall j :: 0 <= j < i ==> Decimal.ParseInt(parts[j]).Some?
  {
    if parts == [] then Ok([])
    else
      match Decimal.ParseInt(parts[0])
      case None => Err(InvalidLiteral(parts[0]))
      case Some(n) =>
        var rest :- IntsOf(parts[1..]);
        Ok([n] + rest)
  }

  function ToIp(octets: seq<int>): Ip
    requires |octets| == 4
  {
    (octets[0], octets[1], octets[2], octets[3])
  }

  /** SingleIp.from_str: the dot-separated parts through int(), then exactly four of them. */
  function SingleIpFromStr(text: string): Result<Ip, ParseError>
  {
    var octets :- IntsOf(Text.Split(text, '.'));
    if |octets| != 4 then Err(InvalidAddress) else Ok(ToIp(octets))
  }

  /** IpRange.from_str: both ends through int() first, then both octet counts. */
  function IpRangeFromStr(start: string, end: string): Result<(Ip, Ip), ParseError>
  {
    var first :- IntsOf(Text.Split(start, '.'));
    var last :- IntsOf(Text.Split(end, '.'));
    if |first| != 4 || |last| != 4 then Err(InvalidAddress) else Ok((ToIp(first), ToIp(last)))
  }

  /** IpRange.from_str_range: exactly two '-'-separated parts, else InvalidRange. */
  function IpRangeFromStrRange(text: string): Result<IpSelector, ParseError>
  {
    var parts := Text.Split(text, '-');
    if |parts| != 2 then Err(InvalidRange)
    else
      var bounds :- IpRangeFromStr(parts[0], parts[1]);
      Ok(Range(bounds.0, bounds.1))
  }

  /** str(SingleIp): the octets' decimal texts joined by dots. */
  function IpToStr(ip: Ip): string
  {
    Text.Join([Decimal.IntToStr(ip.0), Decimal.IntToStr(ip.1), Decimal.IntToStr(ip.2), Decimal.IntToStr(ip.3)], '.')
  }

  /** Python's tuple comparison a <= b: lexicographic on the octets. */
  predicate IpLe(a: Ip, b: Ip)
  {
    a.0 < b.0 || (a.0 == b.0 && (a.1 < b.1 || (a.1 == b.1 && (a.2 < b.2 || (a.2 == b.2 && a.3 <= b.3)))))
  }

  /** IpSelector.from_str */
  function IpSelectorFromStr(text: string): Result<IpSelector, ParseError>
  {
    Parse(text, SingleIpFromStr, IpRangeFromStr)
  }

  /** str(IpSelector) */
  function IpSelectorToStr(sel: IpSelector): string
  {
    Render(sel, IpToStr)
  }

  /** ip in sel */
  predicate IpContains(sel: IpSelector, ip: Ip)
  {
    Contains(sel, ip, IpLe)
  }

  /** IpUnion.from_str_list: the union of the texts' parses in order, or the first error. */
  function IpUnionFromStrList(texts: seq<string>): (r: Result<IpSelector, ParseError>)
    ensures r.Ok? ==> r.value.Union? && |r.value.members| == |texts|
    ensures r.Ok? ==> forall i :: 0 <= i < |texts| ==> IpSelectorFromStr(texts[i]) == Ok(r.value.members[i])
    ensures r.Err? ==> exists i :: 0 <= i < |texts| && IpSelectorFromStr(texts[i]) == Err(r.error) &&
                                   forall j :: 0 <= j < i ==> IpSelectorFromStr(texts[j]).Ok?
  {
    if texts == [] then Ok(Union([]))
    else
      var first :- IpSelectorFromStr(texts[0]);
      var rest :- IpUnionFromStrList(texts[1..]);
      Ok(Union([first] + rest.members))
  }

  /** SinglePort.from_str: int(text). */
  function SinglePortFromStr(text: string): Result<Port, ParseError>
  {
    match Decimal.ParseInt(text)
    case None => Err(InvalidLiteral(text))
    case Some(n) => Ok(n)
  }

  /** PortRange.from_str: int(start), then int(end). */
  function PortRangeFromStr(start: string, end: string): Result<(Port, Port), ParseError>
  {
    var first :- SinglePortFromStr(start);
    var last :- SinglePortFromStr(end);
    Ok((first, last))
  }

  /** PortRange.from_str_range: exactly two '-'-separated parts, else InvalidRange. */
  function PortRangeFromStrRange(text: string): Result<PortSelector, ParseError>
  {
    var parts := Text.Split(text, '-');
    if |parts| != 2 then Err(InvalidRange)
    else
      var bounds :- PortRangeFromStr(parts[0], parts[1]);
      Ok(Range(bounds.0, bounds.1))
  }

  function PortToStr(p: Port): string
  {
    Decimal.IntToStr(p)
  }

  predicate PortLe(a: Port, b: Port)
  {
    a <= b
  }

  /** PortSelector.from_str */
  function PortSelectorFromStr(text: string): Result<PortSelector, ParseError>
  {
    Parse(text, SinglePortFromStr, PortRangeFromStr)
  }

  /** str(PortSelector) */
  function PortSelectorToStr(sel: PortSelector): string
  {
    Render(sel, PortToStr)
  }

  /** port in sel */
  predicate PortContains(sel: PortSelector, p: Port)
  {
    Contains(sel, p, PortLe)
  }

  predicate NonNegativeIp(ip: Ip)
  {
    ip.0 >= 0 && ip.1 >= 0 && ip.2 >= 0 && ip.3 >= 0
  }

  predicate NonNegativePort(p: Port)
  {
    p >= 0
  }

  /** The decimal text of a non-negative number holds none of '.', '*', ',' or '-'. */
  lemma DigitsAreClean(n: int)
    requires n >= 0
    ensures Clean(Decimal.IntToStr(n)) && '.' !in Decimal.IntToStr(n)
  {
    Decimal.IntToStrDigits(n);
  }

  /** Parsing the dotted text of an address with non-negative octets gives the address back. */
  lemma IpTextRoundTrip(ip: Ip)
    requires NonNegativeIp(ip)
    ensures Clean(IpToStr(ip))
    ensures SingleIpFromStr(IpToStr(ip)) == Ok(ip)
  {
    var parts := [Decimal.IntToStr(ip.0), Decimal.IntToStr(ip.1), Decimal.IntToStr(ip.2), Decimal.IntToStr(ip.3)];
    DigitsAreClean(ip.0);
    DigitsAreClean(ip.1);
    DigitsAreClean(ip.2);
    DigitsAreClean(ip.3);
    Text.InJoin(parts, '.', '*');
    Text.InJoin(parts, '.', ',');
    Text.InJoin(parts, '.', '-');
    Text.SplitJoin(parts, '.');
    Decimal.ParseIntOfIntToStr(ip.0);
    Decimal.ParseIntOfIntToStr(ip.1);
    Decimal.ParseIntOfIntToStr(ip.2);
    Decimal.ParseIntOfIntToStr(ip.3);
    var r := IntsOf(parts);
    assert r.Ok?;
    assert r.value == [ip.0, ip.1, ip.2, ip.3];
  }

  /** The address atoms invert their rendering on non-negative octets. */
  lemma IpAtomsRoundTrip()
    ensures AtomsRoundTrip(SingleIpFromStr, IpRangeFromStr, IpToStr, NonNegativeIp)
  {
    forall ip | NonNegativeIp(ip)
      ensures Clean(IpToStr(ip)) && SingleIpFromStr(IpToStr(ip)) == Ok(ip)
    {
      IpTextRoundTrip(ip);
    }
  }

  /** The port atoms invert their rendering on non-negative ports. */
  lemma PortAtomsRoundTrip()
    ensures AtomsRoundTrip(SinglePortFromStr, PortRangeFromStr, PortToStr, NonNegativePort)
  {
    forall p | NonNegativePort(p)
      ensures Clean(PortToStr(p)) && SinglePortFromStr(PortToStr(p)) == Ok(p)
    {
      DigitsAreClean(p);
      Decimal.ParseIntOfIntToStr(p);
    }
  }

  /**
   * Round trip for IP selectors: a single address or range with non-negative octets, the
   * wildcard, or a union of at least two of the former parses back from its text.
   */
  lemma IpSelectorRoundTrip(sel: IpSelector)
    requires Reparsable(sel, NonNegativeIp)
    ensures IpSelectorFromStr(IpSelectorToStr(sel)) == Ok(sel)
  {
    IpAtomsRoundTrip();
    ParseRender(sel, SingleIpFromStr, IpRangeFromStr, IpToStr, NonNegativeIp);
  }

  /** Round trip for port selectors, under the same shape condition with non-negative ports. */
  lemma PortSelectorRoundTrip(sel: PortSelector)
    requires Reparsable(sel, NonNegativePort)
    ensures PortSelectorFromStr(PortSelectorToStr(sel)) == Ok(sel)
  {
    PortAtomsRoundTrip();
    ParseRender(sel, SinglePortFromStr, PortRangeFromStr, PortToStr, NonNegativePort);
  }

  /** Dotted text of four canonical digit parts: the form str() gives an address with non-negative octets. */
  predicate CanonicalIpText(s: string)
  {
    var parts := Text.Split(s, '.');
    |parts| == 4 && forall i :: 0 <= i < 4 ==> Decimal.Canonical(parts[i])
  }

  /** Canonical digit text holds none of the grammar's special characters. */
  lemma CanonicalIsClean(t: string)
    requires Decimal.Canonical(t)
    ensures Clean(t) && '.' !in t
  {
    assert forall c :: c in t ==> Decimal.IsDigit(c);
  }

  /**
   * The text side of the address round trip: canonical dotted text parses, as a single
   * address and as a selector, to a value whose rendering is the text itself.
   */
  lemma IpTextCanonicalRoundTrip(s: string)
    requires CanonicalIpText(s)
    ensures SingleIpFromStr(s).Ok? && IpToStr(SingleIpFromStr(s).value) == s
    ensures IpSelectorFromStr(s) == Ok(Single(SingleIpFromStr(s).value))
    ensures IpSelectorToStr(IpSelectorFromStr(s).value) == s
  {
    var parts := Text.Split(s, '.');
    IpTextShape(s);
    var ip := SingleIpFromStr(s).value;
    Decimal.IntToStrOfParseInt(parts[0]);
    Decimal.IntToStrOfParseInt(parts[1]);
    Decimal.IntToStrOfParseInt(parts[2]);
    Decimal.IntToStrOfParseInt(parts[3]);
    assert [Decimal.IntToStr(ip.0), Decimal.IntToStr(ip.1), Decimal.IntToStr(ip.2), Decimal.IntToStr(ip.3)] == parts;
    forall i | 0 <= i < |parts| ensures Clean(parts[i]) {
      CanonicalIsClean(parts[i]);
    }
    Text.InJoin(parts, '.', '*');
    Text.InJoin(parts, '.', ',');
    Text.InJoin(parts, '.', '-');
    Text.OccursIff(s, '-');
    SegmentShapes(s, SingleIpFromStr, IpRangeFromStr);
  }

  /** The text side of the port round trip: canonical digit text parses to a port rendering as the text. */
  lemma PortTextCanonicalRoundTrip(s: string)
    requires Decimal.Canonical(s)
    ensures PortSelectorFromStr(s) == Ok(Single(Decimal.ParseInt(s).value))
    ensures PortSelectorToStr(PortSelectorFromStr(s).value) == s
  {
    Decimal.IntToStrOfParseInt(s);
    CanonicalIsClean(s);
    Text.OccursIff(s, '-');
    SegmentShapes(s, SinglePortFromStr, PortRangeFromStr);
  }

  /** A leading zero does not survive the port round trip: "080" parses to port 80, which renders "80". */
  lemma LeadingZeroPortText()
    ensures PortSelectorFromStr("080") == Ok(Single(80))
    ensures PortSelectorToStr(Single(80)) == "80"
  {
    Decimal.LeadingZeroIsDropped();
    assert !Decimal.Canonical("080");
    assert Clean("080");
    Text.OccursIff("080", '-');
    SegmentShapes("080", SinglePortFromStr, PortRangeFromStr);
  }

  /** Nor the address round trip: "010.0.0.1" parses to 10.0.0.1, which renders "10.0.0.1". */
  lemma LeadingZeroIpText()
    ensures SingleIpFromStr("010.0.0.1") == Ok((10, 0, 0, 1))
    ensures IpToStr((10, 0, 0, 1)) == "10.0.0.1"
  {
    SplitLeadingZeroIp();
    LeadingZeroOctets();
    RenderTenDotOne();
  }

  lemma LeadingZeroOctets()
    ensures IntsOf(["010", "0", "0", "1"]) == Ok([10, 0, 0, 1])
  {
    var parts := ["010", "0", "0", "1"];
    assert Decimal.DigitsValue("010") == 10 by {
      assert "010"[..2] == "01";
      assert "01"[..1] == "0";
    }
    assert Decimal.DigitsValue("1") == 1 by { assert "1"[..0] == ""; }
    assert Decimal.DigitsValue("0") == 0 by { assert "0"[..0] == ""; }
    assert forall i :: 0 <= i < |parts| ==> Decimal.ParseInt(parts[i]).Some?;
    var r := IntsOf(parts);
    assert r.value == [10, 0, 0, 1];
  }

  lemma RenderTenDotOne()
    ensures IpToStr((10, 0, 0, 1)) == "10.0.0.1"
  {
    Decimal.LeadingZeroIsDropped();
    assert Decimal.IntToStr(10) == "10" by {
      assert Decimal.NatToStr(1) == "1";
    }
    assert Decimal.IntToStr(0) == "0" && Decimal.IntToStr(1) == "1";
    assert Text.Join(["10", "0", "0", "1"], '.') == "10.0.0.1";
  }

  lemma SplitLeadingZeroIp()
    ensures Text.Split("010.0.0.1", '.') == ["010", "0", "0", "1"]
  {
    assert Text.Join(["010", "0", "0", "1"], '.') == "010.0.0.1";
    Text.SplitJoin(["010", "0", "0", "1"], '.');
  }

  /** A negative port renders with a leading '-', which the grammar reads as a range with an empty start. */
  lemma NegativePortDoesNotRoundTrip(p: Port)
    requires p < 0
    ensures PortSelectorFromStr(PortSelectorToStr(Single(p))) == Err(InvalidLiteral(""))
  {
    var digits := Decimal.NatToStr(-p);
    var t := PortSelectorToStr(Single(p));
    assert t == [] + ['-'] + digits;
    DigitsAreClean(-p);
    assert '*' !in t && ',' !in t;
    Text.SplitWithoutSeparator(t, ',');
    Text.SplitAfterPart([], digits, '-');
    Text.SplitWithoutSeparator(digits, '-');
  }

  /** Octets are not bounded to 0..255: an address with a 300 parses as given. */
  lemma OctetAbove255Accepted()
    ensures IpSelectorFromStr(IpToStr((10, 0, 0, 300))) == Ok(Single((10, 0, 0, 300)))
  {
    IpSelectorRoundTrip(Single((10, 0, 0, 300)));
  }

  /**
   * Address text is accepted iff it has exactly four dot-separated parts, each an integer;
   * a non-integer part is reported before a wrong part count.
   */
  lemma IpTextShape(text: string)
    ensures var parts := Text.Split(text, '.');
            var r := SingleIpFromStr(text);
            (r.Ok? <==> |parts| == 4 && forall i :: 0 <= i < 4 ==> Decimal.ParseInt(parts[i]).Some?) &&
            (r.Ok? ==> Some(r.value.0) == Decimal.ParseInt(parts[0]) && Some(r.value.1) == Decimal.ParseInt(parts[1]) &&
                       Some(r.value.2) == Decimal.ParseInt(parts[2]) && Some(r.value.3) == Decimal.ParseInt(parts[3])) &&
            ((forall i :: 0 <= i < |parts| ==> Decimal.ParseInt(parts[i]).Some?) && |parts| != 4 ==> r == Err(InvalidAddress))
  {
    var parts := Text.Split(text, '.');
    var ints := IntsOf(parts);
    if ints.Err? {
      var i :| 0 <= i < |parts| && Decimal.ParseInt(parts[i]).None?;
    }
  }

  /**
   * IpRange.from_str: each end must be an address of exactly four integer parts, and then the
   * range is the two addresses. Errors come as int() meets them: the start's literal errors,
   * then the end's, and only then the octet count of either end.
   */
  lemma IpRangeEndsShape(start: string, end: string)
    ensures IpRangeFromStr(start, end).Ok? <==> SingleIpFromStr(start).Ok? && SingleIpFromStr(end).Ok?
    ensures IpRangeFromStr(start, end).Ok? ==>
              IpRangeFromStr(start, end).value == (SingleIpFromStr(start).value, SingleIpFromStr(end).value)
    ensures IntsOf(Text.Split(start, '.')).Err? ==>
              IpRangeFromStr(start, end) == Err(IntsOf(Text.Split(start, '.')).error)
    ensures IntsOf(Text.Split(start, '.')).Ok? && IntsOf(Text.Split(end, '.')).Err? ==>
              IpRangeFromStr(start, end) == Err(IntsOf(Text.Split(end, '.')).error)
    ensures (IntsOf(Text.Split(start, '.')).Ok? && IntsOf(Text.Split(end, '.')).Ok? &&
             (SingleIpFromStr(start).Err? || SingleIpFromStr(end).Err?)) ==> IpRangeFromStr(start, end) == Err(InvalidAddress)
  {
  }

  /**
   * `1.2.3-x.0.0.1`: the three-part start alone is InvalidAddress, but as a range the end's
   * bad literal is reported first, because both ends go through int() before either count
   * is checked.
   */
  lemma RangeReportsLiteralBeforeShape()
    ensures SingleIpFromStr("1.2.3") == Err(InvalidAddress)
    ensures IpRangeFromStr("1.2.3", "x.0.0.1") == Err(InvalidLiteral("x"))
  {
    SplitThreeParts();
    SplitFourParts();
    assert Decimal.AllDigits("1") && Decimal.AllDigits("2") && Decimal.AllDigits("3");
    var ints := IntsOf(["1", "2", "3"]);
    assert ints.Ok? && |ints.value| == 3;
    assert !Decimal.AllDigits("x");
    assert IntsOf(["x", "0", "0", "1"]) == Err(InvalidLiteral("x"));
  }

  lemma SplitThreeParts()
    ensures Text.Split("1.2.3", '.') == ["1", "2", "3"]
  {
    assert Text.Join(["1", "2", "3"], '.') == "1.2.3";
    Text.SplitJoin(["1", "2", "3"], '.');
  }

  lemma SplitFourParts()
    ensures Text.Split("x.0.0.1", '.') == ["x", "0", "0", "1"]
  {
    assert Text.Join(["x", "0", "0", "1"], '.') == "x.0.0.1";
    Text.SplitJoin(["x", "0", "0", "1"], '.');
  }

  /** from_str_range agrees with from_str on star-free, comma-free text with exactly one '-', and rejects other dash counts. */
  lemma IpRangeFromStrRangeAgrees(text: string)
    ensures Text.Occurrences(text, '-') != 1 ==> IpRangeFromStrRange(text) == Err(InvalidRange)
    ensures '*' !in text && ',' !in text && Text.Occurrences(text, '-') == 1 ==>
              IpRangeFromStrRange(text) == IpSelectorFromStr(text)
  {
    if '*' !in text && ',' !in text {
      SegmentShapes(text, SingleIpFromStr, IpRangeFromStr);
    }
  }

  /** from_str_range for ports: the same agreement. */
  lemma PortRangeFromStrRangeAgrees(text: string)
    ensures Text.Occurrences(text, '-') != 1 ==> PortRangeFromStrRange(text) == Err(InvalidRange)
    ensures '*' !in text && ',' !in text && Text.Occurrences(text, '-') == 1 ==>
              PortRangeFromStrRange(text) == PortSelectorFromStr(text)
  {
    if '*' !in text && ',' !in text {
      SegmentShapes(text, SinglePortFromStr, PortRangeFromStr);
    }
  }

  predicate IsOctet(n: int)
  {
    0 <= n < 256
  }

  /** The 32-bit number of an address whose octets are bytes. */
  function IpValue(ip: Ip): int
  {
    ((ip.0 * 256 + ip.1) * 256 + ip.2) * 256 + ip.3
  }

  /** Appending a byte to a prefix keeps the order of the prefixes, the byte breaking ties. */
  lemma ShiftInByte(h1: int, l1: int, h2: int, l2: int)
    requires IsOctet(l1) && IsOctet(l2)
    ensures h1 * 256 + l1 <= h2 * 256 + l2 <==> h1 < h2 || (h1 == h2 && l1 <= l2)
    ensures h1 * 256 + l1 == h2 * 256 + l2 <==> h1 == h2 && l1 == l2
  {
  }

  /**
   * For addresses of bytes, the tuple order used by IpRange membership is the order of
   * the addresses' 32-bit numbers.
   */
  lemma IpLeIsNumericOrder(a: Ip, b: Ip)
    requires IsOctet(a.0) && IsOctet(a.1) && IsOctet(a.2) && IsOctet(a.3)
    requires IsOctet(b.0) && IsOctet(b.1) && IsOctet(b.2) && IsOctet(b.3)
    ensures IpLe(a, b) <==> IpValue(a) <= IpValue(b)
  {
    ShiftInByte(a.0, a.1, b.0, b.1);
    ShiftInByte(a.0 * 256 + a.1, a.2, b.0 * 256 + b.1, b.2);
    ShiftInByte((a.0 * 256 + a.1) * 256 + a.2, a.3, (b.0 * 256 + b.1) * 256 + b.2, b.3);
  }

  /**
   * A port selector is_any iff it contains every port. Ports are unbounded ints: a range
   * 0-65535 holds every real port but is not is_any, and add_rule writes it out, not "any".
   */
  lemma PortIsAnyIffContainsAll(sel: PortSelector)
    ensures IsAny(sel) <==> forall p :: PortContains(sel, p)
  {
    if IsAny(sel) {
      forall p ensures PortContains(sel, p) {
        IsAnyContainsAll(sel, p, PortLe);
      }
    } else {
      var n := NotAnyMissesSome(sel, PortLe, (p: Port) => p);
      assert !PortContains(sel, n + 1);
    }
  }

  /**
   * An IP selector is_any iff it contains every address. Octets are unbounded ints: the
   * range 0.0.0.0-255.255.255.255 holds every real address but is not is_any.
   */
  lemma IpIsAnyIffContainsAll(sel: IpSelector)
    ensures IsAny(sel) <==> forall ip :: IpContains(sel, ip)
  {
    if IsAny(sel) {
      forall ip ensures IpContains(sel, ip) {
        IsAnyContainsAll(sel, ip, IpLe);
      }
    } else {
      var n := NotAnyMissesSome(sel, IpLe, (ip: Ip) => ip.0);
      assert !IpContains(sel, (n + 1, 0, 0, 0));
    }
  }
}
