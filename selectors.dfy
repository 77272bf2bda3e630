/**
 * The selector algebra shared by IP and port selectors: a selector is a single value,
 * an inclusive range, the wildcard, or an ordered union of selectors. The grammar,
 * rendering, membership, is_any and equality are written once here and instantiated
 * for addresses and ports in module Address.
 */
module Selectors {
  import opened Wrappers
  import Text

  /** The ValueError cases of the parsers. */
  datatype ParseError =
    | InvalidLiteral(text: string)  // int() rejected a component
    | InvalidAddress                // an address without exactly four octets
    | InvalidSelector               // a comma-free segment with two or more '-'
    | InvalidRange                  // from_str_range on text without exactly one '-'

  datatype Selector<V> =
    | Single(value: V)
    | Range(start: V, end: V)
    | Any
    | Union(members: seq<Selector<V>>)

  /**
   * from_str: text holding '*' anywhere is the wildcard; text with a comma is the union
   * of its comma-separated segments, each parsed by this same function; a comma-free
   * segment is a single value (no '-'), a range (one '-') or an error (more).
   * `single` and `range` are the atom parsers of the concrete selector kind.
   */
  function Parse<V>(s: string, single: string -> Result<V, ParseError>,
                    range: (string, string) -> Result<(V, V), ParseError>): Result<Selector<V>, ParseError>
    decreases |s|, 1, 0
  {
    if '*' in s then Ok(Any)
    else
      var segments := Text.Split(s, ',');
      if |segments| != 1 then
        Text.SplitPartsShorter(s, ',');
        var members :- ParseEach(segments, single, range, |s|);
        Ok(Union(members))
      else
        var parts := Text.Split(s, '-');
        if |parts| == 1 then
          var v :- single(s);
          Ok(Single(v))
        else if |parts| == 2 then
          var bounds :- range(parts[0], parts[1]);
          Ok(Range(bounds.0, bounds.1))
        else
          Err(InvalidSelector)
  }

  /**
   * list(map(from_str, segments)): the parses of the segments in order, or the error of
   * the first segment that fails. `bound` exceeds every segment's length (termination).
   */
  function ParseEach<V>(segments: seq<string>, single: string -> Result<V, ParseError>,
                        range: (string, string) -> Result<(V, V), ParseError>, bound: nat)
    : (r: Result<seq<Selector<V>>, ParseError>)
    requires forall i :: 0 <= i < |segments| ==> |segments[i]| < bound
    decreases bound, 0, |segments|
    ensures r.Ok? ==> |r.value| == |segments|
    ensures r.Ok? ==> forall i :: 0 <= i < |segments| ==> Parse(segments[i], single, range) == Ok(r.value[i])
    ensures r.Err? ==> exists i :: 0 <= i < |segments| && Parse(segments[i], single, range) == Err(r.error) &&
                                   forall j :: 0 <= j < i ==> Parse(segments[j], single, range).Ok?
  {
    if segments == [] then Ok([])
    else
      var first :- Parse(segments[0], single, range);
      var rest :- ParseEach(segments[1..], single, range, bound);
      Ok([first] + rest)
  }

  /** __str__: the atom, "start-end", "*", or the members' renderings joined by commas. */
  function Render<V>(sel: Selector<V>, show: V -> string): string
  {
    match sel
    case Single(v) => show(v)
    case Range(a, b) => show(a) + "-" + show(b)
    case Any => "*"
    case Union(ms) => Text.Join(seq(|ms|, i requires 0 <= i < |ms| => Render(ms[i], show)), ',')
  }

  /** __contains__: `le` is the order of the value kind (numeric or tuple-lexicographic). */
  function Contains<V(==)>(sel: Selector<V>, v: V, le: (V, V) -> bool): bool
  {
    match sel
    case Single(x) => x == v
    case Range(a, b) => le(a, v) && le(v, b)
    case Any => true
    case Union(ms) => exists i :: 0 <= i < |ms| && Contains(ms[i], v, le)
  }

  /** is_any: the wildcard, or a union with a member that is_any. */
  function IsAny<V>(sel: Selector<V>): bool
  {
    match sel
    case Any => true
    case Union(ms) => exists i :: 0 <= i < |ms| && IsAny(ms[i])
    case _ => false
  }

  /** __eq__: same variant and equal data; unions compare their member lists positionally. */
  function Same<V(==)>(a: Selector<V>, b: Selector<V>): bool
  {
    match a
    case Single(x) => b.Single? && x == b.value
    case Range(x, y) => b.Range? && x == b.start && y == b.end
    case Any => b.Any?
    case Union(ms) =>
      b.Union? && |ms| == |b.members| && forall i :: 0 <= i < |ms| ==> Same(ms[i], b.members[i])
  }

  /** The source's variant-typed equality is exactly structural equality of the model. */
  lemma {:induction false} SameIsEquality<V>(a: Selector<V>, b: Selector<V>)
    ensures Same(a, b) <==> a == b
  {
    match a
    case Union(ms) =>
      if b.Union? && |ms| == |b.members| {
        forall i | 0 <= i < |ms| ensures Same(ms[i], b.members[i]) <==> ms[i] == b.members[i] {
          SameIsEquality(ms[i], b.members[i]);
        }
        if Same(a, b) {
          assert ms == b.members;
        }
      }
    case _ =>
  }

  /** A selector that is_any contains every value. */
  lemma {:induction false} IsAnyContainsAll<V>(sel: Selector<V>, v: V, le: (V, V) -> bool)
    requires IsAny(sel)
    ensures Contains(sel, v, le)
  {
    match sel
    case Union(ms) =>
      var i :| 0 <= i < |ms| && IsAny(ms[i]);
      IsAnyContainsAll(ms[i], v, le);
    case Any =>
  }

  /**
   * A selector that is not is_any misses every value whose key lies above some bound,
   * for any key that is monotone for the order. With is_any, this makes "is_any" and
   * "contains every value" the same thing over unbounded values.
   */
  lemma {:induction false} NotAnyMissesSome<V>(sel: Selector<V>, le: (V, V) -> bool, key: V -> int)
    returns (n: int)
    requires forall x, y :: key(x) < key(y) ==> !le(y, x)
    requires !IsAny(sel)
    ensures forall v :: key(v) > n ==> !Contains(sel, v, le)
    decreases sel, 1
  {
    match sel
    case Single(x) => n := key(x);
    case Range(a, b) => n := key(b);
    case Union(ms) => n := MembersMissSome(sel, le, key, |ms|);
  }

  /** The first `k` members of a union that is not is_any all miss every value above `n`. */
  lemma {:induction false} MembersMissSome<V>(sel: Selector<V>, le: (V, V) -> bool, key: V -> int, k: nat)
    returns (n: int)
    requires forall x, y :: key(x) < key(y) ==> !le(y, x)
    requires sel.Union? && k <= |sel.members| && !IsAny(sel)
    ensures forall v, i :: key(v) > n && 0 <= i < k ==> !Contains(sel.members[i], v, le)
    decreases sel, 0, k
  {
    if k == 0 {
      n := 0;
    } else {
      var m := sel.members[k - 1];
      assert !IsAny(m);
      var n1 := NotAnyMissesSome(m, le, key);
      var n2 := MembersMissSome(sel, le, key, k - 1);
      n := if n1 < n2 then n2 else n1;
    }
  }

  /** Appending a member to a union adds exactly that member's values. */
  lemma UnionAppendContains<V>(ms: seq<Selector<V>>, s: Selector<V>, v: V, le: (V, V) -> bool)
    ensures Contains(Union(ms + [s]), v, le) <==> Contains(Union(ms), v, le) || Contains(s, v, le)
  {
    var ns := ms + [s];
    assert ns[|ms|] == s;
    if Contains(Union(ns), v, le) {
      var i :| 0 <= i < |ns| && Contains(ns[i], v, le);
      if i < |ms| {
        assert ns[i] == ms[i];
      }
    }
    if Contains(Union(ms), v, le) {
      var i :| 0 <= i < |ms| && Contains(ms[i], v, le);
      assert ns[i] == ms[i];
    }
  }

  /** Appending a member to a union makes it is_any iff it was, or the member is. */
  lemma UnionAppendIsAny<V>(ms: seq<Selector<V>>, s: Selector<V>)
    ensures IsAny(Union(ms + [s])) <==> IsAny(Union(ms)) || IsAny(s)
  {
    var ns := ms + [s];
    assert ns[|ms|] == s;
    if IsAny(Union(ns)) {
      var i :| 0 <= i < |ns| && IsAny(ns[i]);
      if i < |ms| {
        assert ns[i] == ms[i];
      }
    }
    if IsAny(Union(ms)) {
      var i :| 0 <= i < |ms| && IsAny(ms[i]);
      assert ns[i] == ms[i];
    }
  }

  /** The characters the grammar treats specially. */
  predicate Clean(t: string) {
    '*' !in t && ',' !in t && '-' !in t
  }

  /**
   * The atom parsers invert the atom renderer on the values `ok` admits, and the
   * renderings of those values hold none of the grammar's special characters.
   */
  ghost predicate AtomsRoundTrip<V(!new)>(single: string -> Result<V, ParseError>,
                                    range: (string, string) -> Result<(V, V), ParseError>,
                                    show: V -> string, ok: V -> bool)
  {
    (forall v :: ok(v) ==> Clean(show(v)) && single(show(v)) == Ok(v)) &&
    (forall a, b :: ok(a) && ok(b) ==> range(show(a), show(b)) == Ok((a, b)))
  }

  /** A single value or a range over admitted values. */
  predicate Plain<V>(sel: Selector<V>, ok: V -> bool) {
    (sel.Single? && ok(sel.value)) || (sel.Range? && ok(sel.start) && ok(sel.end))
  }

  /**
   * The selectors whose text parses back to themselves: plain ones, the wildcard, and
   * unions of at least two plain members.
   */
  predicate Reparsable<V>(sel: Selector<V>, ok: V -> bool) {
    Plain(sel, ok) || sel.Any? ||
    (sel.Union? && |sel.members| >= 2 && forall i :: 0 <= i < |sel.members| ==> Plain(sel.members[i], ok))
  }

  /** Among the reparsable selectors, is_any holds of the wildcard alone. */
  lemma ReparsableIsAnyIsWildcard<V>(sel: Selector<V>, ok: V -> bool)
    requires Reparsable(sel, ok)
    ensures IsAny(sel) <==> sel == Any
  {
    if sel.Union? {
      assert forall i :: 0 <= i < |sel.members| ==> !IsAny(sel.members[i]);
    }
  }

  /** The text of a plain selector holds neither '*' nor ','. */
  lemma PlainText<V(!new)>(sel: Selector<V>, single: string -> Result<V, ParseError>,
                     range: (string, string) -> Result<(V, V), ParseError>,
                     show: V -> string, ok: V -> bool)
    requires AtomsRoundTrip(single, range, show, ok) && Plain(sel, ok)
    ensures '*' !in Render(sel, show) && ',' !in Render(sel, show)
  {
    if sel.Range? {
      var t := show(sel.start) + "-" + show(sel.end);
      assert Clean(show(sel.start)) && Clean(show(sel.end));
      assert forall c :: c in t ==> c in show(sel.start) || c == '-' || c in show(sel.end);
    }
  }

  /** Parsing the text of a plain selector gives the selector back. */
  lemma ParsePlain<V(!new)>(sel: Selector<V>, single: string -> Result<V, ParseError>,
                      range: (string, string) -> Result<(V, V), ParseError>,
                      show: V -> string, ok: V -> bool)
    requires AtomsRoundTrip(single, range, show, ok) && Plain(sel, ok)
    ensures Parse(Render(sel, show), single, range) == Ok(sel)
  {
    var t := Render(sel, show);
    PlainText(sel, single, range, show, ok);
    Text.SplitWithoutSeparator(t, ',');
    if sel.Single? {
      Text.SplitWithoutSeparator(t, '-');
    } else {
      var a, b := show(sel.start), show(sel.end);
      assert t == a + ['-'] + b;
      Text.SplitAfterPart(a, b, '-');
      Text.SplitWithoutSeparator(b, '-');
      assert range(a, b) == Ok((sel.start, sel.end));
    }
  }

  /** Round trip: parsing the rendering of a reparsable selector gives the selector back. */
  lemma ParseRender<V(!new)>(sel: Selector<V>, single: string -> Result<V, ParseError>,
                       range: (string, string) -> Result<(V, V), ParseError>,
                       show: V -> string, ok: V -> bool)
    requires AtomsRoundTrip(single, range, show, ok) && Reparsable(sel, ok)
    ensures Parse(Render(sel, show), single, range) == Ok(sel)
  {
    if Plain(sel, ok) {
      ParsePlain(sel, single, range, show, ok);
    } else if sel.Union? {
      var ms := sel.members;
      var texts := seq(|ms|, i requires 0 <= i < |ms| => Render(ms[i], show));
      var t := Text.Join(texts, ',');
      assert t == Render(sel, show);
      forall i | 0 <= i < |ms|
        ensures '*' !in texts[i] && ',' !in texts[i]
        ensures Parse(texts[i], single, range) == Ok(ms[i])
      {
        PlainText(ms[i], single, range, show, ok);
        ParsePlain(ms[i], single, range, show, ok);
      }
      Text.InJoin(texts, ',', '*');
      Text.SplitJoin(texts, ',');
      Text.SplitPartsShorter(t, ',');
      var r := ParseEach(texts, single, range, |t|);
      assert r.Ok?;
      assert r.value == ms;
    }
  }

  /** A one-member union renders as its member alone, so it reparses as that member. */
  lemma SingletonUnionLosesUnion<V(!new)>(m: Selector<V>, single: string -> Result<V, ParseError>,
                                    range: (string, string) -> Result<(V, V), ParseError>,
                                    show: V -> string, ok: V -> bool)
    requires AtomsRoundTrip(single, range, show, ok) && Plain(m, ok)
    ensures Parse(Render(Union([m]), show), single, range) == Ok(m)
  {
    assert Render(Union([m]), show) == Render(m, show);
    ParsePlain(m, single, range, show, ok);
  }

  /** The empty union renders as the empty text. */
  lemma EmptyUnionRendersEmpty<V>(show: V -> string)
    ensures Render(Union([]), show) == ""
  {
  }

  /** A union with the wildcard among its members renders with '*', so it reparses as the wildcard. */
  lemma UnionWithAnyParsesToAny<V>(ms: seq<Selector<V>>, single: string -> Result<V, ParseError>,
                                   range: (string, string) -> Result<(V, V), ParseError>,
                                   show: V -> string)
    requires exists i :: 0 <= i < |ms| && ms[i] == Any
    ensures Parse(Render(Union(ms), show), single, range) == Ok(Any)
  {
    var texts := seq(|ms|, i requires 0 <= i < |ms| => Render(ms[i], show));
    var i :| 0 <= i < |ms| && ms[i] == Any;
    assert texts[i] == "*";
    Text.InJoin(texts, ',', '*');
  }

  /** A union whose first member is a union of two plain members renders as the flat three-member union. */
  lemma NestedUnionFlattens<V>(a: Selector<V>, b: Selector<V>, c: Selector<V>, show: V -> string)
    ensures Render(Union([Union([a, b]), c]), show) == Render(Union([a, b, c]), show)
  {
    var ra, rb, rc := Render(a, show), Render(b, show), Render(c, show);
    assert seq(2, i requires 0 <= i < 2 => Render([a, b][i], show)) == [ra, rb];
    assert [ra, rb][1..] == [rb];
    assert Text.Join([ra, rb], ',') == ra + [','] + rb;
    var inner := Render(Union([a, b]), show);
    assert inner == Text.Join([ra, rb], ',');
    assert seq(2, i requires 0 <= i < 2 => Render([Union([a, b]), c][i], show)) == [inner, rc];
    assert seq(3, i requires 0 <= i < 3 => Render([a, b, c][i], show)) == [ra, rb, rc];
    assert [ra, rb, rc][1..] == [rb, rc] && [rb, rc][1..] == [rc] && [inner, rc][1..] == [rc];
    assert Text.Join([rb, rc], ',') == rb + [','] + rc;
    assert Text.Join([ra, rb, rc], ',') == ra + [','] + (rb + [','] + rc);
  }

  /** Text with '*' anywhere is the wildcard, whatever else it holds. */
  lemma StarParsesToAny<V>(s: string, single: string -> Result<V, ParseError>,
                           range: (string, string) -> Result<(V, V), ParseError>)
    requires '*' in s
    ensures Parse(s, single, range) == Ok(Any)
  {
  }

  /**
   * Text with a comma (and no '*') is a union whose members are, in order, the parses of
   * its comma-separated segments, one member per segment; or the first failing segment's error.
   */
  lemma CommaParsesToUnion<V>(s: string, single: string -> Result<V, ParseError>,
                              range: (string, string) -> Result<(V, V), ParseError>)
    requires '*' !in s && ',' in s
    ensures var segments := Text.Split(s, ',');
            var r := Parse(s, single, range);
            |segments| == Text.Occurrences(s, ',') + 1 >= 2 &&
            (r.Ok? ==> r.value.Union? && |r.value.members| == |segments| &&
                       forall i :: 0 <= i < |segments| ==> Parse(segments[i], single, range) == Ok(r.value.members[i])) &&
            (r.Err? ==> exists i :: 0 <= i < |segments| && Parse(segments[i], single, range) == Err(r.error) &&
                                    forall j :: 0 <= j < i ==> Parse(segments[j], single, range).Ok?)
  {
    Text.OccursIff(s, ',');
  }

  /**
   * A comma-free, star-free segment: no '-' gives a single value, exactly one '-' a range
   * of the two sides, two or more '-' an InvalidSelector error.
   */
  lemma SegmentShapes<V>(s: string, single: string -> Result<V, ParseError>,
                         range: (string, string) -> Result<(V, V), ParseError>)
    requires '*' !in s && ',' !in s
    ensures Text.Occurrences(s, '-') == 0 ==>
              Parse(s, single, range) == (if single(s).Ok? then Ok(Single(single(s).value)) else Err(single(s).error))
    ensures Text.Occurrences(s, '-') == 1 ==>
              var parts := Text.Split(s, '-');
              var r := range(parts[0], parts[1]);
              |parts| == 2 && s == parts[0] + "-" + parts[1] &&
              Parse(s, single, range) == (if r.Ok? then Ok(Range(r.value.0, r.value.1)) else Err(r.error))
    ensures Text.Occurrences(s, '-') >= 2 ==> Parse(s, single, range) == Err(InvalidSelector)
  {
    Text.OccursIff(s, ',');
    var parts := Text.Split(s, '-');
    if |parts| == 2 {
      assert Text.Join(parts, '-') == parts[0] + "-" + parts[1];
    }
  }
}
