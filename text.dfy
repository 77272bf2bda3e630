/** Python's str.split and str.join for a one-character separator. */
module Text {

  /** Number of occurrences of `c` in `s`. */
  function Occurrences(s: string, c: char): nat
  {
    if s == [] then 0 else (if s[0] == c then 1 else 0) + Occurrences(s[1..], c)
  }

  /** `sep.join(parts)`: the parts with one separator between neighbours; [] joins to "". */
  function Join(parts: seq<string>, sep: char): string
  {
    if |parts| == 0 then ""
    else if |parts| == 1 then parts[0]
    else parts[0] + [sep] + Join(parts[1..], sep)
  }

  /**
   * `s.split(sep)`: the maximal runs between separators, so there is always at least
   * one part, no part holds the separator, and joining the parts gives `s` back.
   */
  function Split(s: string, sep: char): (parts: seq<string>)
    ensures |parts| == Occurrences(s, sep) + 1
    ensures forall i :: 0 <= i < |parts| ==> sep !in parts[i]
    ensures Join(parts, sep) == s
  {
    if s == [] then [""]
    else
      var rest := Split(s[1..], sep);
      if s[0] == sep then
        [""] + rest
      else
        JoinConsFirst(s[0], rest, sep);
        [[s[0]] + rest[0]] + rest[1..]
  }

  /** Prepending a character to the first part prepends it to the joined text. */
  lemma {:induction false} JoinConsFirst(c: char, parts: seq<string>, sep: char)
    requires |parts| >= 1
    ensures Join([[c] + parts[0]] + parts[1..], sep) == [c] + Join(parts, sep)
  {
    var ps := [[c] + parts[0]] + parts[1..];
    if |parts| > 1 {
      assert ps[1..] == parts[1..];
    }
  }

  /** A text without the separator splits into itself alone. */
  lemma {:induction false} SplitWithoutSeparator(s: string, sep: char)
    requires sep !in s
    ensures Split(s, sep) == [s]
  {
    if s != [] {
      assert sep !in s[1..];
      SplitWithoutSeparator(s[1..], sep);
    }
  }

  /** Splitting `p + sep + t` with `p` separator-free yields `p` followed by the parts of `t`. */
  lemma {:induction false} SplitAfterPart(p: string, t: string, sep: char)
    requires sep !in p
    ensures Split(p + [sep] + t, sep) == [p] + Split(t, sep)
  {
    if p == [] {
      assert p + [sep] + t == [sep] + t;
      assert ([sep] + t)[1..] == t;
    } else {
      assert (p + [sep] + t)[1..] == p[1..] + [sep] + t;
      assert sep !in p[1..];
      SplitAfterPart(p[1..], t, sep);
      assert [p[0]] + p[1..] == p;
    }
  }

  /** Splitting inverts joining when no part holds the separator. */
  lemma {:induction false} SplitJoin(parts: seq<string>, sep: char)
    requires |parts| >= 1
    requires forall i :: 0 <= i < |parts| ==> sep !in parts[i]
    ensures Split(Join(parts, sep), sep) == parts
  {
    if |parts| == 1 {
      SplitWithoutSeparator(parts[0], sep);
    } else {
      SplitJoin(parts[1..], sep);
      SplitAfterPart(parts[0], Join(parts[1..], sep), sep);
      assert [parts[0]] + parts[1..] == parts;
    }
  }

  /** Every part is no longer than the joined text, and strictly shorter when there are several. */
  lemma {:induction false} PartsShorterThanJoin(parts: seq<string>, sep: char, i: nat)
    requires i < |parts|
    ensures |parts[i]| <= |Join(parts, sep)|
    ensures |parts| > 1 ==> |parts[i]| < |Join(parts, sep)|
  {
    if |parts| > 1 {
      if i > 0 {
        PartsShorterThanJoin(parts[1..], sep, i - 1);
      }
    }
  }

  /** When `s` splits into several parts, each part is shorter than `s`. */
  lemma SplitPartsShorter(s: string, sep: char)
    requires |Split(s, sep)| > 1
    ensures forall i :: 0 <= i < |Split(s, sep)| ==> |Split(s, sep)[i]| < |s|
  {
    var parts := Split(s, sep);
    forall i | 0 <= i < |parts| ensures |parts[i]| < |s| {
      PartsShorterThanJoin(parts, sep, i);
    }
  }

  /** A character occurs in a joined text iff it is the separator between parts or occurs in a part. */
  lemma {:induction false} InJoin(parts: seq<string>, sep: char, c: char)
    requires c != sep
    ensures c in Join(parts, sep) <==> exists i :: 0 <= i < |parts| && c in parts[i]
  {
    if |parts| > 1 {
      InJoin(parts[1..], sep, c);
      var j := Join(parts[1..], sep);
      assert c in parts[0] + [sep] + j <==> c in parts[0] || c in j;
      if c in j {
        var i :| 0 <= i < |parts[1..]| && c in parts[1..][i];
        assert c in parts[i + 1];
      }
      if exists i :: 0 <= i < |parts| && c in parts[i] {
        var i :| 0 <= i < |parts| && c in parts[i];
        if i > 0 {
          assert c in parts[1..][i - 1];
        }
      }
    }
  }

  /** A character occurs in a text iff it occurs at least once. */
  lemma {:induction false} OccursIff(s: string, c: char)
    ensures c in s <==> Occurrences(s, c) > 0
  {
    if s != [] {
      OccursIff(s[1..], c);
      assert s == [s[0]] + s[1..];
    }
  }
}
