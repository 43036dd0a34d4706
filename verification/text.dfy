/** Python's `str.split` on a one-character separator and `str.join`. */
module Text {
  import opened Sequences

  /** `s.split(sep)`: the pieces between separators, empty pieces included. */
  function Split(s: string, sep: char): (parts: seq<string>)
    ensures |parts| >= 1
    ensures forall i :: 0 <= i < |parts| ==> sep !in parts[i]
    ensures forall i, k :: 0 <= i < |parts| && 0 <= k < |parts[i]| ==> parts[i][k] in s
  {
    if s == [] then [""]
    else
      var rest := Split(s[1..], sep);
      if s[0] == sep then [""] + rest
      else
        var first := [s[0]] + rest[0];
        var parts := [first] + rest[1..];
        assert forall i :: 1 <= i < |parts| ==> parts[i] == rest[i];
        assert forall k :: 1 <= k < |first| ==> first[k] == rest[0][k - 1];
        parts
  }

  /** `sep.join(parts)`. */
  function Join(parts: seq<string>, sep: string): (j: string)
    ensures parts != [] ==> parts[0] <= j
    ensures |parts| >= 2 ==> parts[0] + sep <= j
  {
    if |parts| == 0 then ""
    else if |parts| == 1 then parts[0]
    else parts[0] + sep + Join(parts[1..], sep)
  }

  /** Joining the pieces of a split with the same separator gives back the string. */
  lemma {:induction false} JoinSplit(s: string, sep: char)
    ensures Join(Split(s, sep), [sep]) == s
  {
    if s != [] {
      JoinSplit(s[1..], sep);
      var rest := Split(s[1..], sep);
      if s[0] == sep {
        assert Split(s, sep) == [""] + rest;
        JoinAfterEmpty(rest, [sep]);
      } else {
        assert Split(s, sep) == [[s[0]] + rest[0]] + rest[1..];
        JoinExtendFirst(s[0], rest, [sep]);
      }
      assert s == [s[0]] + s[1..];
    }
  }

  /** Putting a character in front of the first piece puts it in front of the join. */
  lemma JoinExtendFirst(c: char, parts: seq<string>, sep: string)
    requires |parts| >= 1
    ensures Join([[c] + parts[0]] + parts[1..], sep) == [c] + Join(parts, sep)
  {
    var extended := [[c] + parts[0]] + parts[1..];
    if |parts| > 1 {
      assert extended[1..] == parts[1..];
    }
  }

  /** A string without the separator splits into itself alone. */
  lemma {:induction false} SplitWithoutSeparator(a: string, sep: char)
    requires sep !in a
    ensures Split(a, sep) == [a]
  {
    if a != [] {
      SplitWithoutSeparator(a[1..], sep);
      assert a == [a[0]] + a[1..];
    }
  }

  /** The text before the first separator is the first piece. */
  lemma {:induction false} SplitAtFirstSeparator(a: string, sep: char, b: string)
    requires sep !in a
    ensures Split(a + [sep] + b, sep) == [a] + Split(b, sep)
  {
    var s := a + [sep] + b;
    if a == [] {
      assert s[1..] == b;
    } else {
      assert s[1..] == a[1..] + [sep] + b;
      SplitAtFirstSeparator(a[1..], sep, b);
      assert a == [a[0]] + a[1..];
    }
  }

  /** Joining after an empty first piece puts one separator in front. */
  lemma JoinAfterEmpty(parts: seq<string>, sep: string)
    requires |parts| >= 1
    ensures Join([""] + parts, sep) == sep + Join(parts, sep)
  {
    assert ([""] + parts)[1..] == parts;
    assert "" + sep == sep;
  }

  /** Splitting a join gives back the pieces, when no piece holds the separator. */
  lemma {:induction false} SplitJoin(parts: seq<string>, sep: char)
    requires |parts| >= 1
    requires forall i :: 0 <= i < |parts| ==> sep !in parts[i]
    ensures Split(Join(parts, [sep]), sep) == parts
  {
    if |parts| == 1 {
      SplitWithoutSeparator(parts[0], sep);
    } else {
      SplitJoin(parts[1..], sep);
      SplitAtFirstSeparator(parts[0], sep, Join(parts[1..], [sep]));
      assert parts == [parts[0]] + parts[1..];
    }
  }

  /**
   * Joining is one-to-one on non-empty lists of pieces that do not hold the
   * first character of the separator.
   */
  lemma {:induction false} JoinInjective(a: seq<string>, b: seq<string>, sep: string)
    requires |a| >= 1 && |b| >= 1 && |sep| >= 1
    requires forall i :: 0 <= i < |a| ==> sep[0] !in a[i]
    requires forall i :: 0 <= i < |b| ==> sep[0] !in b[i]
    requires Join(a, sep) == Join(b, sep)
    ensures a == b
  {
    if |a| == 1 && |b| == 1 {
    } else if |a| == 1 || |b| == 1 {
      assert false;
    } else {
      var u := sep + Join(a[1..], sep);
      var v := sep + Join(b[1..], sep);
      assert Join(a, sep) == a[0] + u && Join(b, sep) == b[0] + v;
      SeparatorSplitsPrefix(a[0], u, b[0], v, sep[0]);
      assert Join(a[1..], sep) == Join(b[1..], sep) by {
        assert u[|sep|..] == Join(a[1..], sep);
        assert v[|sep|..] == Join(b[1..], sep);
      }
      JoinInjective(a[1..], b[1..], sep);
      assert a == [a[0]] + a[1..] && b == [b[0]] + b[1..];
    }
  }

  lemma FirstOccurrenceAfter(x: string, u: string, c: char)
    requires c !in x && |u| >= 1 && u[0] == c
    ensures c in x + u && FirstIndex(x + u, c) == |x|
  {
    assert (x + u)[|x|] == c;
  }

  /** The text before the first occurrence of a character is determined by the whole. */
  lemma SeparatorSplitsPrefix(x: string, u: string, y: string, v: string, c: char)
    requires c !in x && c !in y && |u| >= 1 && |v| >= 1 && u[0] == c && v[0] == c
    requires x + u == y + v
    ensures x == y && u == v
  {
    FirstOccurrenceAfter(x, u, c);
    FirstOccurrenceAfter(y, v, c);
    assert x == (x + u)[..|x|] && y == (y + v)[..|y|];
    assert u == (x + u)[|x|..] && v == (y + v)[|y|..];
  }
}
