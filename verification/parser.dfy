/**
 * `parse_dom`: a line of space-separated selector tokens becomes a list of
 * elements. Each token is matched at its start against the pattern
 * `([0-9a-zA-z-_]+)(#[0-9a-zA-z-_]*)?(\.[0-9a-zA-z-_.]*)?`, whose three groups
 * are the tag, the id and the dotted class names.
 *
 * The pattern never needs to backtrack: the first group takes the longest
 * run of name characters, and each optional group, when its first character
 * is there, takes the longest run that follows. The scanner below does
 * exactly that.
 */
module Parser {
  import opened Wrappers
  import opened Sequences
  import opened Text
  import opened Dom

  /** A character of the class group: a name character, or `.` when `dots` is set. */
  predicate InGroup(c: char, dots: bool) {
    IsNameChar(c) || (dots && c == '.')
  }

  /** The end of the longest run of group characters starting at `i`. */
  function RunEnd(s: string, i: nat, dots: bool): (j: nat)
    requires i <= |s|
    ensures i <= j <= |s|
    ensures forall k :: i <= k < j ==> InGroup(s[k], dots)
    ensures j == |s| || !InGroup(s[j], dots)
    decreases |s| - i
  {
    if i < |s| && InGroup(s[i], dots) then RunEnd(s, i + 1, dots) else i
  }

  /** A run that is followed by a character outside the group, or by nothing, is the longest run. */
  lemma RunEndAt(s: string, i: nat, j: nat, dots: bool)
    requires i <= j <= |s|
    requires forall k :: i <= k < j ==> InGroup(s[k], dots)
    requires j == |s| || !InGroup(s[j], dots)
    ensures RunEnd(s, i, dots) == j
  {
  }

  /** The end of group 2, the `#` and the name run after it, when `#` follows the tag ending at `t`. */
  function IdGroupEnd(token: string, t: nat): (p: nat)
    requires t <= |token|
    ensures t <= p <= |token|
    ensures p > t <==> t < |token| && token[t] == '#'
  {
    if t < |token| && token[t] == '#' then RunEnd(token, t + 1, false) else t
  }

  /**
   * `m.group(2)[1:] if m.group(2) else None`: the name after `#`, empty for a
   * bare `#`, and no id when the group is absent.
   */
  function IdGroup(token: string, t: nat): (id: Option<string>)
    requires t <= |token|
    ensures id.Some? <==> t < |token| && token[t] == '#'
    ensures id.Some? ==> IsName(id.value) && |id.value| == IdGroupEnd(token, t) - t - 1
    ensures id.Some? ==> "#" + id.value == token[t..IdGroupEnd(token, t)]
  {
    if t < |token| && token[t] == '#' then
      var p := IdGroupEnd(token, t);
      assert token[t..p] == [token[t]] + token[t + 1..p];
      Some(token[t + 1..p])
    else None
  }

  /** The pieces of a run of class-group characters split on `.` hold only name characters. */
  lemma ClassPieces(group: string)
    requires forall k :: 0 <= k < |group| ==> InGroup(group[k], true)
    ensures forall i :: 0 <= i < |Split(group, '.')| ==> IsName(Split(group, '.')[i])
  {
    var pieces := Split(group, '.');
    forall i, k | 0 <= i < |pieces| && 0 <= k < |pieces[i]|
      ensures IsNameChar(pieces[i][k])
    {
      assert pieces[i][k] in group && pieces[i][k] != '.';
    }
  }

  /**
   * `m.group(3).split('.')[1:] if m.group(3) else []`: the classes of the
   * dotted run starting at `p`, or none when no `.` is there.
   */
  function ClassGroup(token: string, p: nat): (classes: seq<string>)
    requires p <= |token|
    ensures forall i :: 0 <= i < |classes| ==> IsName(classes[i])
    ensures classes != [] ==> p < |token| && token[p] == '.'
    ensures p < |token| && token[p] == '.' ==>
      classes != [] && ClassSuffix(classes) == token[p..RunEnd(token, p + 1, true)]
  {
    if p < |token| && token[p] == '.' then
      var group := token[p..RunEnd(token, p + 1, true)];
      ClassPieces(group);
      DottedRun(group);
      Split(group, '.')[1..]
    else []
  }

  /**
   * The pieces after the leading empty one of a run that starts with `.`
   * are at least one, and writing each back after a `.` gives the run.
   */
  lemma DottedRun(group: string)
    requires |group| > 0 && group[0] == '.'
    ensures Split(group, '.')[1..] != []
    ensures ClassSuffix(Split(group, '.')[1..]) == group
  {
    var rest := group[1..];
    assert group == "." + rest;
    assert Split(group, '.')[1..] == Split(rest, '.');
    ClassSuffixIsJoin(Split(rest, '.'));
    JoinSplit(rest, '.');
  }

  /**
   * `re.match(DOM_PATTERN, token)` and the element built from its groups;
   * `None` when the pattern does not match.
   */
  function ParseToken(token: string): (r: Option<DomElement>)
    ensures r.Some? <==> |token| > 0 && IsNameChar(token[0])
  {
    var t := RunEnd(token, 0, false);
    if t == 0 then None
    else Some(NewElement(token[..t], IdGroup(token, t), ClassGroup(token, IdGroupEnd(token, t))))
  }

  /**
   * Where the match of the pattern ends: after the tag, the `#id` group when
   * present and the class group when present. `re.match` only anchors the
   * start, so whatever follows this position is ignored.
   */
  function MatchEnd(token: string): (m: nat)
    ensures m <= |token|
    ensures m >= RunEnd(token, 0, false)
  {
    var p := IdGroupEnd(token, RunEnd(token, 0, false));
    if p < |token| && token[p] == '.' then RunEnd(token, p + 1, true) else p
  }

  /** Cutting a string after a run leaves the run, and its end, as they were. */
  lemma RunEndPrefix(s: string, n: nat, i: nat, dots: bool)
    requires i <= n <= |s| && RunEnd(s, i, dots) <= n
    ensures RunEnd(s[..n], i, dots) == RunEnd(s, i, dots)
  {
    RunEndAt(s[..n], i, RunEnd(s, i, dots), dots);
  }

  /**
   * A token parses as its prefix up to any point at or after the end of the
   * match, so a tail the pattern does not match is dropped: `div.a#b` parses
   * as `div.a`.
   */
  lemma MatchIgnoresTail(token: string, n: nat)
    requires MatchEnd(token) <= n <= |token|
    ensures ParseToken(token[..n]) == ParseToken(token)
  {
    var u := token[..n];
    var t := RunEnd(token, 0, false);
    RunEndPrefix(token, n, 0, false);
    if t > 0 {
      assert u[..t] == token[..t];
      IdGroupPrefix(token, n, t);
      ClassGroupPrefix(token, n, IdGroupEnd(token, t));
    }
  }

  /** Cutting the token at or after the end of the `#id` group leaves that group as it was. */
  lemma IdGroupPrefix(token: string, n: nat, t: nat)
    requires t <= n <= |token| && IdGroupEnd(token, t) <= n
    ensures IdGroupEnd(token[..n], t) == IdGroupEnd(token, t)
    ensures IdGroup(token[..n], t) == IdGroup(token, t)
  {
    var p := IdGroupEnd(token, t);
    if p > t {
      RunEndPrefix(token, n, t + 1, false);
      assert token[..n][t + 1..p] == token[t + 1..p];
    }
  }

  /** Cutting the token at or after the end of the class group leaves that group as it was. */
  lemma ClassGroupPrefix(token: string, n: nat, p: nat)
    requires p <= n <= |token|
    requires p < |token| && token[p] == '.' ==> RunEnd(token, p + 1, true) <= n
    ensures ClassGroup(token[..n], p) == ClassGroup(token, p)
  {
    if p < |token| && token[p] == '.' {
      RunEndPrefix(token, n, p + 1, true);
      var e := RunEnd(token, p + 1, true);
      assert token[..n][p..e] == token[p..e];
    }
  }

  /**
   * A matched token gives a well-formed element whose tag is the longest
   * leading run of name characters, and which has an id exactly when `#`
   * follows that run.
   */
  lemma ParseTokenGroups(token: string)
    requires ParseToken(token).Some?
    ensures var e := ParseToken(token).value;
      && WellFormed(e)
      && |e.tag| <= |token| && token[..|e.tag|] == e.tag
      && (|e.tag| == |token| || !IsNameChar(token[|e.tag|]))
      && (e.id.None? <==> |e.tag| == |token| || token[|e.tag|] != '#')
  {
    var t := RunEnd(token, 0, false);
    var e := ParseToken(token).value;
    assert e.tag == token[..t];
    assert IsName(e.tag);
    forall i | 0 <= i < |e.classes| ensures IsName(e.classes[i]) {
      assert e.classes[i] in Elems(e.classes);
    }
  }

  /**
   * Parses every token in turn; the first token the pattern does not match is
   * the error (Python raises `AttributeError` on `None.group`).
   */
  function ParseTokens(tokens: seq<string>): (r: Result<seq<DomElement>, string>)
    ensures r.Success? ==>
      && |r.value| == |tokens|
      && forall j :: 0 <= j < |tokens| ==> Some(r.value[j]) == ParseToken(tokens[j])
    ensures r.Failure? ==> exists k :: FirstFailure(tokens, k) && r.error == tokens[k]
  {
    if tokens == [] then Success([])
    else
      match ParseToken(tokens[0])
      case None =>
        assert FirstFailure(tokens, 0);
        Failure(tokens[0])
      case Some(e) =>
        match ParseTokens(tokens[1..])
        case Failure(bad) =>
          FailureAfterMatch(tokens, bad);
          Failure(bad)
        case Success(es) =>
          SuccessAfterMatch(tokens, e, es, ParseToken);
          Success([e] + es)
  }

  /** A failure in the rest of the line, after a first token that matches, is the line's first failure. */
  lemma FailureAfterMatch(tokens: seq<string>, bad: string)
    requires tokens != [] && ParseToken(tokens[0]).Some?
    requires exists k :: FirstFailure(tokens[1..], k) && bad == tokens[1..][k]
    ensures exists k :: FirstFailure(tokens, k) && bad == tokens[k]
  {
    var k :| FirstFailure(tokens[1..], k) && bad == tokens[1..][k];
    assert FirstFailure(tokens, k + 1);
  }

  /** The parse of the first token, followed by the parses of the rest, parses the line. */
  lemma SuccessAfterMatch<A, B>(tokens: seq<A>, e: B, es: seq<B>, parse: A -> Option<B>)
    requires tokens != [] && parse(tokens[0]) == Some(e)
    requires |es| == |tokens| - 1 && forall j :: 0 <= j < |es| ==> Some(es[j]) == parse(tokens[1..][j])
    ensures |[e] + es| == |tokens| && forall j :: 0 <= j < |tokens| ==> Some(([e] + es)[j]) == parse(tokens[j])
  {
    forall j | 0 <= j < |tokens| ensures Some(([e] + es)[j]) == parse(tokens[j]) {
      if j > 0 {
        assert tokens[j] == tokens[1..][j - 1];
      }
    }
  }

  /** `k` is the first token the pattern does not match. */
  ghost predicate FirstFailure(tokens: seq<string>, k: int) {
    && 0 <= k < |tokens| && ParseToken(tokens[k]).None?
    && forall j :: 0 <= j < k ==> ParseToken(tokens[j]).Some?
  }

  /** The line parses exactly when every token matches the pattern. */
  lemma ParseTokensSucceeds(tokens: seq<string>)
    ensures ParseTokens(tokens).Success? <==> forall j :: 0 <= j < |tokens| ==> ParseToken(tokens[j]).Some?
  {
    var r := ParseTokens(tokens);
    if r.Failure? {
      var k :| FirstFailure(tokens, k) && r.error == tokens[k];
      assert ParseToken(tokens[k]).None?;
    }
  }

  lemma FirstFailureUnique(tokens: seq<string>, i: int)
    requires FirstFailure(tokens, i)
    ensures ParseTokens(tokens) == Failure(tokens[i])
  {
    assert ParseTokens(tokens).Failure?;
    var k :| FirstFailure(tokens, k) && ParseTokens(tokens).error == tokens[k];
    assert ParseToken(tokens[k]).None? && ParseToken(tokens[i]).None?;
    assert k == i;
  }

  /** `parse_dom`: split on single spaces, then parse each token, appending to the list. */
  method ParseDom(domString: string) returns (r: Result<seq<DomElement>, string>)
    ensures r == ParseTokens(Split(domString, ' '))
  {
    var tokens := Split(domString, ' ');
    var dom: seq<DomElement> := [];
    for i := 0 to |tokens|
      invariant |dom| == i
      invariant forall j :: 0 <= j < i ==> Some(dom[j]) == ParseToken(tokens[j])
    {
      var m := ParseToken(tokens[i]);
      if m.None? {
        assert FirstFailure(tokens, i);
        FirstFailureUnique(tokens, i);
        return Failure(tokens[i]);
      }
      dom := dom + [m.value];
    }
    AllParsed(tokens, dom);
    r := Success(dom);
  }

  /** When every token matches, the parsed list is the elements of the matches. */
  lemma AllParsed(tokens: seq<string>, dom: seq<DomElement>)
    requires |dom| == |tokens| && forall j :: 0 <= j < |tokens| ==> Some(dom[j]) == ParseToken(tokens[j])
    ensures ParseTokens(tokens) == Success(dom)
  {
    ParseTokensSucceeds(tokens);
    var r := ParseTokens(tokens);
    assert r.value == dom;
  }

  /** The class suffix is the class names joined by dots after an empty first piece. */
  lemma {:induction false} ClassSuffixIsJoin(classes: seq<string>)
    requires classes != []
    ensures ClassSuffix(classes) == "." + Join(classes, ".")
  {
    if |classes| > 1 {
      ClassSuffixIsJoin(classes[1..]);
    }
  }

  lemma NameHasNoDot(name: string)
    requires IsName(name)
    ensures '.' !in name
  {
  }

  /** Splitting a class suffix on dots gives an empty piece, then the class names. */
  lemma SplitClassSuffix(classes: seq<string>)
    requires classes != []
    requires forall i :: 0 <= i < |classes| ==> IsName(classes[i])
    ensures Split(ClassSuffix(classes), '.') == [""] + classes
  {
    ClassSuffixIsJoin(classes);
    var pieces := [""] + classes;
    JoinAfterEmpty(classes, ".");
    forall i | 0 <= i < |pieces| ensures '.' !in pieces[i] {
      if i > 0 {
        NameHasNoDot(classes[i - 1]);
      }
    }
    SplitJoin(pieces, '.');
  }

  /** The tag group of a token whose name is followed by a `#` part, a `.` part, either or neither. */
  lemma ScanTag(tag: string, idPart: string, suffix: string)
    requires IsName(tag) && |tag| > 0
    requires idPart == [] || idPart[0] == '#'
    requires suffix == [] || suffix[0] == '.'
    ensures var s := tag + idPart + suffix;
      RunEnd(s, 0, false) == |tag| && s[..|tag|] == tag
  {
    var s := tag + idPart + suffix;
    assert forall k :: 0 <= k < |tag| ==> s[k] == tag[k];
    assert |tag| < |s| ==> s[|tag|] == '#' || s[|tag|] == '.';
    RunEndAt(s, 0, |tag|, false);
    assert s[..|tag|] == tag;
  }

  /** The id group when `#name` follows the tag and `.` or nothing follows the name. */
  lemma ScanId(prefix: string, idPart: string, name: string, rest: string)
    requires idPart == "#" + name && IsName(name)
    requires rest == [] || rest[0] == '.'
    ensures var s := prefix + idPart + rest;
      IdGroup(s, |prefix|) == Some(name) && IdGroupEnd(s, |prefix|) == |prefix| + |idPart|
  {
    var s := prefix + idPart + rest;
    var t, p := |prefix|, |prefix| + |idPart|;
    assert s[t] == '#';
    assert forall k :: t + 1 <= k < p ==> s[k] == name[k - t - 1];
    assert p < |s| ==> s[p] == '.';
    RunEndAt(s, t + 1, p, false);
    assert s[t + 1..p] == name;
  }

  /** No id group when `.` or nothing follows the tag. */
  lemma ScanNoId(prefix: string, idPart: string, rest: string)
    requires idPart == []
    requires rest == [] || rest[0] == '.'
    ensures var s := prefix + idPart + rest;
      IdGroup(s, |prefix|) == None && IdGroupEnd(s, |prefix|) == |prefix|
  {
    var s := prefix + idPart + rest;
    if rest != [] {
      assert s[|prefix|] == '.';
    }
  }

  /** A run of class-group characters after the first character of `rest` reaches the end of `prefix + rest`. */
  lemma RunToEnd(prefix: string, rest: string)
    requires |rest| > 0
    requires forall k :: 1 <= k < |rest| ==> InGroup(rest[k], true)
    ensures var s := prefix + rest;
      s[|prefix|] == rest[0] && RunEnd(s, |prefix| + 1, true) == |s| && s[|prefix|..|s|] == rest
  {
    var s := prefix + rest;
    var p := |prefix|;
    assert forall k :: p + 1 <= k < |s| ==> s[k] == rest[k - p];
    RunEndAt(s, p + 1, |s|, true);
    assert s[p..|s|] == rest;
  }

  /** The class group of a token that ends in a class suffix. */
  lemma ScanClasses(prefix: string, classes: seq<string>)
    requires forall i :: 0 <= i < |classes| ==> IsName(classes[i])
    ensures ClassGroup(prefix + ClassSuffix(classes), |prefix|) == classes
  {
    var suffix := ClassSuffix(classes);
    ClassSuffixChars(classes);
    if classes == [] {
      assert prefix + suffix == prefix;
    } else {
      RunToEnd(prefix, suffix);
      SplitClassSuffix(classes);
    }
  }

  /** `ParseToken` on a tag, an optional `#id` and a class suffix written one after another. */
  lemma ParseParts(tag: string, id: Option<string>, classes: seq<string>)
    requires IsName(tag) && |tag| > 0 && (id.Some? ==> IsName(id.value))
    requires forall i :: 0 <= i < |classes| ==> IsName(classes[i])
    ensures var idPart := if id.Some? then "#" + id.value else "";
      ParseToken(tag + idPart + ClassSuffix(classes)) == Some(NewElement(tag, id, classes))
  {
    var idPart := if id.Some? then "#" + id.value else "";
    var suffix := ClassSuffix(classes);
    var token := tag + idPart + suffix;
    ClassSuffixChars(classes);
    ScanTag(tag, idPart, suffix);
    if id.Some? {
      ScanId(tag, idPart, id.value, suffix);
    } else {
      ScanNoId(tag, idPart, suffix);
    }
    ScanClasses(tag + idPart, classes);
  }

  /**
   * Parsing the rendering of a well-formed element gives the element back,
   * except that an empty id comes back as no id.
   */
  lemma ParseRender(e: DomElement)
    requires WellFormed(e)
    ensures ParseToken(Render(e)) == Some(Normalize(e))
  {
    var id := Normalize(e).id;
    ParseParts(e.tag, id, e.classes);
    assert Render(e) == e.tag + (if id.Some? then "#" + id.value else "") + ClassSuffix(e.classes);
    NormalizeIsNew(e);
  }

  /** A well-formed element, normalized, is the element built from its parts. */
  lemma NormalizeIsNew(e: DomElement)
    requires WellFormed(e)
    ensures Normalize(e) == NewElement(e.tag, Normalize(e).id, e.classes)
  {
  }

  /**
   * Two well-formed elements render the same exactly when they have the same
   * tag, the same truthy id (or both none) and the same classes in the same
   * order.
   */
  lemma RenderMatch(a: DomElement, b: DomElement)
    requires WellFormed(a) && WellFormed(b)
    ensures Render(a) == Render(b) <==> Normalize(a) == Normalize(b)
  {
    ParseRender(a);
    ParseRender(b);
    if Normalize(a) == Normalize(b) {
      RenderNormalize(a);
      RenderNormalize(b);
    }
  }

  /**
   * Rendering a non-empty list of well-formed elements with single spaces
   * between them and parsing the line gives the elements back, empty ids as
   * no id.
   */
  lemma ParseRenderedLine(es: seq<DomElement>)
    requires |es| >= 1 && AllWellFormed(es)
    ensures ParseTokens(Split(Join(Renders(es), " "), ' ')) ==
            Success(seq(|es|, i requires 0 <= i < |es| => Normalize(es[i])))
  {
    var tokens := Renders(es);
    SplitRenderedLine(es);
    forall j | 0 <= j < |tokens| ensures ParseToken(tokens[j]) == Some(Normalize(es[j])) {
      ParseRender(es[j]);
    }
    ParseTokensSucceeds(tokens);
    var r := ParseTokens(tokens);
    assert r.value == seq(|es|, i requires 0 <= i < |es| => Normalize(es[i]));
  }

  /** Splitting a space-joined line of well-formed renderings on spaces gives the renderings back. */
  lemma SplitRenderedLine(es: seq<DomElement>)
    requires |es| >= 1 && AllWellFormed(es)
    ensures Split(Join(Renders(es), " "), ' ') == Renders(es)
  {
    var tokens := Renders(es);
    forall i | 0 <= i < |tokens| ensures ' ' !in tokens[i] {
      RenderChars(es[i]);
    }
    SplitJoin(tokens, ' ');
  }
}
