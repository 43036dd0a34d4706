/**
 * `DomElement`: one simplified selector, a tag with an optional id and an
 * insertion-ordered set of class names, and its textual rendering.
 *
 * The element is a value here. Its class set is the key sequence of an
 * `OrderedSet` (see OrderedSets), kept as a sequence of distinct names.
 */
module Dom {
  import opened Wrappers
  import opened Sequences
  import opened OrderedSets
  import opened Text

  /** The iteration order of an element's class set: no name twice. */
  type ClassList = s: seq<string> | Distinct(s)

  datatype DomElement = DomElement(tag: string, id: Option<string>, classes: ClassList)

  /**
   * A character of a tag, id or class name: the class `[0-9a-zA-z-_]` of the
   * selector pattern. The range `A-z` also takes in `[`, `\`, `]`, `^`, `_`
   * and the backtick.
   */
  predicate IsNameChar(c: char) {
    '0' <= c <= '9' || 'a' <= c <= 'z' || 'A' <= c <= 'z' || c == '-' || c == '_'
  }

  predicate IsName(s: string) {
    forall k :: 0 <= k < |s| ==> IsNameChar(s[k])
  }

  /** An element as the selector parser builds it: every name made of name characters, the tag non-empty. */
  predicate WellFormed(e: DomElement) {
    && |e.tag| > 0 && IsName(e.tag)
    && (e.id.Some? ==> IsName(e.id.value))
    && forall i :: 0 <= i < |e.classes| ==> IsName(e.classes[i])
  }

  predicate AllWellFormed(es: seq<DomElement>) {
    forall i :: 0 <= i < |es| ==> WellFormed(es[i])
  }

  /** Python truthiness of an id: `None` and `""` are both false. */
  predicate Truthy(id: Option<string>) {
    id.Some? && id.value != ""
  }

  /**
   * `DomElement(tag, tag_id, classes)`: the classes go through an
   * `OrderedSet`, which keeps the first occurrence of each name.
   */
  function NewElement(tag: string, id: Option<string>, classes: seq<string>): (e: DomElement)
    ensures e.tag == tag && e.id == id
    ensures e.classes == Dedup(classes)
    ensures Elems(e.classes) == Elems(classes)
    ensures Distinct(classes) ==> e.classes == classes
  {
    DedupOfDistinct(classes);
    DomElement(tag, id, Dedup(classes))
  }

  /** `copy`: a new element from the tag, the id and the list of classes. */
  function Copy(e: DomElement): (r: DomElement)
    ensures r == e
  {
    NewElement(e.tag, e.id, e.classes)
  }

  /** `''.join('.' + c for c in classes)`. */
  function ClassSuffix(classes: seq<string>): (s: string)
    ensures s == "" <==> classes == []
    ensures classes != [] ==> s[0] == '.'
  {
    if classes == [] then "" else "." + classes[0] + ClassSuffix(classes[1..])
  }

  /** `str(e)`: the tag, then `#id` when the id is truthy, then `.c` for each class in order. */
  function Render(e: DomElement): (r: string)
    ensures e.tag <= r
    ensures Truthy(e.id) ==> e.tag + "#" + e.id.value <= r
  {
    e.tag + (if Truthy(e.id) then "#" + e.id.value else "") + ClassSuffix(e.classes)
  }

  function Renders(es: seq<DomElement>): (rs: seq<string>)
    ensures |rs| == |es|
  {
    seq(|es|, i requires 0 <= i < |es| => Render(es[i]))
  }

  /** `str(es)` for a Python 2 list: the renderings, comma-separated, in brackets. */
  function ListStr(es: seq<DomElement>): (s: string)
    ensures |s| >= 2 && s[0] == '[' && s[|s| - 1] == ']'
  {
    "[" + Join(Renders(es), ", ") + "]"
  }

  /** The element with a falsy id replaced by no id, which is how it renders. */
  function Normalize(e: DomElement): DomElement {
    if Truthy(e.id) then e else e.(id := None)
  }

  /** An empty id and no id render alike. */
  lemma RenderNormalize(e: DomElement)
    ensures Render(Normalize(e)) == Render(e)
  {
  }

  /** A copy renders like the original. */
  lemma RenderCopy(e: DomElement)
    ensures Render(Copy(e)) == Render(e)
  {
  }

  /** The class suffix of names made of name characters holds only name characters and dots. */
  lemma {:induction false} ClassSuffixChars(classes: seq<string>)
    requires forall i :: 0 <= i < |classes| ==> IsName(classes[i])
    ensures forall k :: 0 <= k < |ClassSuffix(classes)| ==>
      IsNameChar(ClassSuffix(classes)[k]) || ClassSuffix(classes)[k] == '.'
    ensures classes != [] ==> |ClassSuffix(classes)| > 0 && ClassSuffix(classes)[0] == '.'
  {
    if classes != [] {
      ClassSuffixChars(classes[1..]);
      var rest := ClassSuffix(classes[1..]);
      assert ClassSuffix(classes) == ['.'] + classes[0] + rest;
      assert forall k :: 1 <= k < 1 + |classes[0]| ==> ClassSuffix(classes)[k] == classes[0][k - 1];
      assert forall k :: 1 + |classes[0]| <= k < |ClassSuffix(classes)| ==>
        ClassSuffix(classes)[k] == rest[k - 1 - |classes[0]|];
    }
  }

  /**
   * The rendering of a well-formed element is not empty and holds only name
   * characters, `#` and `.`; in particular no comma and no space.
   */
  lemma RenderChars(e: DomElement)
    requires WellFormed(e)
    ensures |Render(e)| > 0
    ensures forall k :: 0 <= k < |Render(e)| ==>
      IsNameChar(Render(e)[k]) || Render(e)[k] == '#' || Render(e)[k] == '.'
  {
    ClassSuffixChars(e.classes);
    var idPart := if Truthy(e.id) then "#" + e.id.value else "";
    var r := Render(e);
    assert r == e.tag + idPart + ClassSuffix(e.classes);
    forall k | 0 <= k < |r|
      ensures IsNameChar(r[k]) || r[k] == '#' || r[k] == '.'
    {
      if k < |e.tag| {
        assert r[k] == e.tag[k];
      } else if k < |e.tag| + |idPart| {
        assert r[k] == idPart[k - |e.tag|];
        if k > |e.tag| {
          assert idPart[k - |e.tag|] == e.id.value[k - |e.tag| - 1];
        }
      } else {
        assert r[k] == ClassSuffix(e.classes)[k - |e.tag| - |idPart|];
      }
    }
  }

  /**
   * Two lists of well-formed elements print the same exactly when they have
   * the same length and their elements render the same, position by position.
   */
  lemma ListStrMatch(a: seq<DomElement>, b: seq<DomElement>)
    requires AllWellFormed(a) && AllWellFormed(b)
    ensures ListStr(a) == ListStr(b) <==> Renders(a) == Renders(b)
  {
    if ListStr(a) == ListStr(b) {
      var ja, jb := Join(Renders(a), ", "), Join(Renders(b), ", ");
      assert ja == ListStr(a)[1..|ListStr(a)| - 1];
      assert jb == ListStr(b)[1..|ListStr(b)| - 1];
      forall i | 0 <= i < |a| ensures ',' !in Renders(a)[i] { RenderChars(a[i]); }
      forall i | 0 <= i < |b| ensures ',' !in Renders(b)[i] { RenderChars(b[i]); }
      if a == [] || b == [] {
        NonEmptyJoin(a);
        NonEmptyJoin(b);
      } else {
        JoinInjective(Renders(a), Renders(b), ", ");
      }
    }
  }

  /** The comma-separated renderings of a non-empty list of well-formed elements are not empty. */
  lemma NonEmptyJoin(es: seq<DomElement>)
    requires AllWellFormed(es)
    ensures es != [] <==> |Join(Renders(es), ", ")| > 0
  {
    if es != [] {
      RenderChars(es[0]);
      var rs := Renders(es);
      if |rs| > 1 {
        assert Join(rs, ", ") == rs[0] + ", " + Join(rs[1..], ", ");
      }
    }
  }
}
