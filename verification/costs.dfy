/**
 * The edit costs `shortest_distance` charges for one element: adding it,
 * deleting it, and altering one element into another.
 */
module Costs {
  import opened Sequences
  import opened Dom

  /** Deleting an element costs 1, whatever it holds. */
  const DeleteCost: nat := 1

  /**
   * The number of `#` and `.` marks in a string: in a rendering, one per
   * rendered id and one per class.
   */
  function Marks(s: string): nat {
    if s == [] then 0 else (if s[0] == '#' || s[0] == '.' then 1 else 0) + Marks(s[1..])
  }

  lemma {:induction false} MarksAppend(a: string, b: string)
    ensures Marks(a + b) == Marks(a) + Marks(b)
  {
    if a == [] {
      assert a + b == b;
    } else {
      assert (a + b)[1..] == a[1..] + b;
      MarksAppend(a[1..], b);
    }
  }

  lemma {:induction false} MarksOfName(s: string)
    requires IsName(s)
    ensures Marks(s) == 0
  {
    if s != [] {
      MarksOfName(s[1..]);
    }
  }

  lemma {:induction false} MarksOfClassSuffix(classes: seq<string>)
    requires forall i :: 0 <= i < |classes| ==> IsName(classes[i])
    ensures Marks(ClassSuffix(classes)) == |classes|
  {
    if classes != [] {
      MarksOfClassSuffix(classes[1..]);
      MarksOfName(classes[0]);
      MarksAppend(classes[0], ClassSuffix(classes[1..]));
      assert ClassSuffix(classes) == ['.'] + (classes[0] + ClassSuffix(classes[1..]));
    }
  }

  /**
   * The cost of adding `e`: 1 for the node, 1 more when its id is truthy,
   * and 1 per class.
   */
  function AddCost(e: DomElement): (c: nat)
    ensures c >= 1
  {
    1 + (if Truthy(e.id) then 1 else 0) + |e.classes|
  }

  /**
   * Adding a well-formed element costs one for its tag and one for each
   * further part its rendering shows: the `#id` and every `.class`.
   */
  lemma AddCostCountsParts(e: DomElement)
    requires WellFormed(e)
    ensures AddCost(e) == 1 + Marks(Render(e))
  {
    var idPart := if Truthy(e.id) then "#" + e.id.value else "";
    assert Render(e) == e.tag + idPart + ClassSuffix(e.classes);
    MarksAppend(e.tag + idPart, ClassSuffix(e.classes));
    MarksAppend(e.tag, idPart);
    MarksOfName(e.tag);
    MarksOfClassSuffix(e.classes);
    if Truthy(e.id) {
      MarksAppend("#", e.id.value);
      MarksOfName(e.id.value);
    }
  }

  /** The cost of adding every element of `es`, the loop at lines 134-139. */
  function AddCostSum(es: seq<DomElement>): (c: nat)
    ensures c >= |es|
  {
    if es == [] then 0 else AddCostSum(es[..|es| - 1]) + AddCost(es[|es| - 1])
  }

  /** Adding two lists one after the other costs the two sums. */
  lemma {:induction false} AddCostSumAppend(a: seq<DomElement>, b: seq<DomElement>)
    ensures AddCostSum(a + b) == AddCostSum(a) + AddCostSum(b)
  {
    if b != [] {
      assert (a + b)[..|a + b| - 1] == a + b[..|b| - 1];
      AddCostSumAppend(a, b[..|b| - 1]);
    } else {
      assert a + b == a;
    }
  }

  /** A later suffix never costs more to add than an earlier one. */
  lemma AddCostSumSuffix(es: seq<DomElement>, i: nat, j: nat)
    requires i <= j <= |es|
    ensures AddCostSum(es[j..]) <= AddCostSum(es[i..])
    ensures AddCostSum(es[i..]) == AddCostSum(es[i..j]) + AddCostSum(es[j..])
  {
    assert es[i..] == es[i..j] + es[j..];
    AddCostSumAppend(es[i..j], es[j..]);
  }

  /**
   * `len(a | b) - len(a & b)` for two class lists: the number of classes in
   * exactly one of them.
   */
  function ClassDifference(a: ClassList, b: ClassList): (c: nat)
    ensures c == |Elems(a) - Elems(b)| + |Elems(b) - Elems(a)|
  {
    UnionParts(Elems(a), Elems(b));
    |Elems(a) + Elems(b)| - |Elems(a) * Elems(b)|
  }

  /** A union is split into what only the first, only the second and both hold. */
  lemma UnionParts<T>(a: set<T>, b: set<T>)
    ensures |a + b| == |a - b| + |b - a| + |a * b|
  {
    assert a + b == (a - b) + (b - a) + (a * b);
    assert (a - b) * (b - a) == {};
    assert ((a - b) + (b - a)) * (a * b) == {};
  }

  /**
   * The cost of altering `o` into `t`: 1 for a different tag; for different
   * ids 1 when either is falsy and 2 otherwise; and, when the class lists
   * differ, the number of classes in only one of them.
   */
  function AlterCost(o: DomElement, t: DomElement): (c: nat)
    ensures o.tag != t.tag || o.id != t.id ==> c > 0
    ensures c <= 3 + ClassDifference(o.classes, t.classes)
  {
    var tagCost := if o.tag != t.tag then 1 else 0;
    var idCost :=
      if o.id == t.id then 0
      else if !Truthy(t.id) || !Truthy(o.id) then 1
      else 2;
    var classCost := if o.classes != t.classes then ClassDifference(o.classes, t.classes) else 0;
    tagCost + idCost + classCost
  }

  /**
   * Altering is free exactly when the tags and ids agree and the classes are
   * the same set, in whatever order.
   */
  lemma AlterCostZero(o: DomElement, t: DomElement)
    ensures AlterCost(o, t) == 0 <==>
      o.tag == t.tag && o.id == t.id && Elems(o.classes) == Elems(t.classes)
  {
    var a, b := Elems(o.classes), Elems(t.classes);
    if a != b {
      if x :| x in a && x !in b {
        assert x in a - b;
      } else {
        var y :| y in b && y !in a;
        assert y in b - a;
      }
    }
  }

  /** Altering `o` into `t` costs what altering `t` into `o` costs. */
  lemma AlterCostSymmetric(o: DomElement, t: DomElement)
    ensures AlterCost(o, t) == AlterCost(t, o)
  {
  }

  /**
   * The class term is the size of the symmetric difference even though it is
   * guarded by an ordered comparison: two lists that differ only in order
   * hold the same classes.
   */
  lemma ClassTermIsDifference(o: DomElement, t: DomElement)
    ensures var c := AlterCost(o, t) - (if o.tag != t.tag then 1 else 0)
      - (if o.id == t.id then 0 else if !Truthy(t.id) || !Truthy(o.id) then 1 else 2);
      c == |Elems(o.classes) - Elems(t.classes)| + |Elems(t.classes) - Elems(o.classes)|
  {
  }

  /** An element altered into itself costs nothing. */
  lemma AlterCostSelf(e: DomElement)
    ensures AlterCost(e, e) == 0
  {
  }
}
