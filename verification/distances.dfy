/**
 * `shortest_distance`: the cost of editing one list of elements into another.
 * The search walks both lists to the first position whose renderings
 * differ. There it tries altering the element into the target's, deleting
 * it, and inserting a copy of the target's element, and keeps the cheapest.
 * When one list runs out first, the rest of the original is deleted or the
 * rest of the target added.
 */
module Distances {
  import opened Dom
  import opened Costs

  /** The length of the longest common prefix of the two lists, comparing renderings. */
  function MatchedPrefix(o: seq<DomElement>, t: seq<DomElement>): (k: nat)
    ensures k <= |o| && k <= |t|
    ensures forall j :: 0 <= j < k ==> Render(o[j]) == Render(t[j])
    ensures k < |o| && k < |t| ==> Render(o[k]) != Render(t[k])
  {
    if o == [] || t == [] || Render(o[0]) != Render(t[0]) then 0
    else 1 + MatchedPrefix(o[1..], t[1..])
  }

  /** A common prefix of length `n` means the longest one is at least `n` long. */
  lemma MatchedAtLeast(o: seq<DomElement>, t: seq<DomElement>, n: nat)
    requires n <= |o| && n <= |t|
    requires forall j :: 0 <= j < n ==> Render(o[j]) == Render(t[j])
    ensures MatchedPrefix(o, t) >= n
  {
  }

  /** Python's `min` of a non-empty list. */
  function Minimum(xs: seq<int>): (m: int)
    requires |xs| > 0
    ensures m in xs
    ensures forall j :: 0 <= j < |xs| ==> m <= xs[j]
  {
    if |xs| == 1 then xs[0]
    else
      var rest := Minimum(xs[1..]);
      assert forall j :: 1 <= j < |xs| ==> xs[j] == xs[1..][j - 1];
      if xs[0] <= rest then xs[0] else rest
  }

  /** The least of three costs. */
  function Min3(a: nat, b: nat, c: nat): (m: nat)
    ensures m <= a && m <= b && m <= c
    ensures m == a || m == b || m == c
  {
    if a <= b && a <= c then a else if b <= c then b else c
  }

  /** `min` of the list the search builds by three appends is the least of the three. */
  lemma MinimumOfThree(xs: seq<int>, a: nat, b: nat, c: nat)
    requires xs == [] + [a] + [b] + [c]
    ensures Minimum(xs) == Min3(a, b, c)
  {
    assert xs == [a, b, c];
    assert xs[1..][1..] == [c];
  }

  /** `original` with position `i` replaced by `e`. */
  function Replace(o: seq<DomElement>, i: nat, e: DomElement): (r: seq<DomElement>)
    requires i < |o|
    ensures |r| == |o| && r[i] == e
    ensures forall j :: 0 <= j < |o| && j != i ==> r[j] == o[j]
  {
    o[..i] + [e] + o[i + 1..]
  }

  /** `original` with position `i` removed. */
  function Delete(o: seq<DomElement>, i: nat): (r: seq<DomElement>)
    requires i < |o|
    ensures |r| == |o| - 1
    ensures forall j :: 0 <= j < i ==> r[j] == o[j]
    ensures forall j :: i <= j < |r| ==> r[j] == o[j + 1]
  {
    o[..i] + o[i + 1..]
  }

  /** `original` with `e` inserted before position `i`. */
  function Insert(o: seq<DomElement>, i: nat, e: DomElement): (r: seq<DomElement>)
    requires i <= |o|
    ensures |r| == |o| + 1 && r[i] == e
    ensures forall j :: 0 <= j < i ==> r[j] == o[j]
    ensures forall j :: i < j < |r| ==> r[j] == o[j - 1]
  {
    o[..i] + [e] + o[i..]
  }

  /**
   * Replacing or inserting at the first mismatch a copy of the target's
   * element there lengthens the matched prefix; deleting there keeps it.
   */
  lemma EditsProgress(o: seq<DomElement>, t: seq<DomElement>, i: nat)
    requires i < |o| && i < |t| && MatchedPrefix(o, t) == i
    ensures MatchedPrefix(Replace(o, i, Copy(t[i])), t) > i
    ensures MatchedPrefix(Insert(o, i, Copy(t[i])), t) > i
    ensures MatchedPrefix(Delete(o, i), t) >= i
  {
    ReplaceProgress(o, t, i);
    InsertProgress(o, t, i);
    DeleteProgress(o, t, i);
  }

  lemma ReplaceProgress(o: seq<DomElement>, t: seq<DomElement>, i: nat)
    requires i < |o| && i < |t|
    requires forall j :: 0 <= j < i ==> Render(o[j]) == Render(t[j])
    ensures Replace(o, i, Copy(t[i])) == Insert(Delete(o, i), i, Copy(t[i]))
    ensures MatchedPrefix(Replace(o, i, Copy(t[i])), t) > i
  {
    var r := Replace(o, i, Copy(t[i]));
    var d := Delete(o, i);
    assert d[..i] == o[..i] && d[i..] == o[i + 1..];
    assert r == Insert(d, i, Copy(t[i]));
    DeleteProgress(o, t, i);
    InsertProgress(d, t, i);
  }

  lemma InsertProgress(o: seq<DomElement>, t: seq<DomElement>, i: nat)
    requires i <= |o| && i < |t|
    requires forall j :: 0 <= j < i ==> Render(o[j]) == Render(t[j])
    ensures MatchedPrefix(Insert(o, i, Copy(t[i])), t) > i
  {
    var a := Insert(o, i, Copy(t[i]));
    forall j | 0 <= j <= i ensures Render(a[j]) == Render(t[j]) {
      if j < i {
        assert a[j] == o[j];
      } else {
        assert a[j] == t[i];
      }
    }
    MatchedAtLeast(a, t, i + 1);
  }

  lemma DeleteProgress(o: seq<DomElement>, t: seq<DomElement>, i: nat)
    requires i < |o| && i <= |t|
    requires forall j :: 0 <= j < i ==> Render(o[j]) == Render(t[j])
    ensures MatchedPrefix(Delete(o, i), t) >= i
  {
    var d := Delete(o, i);
    forall j | 0 <= j < i ensures Render(d[j]) == Render(t[j]) {
      assert d[j] == o[j];
    }
    MatchedAtLeast(d, t, i);
  }

  /**
   * The value `shortest_distance(o, t)` returns. Each recursive call either
   * lengthens the matched prefix or keeps it and shortens the original.
   * When the lists have the same length and every rendering matches, the
   * Python code falls off the end of its loop; `NoFallThrough` shows the base
   * case has already answered then, and the value here is `|o| - |t|`, which
   * is 0.
   */
  function Distance(o: seq<DomElement>, t: seq<DomElement>): nat
    decreases |t| - MatchedPrefix(o, t), |o|, 2
  {
    if ListStr(o) == ListStr(t) then 0
    else
      var i := MatchedPrefix(o, t);
      if i < |o| && i < |t| then CheapestEdit(o, t, i)
      else if i == |t| then |o| - |t|
      else AddCostSum(t[i..])
  }

  /** At the first mismatch `i`: the cheapest of the three candidates, `min(distances)`. */
  function CheapestEdit(o: seq<DomElement>, t: seq<DomElement>, i: nat): nat
    requires i == MatchedPrefix(o, t) && i < |o| && i < |t|
    decreases |t| - MatchedPrefix(o, t), |o|, 1
  {
    Min3(AlterCandidate(o, t, i), DeleteCandidate(o, t, i), AddCandidate(o, t, i))
  }

  /** Alter `o[i]` into a copy of `t[i]`, then search on. */
  function AlterCandidate(o: seq<DomElement>, t: seq<DomElement>, i: nat): nat
    requires i == MatchedPrefix(o, t) && i < |o| && i < |t|
    decreases |t| - MatchedPrefix(o, t), |o|, 0
  {
    EditsProgress(o, t, i);
    Distance(Replace(o, i, Copy(t[i])), t) + AlterCost(o[i], t[i])
  }

  /** Delete `o[i]`, then search on. */
  function DeleteCandidate(o: seq<DomElement>, t: seq<DomElement>, i: nat): nat
    requires i == MatchedPrefix(o, t) && i < |o| && i < |t|
    decreases |t| - MatchedPrefix(o, t), |o|, 0
  {
    EditsProgress(o, t, i);
    Distance(Delete(o, i), t) + DeleteCost
  }

  /** Insert a copy of `t[i]` before `o[i]`, then search on. */
  function AddCandidate(o: seq<DomElement>, t: seq<DomElement>, i: nat): nat
    requires i == MatchedPrefix(o, t) && i < |o| && i < |t|
    decreases |t| - MatchedPrefix(o, t), |o|, 0
  {
    EditsProgress(o, t, i);
    Distance(Insert(o, i, Copy(t[i])), t) + AddCost(t[i])
  }

  /** The mismatch case of `Distance`. */
  lemma DistanceIsCheapest(o: seq<DomElement>, t: seq<DomElement>)
    requires ListStr(o) != ListStr(t)
    requires MatchedPrefix(o, t) < |o| && MatchedPrefix(o, t) < |t|
    ensures Distance(o, t) == CheapestEdit(o, t, MatchedPrefix(o, t))
  {
  }

  /** `CheapestEdit` in terms of the three distances from the edited lists and the two costs. */
  lemma CheapestEditOf(o: seq<DomElement>, t: seq<DomElement>, i: nat,
                       altered: nat, deleted: nat, added: nat, alterCost: nat, addCost: nat)
    requires i == MatchedPrefix(o, t) && i < |o| && i < |t|
    requires altered == Distance(Replace(o, i, Copy(t[i])), t)
    requires deleted == Distance(Delete(o, i), t)
    requires added == Distance(Insert(o, i, Copy(t[i])), t)
    requires alterCost == AlterCost(o[i], t[i]) && addCost == AddCost(t[i])
    ensures CheapestEdit(o, t, i) == Min3(altered + alterCost, deleted + DeleteCost, added + addCost)
  {
    assert AlterCandidate(o, t, i) == altered + alterCost;
    assert DeleteCandidate(o, t, i) == deleted + DeleteCost;
    assert AddCandidate(o, t, i) == added + addCost;
  }

  /**
   * Two lists of the same length whose renderings match everywhere print
   * the same, so the loop never runs off its end.
   */
  lemma NoFallThrough(o: seq<DomElement>, t: seq<DomElement>)
    requires |o| == |t| && MatchedPrefix(o, t) == |o|
    ensures ListStr(o) == ListStr(t)
  {
    assert Renders(o) == Renders(t);
  }

  /** `shortest_distance`, the loop over positions with its early returns. */
  method ShortestDistance(original: seq<DomElement>, target: seq<DomElement>) returns (d: int)
    ensures d == Distance(original, target)
    decreases |target| - MatchedPrefix(original, target), |original|, 2
  {
    if ListStr(original) == ListStr(target) {
      return 0;
    }
    var oLen, tLen := |original|, |target|;
    var n := if oLen < tLen then tLen else oLen;
    for i := 0 to n
      invariant i <= oLen && i <= tLen
      invariant forall j :: 0 <= j < i ==> Render(original[j]) == Render(target[j])
    {
      if oLen != tLen && (i == oLen || i == tLen) {
        MatchedAtLeast(original, target, i);
        if i == tLen {
          return oLen - tLen;
        }
        d := AddAll(target, i);
        return;
      } else if Render(original[i]) == Render(target[i]) {
        continue;
      } else {
        MatchedAtLeast(original, target, i);
        d := CheapestEditAt(original, target, i);
        return;
      }
    }
    MatchedAtLeast(original, target, n);
    NoFallThrough(original, target);
    assert false;
  }

  /** The loop that adds up the cost of adding every target element from `i` on. */
  method AddAll(target: seq<DomElement>, i: nat) returns (cost: nat)
    requires i <= |target|
    ensures cost == AddCostSum(target[i..])
  {
    cost := 0;
    for j := i to |target|
      invariant cost == AddCostSum(target[i..j])
    {
      assert target[i..j + 1][..j - i] == target[i..j];
      cost := cost + AddCost(target[j]);
    }
    assert target[i..|target|] == target[i..];
  }

  /**
   * The body of the loop at the first mismatch `i`: the three candidates,
   * each appended to `distances`, and the cheapest of the three.
   */
  method CheapestEditAt(original: seq<DomElement>, target: seq<DomElement>, i: nat) returns (d: int)
    requires ListStr(original) != ListStr(target)
    requires i == MatchedPrefix(original, target) && i < |original| && i < |target|
    ensures d == Distance(original, target)
    decreases |target| - MatchedPrefix(original, target), |original|, 1
  {
    var distances: seq<int> := [];
    var alter := AlterAt(original, target, i);
    distances := distances + [alter];
    var delete := DeleteAt(original, target, i);
    distances := distances + [delete];
    var add := AddAt(original, target, i);
    distances := distances + [add];
    MinimumOfThree(distances, alter, delete, add);
    DistanceIsCheapest(original, target);
    return Minimum(distances);
  }

  /** The alteration: its cost plus the search from the original with `t[i]` copied in place of `o[i]`. */
  method AlterAt(original: seq<DomElement>, target: seq<DomElement>, i: nat) returns (c: int)
    requires i == MatchedPrefix(original, target) && i < |original| && i < |target|
    ensures c == AlterCandidate(original, target, i)
    decreases |target| - MatchedPrefix(original, target), |original|, 0
  {
    EditsProgress(original, target, i);
    var alterCost := AlterCost(original[i], target[i]);
    var alteredDom := Replace(original, i, Copy(target[i]));
    var altered := ShortestDistance(alteredDom, target);
    c := altered + alterCost;
  }

  /** The deletion: 1 plus the search from the original without `o[i]`. */
  method DeleteAt(original: seq<DomElement>, target: seq<DomElement>, i: nat) returns (c: int)
    requires i == MatchedPrefix(original, target) && i < |original| && i < |target|
    ensures c == DeleteCandidate(original, target, i)
    decreases |target| - MatchedPrefix(original, target), |original|, 0
  {
    EditsProgress(original, target, i);
    var deletedDom := Delete(original, i);
    var deleted := ShortestDistance(deletedDom, target);
    c := deleted + DeleteCost;
  }

  /** The addition: the cost of `t[i]` plus the search from the original with a copy of `t[i]` inserted before `o[i]`. */
  method AddAt(original: seq<DomElement>, target: seq<DomElement>, i: nat) returns (c: int)
    requires i == MatchedPrefix(original, target) && i < |original| && i < |target|
    ensures c == AddCandidate(original, target, i)
    decreases |target| - MatchedPrefix(original, target), |original|, 0
  {
    EditsProgress(original, target, i);
    var addCost := AddCost(target[i]);
    var addedDom := Insert(original, i, Copy(target[i]));
    var added := ShortestDistance(addedDom, target);
    c := added + addCost;
  }

  /**
   * When one list is a rendering-for-rendering prefix of the other, the
   * distance is the number of extra original elements to delete, or the
   * cost of adding the extra target elements.
   */
  lemma DistanceTail(o: seq<DomElement>, t: seq<DomElement>)
    requires AllWellFormed(o) && AllWellFormed(t)
    requires MatchedPrefix(o, t) == |o| || MatchedPrefix(o, t) == |t|
    ensures |o| >= |t| ==> Distance(o, t) == |o| - |t|
    ensures |o| < |t| ==> Distance(o, t) == AddCostSum(t[|o|..])
  {
    if |o| == |t| {
      NoFallThrough(o, t);
    } else {
      ListStrMatch(o, t);
      assert |Renders(o)| != |Renders(t)|;
    }
  }

  /** Editing a list into the empty list deletes every element. */
  lemma DistanceToEmpty(o: seq<DomElement>)
    requires AllWellFormed(o)
    ensures Distance(o, []) == |o|
  {
    DistanceTail(o, []);
  }

  /** Editing the empty list into a list adds every element. */
  lemma DistanceFromEmpty(t: seq<DomElement>)
    requires AllWellFormed(t)
    ensures Distance([], t) == AddCostSum(t)
  {
    DistanceTail([], t);
    assert t[0..] == t;
  }

  /**
   * At the first position `i` whose renderings differ, the distance is one
   * of the three candidates and no more than any of them.
   */
  lemma DistanceMismatch(o: seq<DomElement>, t: seq<DomElement>, i: nat)
    requires AllWellFormed(o) && AllWellFormed(t)
    requires i < |o| && i < |t| && Render(o[i]) != Render(t[i])
    requires forall j :: 0 <= j < i ==> Render(o[j]) == Render(t[j])
    ensures var alter := Distance(Replace(o, i, Copy(t[i])), t) + AlterCost(o[i], t[i]);
      var delete := Distance(Delete(o, i), t) + 1;
      var add := Distance(Insert(o, i, Copy(t[i])), t) + AddCost(t[i]);
      var r := Distance(o, t);
      && r <= alter && r <= delete && r <= add
      && (r == alter || r == delete || r == add)
  {
    MatchedAtLeast(o, t, i);
    ListStrMatch(o, t);
    assert Renders(o)[i] != Renders(t)[i];
    assert ListStr(o) != ListStr(t);
    DistanceIsCheapest(o, t);
    CheapestEditOf(o, t, i,
      Distance(Replace(o, i, Copy(t[i])), t), Distance(Delete(o, i), t), Distance(Insert(o, i, Copy(t[i])), t),
      AlterCost(o[i], t[i]), AddCost(t[i]));
  }

  /**
   * Deleting everything after the matched prefix and adding the rest of the
   * target is always possible, so it bounds the distance.
   */
  lemma {:induction false} DistanceUpperBound(o: seq<DomElement>, t: seq<DomElement>)
    ensures var k := MatchedPrefix(o, t);
      Distance(o, t) <= |o| - k + AddCostSum(t[k..])
    decreases |t| - MatchedPrefix(o, t), |o|
  {
    var i := MatchedPrefix(o, t);
    if ListStr(o) == ListStr(t) {
      assert Distance(o, t) == 0;
    } else if i < |o| && i < |t| {
      EditsProgress(o, t, i);
      var deleted := Delete(o, i);
      DistanceUpperBound(deleted, t);
      var k := MatchedPrefix(deleted, t);
      AddCostSumSuffix(t, i, k);
      DistanceIsCheapest(o, t);
      CheapestEditAtMost(o, t, i);
    } else if i == |t| {
      assert Distance(o, t) == |o| - |t|;
    } else {
      assert Distance(o, t) == AddCostSum(t[i..]);
    }
  }

  /** Editing never costs more than deleting the whole original and adding the whole target. */
  lemma DistanceAtMost(o: seq<DomElement>, t: seq<DomElement>)
    ensures Distance(o, t) <= |o| + AddCostSum(t)
  {
    DistanceUpperBound(o, t);
    var k := MatchedPrefix(o, t);
    AddCostSumSuffix(t, 0, k);
    assert t[0..] == t;
  }

  lemma EditsWellFormed(o: seq<DomElement>, t: seq<DomElement>, i: nat)
    requires AllWellFormed(o) && AllWellFormed(t) && i < |o| && i < |t|
    ensures AllWellFormed(Replace(o, i, Copy(t[i])))
    ensures AllWellFormed(Delete(o, i))
    ensures AllWellFormed(Insert(o, i, Copy(t[i])))
  {
    var r, d, a := Replace(o, i, Copy(t[i])), Delete(o, i), Insert(o, i, Copy(t[i]));
    assert forall j :: 0 <= j < |r| ==> r[j] == (if j == i then t[i] else o[j]);
    assert forall j :: 0 <= j < |d| ==> d[j] == (if j < i then o[j] else o[j + 1]);
    assert forall j :: 0 <= j < |a| ==> a[j] == (if j < i then o[j] else if j == i then t[i] else o[j - 1]);
  }

  /**
   * Each deletion costs 1 and each addition at least 1, and altering keeps
   * the length, so the distance is at least the difference in length.
   */
  lemma {:induction false} DistanceLowerBound(o: seq<DomElement>, t: seq<DomElement>)
    requires AllWellFormed(o) && AllWellFormed(t)
    ensures Distance(o, t) >= |o| - |t| && Distance(o, t) >= |t| - |o|
    decreases |t| - MatchedPrefix(o, t), |o|
  {
    var i := MatchedPrefix(o, t);
    if ListStr(o) == ListStr(t) {
      ListStrMatch(o, t);
      assert |Renders(o)| == |Renders(t)|;
    } else if i < |o| && i < |t| {
      EditsProgress(o, t, i);
      EditsWellFormed(o, t, i);
      DistanceLowerBound(Replace(o, i, Copy(t[i])), t);
      DistanceLowerBound(Delete(o, i), t);
      DistanceLowerBound(Insert(o, i, Copy(t[i])), t);
      MismatchLowerBound(o, t, i);
    } else {
      DistanceTail(o, t);
    }
  }

  /** The step of `DistanceLowerBound` at a mismatch, from the bounds for the three edited lists. */
  lemma MismatchLowerBound(o: seq<DomElement>, t: seq<DomElement>, i: nat)
    requires ListStr(o) != ListStr(t) && i == MatchedPrefix(o, t) && i < |o| && i < |t|
    requires var r := Distance(Replace(o, i, Copy(t[i])), t); r >= |o| - |t| && r >= |t| - |o|
    requires var r := Distance(Delete(o, i), t); r >= |o| - 1 - |t| && r >= |t| - |o| + 1
    requires var r := Distance(Insert(o, i, Copy(t[i])), t); r >= |o| + 1 - |t| && r >= |t| - |o| - 1
    ensures Distance(o, t) >= |o| - |t| && Distance(o, t) >= |t| - |o|
  {
    DistanceIsCheapest(o, t);
    CheapestEditOf(o, t, i,
      Distance(Replace(o, i, Copy(t[i])), t), Distance(Delete(o, i), t), Distance(Insert(o, i, Copy(t[i])), t),
      AlterCost(o[i], t[i]), AddCost(t[i]));
  }

  /**
   * Two elements the search can line up for free: they render the same, or
   * altering one into the other costs nothing (same tag, same id, the same
   * classes in another order).
   */
  predicate Interchangeable(a: DomElement, b: DomElement) {
    Render(a) == Render(b) || AlterCost(a, b) == 0
  }

  /** The two lists have the same length and are interchangeable position by position. */
  predicate LinedUp(o: seq<DomElement>, t: seq<DomElement>) {
    |o| == |t| && forall j :: 0 <= j < |o| ==> Interchangeable(o[j], t[j])
  }

  /**
   * The distance is zero exactly when the lists have the same length and
   * every pair of elements at the same position is interchangeable.
   */
  lemma DistanceZero(o: seq<DomElement>, t: seq<DomElement>)
    requires AllWellFormed(o) && AllWellFormed(t)
    ensures Distance(o, t) == 0 <==> LinedUp(o, t)
  {
    if Distance(o, t) == 0 {
      DistanceZeroOnlyIf(o, t);
    }
    if LinedUp(o, t) {
      DistanceZeroIf(o, t);
    }
  }

  lemma {:induction false} DistanceZeroOnlyIf(o: seq<DomElement>, t: seq<DomElement>)
    requires AllWellFormed(o) && AllWellFormed(t) && Distance(o, t) == 0
    ensures LinedUp(o, t)
    decreases |t| - MatchedPrefix(o, t), |o|
  {
    var i := MatchedPrefix(o, t);
    if ListStr(o) == ListStr(t) {
      SamePrintInterchangeable(o, t);
    } else if i < |o| && i < |t| {
      EditsProgress(o, t, i);
      EditsWellFormed(o, t, i);
      DistanceIsCheapest(o, t);
      CheapestEditZero(o, t, i);
      DistanceZeroOnlyIf(Replace(o, i, Copy(t[i])), t);
      ReplaceInterchangeable(o, t, i);
    } else if i == |t| {
      assert Distance(o, t) == |o| - |t|;
    } else {
      assert false;
    }
  }

  lemma {:induction false} DistanceZeroIf(o: seq<DomElement>, t: seq<DomElement>)
    requires AllWellFormed(o) && AllWellFormed(t) && LinedUp(o, t)
    ensures Distance(o, t) == 0
    decreases |t| - MatchedPrefix(o, t), |o|
  {
    var i := MatchedPrefix(o, t);
    if ListStr(o) != ListStr(t) {
      if i == |o| {
        NoFallThrough(o, t);
      }
      EditsProgress(o, t, i);
      EditsWellFormed(o, t, i);
      DistanceIsCheapest(o, t);
      assert Interchangeable(o[i], t[i]);
      ReplaceInterchangeable(o, t, i);
      DistanceZeroIf(Replace(o, i, Copy(t[i])), t);
      CheapestEditAtMost(o, t, i);
    }
  }

  /** Lists that print the same line up element by element. */
  lemma SamePrintInterchangeable(o: seq<DomElement>, t: seq<DomElement>)
    requires AllWellFormed(o) && AllWellFormed(t) && ListStr(o) == ListStr(t)
    ensures LinedUp(o, t)
  {
    ListStrMatch(o, t);
    assert |Renders(o)| == |Renders(t)|;
    forall j | 0 <= j < |o| ensures Interchangeable(o[j], t[j]) {
      assert Renders(o)[j] == Renders(t)[j];
    }
  }

  /** A free edit at a mismatch is the alteration, and what follows it is free too. */
  lemma CheapestEditZero(o: seq<DomElement>, t: seq<DomElement>, i: nat)
    requires i == MatchedPrefix(o, t) && i < |o| && i < |t|
    requires CheapestEdit(o, t, i) == 0
    ensures Distance(Replace(o, i, Copy(t[i])), t) == 0 && AlterCost(o[i], t[i]) == 0
  {
  }

  /** Each of the three candidates bounds the cheapest edit. */
  lemma CheapestEditAtMost(o: seq<DomElement>, t: seq<DomElement>, i: nat)
    requires i == MatchedPrefix(o, t) && i < |o| && i < |t|
    ensures CheapestEdit(o, t, i) <= Distance(Replace(o, i, Copy(t[i])), t) + AlterCost(o[i], t[i])
    ensures CheapestEdit(o, t, i) <= Distance(Delete(o, i), t) + DeleteCost
    ensures CheapestEdit(o, t, i) <= Distance(Insert(o, i, Copy(t[i])), t) + AddCost(t[i])
  {
  }

  /**
   * When `o[i]` alters into `t[i]` for free, `o` lines up with `t` exactly
   * when `o` with `t[i]` in place of `o[i]` does.
   */
  lemma ReplaceInterchangeable(o: seq<DomElement>, t: seq<DomElement>, i: nat)
    requires i < |o| && i < |t| && AlterCost(o[i], t[i]) == 0
    ensures LinedUp(o, t) <==> LinedUp(Replace(o, i, Copy(t[i])), t)
  {
    var r := Replace(o, i, Copy(t[i]));
    assert |r| == |o| && r[i] == t[i];
    assert Interchangeable(r[i], t[i]) && Interchangeable(o[i], t[i]);
    if |o| == |t| {
      forall j | 0 <= j < |o|
        ensures Interchangeable(o[j], t[j]) <==> Interchangeable(r[j], t[j])
      {
        if j != i {
          assert r[j] == o[j];
        }
      }
    }
  }
}
