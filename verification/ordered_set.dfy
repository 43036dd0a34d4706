/**
 * The insertion-ordered set of dom_distances.py: a doubly linked list threaded
 * through a dictionary from each key to its list cell, with a sentinel cell
 * closing the ring.
 *
 * In this model a cell is identified by its key: `links[k]` holds the cell's
 * `prev` and `next` neighbours, and `None` stands for the sentinel. The
 * sentinel's own `next` and `prev` are the fields `head` and `tail`. The ghost
 * field `Keys` is the abstract state: the keys in iteration order.
 */
module OrderedSets {
  import opened Wrappers
  import opened Sequences

  /** The element at index `i`, or `None` (the sentinel) outside the sequence. */
  function At<K>(s: seq<K>, i: int): Option<K> {
    if 0 <= i < |s| then Some(s[i]) else None
  }

  /**
   * What successive `add`s of the keys of `s` leave behind: each key at the
   * position of its first occurrence, later duplicates dropped.
   */
  function Dedup<K(==)>(s: seq<K>): (d: seq<K>)
    ensures Distinct(d)
    ensures Elems(d) == Elems(s)
    ensures |d| <= |s|
  {
    if s == [] then []
    else
      var init := Dedup(s[..|s| - 1]);
      var last := s[|s| - 1];
      assert s == s[..|s| - 1] + [last];
      assert Elems(s) == Elems(s[..|s| - 1]) + {last};
      assert last in init <==> last in Elems(init);
      if last in init then init
      else
        assert Elems(init + [last]) == Elems(init) + {last};
        init + [last]
  }

  /** `s` with every occurrence of `x` taken out, the rest in their order. */
  function Remove<K(==)>(s: seq<K>, x: K): (r: seq<K>)
    ensures Elems(r) == Elems(s) - {x}
    ensures x !in s ==> r == s
    ensures Distinct(s) ==> Distinct(r)
  {
    if s == [] then []
    else
      var rest := Remove(s[1..], x);
      assert s == [s[0]] + s[1..];
      assert Elems(s) == {s[0]} + Elems(s[1..]);
      if s[0] == x then rest
      else
        assert Elems([s[0]] + rest) == {s[0]} + Elems(rest);
        assert Distinct(s) ==> s[0] !in Elems(s[1..]) && s[0] !in rest;
        [s[0]] + rest
  }

  /** A sequence of distinct keys has as many keys as elements. */
  lemma {:induction false} DistinctCard<K>(s: seq<K>)
    requires Distinct(s)
    ensures |Elems(s)| == |s|
  {
    if s != [] {
      var init := s[..|s| - 1];
      DistinctCard(init);
      assert s == init + [s[|s| - 1]];
      assert Elems(s) == Elems(init) + {s[|s| - 1]};
      assert s[|s| - 1] !in Elems(init);
    }
  }

  /** Constructing from keys that are already distinct keeps them all, in order. */
  lemma {:induction false} DedupOfDistinct<K>(s: seq<K>)
    ensures Distinct(s) ==> Dedup(s) == s
  {
    if s != [] && Distinct(s) {
      var init := s[..|s| - 1];
      assert Distinct(init);
      DedupOfDistinct(init);
      assert s[|s| - 1] !in init;
      assert s == init + [s[|s| - 1]];
    }
  }

  /** Later duplicates are dropped: keys come out in the order of their first occurrence. */
  lemma {:induction false} DedupFirstOccurrenceOrder<K>(s: seq<K>, i: nat, j: nat)
    requires i < j < |Dedup(s)|
    ensures Dedup(s)[i] in s && Dedup(s)[j] in s
    ensures FirstIndex(s, Dedup(s)[i]) < FirstIndex(s, Dedup(s)[j])
  {
    var d := Dedup(s);
    assert d[i] in Elems(d) && d[j] in Elems(d);
    var init := s[..|s| - 1];
    var last := s[|s| - 1];
    assert s == init + [last];
    var di := Dedup(init);
    if j < |di| {
      DedupFirstOccurrenceOrder(init, i, j);
      FirstIndexOfPrefix(init, last, d[i]);
      FirstIndexOfPrefix(init, last, d[j]);
    } else {
      assert last !in di && d == di + [last] && d[j] == last;
      assert d[i] in Elems(di) && d[i] in init;
      FirstIndexOfPrefix(init, last, d[i]);
      assert last !in Elems(init);
      assert last !in init;
      assert FirstIndex(s, last) == |init|;
    }
  }

  lemma {:induction false} FirstIndexOfPrefix<K>(s: seq<K>, y: K, x: K)
    requires x in s
    ensures FirstIndex(s + [y], x) == FirstIndex(s, x)
  {
    assert (s + [y])[1..] == s[1..] + [y];
    if s[0] != x {
      FirstIndexOfPrefix(s[1..], y, x);
    }
  }

  /** In a sequence of distinct keys, removing a present key closes the gap it leaves. */
  lemma {:induction false} RemoveAt<K>(s: seq<K>, j: nat)
    requires Distinct(s) && j < |s|
    ensures Remove(s, s[j]) == s[..j] + s[j + 1..]
  {
    assert s == [s[0]] + s[1..];
    if j == 0 {
      assert s[0] !in s[1..];
    } else {
      RemoveAt(s[1..], j - 1);
      assert s[1..][..j - 1] == s[1..j];
      assert s[1..][j..] == s[j + 1..];
      assert s[..j] == [s[0]] + s[1..j];
    }
  }

  /** A cell of the linked list: its neighbours, `None` being the sentinel. */
  datatype Link<K> = Link(prev: Option<K>, next: Option<K>)

  /**
   * The cells in `links`, followed from the sentinel, visit exactly `keys`, in
   * order: `head` and `tail` are the sentinel's `next` and `prev`.
   */
  ghost predicate Threaded<K>(keys: seq<K>, links: map<K, Link<K>>, head: Option<K>, tail: Option<K>) {
    && Distinct(keys)
    && links.Keys == Elems(keys)
    && head == At(keys, 0)
    && tail == At(keys, |keys| - 1)
    && (forall i {:trigger links[keys[i]]} :: 0 <= i < |keys| ==>
          links[keys[i]] == Link(At(keys, i - 1), At(keys, i + 1)))
  }

  /** The cell of the key at index `i` links its two neighbours in `keys`. */
  lemma CellAt<K>(keys: seq<K>, links: map<K, Link<K>>, head: Option<K>, tail: Option<K>, i: nat)
    requires Threaded(keys, links, head, tail) && i < |keys|
    ensures keys[i] in links && links[keys[i]] == Link(At(keys, i - 1), At(keys, i + 1))
  {
  }

  /**
   * `after` is `cells` with the cell of `keys[j]` popped and its two
   * neighbours joined to each other.
   */
  ghost predicate Unlinked<K>(keys: seq<K>, cells: map<K, Link<K>>, j: nat, after: map<K, Link<K>>)
    requires j < |keys| && cells.Keys <= after.Keys + {keys[j]}
  {
    && after.Keys == cells.Keys - {keys[j]}
    && forall k {:trigger after[k]} :: k in after ==>
         after[k] == Link(if Some(k) == At(keys, j + 1) then At(keys, j - 1) else cells[k].prev,
                          if Some(k) == At(keys, j - 1) then At(keys, j + 1) else cells[k].next)
  }

  /** One cell of the list after unlinking: it links its neighbours in what is left. */
  lemma UnlinkedCell<K>(keys: seq<K>, cells: map<K, Link<K>>, head: Option<K>, tail: Option<K>, j: nat,
                        after: map<K, Link<K>>, i: nat)
    requires Threaded(keys, cells, head, tail) && j < |keys| && i < |keys| - 1
    requires cells.Keys <= after.Keys + {keys[j]} && Unlinked(keys, cells, j, after)
    ensures var rest := keys[..j] + keys[j + 1..];
      rest[i] in after && after[rest[i]] == Link(At(rest, i - 1), At(rest, i + 1))
  {
    var rest := keys[..j] + keys[j + 1..];
    if i < j {
      CellAt(keys, cells, head, tail, i);
      assert rest[i] == keys[i] && keys[i] != keys[j];
      assert Some(keys[i]) != At(keys, j + 1);
      assert At(rest, i - 1) == At(keys, i - 1);
      if i < j - 1 {
        assert Some(keys[i]) != At(keys, j - 1);
        assert At(rest, i + 1) == At(keys, i + 1);
      } else {
        assert At(rest, i + 1) == At(keys, j + 1);
      }
    } else {
      CellAt(keys, cells, head, tail, i + 1);
      assert rest[i] == keys[i + 1] && keys[i + 1] != keys[j];
      assert Some(keys[i + 1]) != At(keys, j - 1);
      assert At(rest, i + 1) == At(keys, i + 2);
      if i > j {
        assert Some(keys[i + 1]) != At(keys, j + 1);
        assert At(rest, i - 1) == At(keys, i);
      } else {
        assert At(rest, i - 1) == At(keys, j - 1);
      }
    }
  }

  /** Sets the `next` neighbour of the cell of `k`; the sentinel (`None`) is left to the caller. */
  function SetNext<K>(cells: map<K, Link<K>>, k: Option<K>, next: Option<K>): (r: map<K, Link<K>>)
    ensures r.Keys == cells.Keys
  {
    if k.Some? && k.value in cells then cells[k.value := cells[k.value].(next := next)] else cells
  }

  /** Sets the `prev` neighbour of the cell of `k`; the sentinel (`None`) is left to the caller. */
  function SetPrev<K>(cells: map<K, Link<K>>, k: Option<K>, prev: Option<K>): (r: map<K, Link<K>>)
    ensures r.Keys == cells.Keys
  {
    if k.Some? && k.value in cells then cells[k.value := cells[k.value].(prev := prev)] else cells
  }

  /** The cells of `cells` with the cell of `key` popped and its two neighbours joined. */
  function Bypass<K>(cells: map<K, Link<K>>, key: K): (r: map<K, Link<K>>)
    requires key in cells
    ensures r.Keys == cells.Keys - {key}
  {
    var link := cells[key];
    SetPrev(SetNext(cells - {key}, link.prev, link.next), link.next, link.prev)
  }

  /** Bypassing the cell of `keys[j]` joins its neighbours and touches no other cell. */
  lemma BypassUnlinks<K>(keys: seq<K>, cells: map<K, Link<K>>, head: Option<K>, tail: Option<K>, j: nat)
    requires Threaded(keys, cells, head, tail) && j < |keys|
    ensures keys[j] in cells
    ensures var after := Bypass(cells, keys[j]);
      cells.Keys <= after.Keys + {keys[j]} && Unlinked(keys, cells, j, after)
  {
    CellAt(keys, cells, head, tail, j);
    var prev, next := At(keys, j - 1), At(keys, j + 1);
    var m0 := cells - {keys[j]};
    var m1 := SetNext(m0, prev, next);
    var after := SetPrev(m1, next, prev);
    assert after == Bypass(cells, keys[j]);
    if prev.Some? {
      assert keys[j - 1] in Elems(keys) && keys[j - 1] != keys[j];
      assert m1[prev.value] == cells[prev.value].(next := next);
    }
    if next.Some? {
      assert keys[j + 1] in Elems(keys) && keys[j + 1] != keys[j];
      if prev.Some? {
        assert keys[j - 1] != keys[j + 1];
      }
      assert after[next.value] == m1[next.value].(prev := prev);
    }
    forall k | k in after
      ensures after[k] == Link(if Some(k) == next then prev else cells[k].prev,
                               if Some(k) == prev then next else cells[k].next)
    {
      assert m0[k] == cells[k];
    }
  }

  /**
   * Popping the cell of `keys[j]` and joining its two neighbours to each
   * other leaves a list that visits the other keys in their order.
   */
  lemma UnlinkKeepsThreaded<K>(keys: seq<K>, cells: map<K, Link<K>>, head: Option<K>, tail: Option<K>, j: nat,
                               after: map<K, Link<K>>, head': Option<K>, tail': Option<K>)
    requires Threaded(keys, cells, head, tail) && j < |keys|
    requires keys[j] in cells && after == Bypass(cells, keys[j])
    requires head' == if j == 0 then At(keys, 1) else head
    requires tail' == if j == |keys| - 1 then At(keys, j - 1) else tail
    ensures Threaded(keys[..j] + keys[j + 1..], after, head', tail')
  {
    var rest := keys[..j] + keys[j + 1..];
    RemoveAt(keys, j);
    assert Distinct(rest) && after.Keys == Elems(rest);
    BypassedCells(keys, cells, head, tail, j, after);
    RemovedEnds(keys, j);
  }

  /** The first and last of the keys left once `keys[j]` is taken out. */
  lemma RemovedEnds<K>(keys: seq<K>, j: nat)
    requires j < |keys|
    ensures var rest := keys[..j] + keys[j + 1..];
      && At(rest, 0) == (if j == 0 then At(keys, 1) else At(keys, 0))
      && At(rest, |rest| - 1) == (if j == |keys| - 1 then At(keys, j - 1) else At(keys, |keys| - 1))
  {
    var rest := keys[..j] + keys[j + 1..];
    if j == |keys| - 1 {
      assert rest == keys[..j];
    } else {
      assert rest[|rest| - 1] == keys[|keys| - 1];
    }
    if j == 0 {
      assert rest == keys[1..];
    } else {
      assert rest[0] == keys[0];
    }
  }

  /** Every cell left after bypassing `keys[j]` links its neighbours among the other keys. */
  lemma BypassedCells<K>(keys: seq<K>, cells: map<K, Link<K>>, head: Option<K>, tail: Option<K>, j: nat,
                         after: map<K, Link<K>>)
    requires Threaded(keys, cells, head, tail) && j < |keys|
    requires keys[j] in cells && after == Bypass(cells, keys[j])
    ensures var rest := keys[..j] + keys[j + 1..];
      forall i {:trigger after[rest[i]]} :: 0 <= i < |rest| ==>
        rest[i] in after && after[rest[i]] == Link(At(rest, i - 1), At(rest, i + 1))
  {
    BypassUnlinks(keys, cells, head, tail, j);
    var rest := keys[..j] + keys[j + 1..];
    forall i | 0 <= i < |rest|
      ensures rest[i] in after && after[rest[i]] == Link(At(rest, i - 1), At(rest, i + 1))
    {
      UnlinkedCell(keys, cells, head, tail, j, after, i);
    }
  }

  /** Appending a key not yet present keeps the keys distinct. */
  lemma DistinctAppend<K>(s: seq<K>, x: K)
    requires Distinct(s) && x !in Elems(s)
    ensures Distinct(s + [x]) && Elems(s + [x]) == Elems(s) + {x}
  {
    assert x !in s;
    forall i, j | 0 <= i < j < |s + [x]| ensures (s + [x])[i] != (s + [x])[j] {
      if j == |s| {
        assert s[i] in s;
      }
    }
  }

  /**
   * Linking a new key in just before the sentinel leaves a list that visits
   * the old keys and then the new one.
   */
  lemma LinkKeepsThreaded<K>(keys: seq<K>, cells: map<K, Link<K>>, head: Option<K>, tail: Option<K>, key: K,
                             after: map<K, Link<K>>, head': Option<K>)
    requires Threaded(keys, cells, head, tail) && key !in cells
    requires after == SetNext(cells, tail, Some(key))[key := Link(tail, None)]
    requires head' == if tail.None? then Some(key) else head
    ensures Threaded(keys + [key], after, head', Some(key))
  {
    var ks := keys + [key];
    DistinctAppend(keys, key);
    LinkedCells(keys, cells, head, tail, key, after);
    if keys != [] {
      assert ks[0] == keys[0];
    }
  }

  /** Every cell after linking `key` in at the end links its neighbours. */
  lemma LinkedCells<K>(keys: seq<K>, cells: map<K, Link<K>>, head: Option<K>, tail: Option<K>, key: K,
                       after: map<K, Link<K>>)
    requires Threaded(keys, cells, head, tail) && key !in cells
    requires after == SetNext(cells, tail, Some(key))[key := Link(tail, None)]
    ensures var ks := keys + [key];
      forall i {:trigger after[ks[i]]} :: 0 <= i < |ks| ==>
        ks[i] in after && after[ks[i]] == Link(At(ks, i - 1), At(ks, i + 1))
  {
    var ks := keys + [key];
    forall i | 0 <= i < |ks|
      ensures ks[i] in after && after[ks[i]] == Link(At(ks, i - 1), At(ks, i + 1))
    {
      LinkedCell(keys, cells, head, tail, key, after, i);
    }
  }

  /** One cell of the list after linking `key` in at the end. */
  lemma LinkedCell<K>(keys: seq<K>, cells: map<K, Link<K>>, head: Option<K>, tail: Option<K>, key: K,
                      after: map<K, Link<K>>, i: nat)
    requires Threaded(keys, cells, head, tail) && key !in cells
    requires after == SetNext(cells, tail, Some(key))[key := Link(tail, None)]
    requires i <= |keys|
    ensures var ks := keys + [key];
      ks[i] in after && after[ks[i]] == Link(At(ks, i - 1), At(ks, i + 1))
  {
    var ks := keys + [key];
    var n := |keys|;
    if i < n {
      CellAt(keys, cells, head, tail, i);
      assert ks[i] == keys[i] != key;
      assert At(ks, i - 1) == At(keys, i - 1);
      if i < n - 1 {
        assert keys[i] != keys[n - 1];
        assert At(ks, i + 1) == At(keys, i + 1);
      }
    }
  }

  class OrderedSet<K(==)> {
    var head: Option<K>
    var tail: Option<K>
    var links: map<K, Link<K>>
    ghost var Keys: seq<K>

    /** The list, followed from the sentinel, visits exactly `Keys`, in order. */
    ghost predicate Valid()
      reads this
    {
      Threaded(Keys, links, head, tail)
    }

    /** `OrderedSet(iterable)`: an empty list, then `add` of each key in turn. */
    constructor (iterable: seq<K>)
      ensures Valid()
      ensures Keys == Dedup(iterable)
    {
      head, tail, links, Keys := None, None, map[], [];
      new;
      var i := 0;
      while i < |iterable|
        invariant 0 <= i <= |iterable|
        invariant Valid()
        invariant Keys == Dedup(iterable[..i])
      {
        Add(iterable[i]);
        assert iterable[..i + 1][..i] == iterable[..i];
        i := i + 1;
      }
      assert iterable[..i] == iterable;
    }

    /** `len(s)`: the size of the dictionary. */
    method Len() returns (n: nat)
      requires Valid()
      ensures n == |Keys|
    {
      DistinctCard(Keys);
      n := |links|;
    }

    /** `key in s`: a dictionary lookup. */
    method Contains(key: K) returns (b: bool)
      requires Valid()
      ensures b <==> key in Keys
    {
      b := key in links;
    }

    /** `add`: a new key is linked in just before the sentinel. */
    method Add(key: K)
      requires Valid()
      modifies this
      ensures Valid()
      ensures Keys == if key in old(Keys) then old(Keys) else old(Keys) + [key]
    {
      if key !in links {
        ghost var keys, cells0, head0 := Keys, links, head;
        var curr := tail;
        if curr.None? {
          head := Some(key);
        }
        links := SetNext(links, curr, Some(key));
        links := links[key := Link(curr, None)];
        tail := Some(key);
        Keys := Keys + [key];
        LinkKeepsThreaded(keys, cells0, head0, curr, key, links, head);
      } else {
        assert key in Elems(Keys);
      }
    }

    /** `discard`: a present key's cell is unlinked; its neighbours are joined. */
    method Discard(key: K)
      requires Valid()
      modifies this
      ensures Valid()
      ensures Keys == Remove(old(Keys), key)
    {
      if key in links {
        ghost var keys, cells0, head0, tail0 := Keys, links, head, tail;
        ghost var j :| 0 <= j < |keys| && keys[j] == key;
        CellAt(keys, links, head, tail, j);
        var link := links[key];
        var cells := SetNext(links - {key}, link.prev, link.next);
        cells := SetPrev(cells, link.next, link.prev);
        var first := if link.prev.None? then link.next else head;
        var final := if link.next.None? then link.prev else tail;
        links, head, tail, Keys := cells, first, final, keys[..j] + keys[j + 1..];
        UnlinkKeepsThreaded(keys, cells0, head0, tail0, j, links, head, tail);
        RemoveAt(keys, j);
      } else {
        assert key !in Elems(Keys);
      }
    }

    /** `iter(s)`: follows the `next` links from the sentinel back to it. */
    method Iter() returns (s: seq<K>)
      requires Valid()
      ensures s == Keys
    {
      s := [];
      var curr := head;
      while curr.Some?
        invariant |s| <= |Keys| && s == Keys[..|s|]
        invariant curr == At(Keys, |s|)
        decreases |Keys| - |s|
      {
        assert Keys[..|s| + 1] == Keys[..|s|] + [Keys[|s|]];
        s := s + [curr.value];
        curr := links[curr.value].next;
      }
    }

    /** `reversed(s)`: follows the `prev` links from the sentinel back to it. */
    method Reversed() returns (s: seq<K>)
      requires Valid()
      ensures |s| == |Keys|
      ensures forall i :: 0 <= i < |s| ==> s[i] == Keys[|Keys| - 1 - i]
    {
      s := [];
      var curr := tail;
      while curr.Some?
        invariant |s| <= |Keys|
        invariant forall i :: 0 <= i < |s| ==> s[i] == Keys[|Keys| - 1 - i]
        invariant curr == At(Keys, |Keys| - 1 - |s|)
        decreases |Keys| - |s|
      {
        s := s + [curr.value];
        curr := links[curr.value].prev;
      }
    }

    /**
     * `pop(last)`: removes and returns the last key, or the first one when
     * `last` is false; an empty set raises `KeyError`.
     */
    method Pop(last: bool) returns (r: Result<K, string>)
      requires Valid()
      modifies this
      ensures Valid()
      ensures old(Keys) == [] ==> r == Failure("set is empty") && Keys == []
      ensures old(Keys) != [] ==>
        && r == Success(if last then old(Keys)[|old(Keys)| - 1] else old(Keys)[0])
        && Keys == (if last then old(Keys)[..|old(Keys)| - 1] else old(Keys)[1..])
    {
      var n := Len();
      if n == 0 {
        return Failure("set is empty");
      }
      var key := if last then tail.value else head.value;
      ghost var j := if last then |Keys| - 1 else 0;
      RemoveAt(Keys, j);
      Discard(key);
      r := Success(key);
    }

    /** `s == other` for another ordered set: same length and the same keys in the same order. */
    method EqualsOrdered(other: OrderedSet<K>) returns (b: bool)
      requires Valid() && other.Valid()
      ensures b <==> Keys == other.Keys
    {
      var n := Len();
      var m := other.Len();
      if n != m {
        return false;
      }
      var mine := Iter();
      var theirs := other.Iter();
      b := mine == theirs;
    }

    /** `s == other` for any other iterable: plain set equality. */
    method EqualsIterable(other: seq<K>) returns (b: bool)
      requires Valid()
      ensures b <==> Elems(Keys) == Elems(other)
    {
      var mine := Iter();
      b := Elems(mine) == Elems(other);
    }
  }
}
