/** The kernel's intrusive list: nodes on the heap, linked in a circle in both directions,
    with the list object itself as one of them. */
module RtList {

  /** A list node; entry is what rt_list_entry recovers from it. */
  class Node<T> {
    var next: Node<T>
    var prev: Node<T>
    const entry: T

    /** rt_list_init. */
    constructor (entry: T)
      ensures this.entry == entry && IsRing([this])
    {
      next, prev, this.entry := this, this, entry;
    }
  }

  function After(i: nat, n: nat): (r: nat)
    ensures i < n ==> r < n
  {
    if i + 1 < n then i + 1 else 0
  }

  function Before(i: nat, n: nat): (r: nat)
    ensures i < n ==> r < n
  {
    if i > 0 then i - 1 else if n > 0 then n - 1 else 0
  }

  /** r is a whole circle, in order of the next links; the prev links lead back. */
  ghost predicate IsRing<T>(r: seq<Node<T>>)
    reads r
  {
    r != [] && Distinct(r) &&
    (forall i {:trigger r[i].next} :: 0 <= i < |r| ==> r[i].next == r[After(i, |r|)]) &&
    forall i {:trigger r[i].prev} :: 0 <= i < |r| ==> r[i].prev == r[Before(i, |r|)]
  }

  /** r with n behind its k-th node. */
  function Inserted<T>(r: seq<Node<T>>, k: nat, n: Node<T>): seq<Node<T>>
    requires k < |r|
  {
    r[..k + 1] + [n] + r[k + 1..]
  }

  function Removed<T>(r: seq<Node<T>>, k: nat): seq<Node<T>>
    requires k < |r|
  {
    r[..k] + r[k + 1..]
  }

  ghost predicate Distinct<T>(r: seq<Node<T>>) { forall i, j :: 0 <= i < j < |r| ==> r[i] != r[j] }

  /** The links after an insertion, said about the old circle. */
  ghost predicate LinkedIn<T>(r: seq<Node<T>>, k: nat, n: Node<T>)
    requires k < |r|
    reads r, n
  {
    n.next == r[After(k, |r|)] && n.prev == r[k] &&
    (forall i {:trigger r[i].next} :: 0 <= i < |r| ==> r[i].next == if i == k then n else r[After(i, |r|)]) &&
    forall i {:trigger r[i].prev} :: 0 <= i < |r| ==> r[i].prev == if i == After(k, |r|) then n else r[Before(i, |r|)]
  }

  lemma InsertedIsRing<T>(r: seq<Node<T>>, k: nat, n: Node<T>)
    requires k < |r| && Distinct(r) && n !in r && LinkedIn(r, k, n)
    ensures IsRing(Inserted(r, k, n))
  {
    var s := Inserted(r, k, n);
    forall i, j | 0 <= i < j < |s|
      ensures s[i] != s[j]
    {
      InsertedAt(r, k, n, i);
      InsertedAt(r, k, n, j);
    }
    forall i | 0 <= i < |s|
      ensures s[i].next == s[After(i, |s|)] && s[i].prev == s[Before(i, |s|)]
    {
      InsertedLinks(r, k, n, i);
    }
  }

  lemma InsertedAt<T>(r: seq<Node<T>>, k: nat, n: Node<T>, i: nat)
    requires k < |r| && i <= |r|
    ensures Inserted(r, k, n)[i] == if i <= k then r[i] else if i == k + 1 then n else r[i - 1]
  {
  }

  lemma InsertedLinks<T>(r: seq<Node<T>>, k: nat, n: Node<T>, i: nat)
    requires k < |r| && n !in r && LinkedIn(r, k, n) && i <= |r|
    ensures var s := Inserted(r, k, n); s[i].next == s[After(i, |s|)] && s[i].prev == s[Before(i, |s|)]
  {
    var s := Inserted(r, k, n);
    if i <= k {
      assert s[i] == r[i] && s[i].next == r[i].next && s[i].prev == r[i].prev;
    } else if i > k + 1 {
      assert s[i] == r[i - 1] && s[i].next == r[i - 1].next && s[i].prev == r[i - 1].prev;
    }
  }

  /** The links after a removal, said about the old circle. */
  ghost predicate LinkedOut<T>(r: seq<Node<T>>, k: nat)
    requires k < |r|
    reads r
  {
    (forall i {:trigger r[i].next} :: 0 <= i < |r| && i != k ==>
      r[i].next == if i == Before(k, |r|) then r[After(k, |r|)] else r[After(i, |r|)]) &&
    forall i {:trigger r[i].prev} :: 0 <= i < |r| && i != k ==>
      r[i].prev == if i == After(k, |r|) then r[Before(k, |r|)] else r[Before(i, |r|)]
  }

  lemma RemovedIsRing<T>(r: seq<Node<T>>, k: nat)
    requires k < |r| && |r| > 1 && Distinct(r) && LinkedOut(r, k)
    ensures IsRing(Removed(r, k))
  {
    var s := Removed(r, k);
    assert forall i :: 0 <= i < |s| ==> s[i] == if i < k then r[i] else r[i + 1];
    forall i, j | 0 <= i < j < |s|
      ensures s[i] != s[j]
    {
      assert s[i] == r[if i < k then i else i + 1] && s[j] == r[if j < k then j else j + 1];
    }
    forall i | 0 <= i < |s|
      ensures s[i].next == s[After(i, |s|)]
    {
      if i < k {
        assert s[i].next == r[i].next;
      } else {
        assert s[i].next == r[i + 1].next;
      }
    }
    forall i | 0 <= i < |s|
      ensures s[i].prev == s[Before(i, |s|)]
    {
      if i < k {
        assert s[i].prev == r[i].prev;
      } else {
        assert s[i].prev == r[i + 1].prev;
      }
    }
  }

  /** rt_list_insert_after: exactly four links change. */
  method InsertAfter<T>(l: Node<T>, n: Node<T>, ghost r: seq<Node<T>>, ghost k: nat)
    requires IsRing(r) && k < |r| && l == r[k] && n !in r
    modifies l`next, l.next`prev, n`next, n`prev
    ensures IsRing(Inserted(r, k, n))
  {
    assert l.next == r[After(k, |r|)];
    l.next.prev := n;
    n.next := l.next;
    l.next := n;
    n.prev := l;
    InsertedIsRing(r, k, n);
  }

  /** rt_list_insert_before: behind the node before l, which for the first node of the
      sequence is the last one. */
  method InsertBefore<T>(l: Node<T>, n: Node<T>, ghost r: seq<Node<T>>, ghost k: nat)
    requires IsRing(r) && k < |r| && l == r[k] && n !in r
    modifies l`prev, l.prev`next, n`next, n`prev
    ensures IsRing(Inserted(r, Before(k, |r|), n))
  {
    ghost var b := Before(k, |r|);
    assert l.prev == r[b] && After(b, |r|) == k;
    l.prev.next := n;
    n.prev := l.prev;
    l.prev := n;
    n.next := l;
    InsertedIsRing(r, b, n);
  }

  /** rt_list_remove: the rest stays a circle, the node becomes one of its own. */
  method Remove<T>(n: Node<T>, ghost r: seq<Node<T>>, ghost k: nat)
    requires IsRing(r) && k < |r| && n == r[k]
    modifies n`next, n`prev, n.next`prev, n.prev`next
    ensures IsRing([n]) && (|r| > 1 ==> IsRing(Removed(r, k)))
  {
    assert n.next == r[After(k, |r|)] && n.prev == r[Before(k, |r|)];
    n.next.prev := n.prev;
    n.prev.next := n.next;
    n.next, n.prev := n, n;
    if |r| > 1 {
      RemovedIsRing(r, k);
    }
  }

  /** rt_list_isempty: only the list object is in the circle. */
  method IsEmpty<T>(l: Node<T>, ghost r: seq<Node<T>>) returns (empty: bool)
    requires IsRing(r) && l == r[0]
    ensures empty <==> r == [l]
  {
    empty := l.next == l;
  }

  /** Removing a node undoes its insertion, wherever it went. */
  lemma RemoveUndoesInsert<T>(r: seq<Node<T>>, k: nat, n: Node<T>)
    requires k < |r|
    ensures Inserted(r, k, n)[k + 1] == n && Removed(Inserted(r, k, n), k + 1) == r
  {
  }

  /** Two circles that share a node have the same nodes: a walk along the next links
      decides everything, so operations on one list leave a separate one alone. */
  lemma SharedNodeMeansSameRing<T>(r: seq<Node<T>>, s: seq<Node<T>>, i: nat, j: nat)
    requires IsRing(r) && IsRing(s) && i < |r| && j < |s| && r[i] == s[j]
    ensures |r| == |s| && forall k :: 0 <= k < |r| ==> r[k] in s
  {
    forall k: nat | k < |r|
      ensures r[k] in s
    {
      WalkStays(r, s, i, j, if k >= i then k - i else k + |r| - i);
    }
    forall k: nat | k < |s|
      ensures s[k] in r
    {
      WalkStays(s, r, j, i, if k >= j then k - j else k + |s| - j);
    }
    SameSize(r, s);
  }

  function Position(i: nat, steps: nat, n: nat): (p: nat)
    requires i < n
    ensures p < n
  {
    if steps == 0 then i else After(Position(i, steps - 1, n), n)
  }

  lemma {:induction false} PositionIs(i: nat, steps: nat, n: nat)
    requires i < n && steps < n
    ensures Position(i, steps, n) == if i + steps < n then i + steps else i + steps - n
  {
    if steps > 0 {
      PositionIs(i, steps - 1, n);
    }
  }

  lemma {:induction false} WalkMatches<T>(r: seq<Node<T>>, s: seq<Node<T>>, i: nat, j: nat, steps: nat)
    requires IsRing(r) && IsRing(s) && i < |r| && j < |s| && r[i] == s[j]
    ensures r[Position(i, steps, |r|)] == s[Position(j, steps, |s|)]
  {
    if steps > 0 {
      WalkMatches(r, s, i, j, steps - 1);
      assert r[Position(i, steps - 1, |r|)].next == s[Position(j, steps - 1, |s|)].next;
    }
  }

  lemma WalkStays<T>(r: seq<Node<T>>, s: seq<Node<T>>, i: nat, j: nat, steps: nat)
    requires IsRing(r) && IsRing(s) && i < |r| && j < |s| && r[i] == s[j] && steps < |r|
    ensures r[if i + steps < |r| then i + steps else i + steps - |r|] in s
  {
    PositionIs(i, steps, |r|);
    WalkMatches(r, s, i, j, steps);
  }

  lemma SameSize<T>(r: seq<Node<T>>, s: seq<Node<T>>)
    requires IsRing(r) && IsRing(s)
    requires (forall k :: 0 <= k < |r| ==> r[k] in s) && forall k :: 0 <= k < |s| ==> s[k] in r
    ensures |r| == |s|
  {
    Cardinality(r);
    Cardinality(s);
    assert (set x | x in r) == (set x | x in s);
  }

  lemma {:induction false} Cardinality<T>(r: seq<Node<T>>)
    requires Distinct(r)
    ensures |set x | x in r| == |r|
  {
    if r != [] {
      Cardinality(r[1..]);
      assert (set x | x in r) == {r[0]} + (set x | x in r[1..]);
    }
  }
}
