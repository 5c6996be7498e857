/** The doubly linked list macros `LINK2` and `UNLINK2` of macro.h.

    The heap is made explicit: a list is its `first`/`last` pointers together
    with the `next` and `prev` fields of every element, held as maps from
    element identities to pointers. `Represents(l, xs)` says that following
    `next` from `first` (and `prev` from `last`) visits exactly `xs`. */
module Links {

  /** The identity (address) of a list element. */
  type Id = nat

  /** A pointer that may be NULL. */
  datatype Ptr = Null | To(id: Id)

  datatype DList = DList(first: Ptr, last: Ptr, next: map<Id, Ptr>, prev: map<Id, Ptr>)

  predicate Distinct(xs: seq<Id>) {
    forall i, j | 0 <= i < j < |xs| :: xs[i] != xs[j]
  }

  /** The successor of position `i` in `xs`, NULL after the last element. */
  function After(xs: seq<Id>, i: nat): Ptr
    requires i < |xs|
  {
    if i + 1 < |xs| then To(xs[i + 1]) else Null
  }

  /** The predecessor of position `i` in `xs`, NULL before the first element. */
  function Before(xs: seq<Id>, i: nat): Ptr
    requires i < |xs|
  {
    if i > 0 then To(xs[i - 1]) else Null
  }

  /** Forward and backward links of `l` agree with the sequence `xs`. */
  predicate Represents(l: DList, xs: seq<Id>) {
    && Distinct(xs)
    && (if |xs| == 0 then l.first == Null && l.last == Null
        else l.first == To(xs[0]) && l.last == To(xs[|xs| - 1]))
    && (forall i | 0 <= i < |xs| :: xs[i] in l.next && l.next[xs[i]] == After(xs, i))
    && (forall i | 0 <= i < |xs| :: xs[i] in l.prev && l.prev[xs[i]] == Before(xs, i))
  }

  /** The elements met by following `next` pointers from `p`, for at most
      `fuel` steps. */
  function Forward(l: DList, p: Ptr, fuel: nat): seq<Id>
    decreases fuel
  {
    if fuel == 0 || p == Null || p.id !in l.next then []
    else [p.id] + Forward(l, l.next[p.id], fuel - 1)
  }

  /** The elements met by following `prev` pointers from `p`, for at most
      `fuel` steps. */
  function Backward(l: DList, p: Ptr, fuel: nat): seq<Id>
    decreases fuel
  {
    if fuel == 0 || p == Null || p.id !in l.prev then []
    else [p.id] + Backward(l, l.prev[p.id], fuel - 1)
  }

  /** `xs` back to front. */
  function Reverse(xs: seq<Id>): seq<Id>
  {
    if |xs| == 0 then [] else [xs[|xs| - 1]] + Reverse(xs[..|xs| - 1])
  }

  /** The fields of the element at position `i` of a represented list. */
  lemma FieldsAt(l: DList, xs: seq<Id>, i: nat)
    requires Represents(l, xs) && i < |xs|
    ensures xs[i] in l.next && l.next[xs[i]] == After(xs, i)
    ensures xs[i] in l.prev && l.prev[xs[i]] == Before(xs, i)
  {
  }

  /** Walking forward from position `k` reaches the end of the list. */
  lemma {:induction false} ForwardFrom(l: DList, xs: seq<Id>, k: nat, fuel: nat)
    requires Represents(l, xs) && k <= |xs| && fuel >= |xs| - k
    ensures Forward(l, if k < |xs| then To(xs[k]) else Null, fuel) == xs[k..]
    decreases |xs| - k
  {
    hide Represents;
    if k < |xs| {
      FieldsAt(l, xs, k);
      ForwardFrom(l, xs, k + 1, fuel - 1);
      assert Forward(l, To(xs[k]), fuel) == [xs[k]] + Forward(l, After(xs, k), fuel - 1);
      assert xs[k..] == [xs[k]] + xs[k + 1..];
    }
  }

  /** Walking backward from position `k - 1` reaches the head of the list. */
  lemma {:induction false} BackwardFrom(l: DList, xs: seq<Id>, k: nat, fuel: nat)
    requires Represents(l, xs) && k <= |xs| && fuel >= k
    ensures Backward(l, if k > 0 then To(xs[k - 1]) else Null, fuel) == Reverse(xs[..k])
    decreases k
  {
    hide Represents;
    if k > 0 {
      FieldsAt(l, xs, k - 1);
      BackwardFrom(l, xs, k - 1, fuel - 1);
      assert Backward(l, To(xs[k - 1]), fuel) == [xs[k - 1]] + Backward(l, Before(xs, k - 1), fuel - 1);
      assert xs[..k][..k - 1] == xs[..k - 1];
    }
  }

  /** Forward traversal from `first` and backward traversal from `last` both
      agree with the sequence a well-formed list represents, whatever bound
      on the number of steps at least its length. */
  lemma Traversals(l: DList, xs: seq<Id>, fuel: nat)
    requires Represents(l, xs) && fuel >= |xs|
    ensures Forward(l, l.first, fuel) == xs
    ensures Backward(l, l.last, fuel) == Reverse(xs)
  {
    ForwardFrom(l, xs, 0, fuel);
    BackwardFrom(l, xs, |xs|, fuel);
    assert l.first == (if 0 < |xs| then To(xs[0]) else Null);
    assert l.last == (if |xs| > 0 then To(xs[|xs| - 1]) else Null);
    assert xs[0..] == xs && xs[..|xs|] == xs;
  }

  /** `LINK2(link, first, last, next, prev)`, statement by statement. The macro
      dereferences `last` whenever `first` is set. */
  function Link2(l: DList, link: Id): (r: DList)
    requires l.first != Null ==> l.last != Null
    ensures r.last == To(link)
    ensures link in r.next && r.next[link] == Null
    ensures l.first == Null ==> r.first == To(link) && link in r.prev && r.prev[link] == Null
    ensures l.first != Null && l.first != To(link) ==>
              && r.first == l.first
              && link in r.prev && r.prev[link] == l.last
              && (l.last.id != link ==> l.last.id in r.next && r.next[l.last.id] == To(link))
    ensures forall y | y in l.next && y != link && To(y) != l.last :: y in r.next && r.next[y] == l.next[y]
    ensures forall y | y in l.prev && y != link :: y in r.prev && r.prev[y] == l.prev[y]
  {
    var first := if l.first == Null then To(link) else l.first;
    var last := if l.first == Null then To(link) else l.last;
    var next := if l.first == Null then l.next else l.next[l.last.id := To(link)];
    var next := next[link := Null];
    var prev := if first == To(link) then l.prev[link := Null] else l.prev[link := last];
    DList(first, To(link), next, prev)
  }

  /** Appending an element that is not yet in the list turns its sequence
      `xs` into `xs + [link]`. */
  lemma Link2Appends(l: DList, xs: seq<Id>, link: Id)
    requires Represents(l, xs) && link !in xs
    ensures l.first != Null ==> l.last != Null
    ensures Represents(Link2(l, link), xs + [link])
  {
    var r := Link2(l, link);
    var ys := xs + [link];
    forall i | 0 <= i < |ys|
      ensures ys[i] in r.next && r.next[ys[i]] == After(ys, i)
      ensures ys[i] in r.prev && r.prev[ys[i]] == Before(ys, i)
    {
      if i < |xs| {
        assert ys[i] == xs[i] != link;
        if i + 1 == |xs| {
          assert l.last == To(xs[i]);
        } else {
          assert To(xs[i]) != l.last by {
            assert l.last == To(xs[|xs| - 1]);
          }
        }
      }
    }
  }

  /** `UNLINK2(link, first, last, next, prev)`, statement by statement. The
      macro reads the fields of `link` and writes those of its neighbours. */
  function Unlink2(l: DList, link: Id): (r: DList)
    requires link in l.next && link in l.prev
    ensures l.prev[link] == Null ==>
              r.first == l.next[link]
              && (l.next[link] != Null ==> l.next[link].id in r.prev && r.prev[l.next[link].id] == Null)
    ensures l.next[link] == Null ==>
              r.last == l.prev[link]
              && (l.prev[link] != Null ==> l.prev[link].id in r.next && r.next[l.prev[link].id] == Null)
    ensures l.prev[link] != Null ==> r.first == l.first
    ensures l.next[link] != Null ==> r.last == l.last
    ensures forall y | y in l.next && To(y) != l.prev[link] :: y in r.next && r.next[y] == l.next[y]
    ensures forall y | y in l.prev && To(y) != l.next[link] :: y in r.prev && r.prev[y] == l.prev[y]
  {
    var p := l.prev[link];
    var n := l.next[link];
    var first := if p == Null then n else l.first;
    var prev := if p == Null && n != Null then l.prev[n.id := Null] else l.prev;
    var next := if p == Null then l.next else l.next[p.id := n];
    var last := if n == Null then p else l.last;
    var next := if n == Null && p != Null then next[p.id := Null] else next;
    var prev := if n == Null then prev else prev[n.id := p];
    DList(first, last, next, prev)
  }

  /** Distinct positions of a represented list hold distinct elements. */
  lemma DistinctAt(l: DList, xs: seq<Id>, a: nat, b: nat)
    requires Represents(l, xs) && a < |xs| && b < |xs| && a != b
    ensures xs[a] != xs[b]
  {
    if a > b {
      assert xs[b] != xs[a];
    }
  }

  /** The `next` field every remaining element has after `Unlink2`, indexed
      by its position `k` in the old sequence. */
  lemma Unlink2Next(l: DList, xs: seq<Id>, i: nat, k: nat)
    requires Represents(l, xs) && i < |xs| && k < |xs| && k != i
    ensures xs[i] in l.next && xs[i] in l.prev
    ensures xs[k] in Unlink2(l, xs[i]).next
    ensures Unlink2(l, xs[i]).next[xs[k]] == (if k + 1 == i then After(xs, i) else After(xs, k))
  {
    hide Represents;
    FieldsAt(l, xs, i);
    FieldsAt(l, xs, k);
    if k + 1 != i && i > 0 {
      DistinctAt(l, xs, k, i - 1);
    }
  }

  /** The `prev` field every remaining element has after `Unlink2`. */
  lemma Unlink2Prev(l: DList, xs: seq<Id>, i: nat, k: nat)
    requires Represents(l, xs) && i < |xs| && k < |xs| && k != i
    ensures xs[i] in l.next && xs[i] in l.prev
    ensures xs[k] in Unlink2(l, xs[i]).prev
    ensures Unlink2(l, xs[i]).prev[xs[k]] == (if k == i + 1 then Before(xs, i) else Before(xs, k))
  {
    hide Represents;
    FieldsAt(l, xs, i);
    FieldsAt(l, xs, k);
    if k != i + 1 && i + 1 < |xs| {
      DistinctAt(l, xs, k, i + 1);
    }
  }

  /** Position `k` of the shortened sequence is position `k` or `k + 1` of
      the original. */
  lemma RemovedAt(xs: seq<Id>, i: nat, k: nat)
    requires i < |xs| && k < |xs| - 1
    ensures (xs[..i] + xs[i + 1..])[k] == xs[if k < i then k else k + 1]
  {
  }

  /** The links of the element at position `k` of the shortened sequence. */
  lemma Unlink2At(l: DList, xs: seq<Id>, i: nat, k: nat)
    requires Represents(l, xs) && i < |xs| && k < |xs| - 1
    ensures xs[i] in l.next && xs[i] in l.prev
    ensures var ys := xs[..i] + xs[i + 1..];
            && ys[k] in Unlink2(l, xs[i]).next && Unlink2(l, xs[i]).next[ys[k]] == After(ys, k)
            && ys[k] in Unlink2(l, xs[i]).prev && Unlink2(l, xs[i]).prev[ys[k]] == Before(ys, k)
  {
    hide Represents;
    var ys := xs[..i] + xs[i + 1..];
    var k' := if k < i then k else k + 1;
    FieldsAt(l, xs, i);
    Unlink2Next(l, xs, i, k');
    Unlink2Prev(l, xs, i, k');
    RemovedAt(xs, i, k);
    assert After(ys, k) == (if k' + 1 == i then After(xs, i) else After(xs, k')) by {
      if k + 1 < |ys| {
        RemovedAt(xs, i, k + 1);
      }
    }
    assert Before(ys, k) == (if k' == i + 1 then Before(xs, i) else Before(xs, k')) by {
      if k > 0 {
        RemovedAt(xs, i, k - 1);
      }
    }
  }

  /** The `first` and `last` pointers after `Unlink2`. */
  lemma Unlink2Ends(l: DList, xs: seq<Id>, i: nat)
    requires Represents(l, xs) && i < |xs|
    ensures xs[i] in l.next && xs[i] in l.prev
    ensures var ys := xs[..i] + xs[i + 1..];
            if |ys| == 0 then Unlink2(l, xs[i]).first == Null && Unlink2(l, xs[i]).last == Null
            else Unlink2(l, xs[i]).first == To(ys[0]) && Unlink2(l, xs[i]).last == To(ys[|ys| - 1])
  {
    var ys := xs[..i] + xs[i + 1..];
    assert l.prev[xs[i]] == Before(xs, i);
    assert l.next[xs[i]] == After(xs, i);
    if |ys| > 0 {
      RemovedAt(xs, i, 0);
      RemovedAt(xs, i, |ys| - 1);
    }
  }

  /** Removing the element at position `i` leaves the other elements linked in
      their original order. */
  lemma Unlink2Removes(l: DList, xs: seq<Id>, i: nat)
    requires Represents(l, xs) && i < |xs|
    ensures xs[i] in l.next && xs[i] in l.prev
    ensures Represents(Unlink2(l, xs[i]), xs[..i] + xs[i + 1..])
  {
    var ys := xs[..i] + xs[i + 1..];
    forall a, b | 0 <= a < b < |ys|
      ensures ys[a] != ys[b]
    {
      RemovedAt(xs, i, a);
      RemovedAt(xs, i, b);
    }
    forall k | 0 <= k < |ys|
      ensures ys[k] in Unlink2(l, xs[i]).next && Unlink2(l, xs[i]).next[ys[k]] == After(ys, k)
      ensures ys[k] in Unlink2(l, xs[i]).prev && Unlink2(l, xs[i]).prev[ys[k]] == Before(ys, k)
    {
      Unlink2At(l, xs, i, k);
    }
    Unlink2Ends(l, xs, i);
  }

  /** Removing the only element empties the list. */
  lemma Unlink2Sole(l: DList, x: Id)
    requires Represents(l, [x])
    ensures Represents(Unlink2(l, x), [])
    ensures Unlink2(l, x).first == Null && Unlink2(l, x).last == Null
  {
    assert l.prev[x] == Before([x], 0);
    assert l.next[x] == After([x], 0);
  }
}
