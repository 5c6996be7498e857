/** The per-predicate closure pass of trans.c (`compute_transitive_closure_recursive`,
    `already_has_ancestor`, `free_ancestry_data`).

    The pass walks a predicate's relation list with a cursor while appending
    to the very list it walks. Each iri node carries an ancestor list
    (`first_ancestor` .. `last_ancestor`); the lists of all nodes together are
    the `Ancestry` map, absent keys standing for empty lists. Visiting a
    relation `(s, o)` that `o` has not yet accepted appends `(w, o)` for every
    current ancestor `w` of `s` and then accepts `s` as an ancestor of `o`.

    The pass is sound (everything it appends follows from the input by
    transitivity) but it is not a full transitive closure: the ancestors of
    `s` are copied to `o` only when `(s, o)` is first visited (see
    closure_examples.dfy). */
module Closure {
  import opened Interning
  import opened Store

  /** The ancestor lists of the iri nodes, keyed by node. */
  type Ancestry = map<Node, seq<Node>>

  /** The pass's state: the predicate's (growing) relation list and the
      ancestor lists. */
  datatype PassState = PassState(relns: seq<Reln>, ancestry: Ancestry)

  /** The ancestor list of node `o`; empty when `o` has none. */
  function Ancestors(anc: Ancestry, o: Node): seq<Node> {
    if o in anc then anc[o] else []
  }

  /** A linear search of a list, front to back. */
  function Contains(ws: seq<Node>, x: Node): (r: bool)
    ensures r <==> x in ws
  {
    if |ws| == 0 then false else ws[0] == x || Contains(ws[1..], x)
  }

  /** `already_has_ancestor(obj, subj)`. */
  function AlreadyHasAncestor(anc: Ancestry, obj: Node, subj: Node): (r: bool)
    ensures r <==> subj in Ancestors(anc, obj)
  {
    Contains(Ancestors(anc, obj), subj)
  }

  /** The relations the inner loop creates: `(w, obj)` for each `w` of the
      ancestor list `ws`, in list order. */
  function Derive(ws: seq<Node>, obj: Node): (r: seq<Reln>)
    ensures |r| == |ws|
    ensures forall k | 0 <= k < |ws| :: r[k].subj == ws[k] && r[k].obj == obj
  {
    if |ws| == 0 then [] else [Reln(ws[0], obj)] + Derive(ws[1..], obj)
  }

  /** One iteration of the outer loop, on the relation at the cursor `i`. */
  function Visit(st: PassState, i: nat): PassState
    requires i < |st.relns|
  {
    var r := st.relns[i];
    if AlreadyHasAncestor(st.ancestry, r.obj, r.subj) then st
    else PassState(st.relns + Derive(Ancestors(st.ancestry, r.subj), r.obj),
                   st.ancestry[r.obj := Ancestors(st.ancestry, r.obj) + [r.subj]])
  }

  /** The pairs accepted so far: `(s, o)` for each `s` on `o`'s list. */
  function Accepted(anc: Ancestry): set<Reln> {
    set o, s | o in anc && s in anc[o] :: Reln(s, o)
  }

  /** The relations of a list, as a set. */
  function Elems(rs: seq<Reln>): set<Reln> {
    set r | r in rs
  }

  /** The nodes a list of relations mentions. */
  function Nodes(rs: seq<Reln>): set<Node> {
    (set r | r in rs :: r.subj) + (set r | r in rs :: r.obj)
  }

  /** All relations between nodes of `u`. */
  function Square(u: set<Node>): set<Reln> {
    set a, b | a in u && b in u :: Reln(a, b)
  }

  predicate Distinct(ws: seq<Node>) {
    forall i, j | 0 <= i < j < |ws| :: ws[i] != ws[j]
  }

  /** The invariant of the outer loop at cursor `i`: the accepted pairs are
      exactly the relations visited so far, no list repeats a node, and only
      nodes with an accepted pair have a list. */
  predicate Inv(st: PassState, i: nat) {
    && i <= |st.relns|
    && Accepted(st.ancestry) == Elems(st.relns[..i])
    && forall o | o in st.ancestry :: |st.ancestry[o]| > 0 && Distinct(st.ancestry[o])
  }

  /** The pairs over the list's nodes not yet accepted: the first component
      of the pass's termination measure. */
  function Pending(st: PassState): nat {
    |Square(Nodes(st.relns)) - Accepted(st.ancestry)|
  }

  /** Relation `k` of `rs` composes two earlier relations of `rs`. */
  predicate Derived(rs: seq<Reln>, k: nat)
    requires k < |rs|
  {
    exists j1, j2 | 0 <= j1 < k && 0 <= j2 < k ::
      rs[j1].obj == rs[j2].subj && rs[k] == Reln(rs[j1].subj, rs[j2].obj)
  }

  /** Every relation of `rs` from position `n` on composes earlier ones. */
  predicate JustifiedFrom(rs: seq<Reln>, n: nat) {
    forall k | n <= k < |rs| :: Derived(rs, k)
  }

  lemma AcceptedMember(anc: Ancestry, s: Node, o: Node)
    ensures Reln(s, o) in Accepted(anc) <==> s in Ancestors(anc, o)
  {
  }

  /** Accepting `s` for `o` adds exactly the pair `(s, o)`. */
  lemma AcceptedAdd(anc: Ancestry, o: Node, s: Node)
    ensures Accepted(anc[o := Ancestors(anc, o) + [s]]) == Accepted(anc) + {Reln(s, o)}
  {
    var anc' := anc[o := Ancestors(anc, o) + [s]];
    forall x | x in Accepted(anc')
      ensures x in Accepted(anc) + {Reln(s, o)}
    {
      AcceptedMember(anc', x.subj, x.obj);
      AcceptedMember(anc, x.subj, x.obj);
    }
    forall x | x in Accepted(anc) + {Reln(s, o)}
      ensures x in Accepted(anc')
    {
      AcceptedMember(anc', x.subj, x.obj);
      AcceptedMember(anc, x.subj, x.obj);
    }
  }

  /** A relation's nodes are nodes of the list. */
  lemma InSquare(rs: seq<Reln>, r: Reln)
    requires r in rs
    ensures r in Square(Nodes(rs))
  {
  }

  /** Accepting a new pair inside the square shrinks what is pending. */
  lemma PendingShrinks(sq: set<Reln>, a: set<Reln>, p: Reln)
    requires p in sq && p !in a
    ensures |sq - (a + {p})| < |sq - a|
  {
    assert sq - a == (sq - (a + {p})) + {p};
  }

  /** Derived relations keep their witnesses when the list grows. */
  lemma JustifiedGrow(rs: seq<Reln>, rs': seq<Reln>, n: nat)
    requires JustifiedFrom(rs, n) && rs <= rs'
    ensures forall k | n <= k < |rs| :: Derived(rs', k)
  {
    forall k | n <= k < |rs|
      ensures Derived(rs', k)
    {
      assert Derived(rs, k);
      var j1, j2 :| 0 <= j1 < k && 0 <= j2 < k
                    && rs[j1].obj == rs[j2].subj && rs[k] == Reln(rs[j1].subj, rs[j2].obj);
      assert rs'[j1] == rs[j1] && rs'[j2] == rs[j2] && rs'[k] == rs[k];
    }
  }

  /** The visit of a relation already accepted changes nothing. */
  lemma VisitSkips(st: PassState, i: nat)
    requires Inv(st, i) && i < |st.relns|
    requires st.relns[i].subj in Ancestors(st.ancestry, st.relns[i].obj)
    ensures Visit(st, i) == st
    ensures Inv(st, i + 1)
  {
    var r := st.relns[i];
    AcceptedMember(st.ancestry, r.subj, r.obj);
    assert st.relns[..i + 1] == st.relns[..i] + [r];
  }

  /** What a visit that accepts `(s, o)` appends is justified by `(w, s)`,
      visited earlier, and `(s, o)` itself. */
  lemma VisitAppendsDerived(st: PassState, i: nat)
    requires Inv(st, i) && i < |st.relns|
    ensures var r := st.relns[i];
            var rs' := st.relns + Derive(Ancestors(st.ancestry, r.subj), r.obj);
            && JustifiedFrom(rs', |st.relns|)
            && Nodes(rs') == Nodes(st.relns)
  {
    var r := st.relns[i];
    var ws := Ancestors(st.ancestry, r.subj);
    var rs' := st.relns + Derive(ws, r.obj);
    forall k | |st.relns| <= k < |rs'|
      ensures Derived(rs', k) && rs'[k].subj in Nodes(st.relns) && rs'[k].obj in Nodes(st.relns)
    {
      var w := ws[k - |st.relns|];
      assert rs'[k] == Reln(w, r.obj);
      AcceptedMember(st.ancestry, w, r.subj);
      assert Reln(w, r.subj) in st.relns[..i];
      var j1 :| 0 <= j1 < i && st.relns[j1] == Reln(w, r.subj);
      assert rs'[j1] == st.relns[j1] && rs'[i] == r;
    }
    forall x | x in Nodes(rs')
      ensures x in Nodes(st.relns)
    {
      var q :| q in rs' && (x == q.subj || x == q.obj);
      if q !in st.relns {
        var k :| 0 <= k < |rs'| && rs'[k] == q;
      }
    }
  }

  /** Appending a node a list does not hold keeps it free of repetition. */
  lemma DistinctSnoc(ws: seq<Node>, x: Node)
    requires Distinct(ws) && x !in ws
    ensures Distinct(ws + [x])
  {
  }

  /** The lists after accepting `s` for `o` are non-empty and free of
      repetition. */
  lemma ListsAfterAccept(anc: Ancestry, o: Node, s: Node)
    requires forall x | x in anc :: |anc[x]| > 0 && Distinct(anc[x])
    requires s !in Ancestors(anc, o)
    ensures var anc' := anc[o := Ancestors(anc, o) + [s]];
            forall x | x in anc' :: |anc'[x]| > 0 && Distinct(anc'[x])
  {
    DistinctSnoc(Ancestors(anc, o), s);
  }

  /** The first `i + 1` relations of a list that extends `rs`. */
  lemma ElemsSnoc(rs: seq<Reln>, rs': seq<Reln>, i: nat)
    requires i < |rs| && rs <= rs'
    ensures Elems(rs'[..i + 1]) == Elems(rs[..i]) + {rs[i]}
  {
    assert rs'[..i + 1] == rs[..i] + [rs[i]];
  }

  /** The state after a visit that accepts `(s, o)`. */
  lemma VisitAcceptState(st: PassState, i: nat)
    requires i < |st.relns|
    requires st.relns[i].subj !in Ancestors(st.ancestry, st.relns[i].obj)
    ensures var r := st.relns[i];
            && Visit(st, i).relns == st.relns + Derive(Ancestors(st.ancestry, r.subj), r.obj)
            && Visit(st, i).ancestry == st.ancestry[r.obj := Ancestors(st.ancestry, r.obj) + [r.subj]]
  {
  }

  /** A visit that accepts a new pair keeps the invariant. */
  lemma VisitAcceptsInv(st: PassState, i: nat)
    requires Inv(st, i) && i < |st.relns|
    requires st.relns[i].subj !in Ancestors(st.ancestry, st.relns[i].obj)
    ensures Inv(Visit(st, i), i + 1)
  {
    var r := st.relns[i];
    VisitAcceptState(st, i);
    AcceptedAdd(st.ancestry, r.obj, r.subj);
    ListsAfterAccept(st.ancestry, r.obj, r.subj);
    ElemsSnoc(st.relns, Visit(st, i).relns, i);
  }

  /** A visit that accepts a new pair shrinks what is pending. */
  lemma VisitAcceptsPending(st: PassState, i: nat)
    requires Inv(st, i) && i < |st.relns|
    requires st.relns[i].subj !in Ancestors(st.ancestry, st.relns[i].obj)
    ensures Pending(Visit(st, i)) < Pending(st)
  {
    var r := st.relns[i];
    VisitAcceptState(st, i);
    VisitAppendsDerived(st, i);
    AcceptedAdd(st.ancestry, r.obj, r.subj);
    AcceptedMember(st.ancestry, r.subj, r.obj);
    InSquare(st.relns, r);
    PendingShrinks(Square(Nodes(st.relns)), Accepted(st.ancestry), r);
  }

  /** A visit keeps the invariant, only appends, keeps the list's nodes,
      justifies what it appends and either changes nothing or accepts a new
      pair. */
  lemma VisitKeeps(st: PassState, i: nat)
    requires Inv(st, i) && i < |st.relns|
    ensures Inv(Visit(st, i), i + 1)
    ensures st.relns <= Visit(st, i).relns
    ensures Nodes(Visit(st, i).relns) == Nodes(st.relns)
    ensures JustifiedFrom(Visit(st, i).relns, |st.relns|)
    ensures Visit(st, i) == st || Pending(Visit(st, i)) < Pending(st)
  {
    var r := st.relns[i];
    VisitAppendsDerived(st, i);
    if r.subj in Ancestors(st.ancestry, r.obj) {
      VisitSkips(st, i);
    } else {
      VisitAcceptsInv(st, i);
      VisitAcceptsPending(st, i);
    }
  }

  /** The outer loop of `compute_transitive_closure_recursive` from cursor
      `i` to the end of the (growing) list. It terminates because each visit
      either moves the cursor over an accepted pair or accepts a new pair
      among the finitely many over the list's nodes. */
  function Pass(st: PassState, i: nat): (r: PassState)
    requires Inv(st, i)
    ensures st.relns <= r.relns
    ensures Inv(r, |r.relns|)
    ensures Nodes(r.relns) == Nodes(st.relns)
    ensures JustifiedFrom(r.relns, |st.relns|)
    decreases Pending(st), |st.relns| - i
  {
    if i == |st.relns| then st
    else
      VisitKeeps(st, i);
      var r := Pass(Visit(st, i), i + 1);
      JustifiedGrow(Visit(st, i).relns, r.relns, |st.relns|);
      r
  }

  /** The pass over one predicate's list, starting from empty ancestor lists. */
  function ClosePredicate(rs: seq<Reln>): (r: PassState)
    ensures rs <= r.relns
    ensures Inv(r, |r.relns|)
    ensures Nodes(r.relns) == Nodes(rs)
    ensures JustifiedFrom(r.relns, |rs|)
  {
    assert Accepted(map[]) == {};
    Pass(PassState(rs, map[]), 0)
  }

  /** `p` is a walk of at least one step along relations of `e`. */
  predicate Walk(e: set<Reln>, p: seq<Node>) {
    |p| >= 2 && forall m | 0 <= m < |p| - 1 :: Reln(p[m], p[m + 1]) in e
  }

  /** `(a, b)` is in the transitive closure of `e`. */
  ghost predicate Reaches(e: set<Reln>, a: Node, b: Node) {
    exists p :: Walk(e, p) && p[0] == a && p[|p| - 1] == b
  }

  /** `e` is transitively closed. */
  predicate Closed(e: set<Reln>) {
    forall x, y | x in e && y in e && x.obj == y.subj :: Reln(x.subj, y.obj) in e
  }

  lemma WalkJoin(e: set<Reln>, p: seq<Node>, q: seq<Node>)
    requires Walk(e, p) && Walk(e, q) && p[|p| - 1] == q[0]
    ensures Walk(e, p + q[1..])
  {
    var pq := p + q[1..];
    forall m | 0 <= m < |pq| - 1
      ensures Reln(pq[m], pq[m + 1]) in e
    {
      if m < |p| - 1 {
        assert pq[m] == p[m] && pq[m + 1] == p[m + 1];
      } else {
        assert pq[m] == q[m - |p| + 1] && pq[m + 1] == q[m - |p| + 2];
      }
    }
  }

  /** Every relation of a list justified from position `n` on is in the
      transitive closure of the first `n` relations. */
  lemma {:induction false} SoundAt(rs: seq<Reln>, n: nat, k: nat)
    requires JustifiedFrom(rs, n) && n <= |rs| && k < |rs|
    ensures Reaches(Elems(rs[..n]), rs[k].subj, rs[k].obj)
    decreases k
  {
    var e := Elems(rs[..n]);
    if k < n {
      assert rs[k] in rs[..n];
      assert Walk(e, [rs[k].subj, rs[k].obj]);
    } else {
      assert Derived(rs, k);
      var j1, j2 :| 0 <= j1 < k && 0 <= j2 < k
                    && rs[j1].obj == rs[j2].subj && rs[k] == Reln(rs[j1].subj, rs[j2].obj);
      SoundAt(rs, n, j1);
      SoundAt(rs, n, j2);
      var p :| Walk(e, p) && p[0] == rs[j1].subj && p[|p| - 1] == rs[j1].obj;
      var q :| Walk(e, q) && q[0] == rs[j2].subj && q[|q| - 1] == rs[j2].obj;
      WalkJoin(e, p, q);
      assert (p + q[1..])[0] == rs[k].subj;
      assert (p + q[1..])[|p + q[1..]| - 1] == rs[k].obj;
    }
  }

  /** Soundness: every relation the pass leaves in the list is in the
      transitive closure of the input list. */
  lemma ClosureSound(rs: seq<Reln>, r: Reln)
    requires r in ClosePredicate(rs).relns
    ensures Reaches(Elems(rs), r.subj, r.obj)
  {
    var out := ClosePredicate(rs).relns;
    var k :| 0 <= k < |out| && out[k] == r;
    SoundAt(out, |rs|, k);
    assert out[..|rs|] == rs;
  }

  /** The pass adds nothing to an empty list, and never empties a list. */
  lemma CloseEmpty(rs: seq<Reln>)
    ensures ClosePredicate(rs).relns == [] <==> rs == []
  {
    var out := ClosePredicate(rs).relns;
    if rs == [] {
      assert Nodes(rs) == {};
    }
  }

  /** In a closed set every walk is short-cut by a single relation. */
  lemma {:induction false} ClosedWalk(e: set<Reln>, p: seq<Node>)
    requires Closed(e) && Walk(e, p)
    ensures Reln(p[0], p[|p| - 1]) in e
    decreases |p|
  {
    if |p| > 2 {
      var p' := p[..|p| - 1];
      assert Walk(e, p');
      ClosedWalk(e, p');
      var x := Reln(p[0], p[|p| - 2]);
      var y := Reln(p[|p| - 2], p[|p| - 1]);
      assert x in e && y in e && x.obj == y.subj;
    }
  }

  /** An input that is already transitively closed gains no new pair. */
  lemma ClosedGainsNothing(rs: seq<Reln>)
    requires Closed(Elems(rs))
    ensures Elems(ClosePredicate(rs).relns) == Elems(rs)
  {
    var out := ClosePredicate(rs).relns;
    forall r | r in out
      ensures r in rs
    {
      ClosureSound(rs, r);
      var p :| Walk(Elems(rs), p) && p[0] == r.subj && p[|p| - 1] == r.obj;
      ClosedWalk(Elems(rs), p);
    }
    forall r | r in rs
      ensures r in out
    {
      var k :| 0 <= k < |rs| && rs[k] == r;
      assert out[k] == r;
    }
  }

  /** Before cleanup, each node's ancestor list holds exactly the subjects
      of the final list's relations with that node as object, each once. */
  lemma AncestryExact(rs: seq<Reln>, s: Node, o: Node)
    ensures s in Ancestors(ClosePredicate(rs).ancestry, o) <==> Reln(s, o) in ClosePredicate(rs).relns
    ensures Distinct(Ancestors(ClosePredicate(rs).ancestry, o))
  {
    var r := ClosePredicate(rs);
    AcceptedMember(r.ancestry, s, o);
    assert r.relns[..|r.relns|] == r.relns;
  }

  /** Visiting the first occurrence of `(s, o)` appends `(a, o)` for every
      `(a, s)` visited before it. */
  lemma VisitComposes(st: PassState, i: nat, j1: nat)
    requires Inv(st, i) && j1 < i < |st.relns|
    requires st.relns[j1].obj == st.relns[i].subj && st.relns[i] !in st.relns[..i]
    ensures Reln(st.relns[j1].subj, st.relns[i].obj) in Visit(st, i).relns
  {
    var a, s, o := st.relns[j1].subj, st.relns[i].subj, st.relns[i].obj;
    AcceptedMember(st.ancestry, s, o);
    AcceptedMember(st.ancestry, a, s);
    assert st.relns[j1] in st.relns[..i];
    VisitAcceptState(st, i);
    var ws := Ancestors(st.ancestry, s);
    var m :| 0 <= m < |ws| && ws[m] == a;
    assert Visit(st, i).relns[|st.relns| + m] == Reln(a, o);
  }

  /** One unfolding of `Pass`. */
  lemma PassStep(st: PassState, i: nat)
    requires Inv(st, i)
    ensures i <= |st.relns|
    ensures i == |st.relns| ==> Pass(st, i) == st
    ensures i < |st.relns| ==> Inv(Visit(st, i), i + 1) && Pass(st, i) == Pass(Visit(st, i), i + 1)
  {
    if i < |st.relns| {
      VisitKeeps(st, i);
    }
  }

  /** One step of transitivity the pass does guarantee: if `(a, s)` sits
      before the first occurrence of `(s, o)` in the final list, `(a, o)` is
      in the final list too. */
  lemma {:induction false} PassComposes(st: PassState, i: nat, j1: nat, j2: nat)
    requires Inv(st, i) && i <= j2 && j1 < j2 < |Pass(st, i).relns|
    requires Pass(st, i).relns[j1].obj == Pass(st, i).relns[j2].subj
    requires forall j | 0 <= j < j2 :: Pass(st, i).relns[j] != Pass(st, i).relns[j2]
    ensures Reln(Pass(st, i).relns[j1].subj, Pass(st, i).relns[j2].obj) in Pass(st, i).relns
    decreases Pending(st), |st.relns| - i
  {
    hide Pass, Visit, Inv, Pending, Square, Nodes, Accepted, Elems;
    var out := Pass(st, i).relns;
    PassStep(st, i);
    if i == |st.relns| {
      assert false;
    } else {
      VisitKeeps(st, i);
      var st' := Visit(st, i);
      if i < j2 {
        PassComposes(st', i + 1, j1, j2);
      } else {
        assert st.relns[j2] == out[j2] && st.relns[j1] == out[j1];
        assert st.relns[j2] !in st.relns[..j2];
        VisitComposes(st, i, j1);
        assert st'.relns <= out;
      }
    }
  }

  /** `PassComposes` for a whole predicate's pass. */
  lemma ClosureComposes(rs: seq<Reln>, j1: nat, j2: nat)
    requires j1 < j2 < |ClosePredicate(rs).relns|
    requires ClosePredicate(rs).relns[j1].obj == ClosePredicate(rs).relns[j2].subj
    requires forall j | 0 <= j < j2 :: ClosePredicate(rs).relns[j] != ClosePredicate(rs).relns[j2]
    ensures Reln(ClosePredicate(rs).relns[j1].subj, ClosePredicate(rs).relns[j2].obj)
            in ClosePredicate(rs).relns
  {
    assert Accepted(map[]) == {};
    PassComposes(PassState(rs, map[]), 0, j1, j2);
  }

  /** The nodes that are objects of relations in `rs`. */
  function Objects(rs: seq<Reln>): set<Node> {
    set r | r in rs :: r.obj
  }

  /** `free_ancestry_data`: empty the ancestor list of every relation's
      object, front to back. */
  function FreeAncestry(rs: seq<Reln>, anc: Ancestry): (r: Ancestry)
    ensures forall o :: o in r <==> o in anc && o !in Objects(rs)
    ensures forall o | o in r :: r[o] == anc[o]
  {
    if |rs| == 0 then anc
    else
      assert forall o :: o in Objects(rs) <==> o == rs[0].obj || o in Objects(rs[1..]);
      FreeAncestry(rs[1..], anc - {rs[0].obj})
  }

  /** After a pass, freeing the ancestry of its list leaves no ancestor list
      at all, so the next predicate's pass starts from empty lists. */
  lemma FreeAfterPass(rs: seq<Reln>)
    ensures FreeAncestry(ClosePredicate(rs).relns, ClosePredicate(rs).ancestry) == map[]
  {
    var r := ClosePredicate(rs);
    var freed := FreeAncestry(r.relns, r.ancestry);
    forall o | o in r.ancestry
      ensures o in Objects(r.relns)
    {
      var s := r.ancestry[o][0];
      AcceptedMember(r.ancestry, s, o);
      assert r.relns[..|r.relns|] == r.relns;
      assert Reln(s, o) in r.relns;
    }
    assert freed.Keys == {};
  }

  /** `compute_transitive_closure`: every predicate node, in tree order,
      whose list is not empty gets a pass, and its ancestry is freed
      afterwards. The ancestor lists are shared by all predicates (they hang
      off the iri nodes), yet each predicate ends up with exactly the list its
      own pass yields. */
  method CloseAll(st: Store) returns (closed: Store)
    requires ValidStore(st)
    ensures ValidStore(closed)
    ensures closed.iris == st.iris && closed.predicates == st.predicates
    ensures forall p: Node :: Relns(closed, p) == ClosePredicate(Relns(st, p)).relns
  {
    var anc: Ancestry := map[];
    closed := st;
    var p := 0;
    while p < |st.predicates.texts|
      invariant p <= |st.predicates.texts|
      invariant anc == map[]
      invariant ValidStore(closed)
      invariant closed.iris == st.iris && closed.predicates == st.predicates
      invariant forall q: Node :: q < p ==> Relns(closed, q) == ClosePredicate(Relns(st, q)).relns
      invariant forall q: Node :: q >= p ==> Relns(closed, q) == Relns(st, q)
    {
      var rs := Relns(st, p);
      if rs != [] {
        var done := Pass(PassState(rs, anc), 0);
        assert done == ClosePredicate(rs);
        FreeAfterPass(rs);
        anc := FreeAncestry(done.relns, done.ancestry);
        assert p in st.relns;
        closed := SetRelns(closed, p, done.relns);
      } else {
        assert ClosePredicate(rs).relns == [] by {
          assert Nodes(ClosePredicate(rs).relns) == {};
        }
      }
      p := p + 1;
    }
    forall q: Node | q >= |st.predicates.texts|
      ensures Relns(st, q) == [] && ClosePredicate([]).relns == []
    {
      assert Nodes(ClosePredicate([]).relns) == {};
    }
  }

  /** Replace the list of predicate node `p`. */
  function SetRelns(st: Store, p: Node, rs: seq<Reln>): (st': Store)
    requires ValidStore(st) && p in st.relns && Nodes(rs) <= Nodes(st.relns[p])
    ensures ValidStore(st')
    ensures Relns(st', p) == rs
    ensures forall q | q != p :: Relns(st', q) == Relns(st, q)
    ensures st'.iris == st.iris && st'.predicates == st.predicates
  {
    assert NodesIn(st.iris, rs) by {
      forall r | r in rs
        ensures r.subj < |st.iris.texts| && r.obj < |st.iris.texts|
      {
        assert r.subj in Nodes(st.relns[p]) && r.obj in Nodes(st.relns[p]);
      }
    }
    st.(relns := st.relns[p := rs])
  }
}
