/** Concrete runs of the closure pass. They show that the pass, although
    sound, does not compute the transitive closure when a relation is listed
    after the relation it should extend, and that its list may hold a pair
    twice (which the writer's deduplication absorbs). Nodes are written as
    small numbers. */
module ClosureExamples {
  import opened Interning
  import opened Store
  import opened Closure

  /** A visit that accepts the pair at the cursor, with the appended
      relations and the new ancestry spelled out. */
  lemma AcceptStep(st: PassState, i: nat, derived: seq<Reln>, anc': Ancestry)
    requires Inv(st, i) && i < |st.relns|
    requires st.relns[i].subj !in Ancestors(st.ancestry, st.relns[i].obj)
    requires Derive(Ancestors(st.ancestry, st.relns[i].subj), st.relns[i].obj) == derived
    requires anc' == st.ancestry[st.relns[i].obj := Ancestors(st.ancestry, st.relns[i].obj) + [st.relns[i].subj]]
    ensures Inv(PassState(st.relns + derived, anc'), i + 1)
    ensures Pass(st, i) == Pass(PassState(st.relns + derived, anc'), i + 1)
  {
    VisitAcceptState(st, i);
    PassStep(st, i);
  }

  /** A visit that skips the pair at the cursor. */
  lemma SkipStep(st: PassState, i: nat)
    requires Inv(st, i) && i < |st.relns|
    requires st.relns[i].subj in Ancestors(st.ancestry, st.relns[i].obj)
    ensures Inv(st, i + 1)
    ensures Pass(st, i) == Pass(st, i + 1)
  {
    VisitSkips(st, i);
    PassStep(st, i);
  }

  lemma DeriveNone(o: Node)
    ensures Derive([], o) == []
  {
  }

  lemma DeriveOne(w: Node, o: Node)
    ensures Derive([w], o) == [Reln(w, o)]
  {
  }

  lemma StartInv(rs: seq<Reln>)
    ensures Inv(PassState(rs, map[]), 0)
    ensures ClosePredicate(rs) == Pass(PassState(rs, map[]), 0)
  {
    assert Accepted(map[]) == {};
  }

  /** A chain listed in order is extended by its composition. */
  lemma ChainInOrder()
    ensures ClosePredicate([Reln(0, 1), Reln(1, 2)]).relns == [Reln(0, 1), Reln(1, 2), Reln(0, 2)]
  {
    hide Pass, Inv, Visit, Accepted, ClosePredicate, Nodes, JustifiedFrom, Derived, Pending, Square;
    var r0 := [Reln(0, 1), Reln(1, 2)];
    var r1 := r0 + [Reln(0, 2)];
    var a1: Ancestry := map[1 := [0]];
    var a2: Ancestry := map[1 := [0], 2 := [1]];
    var a3: Ancestry := map[1 := [0], 2 := [1, 0]];
    StartInv(r0);
    DeriveNone(1);
    assert Ancestors(map[], 1) + [0] == [0];
    assert map[][1 := [0]] == a1;
    assert r0 + [] == r0;
    AcceptStep(PassState(r0, map[]), 0, [], a1);
    assert Pass(PassState(r0, map[]), 0) == Pass(PassState(r0, a1), 1);
    DeriveOne(0, 2);
    assert Ancestors(a1, 2) + [1] == [1];
    AcceptStep(PassState(r0, a1), 1, [Reln(0, 2)], a2);
    assert Inv(PassState(r1, a2), 2);
    assert Pass(PassState(r0, a1), 1) == Pass(PassState(r1, a2), 2);
    DeriveNone(2);
    assert Ancestors(a2, 2) + [0] == [1, 0];
    assert a2[2 := [1, 0]] == a3;
    assert r1 + [] == r1;
    AcceptStep(PassState(r1, a2), 2, [], a3);
    assert Pass(PassState(r1, a2), 2) == Pass(PassState(r1, a3), 3);
    PassStep(PassState(r1, a3), 3);
    assert ClosePredicate(r0) == PassState(r1, a3);
    assert r1 == [Reln(0, 1), Reln(1, 2), Reln(0, 2)];
  }

  /** The same chain listed back to front gains nothing: `(0, 2)` is in the
      transitive closure of the input but not in the pass's result, which is
      therefore not transitively closed. */
  lemma ChainOutOfOrder()
    ensures ClosePredicate([Reln(1, 2), Reln(0, 1)]).relns == [Reln(1, 2), Reln(0, 1)]
    ensures Reaches(Elems([Reln(1, 2), Reln(0, 1)]), 0, 2)
    ensures !Closed(Elems(ClosePredicate([Reln(1, 2), Reln(0, 1)]).relns))
  {
    hide Pass, Inv, Visit, Accepted, ClosePredicate, Nodes, JustifiedFrom, Derived, Pending, Square;
    var r0 := [Reln(1, 2), Reln(0, 1)];
    var a1: Ancestry := map[2 := [1]];
    var a2: Ancestry := map[2 := [1], 1 := [0]];
    StartInv(r0);
    DeriveNone(2);
    assert Ancestors(map[], 2) + [1] == [1];
    assert map[][2 := [1]] == a1;
    assert r0 + [] == r0;
    AcceptStep(PassState(r0, map[]), 0, [], a1);
    DeriveNone(1);
    assert Ancestors(a1, 1) + [0] == [0];
    AcceptStep(PassState(r0, a1), 1, [], a2);
    PassStep(PassState(r0, a2), 2);
    assert ClosePredicate(r0) == PassState(r0, a2);
    var e := Elems(r0);
    assert Walk(e, [0, 1, 2]);
    assert Reln(0, 1) in e && Reln(1, 2) in e && Reln(0, 2) !in e;
  }

  /** The pass over a two-cycle appends `(0, 0)` and then `(1, 0)` a second
      time. */
  lemma TwoCycleRun()
    ensures ClosePredicate([Reln(0, 1), Reln(1, 0)]).relns
         == [Reln(0, 1), Reln(1, 0), Reln(0, 0), Reln(1, 0)]
  {
    hide Pass, Inv, Visit, Accepted, ClosePredicate, Nodes, JustifiedFrom, Derived, Pending, Square;
    var r0 := [Reln(0, 1), Reln(1, 0)];
    var r1 := r0 + [Reln(0, 0)];
    var r2 := r1 + [Reln(1, 0)];
    var a1: Ancestry := map[1 := [0]];
    var a2: Ancestry := map[1 := [0], 0 := [1]];
    var a3: Ancestry := map[1 := [0], 0 := [1, 0]];
    StartInv(r0);
    DeriveNone(1);
    assert Ancestors(map[], 1) + [0] == [0];
    assert map[][1 := [0]] == a1;
    assert r0 + [] == r0;
    AcceptStep(PassState(r0, map[]), 0, [], a1);
    DeriveOne(0, 0);
    assert Ancestors(a1, 0) + [1] == [1];
    AcceptStep(PassState(r0, a1), 1, [Reln(0, 0)], a2);
    DeriveOne(1, 0);
    assert Ancestors(a2, 0) + [0] == [1, 0];
    assert a2[0 := [1, 0]] == a3;
    AcceptStep(PassState(r1, a2), 2, [Reln(1, 0)], a3);
    SkipStep(PassState(r2, a3), 3);
    PassStep(PassState(r2, a3), 4);
    assert ClosePredicate(r0) == PassState(r2, a3);
    assert r2 == [Reln(0, 1), Reln(1, 0), Reln(0, 0), Reln(1, 0)];
  }

  /** A two-cycle yields `(0, 0)` but not `(1, 1)`, although `(1, 1)` is in
      the transitive closure of the input. */
  lemma TwoCycle()
    ensures Reln(0, 0) in ClosePredicate([Reln(0, 1), Reln(1, 0)]).relns
    ensures Reaches(Elems([Reln(0, 1), Reln(1, 0)]), 1, 1)
    ensures Reln(1, 1) !in ClosePredicate([Reln(0, 1), Reln(1, 0)]).relns
  {
    TwoCycleRun();
    hide ClosePredicate;
    var out := [Reln(0, 1), Reln(1, 0), Reln(0, 0), Reln(1, 0)];
    assert out[2] == Reln(0, 0);
    assert Walk(Elems([Reln(0, 1), Reln(1, 0)]), [1, 0, 1]);
  }
}
