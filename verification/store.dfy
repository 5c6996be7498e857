/** The program's state between parsing and closing: the `iris` and
    `predicates` interning trees and, for each predicate node, its list of
    relations (`first_reln` .. `last_reln` in trans.h). The global roots of the
    C program are threaded here as an explicit value. */
module Store {
  import opened Results
  import opened Interning
  import Parser

  /** `reln`: a relation from a subject node to an object node, both nodes of
      the `iris` tree. */
  datatype Reln = Reln(subj: Node, obj: Node)

  datatype Store = Store(iris: Tree, predicates: Tree, relns: map<Node, seq<Reln>>)

  /** The relation list hanging off predicate node `p`; empty when none was
      ever appended. */
  function Relns(st: Store, p: Node): seq<Reln> {
    if p in st.relns then st.relns[p] else []
  }

  /** Every relation uses nodes of the `iris` tree. */
  predicate NodesIn(iris: Tree, rs: seq<Reln>) {
    forall r | r in rs :: r.subj < |iris.texts| && r.obj < |iris.texts|
  }

  predicate ValidStore(st: Store) {
    && Valid(st.iris) && Valid(st.predicates)
    && (forall p | p in st.relns :: p < |st.predicates.texts| && NodesIn(st.iris, st.relns[p]))
  }

  /** `initialize`: two blank trees and no relation. */
  function Initial(): (st: Store)
    ensures ValidStore(st)
    ensures forall p: Node :: Relns(st, p) == []
  {
    Store(Blank(), Blank(), map[])
  }

  /** `add_reln`: append `r` to the relation list of predicate node `p` (the
      `LINK2` tail append; see `Links.Link2Appends`). */
  function AddReln(st: Store, p: Node, r: Reln): (st': Store)
    ensures Relns(st', p) == Relns(st, p) + [r]
    ensures forall q | q != p :: Relns(st', q) == Relns(st, q)
    ensures st'.relns.Keys == st.relns.Keys + {p}
    ensures st'.iris == st.iris && st'.predicates == st.predicates
  {
    st.(relns := st.relns[p := Relns(st, p) + [r]])
  }

  /** What the parser does once a line is complete: `set_iri` interns the
      subject, the predicate and the object into `iris` (in that order), the
      predicate is also interned into `predicates`, and `add_reln` files the
      relation under the predicate's node. */
  function AddTriple(st: Store, t: Parser.Triple): (st': Store)
    requires ValidStore(st)
    ensures ValidStore(st')
    ensures st.iris.texts <= st'.iris.texts && st.predicates.texts <= st'.predicates.texts
    ensures forall x :: x in st'.iris.texts <==> x in st.iris.texts || x == t.subj || x == t.pred || x == t.obj
    ensures forall x :: x in st'.predicates.texts <==> x in st.predicates.texts || x == t.pred
  {
    var s := Intern(st.iris, t.subj);
    var p := Intern(s.tree, t.pred);
    var o := Intern(p.tree, t.obj);
    var q := Intern(st.predicates, t.pred);
    var st1 := st.(iris := o.tree, predicates := q.tree);
    assert forall k | k in st.relns :: NodesIn(o.tree, st.relns[k]) by {
      forall k | k in st.relns
        ensures NodesIn(o.tree, st.relns[k])
      {
        NodesGrow(st.iris, o.tree, st.relns[k]);
      }
    }
    AddReln(st1, q.node, Reln(s.node, o.node))
  }

  lemma NodesGrow(iris: Tree, iris': Tree, rs: seq<Reln>)
    requires NodesIn(iris, rs) && |iris.texts| <= |iris'.texts|
    ensures NodesIn(iris', rs)
  {
  }

  /** `parse_triples_file` as far as the store goes: every parsed triple, in
      input order, goes through `AddTriple`. */
  function Load(ts: seq<Parser.Triple>): (st: Store)
    ensures ValidStore(st)
  {
    if |ts| == 0 then Initial() else AddTriple(Load(ts[..|ts| - 1]), ts[|ts| - 1])
  }

  /** The texts of an unfinished line that `set_iri` has already interned:
      the subject once the blanks after it are read, then the predicate. */
  function PendingTexts(f: Parser.Field): seq<string> {
    match f
    case Subject => []
    case Predicate(subj) => [subj]
    case Object(subj, pred) => [subj, pred]
  }

  /** The interning a line cut short by the end of the input leaves behind:
      its delimited subject and predicate go into `iris` and its predicate
      into `predicates`, but no relation is filed. */
  function AddPending(st: Store, f: Parser.Field): (st': Store)
    requires ValidStore(st)
    ensures ValidStore(st')
    ensures st'.relns == st.relns
    ensures st.iris.texts <= st'.iris.texts && st.predicates.texts <= st'.predicates.texts
    ensures forall x :: x in st'.iris.texts <==> x in st.iris.texts || x in PendingTexts(f)
    ensures forall x :: x in st'.predicates.texts <==> x in st.predicates.texts || (f.Object? && x == f.pred)
  {
    var iris := match f
      case Subject => st.iris
      case Predicate(subj) => Intern(st.iris, subj).tree
      case Object(subj, pred) => Intern(Intern(st.iris, subj).tree, pred).tree;
    var predicates := if f.Object? then Intern(st.predicates, f.pred).tree else st.predicates;
    assert forall k | k in st.relns :: NodesIn(iris, st.relns[k]) by {
      forall k | k in st.relns
        ensures NodesIn(iris, st.relns[k])
      {
        NodesGrow(st.iris, iris, st.relns[k]);
      }
    }
    st.(iris := iris, predicates := predicates)
  }

  /** `parse_triples_file` on a whole input, as far as the store goes: the
      parse error, or the store holding every completed statement, with the
      texts of an unfinished last line interned as well. */
  function LoadInput(input: string): (r: Result<Store, Parser.ParseError>)
    ensures r.Success? <==> Parser.Parse(input).Success?
    ensures r.Failure? ==> r.error == Parser.Parse(input).error
    ensures r.Success? ==> ValidStore(r.value) && r.value.relns == Load(Parser.Parse(input).value).relns
    ensures r.Success? ==> Load(Parser.Parse(input).value).iris.texts <= r.value.iris.texts
    ensures r.Success? ==> Load(Parser.Parse(input).value).predicates.texts <= r.value.predicates.texts
    ensures r.Success? ==> forall x :: x in r.value.iris.texts <==>
              (exists t | t in Parser.Parse(input).value :: x == t.subj || x == t.pred || x == t.obj)
              || x in PendingTexts(Parser.Unfinished(input))
    ensures r.Success? ==> forall x :: x in r.value.predicates.texts <==>
              (exists t | t in Parser.Parse(input).value :: t.pred == x)
              || (Parser.Unfinished(input).Object? && x == Parser.Unfinished(input).pred)
  {
    hide Load, AddTriple, AddPending, Parser.Next, Parser.Run, Parser.Finish;
    Parser.FinishRun(Parser.Start(input));
    match Parser.Finish(Parser.Start(input))
    case Failure(e) => Failure(e)
    case Success(sc) =>
      var ts := sc.triples;
      assert Parser.Parse(input).value == ts && Parser.Unfinished(input) == sc.field;
      LoadTexts(ts);
      var st := AddPending(Load(ts), sc.field);
      assert forall x :: x in st.iris.texts <==> x in Load(ts).iris.texts || x in PendingTexts(sc.field);
      Success(st)
  }

  /** The relations of `rs` spelled out as triples with predicate `pred`. */
  function Spell(iris: Tree, pred: string, rs: seq<Reln>): (ts: seq<Parser.Triple>)
    requires NodesIn(iris, rs)
    ensures |ts| == |rs|
    ensures forall k | 0 <= k < |rs| ::
              ts[k] == Parser.Triple(iris.texts[rs[k].subj], pred, iris.texts[rs[k].obj])
  {
    if |rs| == 0 then []
    else Spell(iris, pred, rs[..|rs| - 1])
         + [Parser.Triple(iris.texts[rs[|rs| - 1].subj], pred, iris.texts[rs[|rs| - 1].obj])]
  }

  /** The triples the store holds for the predicate written `pred`, in list
      order; none when `pred` was never interned. */
  function Holds(st: Store, pred: string): seq<Parser.Triple>
    requires ValidStore(st)
  {
    match Lookup(st.predicates.texts, pred)
    case None => []
    case Some(p) => Spell(st.iris, pred, Relns(st, p))
  }

  /** The triples of `ts` whose predicate is `pred`, in input order. */
  function Filter(ts: seq<Parser.Triple>, pred: string): (r: seq<Parser.Triple>)
    ensures forall t :: t in r <==> t in ts && t.pred == pred
  {
    if |ts| == 0 then []
    else Filter(ts[..|ts| - 1], pred) + (if ts[|ts| - 1].pred == pred then [ts[|ts| - 1]] else [])
  }

  /** A text already held by a tree keeps its node when the tree grows. */
  lemma LookupStable(t: Tree, t': Tree, s: string)
    requires Valid(t) && Valid(t') && t.texts <= t'.texts && s in t.texts
    ensures Lookup(t'.texts, s) == Lookup(t.texts, s)
  {
    var n := Lookup(t.texts, s).value;
    var m := Lookup(t'.texts, s).value;
    ReconstructInjective(t', n, m);
  }

  /** Spelling is unaffected by growing the `iris` tree. */
  lemma SpellStable(iris: Tree, iris': Tree, pred: string, rs: seq<Reln>)
    requires NodesIn(iris, rs) && iris.texts <= iris'.texts
    ensures NodesIn(iris', rs)
    ensures Spell(iris', pred, rs) == Spell(iris, pred, rs)
  {
  }

  /** Where `AddTriple` files its relation: under the predicate's node `p`,
      as a relation `r` that spells the triple. */
  lemma AddTripleFiles(st: Store, t: Parser.Triple) returns (p: Node, r: Reln)
    requires ValidStore(st)
    ensures Lookup(AddTriple(st, t).predicates.texts, t.pred) == Some(p)
    ensures t.pred in st.predicates.texts ==> Lookup(st.predicates.texts, t.pred) == Some(p)
    ensures t.pred !in st.predicates.texts ==> Relns(st, p) == []
    ensures Relns(AddTriple(st, t), p) == Relns(st, p) + [r]
    ensures forall q | q != p :: Relns(AddTriple(st, t), q) == Relns(st, q)
    ensures NodesIn(AddTriple(st, t).iris, [r])
    ensures AddTriple(st, t).iris.texts[r.subj] == t.subj && AddTriple(st, t).iris.texts[r.obj] == t.obj
  {
    var st' := AddTriple(st, t);
    var s := Intern(st.iris, t.subj);
    var pi := Intern(s.tree, t.pred);
    var o := Intern(pi.tree, t.obj);
    var q := Intern(st.predicates, t.pred);
    p, r := q.node, Reln(s.node, o.node);
    ReconstructInjective(st'.predicates, q.node, Lookup(st'.predicates.texts, t.pred).value);
    if t.pred in st.predicates.texts {
      ReconstructInjective(st.predicates, q.node, Lookup(st.predicates.texts, t.pred).value);
    } else {
      assert p == |st.predicates.texts| && p !in st.relns;
    }
  }

  /** Spelling one more relation adds one more triple. */
  lemma SpellSnoc(iris: Tree, pred: string, rs: seq<Reln>, r: Reln)
    requires NodesIn(iris, rs) && NodesIn(iris, [r])
    ensures NodesIn(iris, rs + [r])
    ensures Spell(iris, pred, rs + [r])
         == Spell(iris, pred, rs) + [Parser.Triple(iris.texts[r.subj], pred, iris.texts[r.obj])]
  {
    assert (rs + [r])[..|rs|] == rs;
  }

  /** Adding a triple extends what the store holds for its own predicate by
      exactly that triple. */
  lemma AddTripleHoldsOwn(st: Store, t: Parser.Triple)
    requires ValidStore(st)
    ensures Holds(AddTriple(st, t), t.pred) == Holds(st, t.pred) + [t]
  {
    var st' := AddTriple(st, t);
    var p, r := AddTripleFiles(st, t);
    hide Valid, AddTriple;
    match Lookup(st.predicates.texts, t.pred)
    case None =>
      SpellSnoc(st'.iris, t.pred, [], r);
    case Some(n) =>
      SpellStable(st.iris, st'.iris, t.pred, Relns(st, n));
      SpellSnoc(st'.iris, t.pred, Relns(st, n), r);
  }

  /** Adding a triple leaves every other predicate's triples alone. */
  lemma AddTripleHoldsOther(st: Store, t: Parser.Triple, pred: string)
    requires ValidStore(st) && pred != t.pred
    ensures Holds(AddTriple(st, t), pred) == Holds(st, pred)
  {
    var st' := AddTriple(st, t);
    var p, r := AddTripleFiles(st, t);
    hide Valid, AddTriple;
    match Lookup(st.predicates.texts, pred)
    case None =>
      assert pred !in st'.predicates.texts;
    case Some(n) =>
      LookupStable(st.predicates, st'.predicates, pred);
      SpellStable(st.iris, st'.iris, pred, Relns(st, n));
      assert n != p;
  }

  /** Adding a triple extends, by exactly that triple, what the store holds
      for its predicate, and leaves every other predicate's triples alone. */
  lemma AddTripleHolds(st: Store, t: Parser.Triple, pred: string)
    requires ValidStore(st)
    ensures Holds(AddTriple(st, t), pred) == Holds(st, pred) + (if pred == t.pred then [t] else [])
  {
    if pred == t.pred {
      AddTripleHoldsOwn(st, t);
    } else {
      AddTripleHoldsOther(st, t, pred);
    }
  }

  /** The store built from a parse holds, for every predicate, exactly the
      parsed triples with that predicate, in input order. */
  lemma {:induction false} LoadFaithful(ts: seq<Parser.Triple>, pred: string)
    ensures Holds(Load(ts), pred) == Filter(ts, pred)
  {
    if |ts| > 0 {
      LoadFaithful(ts[..|ts| - 1], pred);
      AddTripleHolds(Load(ts[..|ts| - 1]), ts[|ts| - 1], pred);
    }
  }

  /** A predicate is interned exactly when some parsed triple uses it. */
  lemma {:induction false} LoadPredicates(ts: seq<Parser.Triple>, pred: string)
    ensures pred in Load(ts).predicates.texts <==> exists t | t in ts :: t.pred == pred
  {
    hide Valid, ValidStore, AddTriple;
    if |ts| > 0 {
      var init := ts[..|ts| - 1];
      LoadPredicates(init, pred);
      assert forall t | t in ts :: t in init || t == ts[|ts| - 1];
      assert forall t | t in init :: t in ts;
    }
  }

  /** `LoadIris` and `LoadPredicates` for every text at once. */
  lemma LoadTexts(ts: seq<Parser.Triple>)
    ensures forall x :: x in Load(ts).iris.texts <==>
              exists t | t in ts :: x == t.subj || x == t.pred || x == t.obj
    ensures forall x :: x in Load(ts).predicates.texts <==> exists t | t in ts :: t.pred == x
  {
    hide Load;
    forall x
      ensures x in Load(ts).iris.texts <==> exists t | t in ts :: x == t.subj || x == t.pred || x == t.obj
      ensures x in Load(ts).predicates.texts <==> exists t | t in ts :: t.pred == x
    {
      LoadIris(ts, x);
      LoadPredicates(ts, x);
    }
  }

  /** Every text of a parsed triple is a node of `iris`, and nothing else is. */
  lemma {:induction false} LoadIris(ts: seq<Parser.Triple>, s: string)
    ensures s in Load(ts).iris.texts <==>
              exists t | t in ts :: s == t.subj || s == t.pred || s == t.obj
  {
    hide Valid, ValidStore, AddTriple;
    if |ts| > 0 {
      var init := ts[..|ts| - 1];
      LoadIris(init, s);
      assert forall t | t in ts :: t in init || t == ts[|ts| - 1];
      assert forall t | t in init :: t in ts;
    }
  }
}
