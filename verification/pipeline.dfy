/** `main` of trans.c from the parsed text to the written lines: parse the
    whole input, file every triple in the store, close every predicate's
    relation list and write the result. */
module Pipeline {
  import opened Results
  import opened Interning
  import opened Store
  import Parser
  import ParserLines
  import Closure
  import Writer

  /** The line written for a triple. */
  function Line(t: Parser.Triple): string {
    t.subj + " " + t.pred + " " + t.obj + " .\n"
  }

  /** `w` is a chain of at least one step along parsed triples with
      predicate `pred`. */
  predicate ChainOf(ts: seq<Parser.Triple>, pred: string, w: seq<string>) {
    |w| >= 2 && forall m | 0 <= m < |w| - 1 :: Parser.Triple(w[m], pred, w[m + 1]) in ts
  }

  /** `o` is reachable from `s` through parsed triples with predicate `pred`. */
  ghost predicate Chained(ts: seq<Parser.Triple>, pred: string, s: string, o: string) {
    exists w :: ChainOf(ts, pred, w) && w[0] == s && w[|w| - 1] == o
  }

  /** The program: a parse error is reported as is; otherwise the lines of
      the closed store. */
  method Transitive(input: string) returns (out: Result<seq<string>, Parser.ParseError>)
    ensures Parser.Parse(input).Failure? <==> out.Failure?
    ensures out.Failure? ==> out.error == Parser.Parse(input).error
    ensures out.Success? ==> out.value == Writer.WriteAll(CloseLoaded(Parser.Parse(input).value))
  {
    var st :- LoadInput(input);
    var closed := Closure.CloseAll(st);
    out := Success(Writer.WriteAll(closed));
    CloseAllWrites(Parser.Parse(input).value, st, closed);
  }

  /** The store `Closure.CloseAll` produces from the triples, as a value:
      every list keeps the parsed relations as its prefix, mentions no other
      node, and adds only pairs the parsed relations of its own predicate
      reach. */
  function CloseLoaded(ts: seq<Parser.Triple>): (st: Store)
    ensures ValidStore(st)
    ensures st.iris == Load(ts).iris && st.predicates == Load(ts).predicates
    ensures forall p: Node :: Relns(st, p) == Closure.ClosePredicate(Relns(Load(ts), p)).relns
    ensures forall p: Node :: Relns(Load(ts), p) <= Relns(st, p)
    ensures forall p: Node :: Closure.Nodes(Relns(st, p)) == Closure.Nodes(Relns(Load(ts), p))
    ensures forall p: Node, r | r in Relns(st, p) ::
              Closure.Reaches(Closure.Elems(Relns(Load(ts), p)), r.subj, r.obj)
  {
    hide Load, AddTriple, Closure.ClosePredicate, Closure.Pass, Closure.Inv, Closure.JustifiedFrom;
    var st := Load(ts);
    var m := map p | p in st.relns :: Closure.ClosePredicate(st.relns[p]).relns;
    assert forall p | p in st.relns :: Closure.Nodes(m[p]) == Closure.Nodes(st.relns[p]);
    assert ValidStore(Store(st.iris, st.predicates, m)) by {
      forall p | p in m
        ensures NodesIn(st.iris, m[p])
      {
        forall r | r in m[p]
          ensures r.subj < |st.iris.texts| && r.obj < |st.iris.texts|
        {
          assert r.subj in Closure.Nodes(m[p]) && r.obj in Closure.Nodes(m[p]);
        }
      }
    }
    forall p: Node | p !in st.relns
      ensures Closure.ClosePredicate([]).relns == []
    {
      Closure.CloseEmpty([]);
    }
    var c := Store(st.iris, st.predicates, m);
    assert forall p: Node, r | r in Relns(c, p) :: Closure.Reaches(Closure.Elems(Relns(st, p)), r.subj, r.obj) by {
      forall p: Node, r | r in Relns(c, p)
        ensures Closure.Reaches(Closure.Elems(Relns(st, p)), r.subj, r.obj)
      {
        Closure.ClosureSound(Relns(st, p), r);
      }
    }
    c
  }

  /** The store `LoadInput` builds, once closed, writes what `CloseLoaded`
      of the parsed statements writes: the texts of an unfinished last line
      carry no relation. */
  lemma CloseAllWrites(ts: seq<Parser.Triple>, st: Store, closed: Store)
    requires ValidStore(st) && st.relns == Load(ts).relns
    requires Load(ts).iris.texts <= st.iris.texts && Load(ts).predicates.texts <= st.predicates.texts
    requires ValidStore(closed) && closed.iris == st.iris && closed.predicates == st.predicates
    requires forall p: Node :: Relns(closed, p) == Closure.ClosePredicate(Relns(st, p)).relns
    ensures Writer.WriteAll(closed) == Writer.WriteAll(CloseLoaded(ts))
  {
    hide Load, AddTriple, Closure.ClosePredicate, Closure.Pass, Closure.Inv, Closure.JustifiedFrom, Writer.WriteFrom, CloseLoaded;
    var c := CloseLoaded(ts);
    assert forall p: Node :: Relns(st, p) == Relns(Load(ts), p);
    assert forall p: Node :: Relns(closed, p) == Relns(c, p);
    Writer.WriteGrown(c, closed, 0);
  }

  /** A last line cut short by the end of the input right after its object
      files no relation, yet its subject and predicate are interned, as
      `set_iri` did when the blanks after each were read. */
  lemma UnfinishedLineInterned(doc: seq<ParserLines.LineForm>, lead: string, subj: string, gap1: string,
                               pred: string, gap2: string, obj: string)
    requires ParserLines.AllWellFormed(doc) && ParserLines.Blanks(lead) && ParserLines.IsToken(subj)
    requires ParserLines.Blanks(gap1) && |gap1| > 0 && ParserLines.IsToken(pred)
    requires ParserLines.Blanks(gap2) && |gap2| > 0 && ParserLines.IsToken(obj)
    ensures LoadInput(ParserLines.RenderDocOnto(doc, lead + (subj + (gap1 + (pred + (gap2 + obj)))))).Success?
    ensures LoadInput(ParserLines.RenderDocOnto(doc, lead + (subj + (gap1 + (pred + (gap2 + obj)))))).value.relns
         == Load(ParserLines.StatementsOf(doc)).relns
    ensures subj in LoadInput(ParserLines.RenderDocOnto(doc, lead + (subj + (gap1 + (pred + (gap2 + obj)))))).value.iris.texts
    ensures pred in LoadInput(ParserLines.RenderDocOnto(doc, lead + (subj + (gap1 + (pred + (gap2 + obj)))))).value.iris.texts
    ensures pred in LoadInput(ParserLines.RenderDocOnto(doc, lead + (subj + (gap1 + (pred + (gap2 + obj)))))).value.predicates.texts
  {
    hide Load, AddTriple, ParserLines.RenderDocOnto, Parser.Parse, Parser.Unfinished, LoadInput;
    var input := ParserLines.RenderDocOnto(doc, lead + (subj + (gap1 + (pred + (gap2 + obj)))));
    ParserLines.UnfinishedLastLineField(doc, lead, subj, gap1, pred, gap2, obj);
    assert PendingTexts(Parser.Unfinished(input)) == [subj, pred];
  }

  /** A node's text finds that node. */
  lemma LookupNode(t: Tree, p: Node)
    requires Valid(t) && p < |t.texts|
    ensures Lookup(t.texts, t.texts[p]) == Some(p)
  {
    ReconstructInjective(t, p, Lookup(t.texts, t.texts[p]).value);
  }

  /** Every parsed triple is written: the closure only ever adds relations
      and the writer writes each relation. */
  lemma {:induction false} InputKept(ts: seq<Parser.Triple>, t: Parser.Triple)
    requires t in ts
    ensures Line(t) in Writer.WriteAll(CloseLoaded(ts))
  {
    hide Load, AddTriple, Closure.ClosePredicate, Closure.Pass, Closure.Inv, Closure.JustifiedFrom, Writer.WriteFrom, CloseLoaded;
    var st := Load(ts);
    var c := CloseLoaded(ts);
    LoadFaithful(ts, t.pred);
    assert t in Holds(st, t.pred);
    var p := Lookup(st.predicates.texts, t.pred).value;
    var spelled := Spell(st.iris, t.pred, Relns(st, p));
    var k :| 0 <= k < |spelled| && spelled[k] == t;
    assert Relns(c, p)[k] == Relns(st, p)[k];
    Writer.WriteAllHas(c, p, k);
  }

  /** Every written line is a triple whose object the parsed triples with its
      predicate reach from its subject. */
  lemma {:induction false} OutputSound(ts: seq<Parser.Triple>, line: string)
    requires line in Writer.WriteAll(CloseLoaded(ts))
    ensures exists t :: line == Line(t) && Chained(ts, t.pred, t.subj, t.obj)
  {
    hide Load, AddTriple, Closure.ClosePredicate, Closure.Pass, Closure.Inv, Closure.JustifiedFrom, Writer.WriteFrom, CloseLoaded;
    var st := Load(ts);
    var c := CloseLoaded(ts);
    Writer.WriteFromLines(c, 0, line);
    var p, k :| 0 <= p < |c.predicates.texts| && Relns(c, p) != [] && 0 <= k < |Relns(c, p)|
                && line == Writer.RelnLine(c.iris, c.predicates.texts[p], Relns(c, p)[k]) + " .\n";
    var pred := st.predicates.texts[p];
    var r := Relns(c, p)[k];
    Closure.ClosureSound(Relns(st, p), r);
    var w :| Closure.Walk(Closure.Elems(Relns(st, p)), w) && w[0] == r.subj && w[|w| - 1] == r.obj;
    var ws := WalkTexts(st, p, w, ts);
    var t := Parser.Triple(st.iris.texts[r.subj], pred, st.iris.texts[r.obj]);
    assert ChainOf(ts, pred, ws) && ws[0] == t.subj && ws[|ws| - 1] == t.obj;
    assert line == Line(t);
  }

  /** A stored relation, spelled out, is a parsed triple. */
  lemma StepParsed(ts: seq<Parser.Triple>, p: Node, r: Reln)
    requires p < |Load(ts).predicates.texts| && r in Relns(Load(ts), p)
    ensures r.subj < |Load(ts).iris.texts| && r.obj < |Load(ts).iris.texts|
    ensures Parser.Triple(Load(ts).iris.texts[r.subj], Load(ts).predicates.texts[p], Load(ts).iris.texts[r.obj]) in ts
  {
    var st := Load(ts);
    hide Load, AddTriple;
    var pred := st.predicates.texts[p];
    var rs := Relns(st, p);
    assert NodesIn(st.iris, rs);
    LookupNode(st.predicates, p);
    LoadFaithful(ts, pred);
    var j :| 0 <= j < |rs| && rs[j] == r;
    assert Spell(st.iris, pred, rs)[j] in Holds(st, pred);
  }

  /** A walk along a predicate's stored relations, spelled out, is a chain
      of parsed triples. */
  lemma WalkTexts(st: Store, p: Node, w: seq<Node>, ts: seq<Parser.Triple>) returns (ws: seq<string>)
    requires st == Load(ts) && p < |st.predicates.texts|
    requires Closure.Walk(Closure.Elems(Relns(st, p)), w)
    ensures forall i | 0 <= i < |w| :: w[i] < |st.iris.texts|
    ensures |ws| == |w| && forall i | 0 <= i < |w| :: ws[i] == st.iris.texts[w[i]]
    ensures ChainOf(ts, st.predicates.texts[p], ws)
  {
    hide Load, AddTriple;
    var pred := st.predicates.texts[p];
    var rs := Relns(st, p);
    forall i | 0 <= i < |w|
      ensures w[i] < |st.iris.texts|
    {
      if i < |w| - 1 {
        StepParsed(ts, p, Reln(w[i], w[i + 1]));
      } else {
        StepParsed(ts, p, Reln(w[i - 1], w[i]));
      }
    }
    ws := seq(|w|, i requires 0 <= i < |w| && w[i] < |st.iris.texts| => st.iris.texts[w[i]]);
    forall m | 0 <= m < |ws| - 1
      ensures Parser.Triple(ws[m], pred, ws[m + 1]) in ts
    {
      assert Reln(w[m], w[m + 1]) in Closure.Elems(rs);
      StepParsed(ts, p, Reln(w[m], w[m + 1]));
    }
  }

  /** Tokens of at most the length limit give lines that fit `full_reln`. */
  lemma {:induction false} OutputFits(ts: seq<Parser.Triple>, line: string)
    requires forall t | t in ts :: Parser.TripleBounded(t)
    requires line in Writer.WriteAll(CloseLoaded(ts))
    ensures |line| <= 3 * Parser.MAX_IRI_LEN + 2 + |" .\n"|
  {
    hide Load, AddTriple, Closure.ClosePredicate, Closure.Pass, Closure.Inv, Closure.JustifiedFrom, Writer.WriteFrom, CloseLoaded;
    var st := Load(ts);
    var c := CloseLoaded(ts);
    Writer.WriteFromLines(c, 0, line);
    var p, k :| 0 <= p < |c.predicates.texts| && Relns(c, p) != [] && 0 <= k < |Relns(c, p)|
                && line == Writer.RelnLine(c.iris, c.predicates.texts[p], Relns(c, p)[k]) + " .\n";
    var r := Relns(c, p)[k];
    Writer.RelnsIn(c, p);
    LoadIris(ts, st.iris.texts[r.subj]);
    LoadIris(ts, st.iris.texts[r.obj]);
    LoadPredicates(ts, st.predicates.texts[p]);
    Writer.LineFits(c.iris, c.predicates.texts[p], r);
  }

  /** What the program writes for a well-formed input: every parsed triple,
      only triples the parsed ones chain together, each line within the
      `full_reln` buffer. */
  lemma TransitiveOutput(input: string)
    requires Parser.Parse(input).Success?
    ensures forall t | t in Parser.Parse(input).value ::
              Line(t) in Writer.WriteAll(CloseLoaded(Parser.Parse(input).value))
    ensures forall line | line in Writer.WriteAll(CloseLoaded(Parser.Parse(input).value)) ::
              && (exists t :: line == Line(t) && Chained(Parser.Parse(input).value, t.pred, t.subj, t.obj))
              && |line| <= 3 * Parser.MAX_IRI_LEN + 5
  {
    var ts := Parser.Parse(input).value;
    Parser.ParseBounded(input);
    forall t | t in ts
      ensures Line(t) in Writer.WriteAll(CloseLoaded(ts))
    {
      InputKept(ts, t);
    }
    forall line | line in Writer.WriteAll(CloseLoaded(ts))
      ensures exists t :: line == Line(t) && Chained(ts, t.pred, t.subj, t.obj)
      ensures |line| <= 3 * Parser.MAX_IRI_LEN + 5
    {
      OutputSound(ts, line);
      OutputFits(ts, line);
    }
  }
}
