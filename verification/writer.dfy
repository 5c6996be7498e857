/** The writer of trans.c (`write_transitive_closure_recursive`,
    `write_trie_of_full_relns`). For every predicate node with relations it
    spells each relation as `subject predicate object`, interns these lines
    into a fresh tree (which drops repeated lines) and writes every line of
    that tree followed by ` .\n`. The output is modelled as the sequence of
    lines written, in order. */
module Writer {
  import opened Interning
  import opened Store
  import Parser

  /** `full_reln`: subject, predicate and object joined by single spaces. */
  function RelnLine(iris: Tree, pred: string, r: Reln): string
    requires NodesIn(iris, [r])
  {
    iris.texts[r.subj] + " " + pred + " " + iris.texts[r.obj]
  }

  /** `line` is the spelling of one of the relations of `rs`. */
  predicate Spells(iris: Tree, pred: string, rs: seq<Reln>, line: string)
    requires NodesIn(iris, rs)
  {
    exists k | 0 <= k < |rs| :: line == RelnLine(iris, pred, rs[k])
  }

  /** The loop filling `avoid_dupes`: intern the line of every relation of
      `rs`, front to back. */
  function Collect(iris: Tree, pred: string, rs: seq<Reln>, t: Tree): (r: Tree)
    requires Valid(t) && NodesIn(iris, rs)
    ensures Valid(r)
    ensures forall x :: x in r.texts <==> x in t.texts || Spells(iris, pred, rs, x)
  {
    if |rs| == 0 then t
    else
      var rest := Collect(iris, pred, rs[1..], Intern(t, RelnLine(iris, pred, rs[0])).tree);
      assert forall x :: Spells(iris, pred, rs, x)
                         <==> x == RelnLine(iris, pred, rs[0]) || Spells(iris, pred, rs[1..], x) by {
        forall x | Spells(iris, pred, rs, x)
          ensures x == RelnLine(iris, pred, rs[0]) || Spells(iris, pred, rs[1..], x)
        {
          var k :| 0 <= k < |rs| && x == RelnLine(iris, pred, rs[k]);
          if k > 0 {
            assert rs[1..][k - 1] == rs[k];
          }
        }
        forall x | Spells(iris, pred, rs[1..], x)
          ensures Spells(iris, pred, rs, x)
        {
          var k :| 0 <= k < |rs| - 1 && x == RelnLine(iris, pred, rs[1..][k]);
          assert rs[1..][k] == rs[k + 1];
        }
      }
      rest
  }

  /** `write_trie_of_full_relns`: every line of the tree, in tree order,
      followed by ` .\n`. */
  function Emit(texts: seq<string>): (out: seq<string>)
    ensures |out| == |texts|
    ensures forall k | 0 <= k < |texts| :: out[k] == texts[k] + " .\n"
  {
    if |texts| == 0 then [] else [texts[0] + " .\n"] + Emit(texts[1..])
  }

  /** What one predicate node with relations writes. */
  function WritePredicate(iris: Tree, pred: string, rs: seq<Reln>): seq<string>
    requires NodesIn(iris, rs)
  {
    Emit(Collect(iris, pred, rs, Blank()).texts)
  }

  /** Appending ` .\n` keeps distinct lines distinct. */
  lemma SuffixInjective(a: string, b: string)
    requires a + " .\n" == b + " .\n"
    ensures a == b
  {
    assert a == (a + " .\n")[..|a|];
    assert b == (b + " .\n")[..|b|];
  }

  /** A predicate's output is exactly one line per distinct relation line:
      every relation's line appears, nothing else appears, and no line
      appears twice, however many duplicate relations the list holds. */
  lemma WritePredicateExact(iris: Tree, pred: string, rs: seq<Reln>)
    requires NodesIn(iris, rs)
    ensures forall line :: line in WritePredicate(iris, pred, rs)
                           <==> exists k | 0 <= k < |rs| :: line == RelnLine(iris, pred, rs[k]) + " .\n"
    ensures forall i, j | 0 <= i < j < |WritePredicate(iris, pred, rs)| ::
              WritePredicate(iris, pred, rs)[i] != WritePredicate(iris, pred, rs)[j]
  {
    var t := Collect(iris, pred, rs, Blank());
    var out := WritePredicate(iris, pred, rs);
    forall line | line in out
      ensures exists k | 0 <= k < |rs| :: line == RelnLine(iris, pred, rs[k]) + " .\n"
    {
      var m :| 0 <= m < |out| && out[m] == line;
      assert t.texts[m] in t.texts;
      var k :| 0 <= k < |rs| && t.texts[m] == RelnLine(iris, pred, rs[k]);
    }
    forall k | 0 <= k < |rs|
      ensures RelnLine(iris, pred, rs[k]) + " .\n" in out
    {
      assert Spells(iris, pred, rs, RelnLine(iris, pred, rs[k]));
      var m :| 0 <= m < |t.texts| && t.texts[m] == RelnLine(iris, pred, rs[k]);
      assert out[m] == RelnLine(iris, pred, rs[k]) + " .\n";
    }
    forall i, j | 0 <= i < j < |out|
      ensures out[i] != out[j]
    {
      if out[i] == out[j] {
        SuffixInjective(t.texts[i], t.texts[j]);
      }
    }
  }

  /** What the walk over the predicate nodes from `p` on writes: nothing for
      a node without relations. */
  function WriteFrom(st: Store, p: nat): seq<string>
    requires ValidStore(st)
    decreases |st.predicates.texts| - p
  {
    if p >= |st.predicates.texts| then []
    else
      (if Relns(st, p) == [] then [] else WritePredicate(st.iris, st.predicates.texts[p], Relns(st, p)))
      + WriteFrom(st, p + 1)
  }

  /** `write_transitive_closure`: the walk over every predicate node, in tree
      order. */
  function WriteAll(st: Store): seq<string>
    requires ValidStore(st)
  {
    WriteFrom(st, 0)
  }

  /** The block a predicate node writes. */
  function Block(st: Store, p: nat): seq<string>
    requires ValidStore(st) && p < |st.predicates.texts|
  {
    if Relns(st, p) == [] then [] else WritePredicate(st.iris, st.predicates.texts[p], Relns(st, p))
  }

  /** Relations stored under a node are valid for the `iris` tree. */
  lemma RelnsIn(st: Store, p: Node)
    requires ValidStore(st)
    ensures NodesIn(st.iris, Relns(st, p))
    ensures Relns(st, p) != [] ==> p < |st.predicates.texts|
  {
  }

  /** The walk writes node `q`'s block, then the rest. */
  lemma WriteFromUnfold(st: Store, q: nat)
    requires ValidStore(st) && q < |st.predicates.texts|
    ensures WriteFrom(st, q) == Block(st, q) + WriteFrom(st, q + 1)
  {
  }

  /** `b` sits in `out` as the contiguous slice starting at `a`. */
  predicate SliceAt(out: seq<string>, b: seq<string>, a: int) {
    0 <= a <= |out| - |b| && out[a..a + |b|] == b
  }

  /** Each predicate's lines are written together: its block is a contiguous
      slice of the output. */
  lemma {:induction false} BlockContiguous(st: Store, q: nat, p: nat)
    requires ValidStore(st) && q <= p < |st.predicates.texts|
    ensures exists a :: SliceAt(WriteFrom(st, q), Block(st, p), a)
    decreases p - q
  {
    hide WriteFrom, Block, WritePredicate;
    var out := WriteFrom(st, q);
    var b := Block(st, p);
    var head := Block(st, q);
    var tail := WriteFrom(st, q + 1);
    WriteFromUnfold(st, q);
    if q == p {
      assert out[0..|b|] == b;
      assert SliceAt(out, b, 0);
    } else {
      BlockContiguous(st, q + 1, p);
      var a :| SliceAt(tail, b, a);
      var a' := |head| + a;
      assert out[a'..a' + |b|] == tail[a..a + |b|];
      assert SliceAt(out, b, a');
    }
  }

  /** Every written line belongs to the block of a predicate node that has
      relations, and spells one of its relations. */
  lemma {:induction false} WriteFromLines(st: Store, q: nat, line: string)
    requires ValidStore(st) && line in WriteFrom(st, q)
    ensures exists p | q <= p < |st.predicates.texts| ::
              && Relns(st, p) != []
              && exists k | 0 <= k < |Relns(st, p)| ::
                   line == RelnLine(st.iris, st.predicates.texts[p], Relns(st, p)[k]) + " .\n"
    decreases |st.predicates.texts| - q
  {
    assert q < |st.predicates.texts|;
    WriteFromUnfold(st, q);
    if line in Block(st, q) {
      RelnsIn(st, q);
      WritePredicateExact(st.iris, st.predicates.texts[q], Relns(st, q));
    } else {
      WriteFromLines(st, q + 1, line);
    }
  }

  /** Every relation of every predicate node is written. */
  lemma WriteAllHas(st: Store, p: Node, k: nat)
    requires ValidStore(st) && k < |Relns(st, p)|
    ensures p < |st.predicates.texts|
    ensures NodesIn(st.iris, [Relns(st, p)[k]])
    ensures RelnLine(st.iris, st.predicates.texts[p], Relns(st, p)[k]) + " .\n" in WriteAll(st)
  {
    RelnsIn(st, p);
    var b := Block(st, p);
    WritePredicateExact(st.iris, st.predicates.texts[p], Relns(st, p));
    var line := RelnLine(st.iris, st.predicates.texts[p], Relns(st, p)[k]) + " .\n";
    assert line in b;
    BlockContiguous(st, 0, p);
    var out := WriteAll(st);
    hide WriteFrom, Block, WritePredicate, RelnLine;
    var a :| SliceAt(out, b, a);
    var m :| 0 <= m < |b| && b[m] == line;
    assert out[a + m] == b[m];
  }

  /** Growing the `iris` tree changes no relation's line. */
  lemma {:induction false} CollectGrown(iris: Tree, iris': Tree, pred: string, rs: seq<Reln>, t: Tree)
    requires Valid(t) && NodesIn(iris, rs) && iris.texts <= iris'.texts
    ensures NodesIn(iris', rs)
    ensures Collect(iris', pred, rs, t) == Collect(iris, pred, rs, t)
    decreases |rs|
  {
    NodesGrow(iris, iris', rs);
    if |rs| > 0 {
      assert RelnLine(iris', pred, rs[0]) == RelnLine(iris, pred, rs[0]);
      CollectGrown(iris, iris', pred, rs[1..], Intern(t, RelnLine(iris, pred, rs[0])).tree);
    }
  }

  /** The writer only looks at the lists and at the texts their nodes spell:
      trees grown by texts that carry no relation write the same lines. */
  lemma {:induction false} WriteGrown(a: Store, b: Store, q: nat)
    requires ValidStore(a) && ValidStore(b)
    requires a.iris.texts <= b.iris.texts && a.predicates.texts <= b.predicates.texts
    requires forall p: Node :: Relns(a, p) == Relns(b, p)
    ensures WriteFrom(b, q) == WriteFrom(a, q)
    decreases |b.predicates.texts| - q
  {
    if q < |b.predicates.texts| {
      WriteGrown(a, b, q + 1);
      WriteFromUnfold(b, q);
      if q < |a.predicates.texts| {
        WriteFromUnfold(a, q);
        RelnsIn(a, q);
        CollectGrown(a.iris, b.iris, a.predicates.texts[q], Relns(a, q), Blank());
      } else {
        assert q !in a.relns;
      }
    }
  }

  /** A line composed of tokens within the length limit fits `full_reln`,
      whose size is three times the limit plus three, terminator included. */
  lemma LineFits(iris: Tree, pred: string, r: Reln)
    requires NodesIn(iris, [r])
    requires |iris.texts[r.subj]| <= Parser.MAX_IRI_LEN && |iris.texts[r.obj]| <= Parser.MAX_IRI_LEN
    requires |pred| <= Parser.MAX_IRI_LEN
    ensures |RelnLine(iris, pred, r)| + 1 <= 3 * Parser.MAX_IRI_LEN + 3
  {
  }
}
