/** What the parser does with whole lines.

    A document is described line by line (`LineForm`): a blank line, a
    comment, or a statement `subject predicate object .` made of `<...>` or
    `"..."` tokens separated by runs of blanks. The lemmas below show that the
    parser accepts exactly the statements of a well-formed document, and
    which error, on which line, each kind of malformed line raises. */
module ParserLines {
  import opened Results
  import opened Parser

  predicate Blanks(b: string) {
    forall k | 0 <= k < |b| :: IsBlank(b[k])
  }

  /** A byte that may appear inside a group closed by `close`: anything but
      the closing byte, a newline, a backslash or NUL. */
  predicate GroupByte(c: char, close: char) {
    c != close && c != '\n' && c != '\\' && c != NUL
  }

  predicate GroupBody(b: string, close: char) {
    forall k | 0 <= k < |b| :: GroupByte(b[k], close)
  }

  /** The byte that opens a group closed by `close`. */
  function Opener(close: char): char {
    if close == '"' then '"' else '<'
  }

  /** A token the parser accepts: `<...>` or `"..."` with a plain body, no
      longer than the token buffer. */
  predicate IsToken(t: string) {
    && 2 <= |t| <= MAX_IRI_LEN
    && (t[|t| - 1] == '"' || t[|t| - 1] == '>')
    && t[0] == Opener(t[|t| - 1])
    && GroupBody(t[1..|t| - 1], t[|t| - 1])
  }

  /** No byte of `text` ends a line. */
  predicate NoBreak(text: string) {
    forall k | 0 <= k < |text| :: text[k] != '\n' && text[k] != NUL
  }

  /** What may follow the end of a statement or comment: a newline, NUL, or
      the end of the input. */
  predicate Terminates(rest: string) {
    First(rest) == '\n' || First(rest) == NUL
  }

  /** The scanner at the start of a line, with nothing pending. */
  predicate LineStart(sc: Scanner) {
    && !sc.inQuote && !sc.inBrace
    && sc.field == Subject
    && sc.freshLine && sc.whitespaceable && !sc.anything
    && sc.buf == []
  }

  /** The scanner is inside a group that `close` ends. */
  predicate Grouping(sc: Scanner, close: char) {
    if close == '"' then sc.inQuote && !sc.inBrace else close == '>' && sc.inBrace && !sc.inQuote
  }

  /** The field that follows `f` once the token `b` is finished. */
  function Advance(f: Field, b: string): Field {
    match f
    case Subject => Predicate(b)
    case Predicate(x) => Object(x, b)
    case Object(x, y) => Object(x, y)
  }

  /** Reading the first byte of `a + b`. */
  lemma Behead(a: string, b: string)
    requires |a| > 0
    ensures First(a + b) == a[0] && (a + b)[1..] == a[1..] + b
  {
  }

  /** `k` turns of the main loop from `sc`, stopping early if the loop stops. */
  function Steps(sc: Scanner, k: nat): (st: Step)
    ensures st.Continue? ==> |st.next.input| <= |sc.input|
    decreases k
  {
    if k == 0 then Continue(sc)
    else match Next(sc)
      case Stop(r) => Stop(r)
      case Continue(n) => Steps(n, k - 1)
  }

  /** `k` turns of the main loop go on from `sc` to `sc'`. */
  predicate Leads(sc: Scanner, k: nat, sc': Scanner) {
    Steps(sc, k) == Continue(sc')
  }

  /** The main loop ends as it does from wherever `k` turns lead. */
  lemma {:induction false} StepsRun(sc: Scanner, k: nat)
    ensures Steps(sc, k).Continue? ==> Run(sc) == Run(Steps(sc, k).next)
    ensures Steps(sc, k).Stop? ==> Run(sc) == Steps(sc, k).result
    decreases k
  {
    if k > 0 {
      match Next(sc)
      case Stop(r) =>
      case Continue(n) =>
        StepsRun(n, k - 1);
    }
  }

  /** The loop stops in the same scanner from wherever `k` turns lead. */
  lemma {:induction false} StepsFinish(sc: Scanner, k: nat)
    requires Steps(sc, k).Continue?
    ensures Finish(sc) == Finish(Steps(sc, k).next)
    decreases k
  {
    if k > 0 {
      match Next(sc)
      case Stop(r) =>
      case Continue(n) =>
        StepsFinish(n, k - 1);
    }
  }

  lemma {:induction false} StepsAdd(a: Scanner, m: nat, n: nat)
    requires Steps(a, m).Continue?
    ensures Steps(a, m + n) == Steps(Steps(a, m).next, n)
    decreases m
  {
    hide Next;
    if m > 0 {
      match Next(a)
      case Stop(r) =>
      case Continue(x) =>
        StepsAdd(x, m - 1, n);
    }
  }

  lemma Chain(a: Scanner, m: nat, b: Scanner, n: nat, c: Scanner)
    requires Leads(a, m, b) && Leads(b, n, c)
    ensures Leads(a, m + n, c)
  {
    hide Next;
    StepsAdd(a, m, n);
  }

  lemma ChainStop(a: Scanner, m: nat, b: Scanner, n: nat)
    requires Leads(a, m, b) && Steps(b, n).Stop?
    ensures Steps(a, m + n) == Steps(b, n)
  {
    hide Next;
    StepsAdd(a, m, n);
  }

  /** One blank skipped while the scanner is whitespaceable. */
  lemma BlankStep(sc: Scanner)
    requires |sc.input| > 0 && IsBlank(sc.input[0])
    requires sc.whitespaceable && !sc.inQuote && !sc.inBrace
    ensures Leads(sc, 1, sc.(input := sc.input[1..]))
  {
    assert Next(sc) == Continue(sc.(input := sc.input[1..]));
  }

  /** Blanks are skipped while the scanner is whitespaceable. */
  lemma {:induction false} SkipBlanks(sc: Scanner, b: string, rest: string)
    requires sc.input == b + rest && Blanks(b)
    requires sc.whitespaceable && !sc.inQuote && !sc.inBrace
    ensures Leads(sc, |b|, sc.(input := rest))
    decreases |b|
  {
    hide Next;
    if |b| > 0 {
      Behead(b, rest);
      var sc1 := sc.(input := b[1..] + rest);
      BlankStep(sc);
      SkipBlanks(sc1, b[1..], rest);
      Chain(sc, 1, sc1, |b| - 1, sc.(input := rest));
    } else {
      assert sc.(input := rest) == sc;
    }
  }


  /** One byte of a group body. */
  lemma GroupStep(sc: Scanner, close: char)
    requires |sc.input| > 0 && GroupByte(sc.input[0], close) && Grouping(sc, close)
    requires |sc.buf| < MAX_IRI_LEN
    ensures Leads(sc, 1, sc.(input := sc.input[1..], buf := sc.buf + [sc.input[0]]))
  {
    var c := sc.input[0];
    var sc1 := sc.(input := sc.input[1..]);
    if close == '"' {
      assert sc1.(inQuote := c != '"') == sc1;
    } else {
      assert sc1.(inBrace := c != '>') == sc1;
    }
    assert Next(sc) == Grouped(sc);
  }

  /** The body of a group is copied into the token buffer. */
  lemma {:induction false} ReadGroup(sc: Scanner, body: string, close: char, rest: string)
    requires sc.input == body + rest
    requires Grouping(sc, close) && GroupBody(body, close)
    requires |sc.buf| + |body| <= MAX_IRI_LEN
    ensures Leads(sc, |body|, sc.(input := rest, buf := sc.buf + body))
    decreases |body|
  {
    hide Next;
    if |body| > 0 {
      var c := body[0];
      Behead(body, rest);
      GroupStep(sc, close);
      var sc1 := sc.(input := body[1..] + rest, buf := sc.buf + [c]);
      ReadGroup(sc1, body[1..], close, rest);
      var target := sc.(input := rest, buf := sc.buf + body);
      assert sc1.(input := rest, buf := sc1.buf + body[1..]) == target by {
        assert sc.buf + [c] + body[1..] == sc.buf + body;
      }
      Chain(sc, 1, sc1, |body| - 1, target);
    } else {
      assert sc.(input := rest, buf := sc.buf + body) == sc;
    }
  }

  /** A group body that does not fit the token buffer is fatal on the line it
      is on. */
  lemma {:induction false} GroupOverflow(sc: Scanner, body: string, close: char, rest: string)
    returns (k: nat)
    requires sc.input == body + rest
    requires Grouping(sc, close) && GroupBody(body, close)
    requires |sc.buf| <= MAX_IRI_LEN < |sc.buf| + |body|
    ensures Steps(sc, k) == Stop(Failure(ParseError(IriTooLong, sc.line)))
    decreases |body|
  {
    var c := body[0];
    Behead(body, rest);
    if |sc.buf| == MAX_IRI_LEN {
      assert Next(sc) == Grouped(sc);
      k := 1;
    } else {
      GroupStep(sc, close);
      var sc1 := sc.(input := body[1..] + rest, buf := sc.buf + [c]);
      var k1 := GroupOverflow(sc1, body[1..], close, rest);
      ChainStop(sc, 1, sc1, k1);
      k := 1 + k1;
    }
  }

  /** The byte opening a group, read at a token boundary or right after an
      earlier group of the same token. */
  lemma OpenGroup(sc: Scanner, close: char)
    requires |sc.input| > 0 && sc.input[0] == Opener(close)
    requires close == '"' || close == '>'
    requires (sc.whitespaceable || !sc.freshLine) && !sc.inQuote && !sc.inBrace && |sc.buf| < MAX_IRI_LEN
    ensures Leads(sc, 1, sc.(input := sc.input[1..], buf := sc.buf + [Opener(close)],
                             inQuote := close == '"', inBrace := close == '>',
                             freshLine := false, whitespaceable := false, anything := true))
  {
    assert Next(sc) == Outside(sc);
  }

  /** The byte closing a group. */
  lemma CloseGroup(sc: Scanner, close: char)
    requires |sc.input| > 0 && sc.input[0] == close && Grouping(sc, close)
    requires |sc.buf| < MAX_IRI_LEN
    ensures Leads(sc, 1, sc.(input := sc.input[1..], buf := sc.buf + [close],
                             inQuote := false, inBrace := false))
  {
    assert Next(sc) == Grouped(sc);
  }

  /** A whole `<...>` or `"..."` group read at a token boundary or right
      after an earlier group of the same token. */
  lemma ReadToken(sc: Scanner, tok: string, rest: string)
    requires sc.input == tok + rest && IsToken(tok)
    requires (sc.whitespaceable || !sc.freshLine) && !sc.inQuote && !sc.inBrace
    requires |sc.buf| + |tok| <= MAX_IRI_LEN
    ensures Leads(sc, |tok|, sc.(input := rest, buf := sc.buf + tok,
                                 freshLine := false, whitespaceable := false, anything := true))
  {
    hide Next;
    var close := tok[|tok| - 1];
    var body := tok[1..|tok| - 1];
    var target := sc.(input := rest, buf := sc.buf + tok,
                      freshLine := false, whitespaceable := false, anything := true);
    assert tok == [Opener(close)] + body + [close];
    assert sc.input == [Opener(close)] + (body + ([close] + rest));
    Behead([Opener(close)], body + ([close] + rest));
    OpenGroup(sc, close);
    var sc1 := sc.(input := body + ([close] + rest), buf := sc.buf + [Opener(close)],
                   inQuote := close == '"', inBrace := close == '>',
                   freshLine := false, whitespaceable := false, anything := true);
    ReadGroup(sc1, body, close, [close] + rest);
    var sc2 := sc1.(input := [close] + rest, buf := sc1.buf + body);
    Behead([close], rest);
    CloseGroup(sc2, close);
    assert sc2.(input := rest, buf := sc2.buf + [close], inQuote := false, inBrace := false) == target by {
      assert sc.buf + [Opener(close)] + body + [close] == sc.buf + tok;
    }
    Chain(sc, 1, sc1, |body|, sc2);
    Chain(sc, 1 + |body|, sc2, 1, target);
  }

  /** A run of blanks after the subject or the predicate finishes that field. */
  lemma Separate(sc: Scanner, gap: string, rest: string)
    requires sc.input == gap + rest && Blanks(gap) && |gap| > 0
    requires !sc.whitespaceable && !sc.inQuote && !sc.inBrace && !sc.field.Object?
    ensures Leads(sc, |gap|, sc.(input := rest, whitespaceable := true, buf := [],
                                 field := Advance(sc.field, sc.buf)))
  {
    Behead(gap, rest);
    var sc1 := sc.(input := gap[1..] + rest, whitespaceable := true, buf := [],
                   field := Advance(sc.field, sc.buf));
    assert Next(sc) == Continue(sc1);
    SkipBlanks(sc1, gap[1..], rest);
    Chain(sc, 1, sc1, |gap| - 1, sc1.(input := rest));
  }

  /** Blanks after the object are skipped. */
  lemma {:induction false} AfterBlanks(b: string, rest: string, period: bool, line: nat)
    requires Blanks(b)
    ensures AfterObject(b + rest, period, line) == AfterObject(rest, period, line)
    decreases |b|
  {
    if |b| > 0 {
      Behead(b, rest);
      AfterBlanks(b[1..], rest, period, line);
    } else {
      assert b + rest == rest;
    }
  }

  /** Once the period is read, blanks and the line end finish the line. */
  lemma AfterEnd(trail: string, rest: string, line: nat)
    requires Blanks(trail) && Terminates(rest)
    ensures AfterObject(trail + rest, true, line) == Success(Tail(rest))
  {
    AfterBlanks(trail, rest, true, line);
  }

  /** Blanks, the period, blanks and the line end finish the line. */
  lemma AfterPeriod(gap: string, trail: string, rest: string, line: nat)
    requires Blanks(gap) && Blanks(trail) && Terminates(rest)
    ensures AfterObject(gap + ("." + (trail + rest)), false, line) == Success(Tail(rest))
  {
    AfterBlanks(gap, "." + (trail + rest), false, line);
    Behead(".", trail + rest);
    AfterEnd(trail, rest, line);
  }

  /** The line ends after the object with no period. */
  lemma AfterMissing(gap: string, rest: string, line: nat)
    requires Blanks(gap) && Terminates(rest)
    ensures AfterObject(gap + rest, false, line) == Failure(ParseError(MissingPeriod, line))
  {
    AfterBlanks(gap, rest, false, line);
  }

  /** After the period only blanks may follow: any other byte is fatal,
      a second period included. */
  lemma AfterJunk(trail: string, c: char, rest: string, line: nat)
    requires Blanks(trail) && !IsBlank(c) && c != '\n' && c != NUL
    ensures AfterObject(trail + ([c] + rest), true, line) == Failure(ParseError(UnexpectedAfterObject, line))
  {
    AfterBlanks(trail, [c] + rest, true, line);
    Behead([c], rest);
  }

  /** Junk after the period, with or without blanks before the period. */
  lemma AfterPeriodJunk(gap: string, trail: string, c: char, rest: string, line: nat)
    requires Blanks(gap) && Blanks(trail) && !IsBlank(c) && c != '\n' && c != NUL
    ensures AfterObject(gap + ("." + (trail + ([c] + rest))), false, line)
         == Failure(ParseError(UnexpectedAfterObject, line))
  {
    AfterBlanks(gap, "." + (trail + ([c] + rest)), false, line);
    Behead(".", trail + ([c] + rest));
    AfterJunk(trail, c, rest, line);
  }

  /** The state after a statement: a fresh line with the statement recorded. */
  function Recorded(sc: Scanner, input: string): Scanner
    requires sc.field.Object?
  {
    sc.(input := input, line := sc.line + 1, buf := [], field := Subject, freshLine := true,
        whitespaceable := true, anything := false,
        triples := sc.triples + [Triple(sc.field.subj, sc.field.pred, sc.buf)])
  }

  /** After the object token: optional blanks, the period, optional blanks and
      the line end record the statement, in one turn of the loop. */
  lemma FinishStatement(sc: Scanner, gap: string, trail: string, rest: string)
    requires sc.input == gap + ("." + (trail + rest))
    requires Blanks(gap) && Blanks(trail) && Terminates(rest)
    requires sc.field.Object? && !sc.whitespaceable && !sc.inQuote && !sc.inBrace
    ensures Leads(sc, 1, Recorded(sc, Tail(rest)))
  {
    var c := sc.input[0];
    var sc2 := sc.(input := sc.input[1..], freshLine := sc.freshLine, whitespaceable := false);
    if |gap| > 0 {
      Behead(gap, "." + (trail + rest));
      AfterPeriod(gap[1..], trail, rest, sc.line);
      assert AfterObject(sc2.input, c == '.', sc.line) == Success(Tail(rest));
    } else {
      assert sc.input == "." + (trail + rest);
      Behead(".", trail + rest);
      AfterEnd(trail, rest, sc.line);
      assert AfterObject(sc2.input, c == '.', sc.line) == Success(Tail(rest));
    }
    assert Delimit(sc2, c) == Success(Recorded(sc, Tail(rest)));
    assert Outside(sc) == Push(Delimit(sc2, c));
    assert Next(sc) == Continue(Recorded(sc, Tail(rest)));
  }


  /** The scanner once the subject and the predicate of a statement are read
      and the blanks after the predicate skipped. */
  function BeforeObject(sc: Scanner, input: string, subj: string, pred: string): Scanner {
    sc.(input := input, field := Object(subj, pred), freshLine := false, anything := true)
  }

  /** The scanner right after the object token. */
  function AfterObjectToken(sc: Scanner, input: string, subj: string, pred: string, obj: string): Scanner {
    sc.(input := input, buf := obj, field := Object(subj, pred), freshLine := false,
        whitespaceable := false, anything := true)
  }

  /** A subject or predicate token and the blanks after it. */
  lemma ReadField(sc: Scanner, tok: string, gap: string, rest: string)
    requires sc.input == tok + (gap + rest)
    requires sc.whitespaceable && !sc.inQuote && !sc.inBrace && sc.buf == [] && !sc.field.Object?
    requires IsToken(tok) && Blanks(gap) && |gap| > 0
    ensures Leads(sc, |tok| + |gap|, sc.(input := rest, field := Advance(sc.field, tok),
                                         freshLine := false, anything := true))
  {
    hide Next;
    var target := sc.(input := rest, field := Advance(sc.field, tok), freshLine := false, anything := true);
    assert sc.buf + tok == tok;
    ReadToken(sc, tok, gap + rest);
    var sc1 := sc.(input := gap + rest, buf := sc.buf + tok,
                   freshLine := false, whitespaceable := false, anything := true);
    Separate(sc1, gap, rest);
    assert sc1.(input := rest, whitespaceable := true, buf := [], field := Advance(sc1.field, sc1.buf)) == target;
    Chain(sc, |tok|, sc1, |gap|, target);
  }

  /** Leading blanks, the subject, blanks, the predicate and blanks. */
  lemma ReadTwo(sc: Scanner, lead: string, subj: string, gap1: string,
                pred: string, gap2: string, rest: string) returns (k: nat)
    requires LineStart(sc)
    requires sc.input == lead + (subj + (gap1 + (pred + (gap2 + rest))))
    requires Blanks(lead) && IsToken(subj) && Blanks(gap1) && |gap1| > 0
    requires IsToken(pred) && Blanks(gap2) && |gap2| > 0
    ensures Leads(sc, k, BeforeObject(sc, rest, subj, pred))
  {
    hide Next;
    SkipBlanks(sc, lead, subj + (gap1 + (pred + (gap2 + rest))));
    var sc1 := sc.(input := subj + (gap1 + (pred + (gap2 + rest))));
    ReadField(sc1, subj, gap1, pred + (gap2 + rest));
    var sc2 := sc1.(input := pred + (gap2 + rest), field := Predicate(subj),
                    freshLine := false, anything := true);
    ReadField(sc2, pred, gap2, rest);
    var sc3 := sc2.(input := rest, field := Object(subj, pred));
    assert sc3 == BeforeObject(sc, rest, subj, pred);
    Chain(sc, |lead|, sc1, |subj| + |gap1|, sc2);
    Chain(sc, |lead| + |subj| + |gap1|, sc2, |pred| + |gap2|, sc3);
    k := |lead| + |subj| + |gap1| + |pred| + |gap2|;
  }

  /** The three tokens of a statement with the blanks around them. */
  lemma ReadThree(sc: Scanner, lead: string, subj: string, gap1: string,
                  pred: string, gap2: string, obj: string, rest: string) returns (k: nat)
    requires LineStart(sc)
    requires sc.input == lead + (subj + (gap1 + (pred + (gap2 + (obj + rest)))))
    requires Blanks(lead) && IsToken(subj) && Blanks(gap1) && |gap1| > 0
    requires IsToken(pred) && Blanks(gap2) && |gap2| > 0 && IsToken(obj)
    ensures Leads(sc, k, AfterObjectToken(sc, rest, subj, pred, obj))
  {
    hide Next;
    var k1 := ReadTwo(sc, lead, subj, gap1, pred, gap2, obj + rest);
    var sc5 := BeforeObject(sc, obj + rest, subj, pred);
    var sc6 := AfterObjectToken(sc, rest, subj, pred, obj);
    assert sc5.buf + obj == obj;
    ReadToken(sc5, obj, rest);
    assert sc5.(input := rest, buf := sc5.buf + obj,
                freshLine := false, whitespaceable := false, anything := true) == sc6;
    Chain(sc, k1, sc5, |obj|, sc6);
    k := k1 + |obj|;
  }

  /** A whole statement line records its triple and moves to the next line. */
  lemma StatementStep(sc: Scanner, lead: string, subj: string, gap1: string,
                      pred: string, gap2: string, obj: string, gap3: string, trail: string,
                      rest: string) returns (k: nat)
    requires LineStart(sc)
    requires sc.input == lead + (subj + (gap1 + (pred + (gap2 + (obj + (gap3 + ("." + (trail + rest))))))))
    requires Blanks(lead) && IsToken(subj) && Blanks(gap1) && |gap1| > 0
    requires IsToken(pred) && Blanks(gap2) && |gap2| > 0 && IsToken(obj)
    requires Blanks(gap3) && Blanks(trail) && Terminates(rest)
    ensures Leads(sc, k, sc.(input := Tail(rest), line := sc.line + 1,
                             triples := sc.triples + [Triple(subj, pred, obj)]))
  {
    hide Next;
    var k1 := ReadThree(sc, lead, subj, gap1, pred, gap2, obj, gap3 + ("." + (trail + rest)));
    var sc6 := AfterObjectToken(sc, gap3 + ("." + (trail + rest)), subj, pred, obj);
    FinishStatement(sc6, gap3, trail, rest);
    var sc7 := Recorded(sc6, Tail(rest));
    assert sc7 == sc.(input := Tail(rest), line := sc.line + 1,
                      triples := sc.triples + [Triple(subj, pred, obj)]);
    Chain(sc, k1, sc6, 1, sc7);
    k := k1 + 1;
  }

  /** A line holding only blanks moves to the next line. */
  lemma BlankLineStep(sc: Scanner, b: string, rest: string)
    requires LineStart(sc) && sc.input == b + ("\n" + rest) && Blanks(b)
    ensures Leads(sc, |b| + 1, sc.(input := rest, line := sc.line + 1))
  {
    SkipBlanks(sc, b, "\n" + rest);
    var sc1 := sc.(input := "\n" + rest);
    var sc2 := sc.(input := rest, line := sc.line + 1);
    Behead("\n", rest);
    assert Next(sc1) == Continue(sc2);
    Chain(sc, |b|, sc1, 1, sc2);
  }

  /** The comment loop stops right after the newline or NUL ending `text`. */
  lemma {:induction false} SkipCommentText(text: string, rest: string)
    requires NoBreak(text) && Terminates(rest)
    ensures SkipComment(text + rest) == Tail(rest)
    decreases |text|
  {
    if |text| > 0 {
      Behead(text, rest);
      SkipCommentText(text[1..], rest);
    } else {
      assert text + rest == rest;
    }
  }

  /** Optional blanks, then a comment running to the end of the line. */
  lemma CommentLineStep(sc: Scanner, lead: string, text: string, rest: string)
    requires LineStart(sc) && sc.input == lead + ("#" + (text + rest))
    requires Blanks(lead) && NoBreak(text) && Terminates(rest)
    ensures Leads(sc, |lead| + 1, sc.(input := Tail(rest), line := sc.line + 1))
  {
    SkipBlanks(sc, lead, "#" + (text + rest));
    var sc1 := sc.(input := "#" + (text + rest));
    Behead("#", text + rest);
    SkipCommentText(text, rest);
    var sc2 := sc.(input := Tail(rest), line := sc.line + 1);
    assert Next(sc1) == Continue(sc2);
    Chain(sc, |lead|, sc1, 1, sc2);
  }

  /** One line of a document, without its line end. */
  datatype LineForm =
    | BlankLine(blanks: string)
    | CommentLine(lead: string, text: string)
    | Statement(lead: string, subj: string, gap1: string, pred: string, gap2: string,
                obj: string, gap3: string, trail: string)

  predicate WellFormed(l: LineForm) {
    match l
    case BlankLine(b) => Blanks(b)
    case CommentLine(lead, text) => Blanks(lead) && NoBreak(text)
    case Statement(lead, subj, gap1, pred, gap2, obj, gap3, trail) =>
      && Blanks(lead) && IsToken(subj) && Blanks(gap1) && |gap1| > 0
      && IsToken(pred) && Blanks(gap2) && |gap2| > 0 && IsToken(obj)
      && Blanks(gap3) && Blanks(trail)
  }

  predicate AllWellFormed(doc: seq<LineForm>) {
    forall i | 0 <= i < |doc| :: WellFormed(doc[i])
  }

  /** The text of a line, followed by `tail`. */
  function RenderOnto(l: LineForm, tail: string): string {
    match l
    case BlankLine(b) => b + tail
    case CommentLine(lead, text) => lead + ("#" + (text + tail))
    case Statement(lead, subj, gap1, pred, gap2, obj, gap3, trail) =>
      lead + (subj + (gap1 + (pred + (gap2 + (obj + (gap3 + ("." + (trail + tail))))))))
  }

  /** The text of a document, each line ended by a newline, followed by `tail`. */
  function RenderDocOnto(doc: seq<LineForm>, tail: string): string {
    if |doc| == 0 then tail else RenderOnto(doc[0], "\n" + RenderDocOnto(doc[1..], tail))
  }

  function RenderDoc(doc: seq<LineForm>): string {
    RenderDocOnto(doc, "")
  }

  /** The triple a line states, if it is a statement. */
  function Emits(l: LineForm): seq<Triple> {
    if l.Statement? then [Triple(l.subj, l.pred, l.obj)] else []
  }

  /** The triples a document states, in order. */
  function StatementsOf(doc: seq<LineForm>): seq<Triple> {
    if |doc| == 0 then [] else Emits(doc[0]) + StatementsOf(doc[1..])
  }

  /** Any well-formed line, ended by a newline, moves to the next line and
      records exactly the triple it states. */
  lemma LineStep(sc: Scanner, l: LineForm, rest: string) returns (k: nat)
    requires LineStart(sc) && WellFormed(l) && sc.input == RenderOnto(l, "\n" + rest)
    ensures Leads(sc, k, sc.(input := rest, line := sc.line + 1, triples := sc.triples + Emits(l)))
  {
    hide Next;
    Behead("\n", rest);
    match l
    case BlankLine(b) =>
      BlankLineStep(sc, b, rest);
      assert sc.triples + Emits(l) == sc.triples;
      k := |b| + 1;
    case CommentLine(lead, text) =>
      CommentLineStep(sc, lead, text, "\n" + rest);
      assert sc.triples + Emits(l) == sc.triples;
      k := |lead| + 1;
    case Statement(lead, subj, gap1, pred, gap2, obj, gap3, trail) =>
      k := StatementStep(sc, lead, subj, gap1, pred, gap2, obj, gap3, trail, "\n" + rest);
  }

  lemma WellFormedTail(doc: seq<LineForm>)
    requires |doc| > 0 && AllWellFormed(doc)
    ensures AllWellFormed(doc[1..])
  {
    forall i | 0 <= i < |doc[1..]| ensures WellFormed(doc[1..][i]) {
      assert doc[1..][i] == doc[i + 1];
    }
  }

  lemma StatementsCons(ts: seq<Triple>, doc: seq<LineForm>)
    requires |doc| > 0
    ensures ts + Emits(doc[0]) + StatementsOf(doc[1..]) == ts + StatementsOf(doc)
  {
  }

  /** A well-formed document moves from line to line, recording its
      statements in order. */
  lemma {:induction false} DocSteps(sc: Scanner, doc: seq<LineForm>, rest: string) returns (k: nat)
    requires LineStart(sc) && AllWellFormed(doc)
    requires sc.input == RenderDocOnto(doc, rest)
    ensures Leads(sc, k, sc.(input := rest, line := sc.line + |doc|,
                             triples := sc.triples + StatementsOf(doc)))
    decreases |doc|
  {
    hide Next;
    var target := sc.(input := rest, line := sc.line + |doc|,
                      triples := sc.triples + StatementsOf(doc));
    if |doc| == 0 {
      assert target == sc;
      k := 0;
    } else {
      var tail := RenderDocOnto(doc[1..], rest);
      WellFormedTail(doc);
      StatementsCons(sc.triples, doc);
      var sc1 := sc.(input := tail, line := sc.line + 1, triples := sc.triples + Emits(doc[0]));
      assert target == sc1.(input := rest, line := sc1.line + |doc[1..]|,
                            triples := sc1.triples + StatementsOf(doc[1..]));
      var k1 := LineStep(sc, doc[0], tail);
      var k2 := DocSteps(sc1, doc[1..], rest);
      Chain(sc, k1, sc1, k2, target);
      k := k1 + k2;
    }
  }

  /** The scanner at the start of the line that follows the well-formed lines
      `doc`, with `bad` still to read. */
  function LineAfter(doc: seq<LineForm>, bad: string): Scanner {
    Start(bad).(line := |doc| + 1, triples := StatementsOf(doc))
  }

  /** The whole input leads to the start of the line after `doc`. */
  lemma ReachLine(doc: seq<LineForm>, bad: string) returns (k: nat)
    requires AllWellFormed(doc)
    ensures Leads(Start(RenderDocOnto(doc, bad)), k, LineAfter(doc, bad))
  {
    var sc := Start(RenderDocOnto(doc, bad));
    assert sc.(input := bad, line := sc.line + |doc|, triples := sc.triples + StatementsOf(doc))
        == LineAfter(doc, bad);
    k := DocSteps(sc, doc, bad);
  }

  /** How the parse ends is decided on the line after `doc`. */
  lemma ParseFrom(doc: seq<LineForm>, bad: string, k: nat)
    requires AllWellFormed(doc) && Steps(LineAfter(doc, bad), k).Stop?
    ensures Parse(RenderDocOnto(doc, bad)) == Steps(LineAfter(doc, bad), k).result
  {
    hide Next;
    var sc := Start(RenderDocOnto(doc, bad));
    var k0 := ReachLine(doc, bad);
    ChainStop(sc, k0, LineAfter(doc, bad), k);
    StepsRun(sc, k0 + k);
  }

  /** The whole input stops in the scanner the line after `doc` leads to. */
  lemma FinishFrom(doc: seq<LineForm>, bad: string, k: nat, sc': Scanner)
    requires AllWellFormed(doc) && Leads(LineAfter(doc, bad), k, sc')
    ensures Finish(Start(RenderDocOnto(doc, bad))) == Finish(sc')
  {
    hide Next, Finish;
    var sc := Start(RenderDocOnto(doc, bad));
    var k0 := ReachLine(doc, bad);
    Chain(sc, k0, LineAfter(doc, bad), k, sc');
    StepsFinish(sc, k0 + k);
  }

  /** A document of well-formed lines, each ended by a newline, parses to
      exactly its statements, in order. */
  lemma ParseDocument(doc: seq<LineForm>)
    requires AllWellFormed(doc)
    ensures Parse(RenderDoc(doc)) == Success(StatementsOf(doc))
  {
    assert Steps(LineAfter(doc, ""), 1) == Stop(Success(StatementsOf(doc)));
    ParseFrom(doc, "", 1);
  }

  /** The last statement need not be followed by a newline. */
  lemma ParseLastLineUnterminated(doc: seq<LineForm>, l: LineForm)
    requires AllWellFormed(doc) && l.Statement? && WellFormed(l)
    ensures Parse(RenderDocOnto(doc, RenderOnto(l, ""))) == Success(StatementsOf(doc) + Emits(l))
  {
    var sc := LineAfter(doc, RenderOnto(l, ""));
    var sc1 := sc.(input := "", line := sc.line + 1, triples := sc.triples + Emits(l));
    assert Steps(sc1, 1) == Stop(Success(StatementsOf(doc) + Emits(l)));
    hide Next;
    var k := StatementStep(sc, l.lead, l.subj, l.gap1, l.pred, l.gap2, l.obj, l.gap3, l.trail, "");
    ChainStop(sc, k, sc1, 1);
    ParseFrom(doc, RenderOnto(l, ""), k + 1);
  }

  /** A NUL byte at the start of a line ends the input, whatever follows. */
  lemma ParseStopsAtNul(doc: seq<LineForm>, junk: string)
    requires AllWellFormed(doc)
    ensures Parse(RenderDocOnto(doc, [NUL] + junk)) == Success(StatementsOf(doc))
  {
    assert Steps(LineAfter(doc, [NUL] + junk), 1) == Stop(Success(StatementsOf(doc)));
    ParseFrom(doc, [NUL] + junk, 1);
  }

  /** A backslash and the byte after it join the token, whatever the state:
      inside "..." an escaped quote does not close the group. */
  lemma EscapeStep(sc: Scanner)
    requires |sc.input| >= 2 && sc.input[0] == '\\' && sc.input[1] != NUL
    requires |sc.buf| + 2 <= MAX_IRI_LEN
    ensures Leads(sc, 1, sc.(input := sc.input[2..], buf := sc.buf + ['\\', sc.input[1]], anything := true))
  {
    assert sc.buf + ['\\'] + [sc.input[1]] == sc.buf + ['\\', sc.input[1]];
    assert Next(sc) == Escape(sc);
  }

  /** An opening byte and a group body, read outside any group. */
  lemma EnterGroup(sc: Scanner, close: char, body: string, rest: string)
    requires sc.input == [Opener(close)] + (body + rest)
    requires (close == '"' || close == '>') && GroupBody(body, close)
    requires (sc.whitespaceable || !sc.freshLine) && !sc.inQuote && !sc.inBrace
    requires |sc.buf| + |body| < MAX_IRI_LEN
    ensures Leads(sc, 1 + |body|, sc.(input := rest, buf := sc.buf + ([Opener(close)] + body),
                                      inQuote := close == '"', inBrace := close == '>',
                                      freshLine := false, whitespaceable := false, anything := true))
  {
    hide Next;
    Behead([Opener(close)], body + rest);
    OpenGroup(sc, close);
    var sc1 := sc.(input := body + rest, buf := sc.buf + [Opener(close)],
                   inQuote := close == '"', inBrace := close == '>',
                   freshLine := false, whitespaceable := false, anything := true);
    ReadGroup(sc1, body, close, rest);
    assert sc1.buf + body == sc.buf + ([Opener(close)] + body);
    Chain(sc, 1, sc1, |body|, sc1.(input := rest, buf := sc1.buf + body));
  }

  /** A newline inside a group is fatal on its line. */
  lemma NewlineInGroup(sc: Scanner, close: char, rest: string)
    requires sc.input == "\n" + rest && Grouping(sc, close)
    ensures Steps(sc, 1) == Stop(Failure(ParseError(if close == '"' then UnterminatedQuote
                                                    else UnterminatedIri, sc.line)))
  {
    assert Next(sc) == Grouped(sc);
  }

  /** A backslash with nothing after it is fatal on its line. */
  lemma BackslashAtEnd(sc: Scanner, rest: string)
    requires sc.input == "\\" + rest && First(rest) == NUL
    ensures Steps(sc, 1) == Stop(Failure(ParseError(TrailingBackslash, sc.line)))
  {
    Behead("\\", rest);
    assert Next(sc) == Escape(sc);
  }

  /** A field already finished on the line: its token and the blanks after it. */
  datatype Done = Done(tok: string, gap: string)

  /** How a line begins before the token a lemma is about: leading blanks,
      then the fields already finished (none, the subject, or the subject and
      the predicate). */
  datatype Head = Head(lead: string, done: seq<Done>)

  predicate HeadWellFormed(h: Head) {
    && Blanks(h.lead) && |h.done| <= 2
    && forall i | 0 <= i < |h.done| ::
         IsToken(h.done[i].tok) && Blanks(h.done[i].gap) && |h.done[i].gap| > 0
  }

  function DoneOnto(done: seq<Done>, tail: string): string {
    if |done| == 0 then tail else done[0].tok + (done[0].gap + DoneOnto(done[1..], tail))
  }

  /** The text of a line head, followed by `tail`. */
  function HeadOnto(h: Head, tail: string): string {
    h.lead + DoneOnto(h.done, tail)
  }

  /** The field the next token fills. */
  function HeadField(h: Head): Field {
    if |h.done| == 0 then Subject
    else if |h.done| == 1 then Predicate(h.done[0].tok)
    else Object(h.done[0].tok, h.done[1].tok)
  }

  /** The groups of the current token read so far, each a whole `<...>` or
      `"..."`: `"a"<b>` is one token of two groups. */
  predicate Groups(parts: seq<string>) {
    forall i | 0 <= i < |parts| :: IsToken(parts[i])
  }

  function Concat(parts: seq<string>): string {
    if |parts| == 0 then [] else parts[0] + Concat(parts[1..])
  }

  /** The scanner once a line head and the first groups of the next token
      are read, from a scanner at the start of the line. */
  function Cursor(sc: Scanner, h: Head, parts: seq<string>, tail: string): Scanner {
    sc.(input := tail, buf := Concat(parts), field := HeadField(h),
        freshLine := |h.done| == 0 && parts == [], whitespaceable := parts == [],
        anything := |h.done| > 0 || parts != [])
  }

  /** The leading blanks and the finished fields of a line. */
  lemma ReadHead(sc: Scanner, h: Head, tail: string) returns (k: nat)
    requires LineStart(sc) && HeadWellFormed(h) && sc.input == HeadOnto(h, tail)
    ensures Leads(sc, k, Cursor(sc, h, [], tail))
  {
    hide Next;
    var sc1 := sc.(input := DoneOnto(h.done, tail));
    SkipBlanks(sc, h.lead, DoneOnto(h.done, tail));
    if |h.done| == 0 {
      assert sc1 == Cursor(sc, h, [], tail);
      k := |h.lead|;
    } else {
      var d0 := h.done[0];
      var more := h.done[1..];
      ReadField(sc1, d0.tok, d0.gap, DoneOnto(more, tail));
      var sc2 := sc1.(input := DoneOnto(more, tail), field := Predicate(d0.tok),
                      freshLine := false, anything := true);
      Chain(sc, |h.lead|, sc1, |d0.tok| + |d0.gap|, sc2);
      if |h.done| == 1 {
        assert sc2 == Cursor(sc, h, [], tail);
        k := |h.lead| + |d0.tok| + |d0.gap|;
      } else {
        var d1 := more[0];
        assert DoneOnto(more[1..], tail) == tail;
        ReadField(sc2, d1.tok, d1.gap, tail);
        var sc3 := sc2.(input := tail, field := Object(d0.tok, d1.tok));
        assert sc3 == Cursor(sc, h, [], tail);
        Chain(sc, |h.lead| + |d0.tok| + |d0.gap|, sc2, |d1.tok| + |d1.gap|, sc3);
        k := |h.lead| + |d0.tok| + |d0.gap| + |d1.tok| + |d1.gap|;
      }
    }
  }

  /** Whole groups of one token, read one after the other. */
  lemma {:induction false} ReadParts(sc: Scanner, parts: seq<string>, tail: string) returns (k: nat)
    requires sc.input == Concat(parts) + tail && Groups(parts)
    requires (sc.whitespaceable || !sc.freshLine) && !sc.inQuote && !sc.inBrace
    requires |sc.buf| + |Concat(parts)| <= MAX_IRI_LEN
    ensures parts == [] ==> Leads(sc, k, sc.(input := tail))
    ensures parts != [] ==> Leads(sc, k, sc.(input := tail, buf := sc.buf + Concat(parts),
                                             freshLine := false, whitespaceable := false,
                                             anything := true))
    decreases |parts|
  {
    hide Next;
    if parts == [] {
      assert sc.(input := tail) == sc;
      k := 0;
    } else {
      var p0 := parts[0];
      var more := parts[1..];
      assert Concat(parts) + tail == p0 + (Concat(more) + tail);
      ReadToken(sc, p0, Concat(more) + tail);
      var sc1 := sc.(input := Concat(more) + tail, buf := sc.buf + p0,
                     freshLine := false, whitespaceable := false, anything := true);
      var k1 := ReadParts(sc1, more, tail);
      var target := sc.(input := tail, buf := sc.buf + Concat(parts),
                        freshLine := false, whitespaceable := false, anything := true);
      if more == [] {
        assert sc1.(input := tail) == target;
      } else {
        assert sc1.(input := tail, buf := sc1.buf + Concat(more),
                    freshLine := false, whitespaceable := false, anything := true) == target;
      }
      Chain(sc, |p0|, sc1, k1, target);
      k := |p0| + k1;
    }
  }

  /** A line head and the first groups of a token lead to the cursor. */
  lemma ReachCursor(sc: Scanner, h: Head, parts: seq<string>, tail: string) returns (k: nat)
    requires LineStart(sc) && HeadWellFormed(h) && Groups(parts)
    requires |Concat(parts)| <= MAX_IRI_LEN
    requires sc.input == HeadOnto(h, Concat(parts) + tail)
    ensures Leads(sc, k, Cursor(sc, h, parts, tail))
  {
    hide Next, HeadOnto;
    var k0 := ReadHead(sc, h, Concat(parts) + tail);
    var s := Cursor(sc, h, [], Concat(parts) + tail);
    var k1 := ReadParts(s, parts, tail);
    assert s.buf + Concat(parts) == Concat(parts);
    Chain(sc, k0, s, k1, Cursor(sc, h, parts, tail));
    k := k0 + k1;
  }

  /** A line that ends inside "..." or <...> is fatal on that line, wherever
      the group starts. */
  lemma UnclosedGroupLine(sc: Scanner, h: Head, parts: seq<string>, close: char, body: string,
                          rest: string) returns (k: nat)
    requires LineStart(sc) && HeadWellFormed(h) && Groups(parts)
    requires sc.input == HeadOnto(h, Concat(parts) + ([Opener(close)] + (body + ("\n" + rest))))
    requires (close == '"' || close == '>') && GroupBody(body, close)
    requires |Concat(parts)| + |body| < MAX_IRI_LEN
    ensures Steps(sc, k) == Stop(Failure(ParseError(if close == '"' then UnterminatedQuote
                                                    else UnterminatedIri, sc.line)))
  {
    hide Next, HeadOnto;
    var tail := [Opener(close)] + (body + ("\n" + rest));
    var c0 := Cursor(sc, h, parts, tail);
    var k0 := ReachCursor(sc, h, parts, tail);
    EnterGroup(c0, close, body, "\n" + rest);
    var c2 := c0.(input := "\n" + rest, buf := c0.buf + ([Opener(close)] + body),
                  inQuote := close == '"', inBrace := close == '>',
                  freshLine := false, whitespaceable := false, anything := true);
    NewlineInGroup(c2, close, rest);
    Chain(sc, k0, c0, 1 + |body|, c2);
    ChainStop(sc, k0 + 1 + |body|, c2, 1);
    k := k0 + 1 + |body| + 1;
  }

  lemma UnclosedGroupFails(doc: seq<LineForm>, h: Head, parts: seq<string>, close: char,
                           body: string, rest: string)
    requires AllWellFormed(doc) && HeadWellFormed(h) && Groups(parts)
    requires (close == '"' || close == '>') && GroupBody(body, close)
    requires |Concat(parts)| + |body| < MAX_IRI_LEN
    ensures Parse(RenderDocOnto(doc, HeadOnto(h, Concat(parts) + ([Opener(close)] + (body + ("\n" + rest))))))
         == Failure(ParseError(if close == '"' then UnterminatedQuote else UnterminatedIri, |doc| + 1))
  {
    hide Next, Steps, Parse, RenderDocOnto, HeadOnto;
    var bad := HeadOnto(h, Concat(parts) + ([Opener(close)] + (body + ("\n" + rest))));
    var k := UnclosedGroupLine(LineAfter(doc, bad), h, parts, close, body, rest);
    ParseFrom(doc, bad, k);
  }

  /** A token longer than MAX_IRI_LEN bytes is fatal on its line, in any
      field: the group that crosses the limit may follow earlier groups of
      the same token. */
  lemma TokenTooLongLine(sc: Scanner, h: Head, parts: seq<string>, close: char, body: string,
                         rest: string) returns (k: nat)
    requires LineStart(sc) && HeadWellFormed(h) && Groups(parts)
    requires sc.input == HeadOnto(h, Concat(parts) + ([Opener(close)] + (body + ([close] + rest))))
    requires (close == '"' || close == '>') && GroupBody(body, close)
    requires |Concat(parts)| <= MAX_IRI_LEN < |Concat(parts)| + |body| + 2
    ensures Steps(sc, k) == Stop(Failure(ParseError(IriTooLong, sc.line)))
  {
    var n := |Concat(parts)|;
    var tail := [Opener(close)] + (body + ([close] + rest));
    var c0 := Cursor(sc, h, parts, tail);
    var c1 := c0.(input := body + ([close] + rest), buf := c0.buf + [Opener(close)],
                  inQuote := close == '"', inBrace := close == '>',
                  freshLine := false, whitespaceable := false, anything := true);
    var c2 := c1.(input := [close] + rest, buf := c1.buf + body);
    var e := ParseError(IriTooLong, sc.line);
    if n == MAX_IRI_LEN {
      assert Steps(c0, 1) == Stop(Failure(e)) by {
        assert Next(c0) == Outside(c0);
      }
    }
    if n + 1 + |body| == MAX_IRI_LEN {
      assert Steps(c2, 1) == Stop(Failure(e)) by {
        assert Next(c2) == Grouped(c2);
      }
    }
    hide Next, HeadOnto, Cursor;
    var k0 := ReachCursor(sc, h, parts, tail);
    if n == MAX_IRI_LEN {
      ChainStop(sc, k0, c0, 1);
      k := k0 + 1;
    } else {
      Behead([Opener(close)], body + ([close] + rest));
      OpenGroup(c0, close);
      Chain(sc, k0, c0, 1, c1);
      if n + 1 + |body| > MAX_IRI_LEN {
        var k2 := GroupOverflow(c1, body, close, [close] + rest);
        ChainStop(sc, k0 + 1, c1, k2);
        k := k0 + 1 + k2;
      } else {
        ReadGroup(c1, body, close, [close] + rest);
        Chain(sc, k0 + 1, c1, |body|, c2);
        ChainStop(sc, k0 + 1 + |body|, c2, 1);
        k := k0 + 1 + |body| + 1;
      }
    }
  }

  lemma TokenTooLongFails(doc: seq<LineForm>, h: Head, parts: seq<string>, close: char,
                          body: string, rest: string)
    requires AllWellFormed(doc) && HeadWellFormed(h) && Groups(parts)
    requires (close == '"' || close == '>') && GroupBody(body, close)
    requires |Concat(parts)| <= MAX_IRI_LEN < |Concat(parts)| + |body| + 2
    ensures Parse(RenderDocOnto(doc, HeadOnto(h, Concat(parts) + ([Opener(close)] + (body + ([close] + rest))))))
         == Failure(ParseError(IriTooLong, |doc| + 1))
  {
    hide Next, Steps, Parse, RenderDocOnto, HeadOnto;
    var bad := HeadOnto(h, Concat(parts) + ([Opener(close)] + (body + ([close] + rest))));
    var k := TokenTooLongLine(LineAfter(doc, bad), h, parts, close, body, rest);
    ParseFrom(doc, bad, k);
  }

  /** A newline once anything of a statement is read is fatal on that line:
      after the subject or the predicate, with or without blanks, or right
      after the groups of a token. */
  lemma LineEndsEarly(sc: Scanner, h: Head, parts: seq<string>, rest: string) returns (k: nat)
    requires LineStart(sc) && HeadWellFormed(h) && Groups(parts)
    requires |Concat(parts)| <= MAX_IRI_LEN && (|h.done| > 0 || parts != [])
    requires sc.input == HeadOnto(h, Concat(parts) + ("\n" + rest))
    ensures Steps(sc, k) == Stop(Failure(ParseError(PrematureLineEnd, sc.line)))
  {
    var c0 := Cursor(sc, h, parts, "\n" + rest);
    assert Steps(c0, 1) == Stop(Failure(ParseError(PrematureLineEnd, sc.line))) by {
      assert Next(c0) == Outside(c0);
    }
    hide Next, HeadOnto, Cursor;
    var k0 := ReachCursor(sc, h, parts, "\n" + rest);
    ChainStop(sc, k0, c0, 1);
    k := k0 + 1;
  }

  lemma LineEndsEarlyFails(doc: seq<LineForm>, h: Head, parts: seq<string>, rest: string)
    requires AllWellFormed(doc) && HeadWellFormed(h) && Groups(parts)
    requires |Concat(parts)| <= MAX_IRI_LEN && (|h.done| > 0 || parts != [])
    ensures Parse(RenderDocOnto(doc, HeadOnto(h, Concat(parts) + ("\n" + rest))))
         == Failure(ParseError(PrematureLineEnd, |doc| + 1))
  {
    hide Next, Steps, Parse, RenderDocOnto, HeadOnto;
    var bad := HeadOnto(h, Concat(parts) + ("\n" + rest));
    var k := LineEndsEarly(LineAfter(doc, bad), h, parts, rest);
    ParseFrom(doc, bad, k);
  }

  /** The closing byte of the group an opening byte starts. */
  function Closer(open: char): char {
    if open == '"' then '"' else '>'
  }

  /** What a token may hold inside a group that is still open: nothing, or an
      opening byte and plain group bytes. */
  predicate OpenPrefix(pre: string) {
    pre == [] || ((pre[0] == '"' || pre[0] == '<') && GroupBody(pre[1..], Closer(pre[0])))
  }

  /** A backslash followed by the end of the input is fatal on its line,
      between tokens, after the groups of a token, or inside an open group. */
  lemma TrailingBackslashLine(sc: Scanner, h: Head, parts: seq<string>, pre: string, rest: string)
    returns (k: nat)
    requires LineStart(sc) && HeadWellFormed(h) && Groups(parts) && OpenPrefix(pre)
    requires |Concat(parts)| + |pre| <= MAX_IRI_LEN && First(rest) == NUL
    requires sc.input == HeadOnto(h, Concat(parts) + (pre + ("\\" + rest)))
    ensures Steps(sc, k) == Stop(Failure(ParseError(TrailingBackslash, sc.line)))
  {
    hide Next, HeadOnto;
    var tail := pre + ("\\" + rest);
    var c0 := Cursor(sc, h, parts, tail);
    var k0 := ReachCursor(sc, h, parts, tail);
    if pre == [] {
      assert tail == "\\" + rest;
      BackslashAtEnd(c0, rest);
      ChainStop(sc, k0, c0, 1);
      k := k0 + 1;
    } else {
      var close := Closer(pre[0]);
      var body := pre[1..];
      assert tail == [Opener(close)] + (body + ("\\" + rest));
      EnterGroup(c0, close, body, "\\" + rest);
      var c2 := c0.(input := "\\" + rest, buf := c0.buf + ([Opener(close)] + body),
                    inQuote := close == '"', inBrace := close == '>',
                    freshLine := false, whitespaceable := false, anything := true);
      BackslashAtEnd(c2, rest);
      Chain(sc, k0, c0, 1 + |body|, c2);
      ChainStop(sc, k0 + 1 + |body|, c2, 1);
      k := k0 + 1 + |body| + 1;
    }
  }

  lemma TrailingBackslashFails(doc: seq<LineForm>, h: Head, parts: seq<string>, pre: string,
                               rest: string)
    requires AllWellFormed(doc) && HeadWellFormed(h) && Groups(parts) && OpenPrefix(pre)
    requires |Concat(parts)| + |pre| <= MAX_IRI_LEN && First(rest) == NUL
    ensures Parse(RenderDocOnto(doc, HeadOnto(h, Concat(parts) + (pre + ("\\" + rest)))))
         == Failure(ParseError(TrailingBackslash, |doc| + 1))
  {
    hide Next, Steps, Parse, RenderDocOnto, HeadOnto;
    var bad := HeadOnto(h, Concat(parts) + (pre + ("\\" + rest)));
    var k := TrailingBackslashLine(LineAfter(doc, bad), h, parts, pre, rest);
    ParseFrom(doc, bad, k);
  }

  /** A byte the scanner cannot take at this point of a line: not a blank,
      quote, bracket, backslash, newline or NUL; not the `#` of a comment,
      which only a fresh line opens; not the period that ends an object. */
  predicate Stray(c: char, h: Head, parts: seq<string>) {
    && !IsBlank(c) && c != '"' && c != '<' && c != '\\' && c != '\n' && c != NUL
    && (c == '#' ==> |h.done| > 0 || parts != [])
    && (c == '.' ==> |h.done| < 2)
  }

  /** A stray byte is fatal on its line, wherever it stands: a bare token
      such as `_:b0`, or a byte glued to a token, as in `<s>x`. */
  lemma UnexpectedCharLine(sc: Scanner, h: Head, parts: seq<string>, c: char, rest: string)
    returns (k: nat)
    requires LineStart(sc) && HeadWellFormed(h) && Groups(parts) && |Concat(parts)| <= MAX_IRI_LEN
    requires sc.input == HeadOnto(h, Concat(parts) + ([c] + rest)) && Stray(c, h, parts)
    ensures Steps(sc, k) == Stop(Failure(ParseError(UnexpectedChar(c), sc.line)))
  {
    var c0 := Cursor(sc, h, parts, [c] + rest);
    assert Steps(c0, 1) == Stop(Failure(ParseError(UnexpectedChar(c), sc.line))) by {
      assert Next(c0) == Outside(c0);
    }
    hide Next, HeadOnto, Cursor;
    var k0 := ReachCursor(sc, h, parts, [c] + rest);
    ChainStop(sc, k0, c0, 1);
    k := k0 + 1;
  }

  lemma UnexpectedCharFails(doc: seq<LineForm>, h: Head, parts: seq<string>, c: char, rest: string)
    requires AllWellFormed(doc) && HeadWellFormed(h) && Groups(parts) && |Concat(parts)| <= MAX_IRI_LEN
    requires Stray(c, h, parts)
    ensures Parse(RenderDocOnto(doc, HeadOnto(h, Concat(parts) + ([c] + rest))))
         == Failure(ParseError(UnexpectedChar(c), |doc| + 1))
  {
    hide Next, Steps, Parse, RenderDocOnto, HeadOnto;
    var bad := HeadOnto(h, Concat(parts) + ([c] + rest));
    var k := UnexpectedCharLine(LineAfter(doc, bad), h, parts, c, rest);
    ParseFrom(doc, bad, k);
  }

  /** What the line does once its object token is read. */
  lemma AfterObjectLine(sc: Scanner, lead: string, subj: string, gap1: string,
                        pred: string, gap2: string, obj: string, rest: string, k1: nat)
    returns (k: nat)
    requires LineStart(sc) && sc.input == lead + (subj + (gap1 + (pred + (gap2 + (obj + rest)))))
    requires Blanks(lead) && IsToken(subj) && Blanks(gap1) && |gap1| > 0
    requires IsToken(pred) && Blanks(gap2) && |gap2| > 0 && IsToken(obj)
    requires Steps(AfterObjectToken(sc, rest, subj, pred, obj), k1).Stop?
    ensures Steps(sc, k) == Steps(AfterObjectToken(sc, rest, subj, pred, obj), k1)
  {
    hide Next;
    var k0 := ReadThree(sc, lead, subj, gap1, pred, gap2, obj, rest);
    ChainStop(sc, k0, AfterObjectToken(sc, rest, subj, pred, obj), k1);
    k := k0 + k1;
  }

  /** A line that ends right after its object, with no period, is fatal on
      that line. */
  lemma ObjectAtLineEndLine(sc: Scanner, lead: string, subj: string, gap1: string,
                            pred: string, gap2: string, obj: string, rest: string)
    returns (k: nat)
    requires LineStart(sc)
    requires sc.input == lead + (subj + (gap1 + (pred + (gap2 + (obj + rest)))))
    requires Blanks(lead) && IsToken(subj) && Blanks(gap1) && |gap1| > 0
    requires IsToken(pred) && Blanks(gap2) && |gap2| > 0 && IsToken(obj) && First(rest) == '\n'
    ensures Steps(sc, k) == Stop(Failure(ParseError(PrematureLineEnd, sc.line)))
  {
    var sc6 := AfterObjectToken(sc, rest, subj, pred, obj);
    assert Steps(sc6, 1) == Stop(Failure(ParseError(PrematureLineEnd, sc.line))) by {
      assert Next(sc6) == Outside(sc6);
    }
    hide Next;
    k := AfterObjectLine(sc, lead, subj, gap1, pred, gap2, obj, rest, 1);
  }

  lemma ObjectAtLineEndFails(doc: seq<LineForm>, lead: string, subj: string, gap1: string,
                             pred: string, gap2: string, obj: string, rest: string)
    requires AllWellFormed(doc) && Blanks(lead) && IsToken(subj) && Blanks(gap1) && |gap1| > 0
    requires IsToken(pred) && Blanks(gap2) && |gap2| > 0 && IsToken(obj) && First(rest) == '\n'
    ensures Parse(RenderDocOnto(doc, lead + (subj + (gap1 + (pred + (gap2 + (obj + rest)))))))
         == Failure(ParseError(PrematureLineEnd, |doc| + 1))
  {
    hide Next;
    var bad := lead + (subj + (gap1 + (pred + (gap2 + (obj + rest)))));
    var k := ObjectAtLineEndLine(LineAfter(doc, bad), lead, subj, gap1, pred, gap2, obj, rest);
    ParseFrom(doc, bad, k);
  }

  /** Blanks after the object and then the end of the line, with no period,
      are fatal on that line. */
  lemma MissingPeriodLine(sc: Scanner, lead: string, subj: string, gap1: string,
                          pred: string, gap2: string, obj: string, gap3: string, rest: string)
    returns (k: nat)
    requires LineStart(sc)
    requires sc.input == lead + (subj + (gap1 + (pred + (gap2 + (obj + (gap3 + rest))))))
    requires Blanks(lead) && IsToken(subj) && Blanks(gap1) && |gap1| > 0
    requires IsToken(pred) && Blanks(gap2) && |gap2| > 0 && IsToken(obj)
    requires Blanks(gap3) && |gap3| > 0 && Terminates(rest)
    ensures Steps(sc, k) == Stop(Failure(ParseError(MissingPeriod, sc.line)))
  {
    var sc6 := AfterObjectToken(sc, gap3 + rest, subj, pred, obj);
    assert Steps(sc6, 1) == Stop(Failure(ParseError(MissingPeriod, sc.line))) by {
      Behead(gap3, rest);
      AfterMissing(gap3[1..], rest, sc.line);
      assert Next(sc6) == Outside(sc6);
    }
    hide Next;
    k := AfterObjectLine(sc, lead, subj, gap1, pred, gap2, obj, gap3 + rest, 1);
  }

  lemma MissingPeriodFails(doc: seq<LineForm>, lead: string, subj: string, gap1: string,
                           pred: string, gap2: string, obj: string, gap3: string, rest: string)
    requires AllWellFormed(doc) && Blanks(lead) && IsToken(subj) && Blanks(gap1) && |gap1| > 0
    requires IsToken(pred) && Blanks(gap2) && |gap2| > 0 && IsToken(obj)
    requires Blanks(gap3) && |gap3| > 0 && Terminates(rest)
    ensures Parse(RenderDocOnto(doc, lead + (subj + (gap1 + (pred + (gap2 + (obj + (gap3 + rest))))))))
         == Failure(ParseError(MissingPeriod, |doc| + 1))
  {
    hide Next;
    var bad := lead + (subj + (gap1 + (pred + (gap2 + (obj + (gap3 + rest))))));
    var k := MissingPeriodLine(LineAfter(doc, bad), lead, subj, gap1, pred, gap2, obj, gap3, rest);
    ParseFrom(doc, bad, k);
  }

  /** After the period only blanks may follow on the line: a second period or
      any other byte is fatal on that line. */
  lemma JunkAfterPeriodLine(sc: Scanner, lead: string, subj: string, gap1: string,
                            pred: string, gap2: string, obj: string, after: string,
                            gap3: string, trail: string, c: char, rest: string)
    returns (k: nat)
    requires LineStart(sc)
    requires after == gap3 + ("." + (trail + ([c] + rest)))
    requires sc.input == lead + (subj + (gap1 + (pred + (gap2 + (obj + after)))))
    requires Blanks(lead) && IsToken(subj) && Blanks(gap1) && |gap1| > 0
    requires IsToken(pred) && Blanks(gap2) && |gap2| > 0 && IsToken(obj)
    requires Blanks(gap3) && Blanks(trail) && !IsBlank(c) && c != '\n' && c != NUL
    ensures Steps(sc, k) == Stop(Failure(ParseError(UnexpectedAfterObject, sc.line)))
  {
    var sc6 := AfterObjectToken(sc, after, subj, pred, obj);
    var e := ParseError(UnexpectedAfterObject, sc.line);
    assert Steps(sc6, 1) == Stop(Failure(e)) by {
      if |gap3| > 0 {
        Behead(gap3, "." + (trail + ([c] + rest)));
        AfterPeriodJunk(gap3[1..], trail, c, rest, sc.line);
      } else {
        assert after == "." + (trail + ([c] + rest));
        Behead(".", trail + ([c] + rest));
        AfterJunk(trail, c, rest, sc.line);
      }
      assert Next(sc6) == Outside(sc6);
    }
    hide Next;
    k := AfterObjectLine(sc, lead, subj, gap1, pred, gap2, obj, after, 1);
  }

  lemma JunkAfterPeriodFails(doc: seq<LineForm>, lead: string, subj: string, gap1: string,
                             pred: string, gap2: string, obj: string, after: string,
                             gap3: string, trail: string, c: char, rest: string)
    requires AllWellFormed(doc) && Blanks(lead) && IsToken(subj) && Blanks(gap1) && |gap1| > 0
    requires IsToken(pred) && Blanks(gap2) && |gap2| > 0 && IsToken(obj)
    requires after == gap3 + ("." + (trail + ([c] + rest)))
    requires Blanks(gap3) && Blanks(trail) && !IsBlank(c) && c != '\n' && c != NUL
    ensures Parse(RenderDocOnto(doc, lead + (subj + (gap1 + (pred + (gap2 + (obj + after)))))))
         == Failure(ParseError(UnexpectedAfterObject, |doc| + 1))
  {
    hide Next;
    var bad := lead + (subj + (gap1 + (pred + (gap2 + (obj + after)))));
    var k := JunkAfterPeriodLine(LineAfter(doc, bad), lead, subj, gap1, pred, gap2, obj,
                                 after, gap3, trail, c, rest);
    ParseFrom(doc, bad, k);
  }

  /** A last line whose object is followed by nothing at all is dropped
      without an error. */
  lemma UnfinishedLastLineDropped(doc: seq<LineForm>, lead: string, subj: string, gap1: string,
                                  pred: string, gap2: string, obj: string)
    requires AllWellFormed(doc) && Blanks(lead) && IsToken(subj) && Blanks(gap1) && |gap1| > 0
    requires IsToken(pred) && Blanks(gap2) && |gap2| > 0 && IsToken(obj)
    ensures Parse(RenderDocOnto(doc, lead + (subj + (gap1 + (pred + (gap2 + obj))))))
         == Success(StatementsOf(doc))
  {
    var bad := lead + (subj + (gap1 + (pred + (gap2 + obj))));
    var sc := LineAfter(doc, bad);
    var sc6 := AfterObjectToken(sc, "", subj, pred, obj);
    assert Steps(sc6, 1) == Stop(Success(StatementsOf(doc)));
    assert bad == lead + (subj + (gap1 + (pred + (gap2 + (obj + "")))));
    hide Next;
    var k := AfterObjectLine(sc, lead, subj, gap1, pred, gap2, obj, "", 1);
    ParseFrom(doc, bad, k);
  }

  /** A line cut short by the end of the input right after its object stops
      in the scanner that holds its subject and predicate. */
  lemma UnfinishedLineStops(sc: Scanner, lead: string, subj: string, gap1: string,
                            pred: string, gap2: string, obj: string) returns (k: nat)
    requires LineStart(sc) && sc.input == lead + (subj + (gap1 + (pred + (gap2 + obj))))
    requires Blanks(lead) && IsToken(subj) && Blanks(gap1) && |gap1| > 0
    requires IsToken(pred) && Blanks(gap2) && |gap2| > 0 && IsToken(obj)
    ensures Leads(sc, k, AfterObjectToken(sc, "", subj, pred, obj))
    ensures Finish(AfterObjectToken(sc, "", subj, pred, obj))
         == Success(AfterObjectToken(sc, "", subj, pred, obj))
  {
    var sc6 := AfterObjectToken(sc, "", subj, pred, obj);
    assert Finish(sc6) == Success(sc6);
    assert sc.input == lead + (subj + (gap1 + (pred + (gap2 + (obj + "")))));
    hide Next, Finish;
    k := ReadThree(sc, lead, subj, gap1, pred, gap2, obj, "");
  }

  /** Such a dropped last line still leaves its subject and predicate in the
      field marker the parser stops in, the texts `set_iri` has interned. */
  lemma UnfinishedLastLineField(doc: seq<LineForm>, lead: string, subj: string, gap1: string,
                                pred: string, gap2: string, obj: string)
    requires AllWellFormed(doc) && Blanks(lead) && IsToken(subj) && Blanks(gap1) && |gap1| > 0
    requires IsToken(pred) && Blanks(gap2) && |gap2| > 0 && IsToken(obj)
    ensures Parse(RenderDocOnto(doc, lead + (subj + (gap1 + (pred + (gap2 + obj))))))
         == Success(StatementsOf(doc))
    ensures Unfinished(RenderDocOnto(doc, lead + (subj + (gap1 + (pred + (gap2 + obj))))))
         == Object(subj, pred)
  {
    hide Next, Finish, Parse, Unfinished, RenderDocOnto, Steps;
    var bad := lead + (subj + (gap1 + (pred + (gap2 + obj))));
    var input := RenderDocOnto(doc, bad);
    UnfinishedLastLineDropped(doc, lead, subj, gap1, pred, gap2, obj);
    var sc := LineAfter(doc, bad);
    var sc6 := AfterObjectToken(sc, "", subj, pred, obj);
    var k1 := UnfinishedLineStops(sc, lead, subj, gap1, pred, gap2, obj);
    FinishFrom(doc, bad, k1, sc6);
    UnfinishedIs(input, sc6);
  }

  /** A period right after the blanks that follow the predicate ends the
      statement with an empty object. */
  lemma EmptyObjectLine(sc: Scanner, lead: string, subj: string, gap1: string,
                        pred: string, gap2: string, trail: string, rest: string) returns (k: nat)
    requires LineStart(sc) && sc.input == lead + (subj + (gap1 + (pred + (gap2 + ("." + (trail + rest))))))
    requires Blanks(lead) && IsToken(subj) && Blanks(gap1) && |gap1| > 0
    requires IsToken(pred) && Blanks(gap2) && |gap2| > 0 && Blanks(trail) && Terminates(rest)
    ensures Leads(sc, k, sc.(input := Tail(rest), line := sc.line + 1,
                             triples := sc.triples + [Triple(subj, pred, "")]))
  {
    var sc5 := BeforeObject(sc, "." + (trail + rest), subj, pred);
    var sc6 := Recorded(sc5, Tail(rest));
    assert Steps(sc5, 1) == Continue(sc6) by {
      Behead(".", trail + rest);
      AfterEnd(trail, rest, sc.line);
      assert Next(sc5) == Outside(sc5);
    }
    assert sc6 == sc.(input := Tail(rest), line := sc.line + 1,
                      triples := sc.triples + [Triple(subj, pred, "")]);
    hide Next;
    var k0 := ReadTwo(sc, lead, subj, gap1, pred, gap2, "." + (trail + rest));
    Chain(sc, k0, sc5, 1, sc6);
    k := k0 + 1;
  }

  /** At the start of a line, the end of the input ends the parse with the
      statements recorded so far. */
  lemma EndOfInput(sc: Scanner)
    requires LineStart(sc) && sc.input == []
    ensures Steps(sc, 1) == Stop(Success(sc.triples))
  {
  }

  lemma EmptyObjectAccepted(doc: seq<LineForm>, lead: string, subj: string, gap1: string,
                            pred: string, gap2: string, after: string, trail: string)
    requires AllWellFormed(doc) && Blanks(lead) && IsToken(subj) && Blanks(gap1) && |gap1| > 0
    requires IsToken(pred) && Blanks(gap2) && |gap2| > 0
    requires after == "." + trail && Blanks(trail)
    ensures Parse(RenderDocOnto(doc, lead + (subj + (gap1 + (pred + (gap2 + after))))))
         == Success(StatementsOf(doc) + [Triple(subj, pred, "")])
  {
    hide Next;
    var bad := lead + (subj + (gap1 + (pred + (gap2 + after))));
    assert after == "." + (trail + "");
    var sc := LineAfter(doc, bad);
    var k := EmptyObjectLine(sc, lead, subj, gap1, pred, gap2, trail, "");
    var sc6 := sc.(input := "", line := sc.line + 1, triples := sc.triples + [Triple(subj, pred, "")]);
    EndOfInput(sc6);
    ChainStop(sc, k, sc6, 1);
    ParseFrom(doc, bad, k + 1);
  }
}
