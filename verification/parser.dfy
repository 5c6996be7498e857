/** The streaming triple parser of trans.c (`parse_triples_file`, `add_char`,
    `set_iri`), as a pure function from the input bytes to the statements it
    accepts or the first fatal error.

    The scanner holds the part of the input not read yet. Reading from an
    exhausted input yields NUL, which is how the C reader marks the end of a
    short read. The scanner state carries exactly the flags the C loop keeps
    (quote, brace, which fields are done, fresh line, whitespaceable, anything
    seen), with the finished subject and predicate texts kept inside the field
    marker. Interning the tokens does not influence the parse, so it is done
    afterwards (see the store): the completed statements are interned in input
    order, and then the subject and predicate that a last line cut short by
    the end of the input had already delimited, which `Finish` leaves in the
    field marker of the scanner it stops in. */
module Parser {
  import opened Results

  /** Longest token the fixed buffer holds (trans.h). */
  const MAX_IRI_LEN: nat := 1024

  const NUL: char := '\0'

  /** The fatal errors of the parser; each one aborts the C program. */
  datatype ErrorKind =
    | TrailingBackslash        // the input ends right after a backslash
    | UnterminatedQuote        // a line ends inside "..."
    | UnterminatedIri          // a line ends inside <...>
    | MissingPeriod            // the object is not followed by a period
    | UnexpectedAfterObject    // a second period or another byte after the object
    | PrematureLineEnd         // a line ends before its object is complete
    | UnexpectedChar(c: char)  // a byte outside quotes and brackets
    | IriTooLong               // a token longer than MAX_IRI_LEN bytes

  /** An error and the 1-based line it was found on. */
  datatype ParseError = ParseError(kind: ErrorKind, line: nat)

  datatype Triple = Triple(subj: string, pred: string, obj: string)

  /** Which field is being accumulated (`fSubj`/`fPred` in the C), together
      with the texts of the fields already finished on this line. */
  datatype Field = Subject | Predicate(subj: string) | Object(subj: string, pred: string)

  datatype Scanner = Scanner(
    input: string,         // the bytes not read yet
    line: nat,             // current line number, from 1
    buf: string,           // the token accumulated so far
    inQuote: bool,
    inBrace: bool,
    field: Field,
    freshLine: bool,       // nothing but blanks read on this line yet
    whitespaceable: bool,  // blanks are skipped rather than ending a token
    anything: bool,        // some token byte was read since the last statement
    triples: seq<Triple>)  // the statements accepted so far

  /** The state `parse_triples_file` starts from. */
  function Start(s: string): Scanner {
    Scanner(s, 1, [], false, false, Subject, true, true, false, [])
  }

  /** The next byte; NUL once the input is exhausted. */
  function First(t: string): char {
    if |t| == 0 then NUL else t[0]
  }

  /** The input after reading one byte; reading from an exhausted input
      leaves it exhausted. */
  function Tail(t: string): (r: string)
    ensures |t| > 0 ==> |r| < |t|
    ensures |t| == 0 ==> r == []
  {
    if |t| == 0 then t else t[1..]
  }

  predicate IsBlank(c: char) {
    c == ' ' || c == '\t'
  }

  predicate TokenBounded(t: string) {
    |t| <= MAX_IRI_LEN
  }

  predicate TripleBounded(t: Triple) {
    TokenBounded(t.subj) && TokenBounded(t.pred) && TokenBounded(t.obj)
  }

  /** Every text the scanner holds fits the token buffer. */
  predicate Bounded(sc: Scanner) {
    && TokenBounded(sc.buf)
    && (sc.field.Predicate? ==> TokenBounded(sc.field.subj))
    && (sc.field.Object? ==> TokenBounded(sc.field.subj) && TokenBounded(sc.field.pred))
    && forall t | t in sc.triples :: TripleBounded(t)
  }

  /** `add_char`: append one byte to the token buffer, failing once the buffer
      already holds MAX_IRI_LEN bytes. */
  function AddChar(sc: Scanner, c: char): Result<Scanner, ParseError> {
    if |sc.buf| >= MAX_IRI_LEN then Failure(ParseError(IriTooLong, sc.line))
    else Success(sc.(buf := sc.buf + [c]))
  }

  /** The comment loop: skip to the end of the line, consuming the newline or
      NUL that ends it. */
  function SkipComment(t: string): (r: string)
    ensures |r| <= |t|
    decreases |t|
  {
    var c := First(t);
    if c == NUL || c == '\n' then Tail(t) else SkipComment(t[1..])
  }

  /** The loop after the object: only blanks and one period may follow it on
      its line. `period` tells whether the period was already read. The result
      is the input after the newline or NUL that ends the line. */
  function AfterObject(t: string, period: bool, line: nat): (r: Result<string, ParseError>)
    ensures r.Success? ==> |r.value| <= |t|
    ensures r.Failure? ==> r.error.line == line
    ensures r.Failure? ==> r.error.kind == MissingPeriod || r.error.kind == UnexpectedAfterObject
    decreases |t|
  {
    var c := First(t);
    if c == NUL || c == '\n' then
      if period then Success(Tail(t)) else Failure(ParseError(MissingPeriod, line))
    else if IsBlank(c) then AfterObject(t[1..], period, line)
    else if c == '.' && !period then AfterObject(t[1..], true, line)
    else Failure(ParseError(UnexpectedAfterObject, line))
  }

  /** A field separator was read (`c` is a blank, or the period once the
      predicate is done): finish the current field. After the object this
      also consumes the rest of the line and records the statement. */
  function Delimit(sc: Scanner, c: char): (r: Result<Scanner, ParseError>)
    ensures r.Success? ==> |r.value.input| <= |sc.input|
  {
    var sc' := sc.(whitespaceable := true, buf := []);
    match sc.field
    case Subject => Success(sc'.(field := Predicate(sc.buf)))
    case Predicate(subj) => Success(sc'.(field := Object(subj, sc.buf)))
    case Object(subj, pred) =>
      var next :- AfterObject(sc.input, c == '.', sc.line);
      Success(sc'.(input := next, line := sc.line + 1, field := Subject,
                   freshLine := true, anything := false,
                   triples := sc.triples + [Triple(subj, pred, sc.buf)]))
  }

  /** The outcome of one turn of the main loop: go on from a new state, or
      stop with the final result. */
  datatype Step = Continue(next: Scanner) | Stop(result: Result<seq<Triple>, ParseError>)

  /** A step that goes on consumes input. */
  predicate Progress(sc: Scanner, st: Step) {
    st.Continue? ==> |st.next.input| < |sc.input|
  }

  /** Continue from the scanner an `add_char` produced, or stop on its error. */
  function Push(r: Result<Scanner, ParseError>): Step {
    match r
    case Success(n) => Continue(n)
    case Failure(e) => Stop(Failure(e))
  }

  /** A backslash: it and the following byte join the token verbatim, whatever
      the state; the input must not end right after it. */
  function Escape(sc: Scanner): (st: Step)
    requires First(sc.input) == '\\'
    ensures Progress(sc, st)
  {
    var t := sc.input[1..];
    var next := First(t);
    if next == NUL then Stop(Failure(ParseError(TrailingBackslash, sc.line)))
    else
      match AddChar(sc.(input := t[1..], anything := true), '\\')
      case Failure(e) => Stop(Failure(e))
      case Success(sc') => Push(AddChar(sc', next))
  }

  /** A byte inside "..." or <...>: copied into the token; the closing byte
      ends the group and a newline is fatal. */
  function Grouped(sc: Scanner): (st: Step)
    requires First(sc.input) != NUL
    requires sc.inQuote || sc.inBrace
    ensures Progress(sc, st)
  {
    var c := sc.input[0];
    var sc1 := sc.(input := sc.input[1..]);
    if sc.inQuote then
      if c == '\n' then Stop(Failure(ParseError(UnterminatedQuote, sc.line)))
      else Push(AddChar(sc1.(inQuote := c != '"'), c))
    else
      if c == '\n' then Stop(Failure(ParseError(UnterminatedIri, sc.line)))
      else Push(AddChar(sc1.(inBrace := c != '>'), c))
  }

  /** A byte outside quotes and brackets. */
  function Outside(sc: Scanner): (st: Step)
    requires First(sc.input) != NUL
    requires !sc.inQuote && !sc.inBrace
    ensures Progress(sc, st)
  {
    var c := sc.input[0];
    var sc1 := sc.(input := sc.input[1..]);
    if sc.whitespaceable && IsBlank(c) then Continue(sc1)
    else if sc.whitespaceable && c == '#' && sc.freshLine then
      Continue(sc1.(input := SkipComment(sc1.input), line := sc.line + 1))
    else
      var sc2 := sc1.(freshLine := if sc.whitespaceable then false else sc.freshLine,
                      whitespaceable := false);
      if IsBlank(c) || (c == '.' && sc.field.Object?) then Push(Delimit(sc2, c))
      else if c == '"' then Push(AddChar(sc2.(inQuote := true, anything := true), c))
      else if c == '<' then Push(AddChar(sc2.(inBrace := true, anything := true), c))
      else if c == '\n' then
        if !sc.anything then
          Continue(sc2.(line := sc.line + 1, whitespaceable := true, freshLine := true))
        else Stop(Failure(ParseError(PrematureLineEnd, sc.line)))
      else Stop(Failure(ParseError(UnexpectedChar(c), sc.line)))
  }

  /** One turn of the main loop of `parse_triples_file`: the backslash is
      looked at first, then the end of the input, then quotes and brackets. */
  function Next(sc: Scanner): (st: Step)
    ensures Progress(sc, st)
  {
    var c := First(sc.input);
    if c == '\\' then Escape(sc)
    else if c == NUL then Stop(Success(sc.triples))
    else if sc.inQuote || sc.inBrace then Grouped(sc)
    else Outside(sc)
  }

  /** The main loop of `parse_triples_file`. */
  function Run(sc: Scanner): Result<seq<Triple>, ParseError>
    decreases |sc.input|
  {
    match Next(sc)
    case Continue(n) => Run(n)
    case Stop(r) => r
  }

  /** The main loop, returning the scanner it stops in rather than only its
      statements. */
  function Finish(sc: Scanner): (r: Result<Scanner, ParseError>)
    ensures r.Success? ==> First(r.value.input) == NUL
    decreases |sc.input|
  {
    match Next(sc)
    case Continue(n) => Finish(n)
    case Stop(r) => if r.Success? then Success(sc) else Failure(r.error)
  }

  /** The loop only stops successfully at the end of the input, returning the
      statements it holds. */
  lemma StopSuccess(sc: Scanner)
    requires Next(sc).Stop? && Next(sc).result.Success?
    ensures First(sc.input) == NUL && Next(sc).result.value == sc.triples
  {
  }

  /** `Finish` stops where `Run` does: with the statements `Run` returns, or
      with the same error. */
  lemma {:induction false} FinishRun(sc: Scanner)
    ensures Run(sc).Success? <==> Finish(sc).Success?
    ensures Run(sc).Success? ==> Run(sc).value == Finish(sc).value.triples
    ensures Run(sc).Failure? ==> Run(sc).error == Finish(sc).error
    decreases |sc.input|
  {
    match Next(sc)
    case Continue(n) =>
      FinishRun(n);
    case Stop(r) =>
      if r.Success? {
        StopSuccess(sc);
      }
  }

  /** A step only appends statements, never moves the line counter back and
      keeps every text within the token buffer; stopping returns the
      statements so far, or an error on the current line. */
  predicate Keeps(sc: Scanner, st: Step) {
    match st
    case Continue(n) =>
      && sc.triples <= n.triples
      && sc.line <= n.line
      && (Bounded(sc) ==> Bounded(n))
    case Stop(r) =>
      && (r.Success? ==> r.value == sc.triples)
      && (r.Failure? ==> r.error.line == sc.line)
  }

  lemma EscapeKeeps(sc: Scanner)
    requires First(sc.input) == '\\'
    ensures Keeps(sc, Escape(sc))
  {
  }

  lemma GroupedKeeps(sc: Scanner)
    requires First(sc.input) != NUL
    requires sc.inQuote || sc.inBrace
    ensures Keeps(sc, Grouped(sc))
  {
  }

  /** Finishing a field keeps the statements so far as a prefix and appends
      at most the one just completed, whose texts come from the buffers. */
  lemma DelimitKeeps(sc: Scanner, c: char)
    ensures Delimit(sc, c).Success? ==> Keeps(sc, Continue(Delimit(sc, c).value))
    ensures Delimit(sc, c).Failure? ==> Delimit(sc, c).error.line == sc.line
  {
  }

  lemma OutsideKeeps(sc: Scanner)
    requires First(sc.input) != NUL
    requires !sc.inQuote && !sc.inBrace
    ensures Keeps(sc, Outside(sc))
  {
    var c := sc.input[0];
    var sc1 := sc.(input := sc.input[1..]);
    if sc.whitespaceable && IsBlank(c) {
      assert Outside(sc) == Continue(sc1);
    } else if sc.whitespaceable && c == '#' && sc.freshLine {
      assert Outside(sc) == Continue(sc1.(input := SkipComment(sc1.input), line := sc.line + 1));
    } else {
      var sc2 := sc1.(freshLine := if sc.whitespaceable then false else sc.freshLine,
                      whitespaceable := false);
      assert Bounded(sc) ==> Bounded(sc2);
      if IsBlank(c) || (c == '.' && sc.field.Object?) {
        DelimitKeeps(sc2, c);
        assert Outside(sc) == Push(Delimit(sc2, c));
      } else if c == '"' || c == '<' {
      } else {
      }
    }
  }

  lemma NextKeeps(sc: Scanner)
    ensures Keeps(sc, Next(sc))
  {
    var c := First(sc.input);
    if c == '\\' {
      EscapeKeeps(sc);
    } else if c == NUL {
    } else if sc.inQuote || sc.inBrace {
      GroupedKeeps(sc);
    } else {
      OutsideKeeps(sc);
    }
  }

  /** The loop only appends statements: those accepted before are a prefix of
      the result. An error is reported on the current line or a later one. If
      every text held so far fits the token buffer, so does every token of
      every statement returned. */
  lemma {:induction false} RunKeeps(sc: Scanner)
    ensures Run(sc).Success? ==> sc.triples <= Run(sc).value
    ensures Run(sc).Failure? ==> sc.line <= Run(sc).error.line
    ensures Run(sc).Success? && Bounded(sc) ==> forall t | t in Run(sc).value :: TripleBounded(t)
    decreases |sc.input|
  {
    NextKeeps(sc);
    match Next(sc)
    case Continue(n) =>
      RunKeeps(n);
    case Stop(r) =>
  }

  /** `parse_triples_file` on a whole input. */
  function Parse(s: string): Result<seq<Triple>, ParseError>
  {
    Run(Start(s))
  }

  /** The field marker the parser stops in: which of the subject and
      predicate of an unfinished last line were delimited, and their texts. */
  function Unfinished(s: string): Field
    requires Parse(s).Success?
  {
    FinishRun(Start(s));
    Finish(Start(s)).value.field
  }

  /** Where the loop stops determines the unfinished field. */
  lemma UnfinishedIs(s: string, sc: Scanner)
    requires Finish(Start(s)) == Success(sc)
    ensures Parse(s).Success? && Unfinished(s) == sc.field
  {
    FinishRun(Start(s));
  }

  /** Every token of every accepted statement fits the MAX_IRI_LEN buffer, and
      errors carry a 1-based line number. */
  lemma ParseBounded(s: string)
    ensures Parse(s).Success? ==> forall t | t in Parse(s).value :: TripleBounded(t)
    ensures Parse(s).Failure? ==> Parse(s).error.line >= 1
  {
    RunKeeps(Start(s));
  }
}
