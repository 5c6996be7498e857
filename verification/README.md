# transitive-closer in Dafny

A model of the core of *transitive-closer*, a C program that reads an
N-Triples-like file, closes every predicate's relation "transitively", and
writes the result. The program runs in three stages, and each is a module here:

- **Parser** (`parse_triples_file`, `add_char`, `set_iri`). A byte-at-a-time state
  machine.
  - `Parser` models it as a pure function from the input characters to the
    statements it accepts or to the first fatal error with its line number.
  - `ParserLines` describes documents line by line and proves what the parser
    does with each well-formed or malformed line.
  - `Store` files the parsed statements into the interning trees and the
    per-predicate relation lists (`set_iri`, `add_reln`). It also interns
    the subject and predicate that a last line cut short by the end of the
    input had already delimited.
- **Closure pass** (`compute_transitive_closure_recursive`,
  `already_has_ancestor`, `free_ancestry_data`).
  - `Closure` models it as a cursor over a relation list that grows while the
    cursor walks it, together with the per-node ancestor lists. The termination
    measure is lexicographic: pairs not yet accepted, then relations not yet
    visited.
  - `ClosureExamples` runs the pass on small inputs. They show that the pass is
    sound but not a full transitive closure.
- **Writer** (`write_transitive_closure_recursive`, `write_trie_of_full_relns`).
  `Writer` models it.
  - For each predicate that has relations, it spells every relation as
    `subject predicate object`.
  - It drops repeated lines by interning them into a fresh tree.
  - It writes each line followed by ` .\n`.

Supporting modules:

- `Interning` is the interning trie (`trie_strdup`, `trie_to_static`,
  `blank_trie`, `trie_search`). trie.c is not part of this model, so the trie
  is a sequence of distinct texts and a node is an index into it.
- `Links` models the `LINK2`/`UNLINK2` list macros of macro.h over an explicit
  heap of `next`/`prev` fields. It proves that they append to and remove from
  the sequence the list represents. The other modules keep relation and
  ancestor lists as sequences, which `Links.Link2Appends` justifies.
- `Pipeline` chains the stages as `main` does. It proves, for any input that
  parses:
  - every parsed triple is written;
  - every written line is a triple that the parsed triples chain together;
  - every line fits the writer's buffer.
- `Results` holds the `Option` and `Result` types.

## Behaviour of the code

The model follows the code wherever it differs from a reading of N-Triples or
of the program's header comment:

- Only `<...>` groups, `"..."` groups and backslash pairs add bytes to a token.
  A bare token such as `_:b0` or `abc` is rejected with an unexpected-character
  error.
- A backslash is handled before the quote and bracket checks. So `\"` does not
  close a quote, and a backslash before a newline takes the newline into the
  token.
- A NUL byte read between tokens or inside a token ends the input, like the
  end of the file. In a comment or after an object it ends only the line.
  After a backslash it is an error.
- A last line whose object is followed directly by the end of the input is
  dropped without an error. Its object token was never delimited. Its subject
  and predicate were already interned when the blanks after them were read,
  so they are nodes of the trees, but no relation uses them.
- `<s> <p> .` is accepted, with an empty object.
- An object followed directly by a newline is reported as a line that ends
  prematurely, not as a missing period.
- The pass copies the ancestors of `s` to `o` only when it first visits
  `(s, o)`, so the output is not always transitively closed:
  - for input `(b,c),(a,b)` it never derives `(a,c)`;
  - for input `(a,b),(b,a)` it derives `(a,a)` but not `(b,b)`.
- A relation list may hold the same pair twice. The writer's fresh tree writes
  it once.

## Model

| member | source | states |
|---|---|---|
| Interning.Blank | trans.h:84 | a blank tree is valid and holds no text |
| Interning.Lookup | trans.h:86 | finds a node spelling the text, and finds none exactly when no node spells it |
| Interning.Intern | trans.h:85 | the returned node reconstructs the text; the tree only grows, by at most this text, and is unchanged when the text is already present |
| Interning.InternIdempotent | trans.h:85 | interning a text a second time changes nothing and returns the same node |
| Interning.ReconstructInjective | trans.h:87 | two nodes of a valid tree spell the same text only if they are the same node |
| Links.Traversals | macro.h:25-69 | in a well-formed list, walking `next` from `first` and `prev` from `last` visit the represented sequence forwards and backwards |
| Links.Link2 | macro.h:25-41 | `last` becomes the new element, whose `next` is NULL; on an empty list `first` also becomes it and its `prev` is NULL; otherwise `first` stays, its `prev` is the old last and the old last's `next` is it; no other field changes |
| Links.Link2Appends | macro.h:25-41 | `LINK2` on a well-formed list of `xs` yields a well-formed list of `xs + [link]` |
| Links.Unlink2 | macro.h:46-69 | removing the head moves `first` to its successor, removing the tail moves `last` to its predecessor, and only the neighbours' fields change |
| Links.Unlink2Next | macro.h:55-68 | after removal, the predecessor's `next` skips the removed element and every other `next` is kept |
| Links.Unlink2Prev | macro.h:49-68 | after removal, the successor's `prev` skips the removed element and every other `prev` is kept |
| Links.Unlink2At | macro.h:46-69 | every remaining element's `next` and `prev` point to its neighbours in the sequence without the removed element |
| Links.Unlink2Ends | macro.h:49-64 | `first` and `last` become the ends of the remaining sequence, or both NULL when it is empty |
| Links.Unlink2Removes | macro.h:46-69 | `UNLINK2` on a well-formed list yields a well-formed list of the sequence with exactly that element removed, order kept |
| Links.Unlink2Sole | macro.h:49-64 | removing the sole element leaves `first` and `last` NULL and an empty list |
| Parser.AfterObject | trans.c:152-179 | the loop after the object fails only with a missing period or an unexpected byte, on the current line |
| Parser.Escape | trans.c:74-87 | a backslash step consumes input |
| Parser.Grouped | trans.c:92-114 | a step inside quotes or brackets consumes input |
| Parser.Outside | trans.c:116-221 | a step outside quotes and brackets consumes input |
| Parser.Next | trans.c:70-222 | every turn of the main loop that goes on consumes input, so the loop ends |
| Parser.NextKeeps | trans.c:70-222 | a step only appends statements, never moves the line counter back, keeps every token within MAX_IRI_LEN bytes, and stops with the statements so far or an error on the current line |
| Parser.RunKeeps | trans.c:70-222 | the whole loop keeps the same facts from any bounded state |
| Parser.FinishRun | trans.c:70-222 | the loop run to the scanner it stops in succeeds or fails exactly as the parse does, with the same statements or the same error, and a successful stop is at the end of the input |
| Parser.ParseBounded | trans.c:347-350 | every accepted statement's three tokens are at most MAX_IRI_LEN bytes, and every error carries a line number of at least 1 |
| ParserLines.EscapeStep | trans.c:74-87 | a backslash and the byte after it join the token verbatim, in any state |
| ParserLines.LineStep | trans.c:116-216 | a well-formed blank line, comment line or statement line, ended by a newline, moves to the next line and records exactly the triple it states |
| ParserLines.DocSteps | trans.c:70-222 | a run of well-formed lines advances the line counter by the number of lines and records their statements in order |
| ParserLines.ParseDocument | trans.c:58-223 | a document of well-formed lines parses to exactly its statements, in order; in these lines each token is a single `<...>` or `"..."` group with no backslash |
| ParserLines.ParseLastLineUnterminated | trans.c:152-161 | the last statement may end at the end of the input, without a newline |
| ParserLines.ParseStopsAtNul | trans.c:89-90 | a NUL byte at the start of a line ends the parse successfully, whatever follows |
| ParserLines.ReachCursor | trans.c:116-206 | leading blanks, the finished subject and predicate with the blanks after them, and whole groups of the next token are read with no error: the buffer holds exactly those groups and the field is the one the finished tokens leave |
| ParserLines.UnclosedGroupLine | trans.c:92-114 | a line that ends inside a quote or bracket stops with the matching error on that line, whichever field the group is in and whatever groups of the same token precede it |
| ParserLines.UnclosedGroupFails | trans.c:92-107 | after well-formed lines, a line ending inside a quote or bracket, in any field, fails with the matching error and that line's number |
| ParserLines.TokenTooLongLine | trans.c:347-350 | a token that grows past MAX_IRI_LEN bytes, in any field and in whichever of its groups it crosses the limit, stops with the length error on its line |
| ParserLines.TokenTooLongFails | trans.c:347-350 | after well-formed lines, a token longer than MAX_IRI_LEN bytes in any field fails with the length error and that line's number |
| ParserLines.LineEndsEarly | trans.c:116-217 | a newline after the subject or the predicate, with or without blanks before it, or right after the groups of any token, stops with the premature-end error on that line |
| ParserLines.LineEndsEarlyFails | trans.c:208-217 | after well-formed lines, a line that ends before its object fails with the premature-end error and that line's number |
| ParserLines.AfterObjectLine | trans.c:135-150 | a line reads its subject, predicate and object tokens and then behaves as the step after the object |
| ParserLines.ObjectAtLineEndLine | trans.c:208-217 | an object followed directly by a newline stops with the premature-end error |
| ParserLines.ObjectAtLineEndFails | trans.c:208-217 | after well-formed lines, an object followed directly by a newline fails with the premature-end error and that line's number |
| ParserLines.MissingPeriodLine | trans.c:146-161 | blanks after the object and then the end of the line stop with the missing-period error |
| ParserLines.MissingPeriodFails | trans.c:156-159 | after well-formed lines, a statement with no period fails with the missing-period error and that line's number |
| ParserLines.JunkAfterPeriodLine | trans.c:164-177 | any byte but a blank after the period stops with the unexpected-after-object error |
| ParserLines.JunkAfterPeriodFails | trans.c:170-177 | after well-formed lines, a second period or another byte after the period fails with that error and that line's number |
| ParserLines.TrailingBackslashLine | trans.c:74-80 | a backslash followed by the end of the input stops with the trailing-backslash error, between tokens, after the groups of a token or inside an open quote or bracket |
| ParserLines.TrailingBackslashFails | trans.c:78-80 | after well-formed lines, input ending right after a backslash anywhere on a line fails with that error and that line's number |
| ParserLines.UnexpectedCharLine | trans.c:116-221 | a byte that starts no token, comment, line end or delimiter stops with the unexpected-character error naming it, whether it stands alone or is glued to a token, in any field |
| ParserLines.UnexpectedCharFails | trans.c:192-221 | after well-formed lines, such a byte anywhere before the object is finished fails with the unexpected-character error and that line's number |
| ParserLines.UnfinishedLastLineDropped | trans.c:89-90 | a last line whose object runs into the end of the input adds nothing, and the parse succeeds |
| ParserLines.UnfinishedLineStops | trans.c:139-145 | a line cut short by the end of the input right after its object stops with its subject and predicate delimited |
| ParserLines.UnfinishedLastLineField | trans.c:139-145 | after well-formed lines, such a last line leaves the parse successful with the earlier statements, and its subject and predicate as the delimited texts of the unfinished line |
| ParserLines.EmptyObjectLine | trans.c:135-150 | a period right after the blanks that follow the predicate ends the line with an empty object |
| ParserLines.EndOfInput | trans.c:89-90 | at the start of a line, the end of the input ends the parse with the statements so far |
| ParserLines.EmptyObjectAccepted | trans.c:135-186 | after well-formed lines, `subject predicate .` is accepted as a statement with an empty object |
| Store.Initial | trans.c:52-56 | the initial store is valid and every predicate's relation list is empty |
| Store.AddReln | trans.c:232-242 | the relation is appended to its predicate's list; every other list and both trees are unchanged |
| Store.AddTriple | trans.c:139-182 | a statement interns its three texts into `iris` and its predicate into `predicates`; both trees only grow, by exactly those texts, and the store stays valid |
| Store.AddTripleFiles | trans.c:232-242 | the relation goes under the predicate's node, spells the statement's subject and object, and no other list changes |
| Store.LookupStable | trans.h:85 | a text already interned keeps its node as the tree grows |
| Store.AddTripleHolds | trans.c:232-242 | a statement extends what the store holds for its predicate by exactly itself, and leaves every other predicate alone |
| Store.LoadFaithful | trans.c:135-186 | the store built from a parse holds, for every predicate, exactly the parsed statements with that predicate, in input order |
| Store.LoadPredicates | trans.c:143-144 | filing the completed statements interns a predicate exactly when one of them uses it |
| Store.LoadIris | trans.c:139-150 | filing the completed statements makes a text an iri node exactly when it is the subject, predicate or object of one of them |
| Store.AddPending | trans.c:139-145 | a line cut short adds its delimited subject and predicate to `iris` and its delimited predicate to `predicates`, and nothing else; both trees only grow and no list changes |
| Store.LoadInput | trans.c:58-242 | the store fails exactly when the parse fails, with its error; otherwise its lists are those of the completed statements, an iri node is exactly a text of a completed statement or a delimited text of an unfinished last line, and a predicate node likewise |
| Closure.Contains | trans.c:378-382 | the linear search finds the node exactly when the list holds it |
| Closure.AlreadyHasAncestor | trans.c:374-383 | true exactly when the subject is on the object's ancestor list |
| Closure.Derive | trans.c:263-270 | the inner loop creates, in list order, one relation `(w, o)` per ancestor `w` of the subject |
| Closure.VisitKeeps | trans.c:255-276 | one visit keeps the loop invariant (accepted pairs are the visited relations; ancestor lists are non-empty and repeat no node), only appends relations that compose earlier ones, and either changes nothing or accepts a new pair |
| Closure.Pass | trans.c:255-276 | the pass only appends, so the input list stays a prefix; it ends with every relation visited and accepted, mentions no new node, and every appended relation composes two earlier ones |
| Closure.ClosePredicate | trans.c:251-279 | the pass from empty ancestor lists: the input is a prefix of the result, every appended relation composes earlier ones, and no list repeats a node |
| Closure.ClosureSound | trans.c:260-275 | every relation in the result is in the transitive closure of the input |
| Closure.CloseEmpty | trans.c:251 | the result is empty exactly when the input list is |
| Closure.ClosedGainsNothing | trans.c:255-275 | an input that is already transitively closed gains no new pair |
| Closure.AncestryExact | trans.c:255-278 | at the end of the pass, `s` is on `o`'s ancestor list exactly when `(s, o)` is in the result, and no ancestor list repeats a node |
| Closure.VisitComposes | trans.c:260-270 | visiting the first occurrence of `(s, o)` appends `(a, o)` for every `(a, s)` visited before it |
| Closure.PassComposes | trans.c:255-276 | in the final list, if `(a, s)` sits before the first occurrence of `(s, o)`, then `(a, o)` is in the list too |
| Closure.ClosureComposes | trans.c:263-275 | in the result, a relation composes with every earlier relation that ends where it starts, provided it is that relation's first occurrence |
| Closure.FreeAncestry | trans.c:290-308 | the ancestor list of each object in the list is removed, and every other list is kept |
| Closure.FreeAfterPass | trans.c:290-308 | after the pass, freeing leaves no ancestor list at all, so the next predicate starts from empty lists |
| Closure.CloseAll | trans.c:244-288 | every predicate's list is replaced by the pass run on that list alone, and the trees are unchanged, so predicates never influence each other |
| ClosureExamples.ChainInOrder | trans.c:255-276 | `(0,1),(1,2)` closes to `(0,1),(1,2),(0,2)` |
| ClosureExamples.ChainOutOfOrder | trans.c:263-275 | `(1,2),(0,1)` is left unchanged, although 0 reaches 2, so the result is not transitively closed |
| ClosureExamples.TwoCycleRun | trans.c:255-276 | `(0,1),(1,0)` becomes `(0,1),(1,0),(0,0),(1,0)` |
| ClosureExamples.TwoCycle | trans.c:263-275 | on `(0,1),(1,0)` the result holds `(0,0)` but not `(1,1)`, although 1 reaches itself |
| Writer.Collect | trans.c:326-333 | the fresh tree holds exactly the spelled lines of the list's relations, each once |
| Writer.Emit | trans.c:355-358 | one output line per marked text, in tree order, each followed by ` .\n` |
| Writer.WritePredicateExact | trans.c:326-358 | a predicate's output holds exactly the lines `subject predicate object .\n` of its relations, none twice, however many duplicates the list holds |
| Writer.BlockContiguous | trans.c:315-345 | each predicate's lines form one contiguous slice of the output |
| Writer.WriteFromLines | trans.c:315-345 | every written line belongs to a predicate with at least one relation and spells one of its relations |
| Writer.WriteAllHas | trans.c:326-335 | every relation of every predicate is written |
| Writer.WriteGrown | trans.c:315-345 | trees grown by texts that carry no relation write the same lines |
| Writer.LineFits | trans.c:320-329 | a line made of tokens of at most MAX_IRI_LEN bytes fits the `full_reln` buffer of 3·MAX_IRI_LEN+3 bytes, terminator included |
| Pipeline.Transitive | trans.c:40-45 | a parse error is reported unchanged; otherwise the output is what the writer writes for the closed store |
| Pipeline.CloseLoaded | trans.c:244-288 | the closed store keeps the trees; each predicate's closed list starts with its parsed relations, mentions no other node, and holds only pairs those relations reach |
| Pipeline.CloseAllWrites | trans.c:40-45 | closing the store built from the whole input writes what the closed store of the completed statements writes |
| Pipeline.UnfinishedLineInterned | trans.c:139-145 | a last line cut short after its object files no relation, yet its subject and predicate become nodes of `iris` and its predicate a node of `predicates` |
| Pipeline.InputKept | trans.c:40-45 | every parsed statement is written |
| Pipeline.OutputSound | trans.c:40-45 | every written line is a statement whose object the parsed statements with its predicate reach from its subject |
| Pipeline.OutputFits | trans.c:320-321 | every written line is at most 3·MAX_IRI_LEN+5 characters |
| Pipeline.TransitiveOutput | trans.c:40-45 | for input that parses, the output holds every parsed statement, only statements the parsed ones chain together, and only lines within the buffer |

## Left out

- `main`'s argument check, `fopen`/`fclose` and exit codes (trans.c:13-50) are not modelled. `Pipeline.Transitive` starts from the input text and returns the lines.
- `QUICK_GETC` block reading is not modelled. The input is a sequence of characters and an exhausted input reads as NUL. Reading past the NUL that ends a short read is undefined in C, and the model reads NUL again.
- trie.c is not part of this model. A tree is a sequence of distinct texts. The order in which its nodes are enumerated, which decides the order of predicates and of lines within a predicate, is taken to be insertion order. The C order is some other fixed order, and no lemma depends on it.
- `CREATE` allocation failure, `free` and `abort` are left out. Errors are `Result` values and freeing ancestor lists is removing them from a map.
- The text of error messages is left out. An error is its kind and line number.
- The global roots `iris` and `predicates` are passed explicitly as a `Store`.
- The relation and ancestor lists in the store and the pass are sequences, not linked nodes. `Links` proves that `LINK2` appends to the represented sequence.
- The bytes are characters, and tokens are compared as character sequences. There is no encoding or normalisation.
- Parser.Escape: its contract states only that a step consumes input. What the step does is stated by ParserLines.EscapeStep and ParserLines.TrailingBackslashLine, in every field and inside groups.
- Parser.Grouped: its contract states only that a step consumes input. What it does is stated by ParserLines.ReadGroup for bytes that join the token, and by ParserLines.UnclosedGroupLine and ParserLines.TokenTooLongLine for its two errors, in every field.
- ParserLines.ParseDocument: its well-formed lines hold tokens of one unescaped group each. Tokens of several groups such as `"a"<b>`, and backslash escapes, are accepted by the C parser too. For them only the reading of a line head is stated (ParserLines.ReachCursor, ParserLines.EscapeStep), not a whole-document result.
- Parser.Outside: its contract states only that a step consumes input. What it does is stated by the ParserLines line lemmas.
- Parser.Next: its contract states only that a step consumes input. What it does is stated by the ParserLines lemmas.
- Parser.AfterObject: its contract states only which errors it can raise. The accepted and rejected line endings are stated by ParserLines.MissingPeriodLine, ParserLines.JunkAfterPeriodLine and ParserLines.LineStep.
- Closure.Pass: no contract states full transitivity, because the pass does not achieve it (ClosureExamples.ChainOutOfOrder).
