# js-reasoner in Dafny

A model of the core of js-reasoner. It is a forward-chaining rule engine over
subject–predicate–object triples.

- **Terms and statements.** A term is a Constant or a Variable. Terms have an exact and a
  wildcard ("a Variable matches anything") equality. A statement is a triple with
  position-indexed access.
- **Iterators.** `NestedIterator` concatenates bucket iterators. `FindMatchesIterator`
  filters by wildcard equality. Both keep one element of lookahead.
- **`SingleIndexStatementSet`.** A dictionary of append-only buckets keyed by the term at one
  position. `"<null>"` is the key of every statement with a Variable there.
- **Rules.** A `RuleVisitor` stamps every clause with its rule, every body clause with its
  position, and every Variable with a dense slot in first-occurrence order.
- **Builtins.** The comparison builtins LT, LE, EQ, GE and GT.
- **The reasoner.** On each new statement it:
  - finds the rule-body clauses that match;
  - binds them;
  - joins the rest of the body depth-first against the dataset, keeping the branches apart
    with a stack of copied bindings;
  - grounds and adds the head atoms that the dataset does not already contain, and reasons
    over them in turn.

Files, in dependency order:

| file | contents |
|---|---|
| `options.dfy` | `Option` |
| `statements.dfy` | statement.js |
| `builtins.dfy` | builtins.js |
| `rules.dfy` | rule.js |
| `iterators.dfy` | iterator.js |
| `sets.dfy` | set.js storage |
| `bindings.dfy` | reasoner.js `Binding`, `Stack` and `BindingStack` |
| `reasoner.dfy` | reasoner.js `Reasoner`, plus the reasoner hook of set.js's `StatementSet` |

reasoner.js also repeats the classes of the other files (lines 210-735). They are modelled
once, from their own files.

Objects that the source updates in place are classes with `modifies` clauses. These are:

- the statement iterator;
- the set and its buckets;
- the iterators;
- the rule visitor;
- bindings and the binding stack;
- the reasoner.

Terms, statements and clauses are datatypes. Each iterator (statement, builtin, array,
nested and matching) has a ghost `Remaining()`, the values its `next()` calls will still
return. Every `next()` is specified against it.

The reasoner's `infer` → `fireRule` → `infer` recursion has no bound in the source, so the
model carries a `fuel` budget. Each reasoner method returns a ghost `derived`, the statements
it added in order. `Derivation` states what such a run did:

- the dataset grew by exactly `derived`;
- each statement in it was added when nothing already stored wildcard-equalled it;
- each is an instance of some rule's head atom, under some binding. `Derivation` does not
  relate that binding to the dataset or to the rule's body.

What the reasoner must reach is stated separately.

- `Fired(ms, rule, env)`: every head atom of `rule`, grounded by `env`, has a wildcard match
  in `ms`. `fireRule` leaves its rule fired on its binding.
- `Joined(base, ms, rule, clauses, env)`: the depth-first join of `clauses` from `env` is
  complete. `base` is the dataset when the join started and `ms` the dataset now.
  - With no clause left, the rule has fired on `env`.
  - Otherwise, take every statement of `base` that wildcard-equals the first clause grounded
    by `env`. Each has been bound to that grounded clause on a copy of `env`, and the remaining
    clauses have been joined from that copy.
  - `matchClauses` leaves its clauses joined from the current binding. `matchBody` leaves the
    body, less the matched clause, joined.
- `SeedFired(base, ms, c, stmt)`: the rest of the body of `c`'s rule is joined from a new
  binding with `c` bound to `stmt`. `infer(stmt)` leaves this true for every indexed clause
  that `stmt` matches, whatever the length of the body.

In the source, `findMatches` iterates live buckets and can also meet statements added during
the loop. Those extra matches do not falsify `Joined`, which speaks only of `base`.

## Model

| member | source | states |
|---|---|---|
| Statements.Statement.Get | statement.js:13-29 | `get(pos)` is s, p or o; positions other than 1, 2, 3 are outside its domain |
| Statements.Statement.HasVariables | statement.js:70-77 | some position holds a Variable; characterised by `HasVariablesIff` |
| Statements.Statement.Equals | statement.js:79-83 | the three positions compare pairwise in the given mode; characterised by `EqualsPositionwise` |
| Statements.Term.Equals | statement.js:124-169 | the two `equals` methods; characterised by the exact and wildcard lemmas below |
| Statements.Term.Unpacked | statement.js:139-177 | never longer than the value or name it unpacks; the cases are the `Unpack…` lemmas |
| Statements.Statement.Set | statement.js:31-50 | `set(pos, t)` puts `t` at `pos` and leaves the other two positions as they were |
| Statements.Statement.Terms | statement.js:52-68 | the iteration order is s, p, o: three terms, term `i` being `get(i + 1)` |
| Statements.SetGet | statement.js:13-50 | writing back what `get(pos)` returned leaves the statement unchanged |
| Statements.PositionsDetermineStatement | statement.js:13-29 | two statements that agree at every position are equal |
| Statements.StatementIterator.constructor | statement.js:52-57 | a new statement iterator has s, p, o still to yield |
| Statements.StatementIterator.Next | statement.js:57-66 | `next()` yields the next of s, p, o and advances; after o it answers done, and keeps doing so |
| Statements.IncludesVariables | statement.js:70-77 | `includesVariables()` is true exactly when s, p or o is a Variable |
| Statements.HasVariablesIff | statement.js:70-77 | "some position holds a Variable" is the same as "s, p or o is a Variable" |
| Statements.EqualsPositionwise | statement.js:79-83 | statement equality holds exactly when the terms at all three positions are equal in the same mode |
| Statements.ExactSeparatesKinds | statement.js:124-133 | in exact mode a Constant and a Variable are unequal, whichever is the receiver |
| Statements.ExactComparesValuesAndNames | statement.js:160-169 | in exact mode Constants compare by value and Variables by name |
| Statements.WildcardMatchesVariables | statement.js:124-133 | in wildcard mode a Variable on either side matches, and two Constants compare by value |
| Statements.TermEqualsSymmetric | statement.js:124-133 | term equality is symmetric in both modes |
| Statements.ExactImpliesWildcard | statement.js:160-169 | exactly equal terms are wildcard-equal |
| Statements.TermEqualsReflexive | statement.js:124-133 | every term equals itself in both modes |
| Statements.StatementEqualsSymmetric | statement.js:79-83 | statement equality is symmetric in both modes |
| Statements.StatementExactImpliesWildcard | statement.js:79-83 | exactly equal statements are wildcard-equal |
| Statements.StatementEqualsReflexive | statement.js:79-83 | every statement equals itself in both modes |
| Statements.UnpackWrapped | statement.js:139-147 | a value wrapped in `<…>` or `"…"` unpacks to its inside |
| Statements.UnpackPlain | statement.js:139-147 | a value not starting with `"` or `<` unpacks to itself |
| Statements.UnpackSingleDelimiter | statement.js:139-147 | the one-character values `"` and `<` unpack to themselves, because `substring` swaps its arguments |
| Statements.UnpackVariable | statement.js:175-177 | a Variable unpacks to its name |
| Builtins.Apply | builtins.js:3-36 | the function of each builtin class on the grounded arguments; characterised by the lemmas below |
| Builtins.ComparesFirstTwo | builtins.js:3-36 | LT, LE, EQ, GE and GT are `<`, `<=`, `==`, `>=` and `>` on the first two arguments, whatever follows |
| Builtins.IgnoresExtraArguments | builtins.js:6 | arguments past the second never change a builtin's result |
| Builtins.MissingArguments | builtins.js:3-36 | with fewer than two arguments the relational builtins fail, and EQ holds only when both operands are undefined |
| Builtins.OrderLaws | builtins.js:6-34 | LE is LT or EQ; GT and GE are LT and LE swapped; exactly one of LT, EQ, GT holds |
| Rules.Clause.Type | rule.js:77-103 | `PATTERN` for a Pattern, `BUILTIN` for a Builtin |
| Rules.Clause.Evaluate | rule.js:136-148 | a Builtin's `evaluate` applies its function to the grounded arguments |
| Rules.Rule.NumVars | rule.js:18-20 | the visitor's slot counter; equal to the number of distinct names by `Rule.constructor` |
| Rules.BuiltinIterator.constructor | rule.js:113-117 | a Builtin's iterator starts with all its arguments to yield |
| Rules.BuiltinIterator.Next | rule.js:118-127 | it yields the arguments in order, then answers done, and keeps doing so |
| Rules.FirstOccurrencesMembers | rule.js:58-65 | a name gets a slot exactly when it occurs in a visited Variable |
| Rules.FirstOccurrencesDistinct | rule.js:60-61 | no name gets two slots |
| Rules.FirstOccurrencesOrdered | rule.js:58-65 | slots are handed out in the order the names first occur |
| Rules.SlotMapIndexes | rule.js:60-63 | `varMap` maps exactly the slotted names, each to its index in slot order |
| Rules.SlotOfOccurrence | rule.js:59-63 | a known name keeps its slot; a new name gets slot `numVars` and the counter grows by one |
| Rules.RuleVisitor.constructor | rule.js:27-36 | a new visitor has given no slots and has `numVars == 0` |
| Rules.RuleVisitor.VisitTerm | rule.js:58-65 | a Variable is stamped with the slot of its name, and a new name gets slot `numVars`; Constants are untouched and earlier slots are kept |
| Rules.RuleVisitor.VisitTerms | rule.js:54-55 | every term of a clause is visited in order, and the terms change only in their stamps |
| Rules.RuleVisitor.VisitClause | rule.js:51-56 | the clause gets the visitor's rule, keeps its position, changes only in its stamps, and has every Variable stamped with its name's slot |
| Rules.RuleVisitor.VisitEntry | rule.js:39-44 | one callback step: clause `i` is positioned (in the body), visited and appended, and the earlier clauses keep their stamps |
| Rules.RuleVisitor.VisitBody | rule.js:38-45 | every body clause gets its index as `pos` and the rule, and is stamped; names are seen in body order |
| Rules.RuleVisitor.VisitHead | rule.js:47-49 | every head clause gets the rule, keeps its `pos`, and is stamped |
| Rules.Rule.constructor | rule.js:10-16 | body clauses carry their index and the rule, head clauses the rule; the slots are the first occurrences of the names (body, then head) and `numVars()` is their number; clauses are otherwise unchanged |
| Rules.SlotsIdentifyNames | rule.js:58-65 | within one rule, two Variables share a slot exactly when they share a name, and every slot is below `numVars()` |
| Iterators.ArrayIterator.constructor | set.js:125 | `found.values()` starts with the whole bucket to yield |
| Iterators.ArrayIterator.Next | set.js:125 | an array iterator yields the elements in order, then answers done |
| Iterators.NestedIterator.constructor | iterator.js:35-40 | the constructor pre-fetches, and the iterator yields the inner iterators' elements one iterator after the other, so none at all over no or only empty iterators |
| Iterators.NestedIterator.GetNext | iterator.js:43-73 | `getNext` makes the lookahead the next element of iterator `idx` or of a later one, or clears it when all are exhausted |
| Iterators.NestedIterator.NextIterator | iterator.js:76-79 | `nextIterator` abandons the current iterator and fetches from the remaining ones |
| Iterators.NestedIterator.Next | iterator.js:7-21 | `next()` returns the lookahead and advances by one; once exhausted it keeps answering done |
| Iterators.FindMatchesIterator.constructor | iterator.js:98-105 | the iterator yields exactly the inner elements that wildcard-equal the query, in order |
| Iterators.FindMatchesIterator.GetNext | iterator.js:108-126 | the loop skips non-matching elements and stops at the first match, or at the end |
| Iterators.FindMatchesIterator.Next | iterator.js:7-21 | `next()` returns the next match and advances by exactly one match; once exhausted it keeps answering done |
| Iterators.FindMatchesIterator.Drain | reasoner.js:66 | a `for … of` loop visits exactly the values the iterator had left, in order, and leaves it exhausted |
| Iterators.MatchesMember | iterator.js:108-126 | an element is yielded exactly when it occurs in the input and wildcard-equals the query |
| Iterators.MatchesAppend | iterator.js:108-126 | filtering keeps the input order: the matches of `a + b` are those of `a`, then those of `b` |
| Iterators.MatchesCount | iterator.js:108-126 | each matching element is yielded as often as it occurs, and a non-matching one never |
| Iterators.MatchesShorter | iterator.js:108-126 | the filter never yields more elements than it is given |
| Sets.KeyOf | set.js:86-89 | `getIndex`: the Constant's value at the index position, or `"<null>"` for a Variable there |
| Iterators.Matches | iterator.js:108-126 | the elements a matching iterator yields, in order; characterised by the `Matches…` lemmas |
| Sets.FirstExact | set.js:72-79 | the index found is the first in the bucket that exactly equals the query; none is found when no element does |
| Sets.SingleIndexStatementSet.constructor | set.js:48-52 | a new set is empty, well indexed, and indexed on the given position |
| Sets.SingleIndexStatementSet.Add | set.js:54-62 | `add` appends to the end of the element's bucket (created when absent) and leaves other buckets alone, with no dedup: the contents gain exactly one copy |
| Sets.SingleIndexStatementSet.Remove | set.js:67-83 | `remove` deletes the first exactly-equal element of the element's own bucket and nothing else; it answers true exactly when an exactly-equal element was stored |
| Sets.SingleIndexStatementSet.Iterate | set.js:120-132 | `iterate(term)` yields the bucket of `term`, then the `"<null>"` bucket |
| Sets.SingleIndexStatementSet.IterateAll | set.js:135-140 | `iterateAll` yields every stored element exactly once, bucket by bucket |
| Sets.SingleIndexStatementSet.FindMatches | set.js:106-117 | the matching iterator yields the wildcard matches among the query's candidates: its bucket and the `"<null>"` bucket, or every bucket when the query has a Variable at the index |
| Sets.SingleIndexStatementSet.Contains | set.js:100-103 | `contains(q)` is true exactly when the matching iterator yields something, i.e. when some stored element wildcard-equals `q` |
| Sets.AddPreservesIndex | set.js:54-62 | appending keeps every element in the bucket of its key and adds exactly one copy |
| Sets.RemovePreservesIndex | set.js:72-79 | splicing one element out keeps the dictionary well indexed and removes exactly one copy |
| Sets.ExactCopiesShareBucket | set.js:67-70 | every stored element exactly equal to the query is in the query's own bucket, so searching one bucket is enough |
| Sets.CandidatesComplete | set.js:106-117 | every stored wildcard match of the query is among the candidates, and every candidate is stored |
| Sets.ContainsIff | set.js:100-103 | the candidates hold a match exactly when some stored element wildcard-equals the query |
| Sets.ContainsAfterAdd | set.js:54-62 | after `add(e)`, `contains(e)` is true |
| Sets.NullConstantReadsWildcardTwice | set.js:120-132 | a query whose index term is the Constant `"<null>"` reads the wildcard bucket twice, so its matches there come twice |
| Sets.VariableQueryScansAll | set.js:135-140 | with a Variable at the index, each stored match is yielded as often as it is stored, and no other element is |
| Sets.NewIterators | set.js:137 | one new, distinct array iterator per bucket, in order |
| Sets.BucketsOf | set.js:137 | `Object.values(this.stmts)`: one bucket per key, in key order |
| Sets.JoinBuckets | set.js:135-140 | the buckets one after the other are exactly the stored elements |
| Bindings.Assigned | reasoner.js:201-203 | `bindVar` binds the variable's slot to the value and changes no other slot |
| Bindings.Binding.constructor | reasoner.js:152-155 | a new binding has `numVars()` slots, all unbound |
| Bindings.Binding.IsBound | reasoner.js:191-193 | whether the variable's slot holds a term |
| Bindings.Binding.GetBinding | reasoner.js:196-198 | the term in the variable's slot |
| Bindings.BindingStack.Current | reasoner.js:128-130 | the top binding of the stack |
| Bindings.Binding.BindVar | reasoner.js:201-203 | `bindVar` writes the variable's slot |
| Bindings.Binding.Ground | reasoner.js:157-172 | a clause without Variables is returned as is; otherwise each bound Variable is replaced by its binding, and Constants and unbound Variables stay |
| Bindings.Binding.Bind | reasoner.js:174-181 | `bind` writes, at positions s, p, o in turn, the slot of each Variable of the clause to the statement's term there, and leaves Constant positions alone |
| Bindings.Binding.Copy | reasoner.js:183-188 | `copy()` is a new binding of the same rule with the same indexed slots |
| Bindings.BindingStack.constructor | reasoner.js:122-144 | a new stack holds one fresh, unbound binding of the rule |
| Bindings.BindingStack.Windup | reasoner.js:132-135 | `windup` pushes a fresh copy of the current binding and leaves the bindings below untouched |
| Bindings.BindingStack.Unwind | reasoner.js:137-139 | `unwind` pops the top binding |
| Bindings.BindThenGround | reasoner.js:157-181 | grounding a clause after binding it to a statement gives the statement back, when its Constants agree and repeated Variables meet equal terms |
| Bindings.BoundAtLastWrite | reasoner.js:174-181 | when repeated Variables meet equal terms, after `bind` each Variable of the clause is bound to the statement's term at its position |
| Bindings.BindLeavesOtherSlots | reasoner.js:174-181 | `bind` leaves every slot that no Variable of the clause uses unchanged |
| Bindings.RepeatedVariableLastWins | reasoner.js:174-181 | `bind` does not check repeated variables: `(?x p ?x)` bound to `(a p b)` binds `?x` to `b`, and grounds back to `(b p b)` |
| Bindings.GroundIdempotent | reasoner.js:157-172 | grounding twice under bindings to Constants is grounding once |
| Bindings.FullyBoundIsGround | reasoner.js:157-172 | when every Variable of a statement is bound to a Constant, its grounding has no Variables |
| Bindings.CopyKeepsSlots | reasoner.js:183-188 | a copy sees the same binding for every slotted Variable as its parent |
| Reasoner.Spliced | reasoner.js:43-48 | the remaining body is the body with exactly the element at `pos` removed, the rest in order |
| Reasoner.SplicedMultiset | reasoner.js:43-48 | the remaining clauses plus the matched one are the whole body |
| Reasoner.Reasoner.constructor | reasoner.js:13-22 | the clause index holds exactly the body clauses of the rules, indexed on the predicate; the dataset is kept as given |
| Reasoner.IndexBodies | reasoner.js:17-21 | a new predicate-indexed set holding every body clause of every rule and nothing else, each pointing back into its rule |
| Reasoner.IndexBody | reasoner.js:19-20 | adding the clauses of one body adds exactly those clauses |
| Reasoner.AllMatches | reasoner.js:65-66 | the values a `for … of` loop over `findMatches(q)` visits are the wildcard matches among the candidates |
| Reasoner.FoundIsStamped | reasoner.js:28-31 | every clause that `infer` finds belongs to a rule and has a position in its body |
| Reasoner.Reasoner.Infer | reasoner.js:24-40 | `infer` keeps the index and dataset well formed; everything it adds was new when added and is an instance of a head atom; with fuel left, every indexed clause that `stmt` matches has seeded its rule: the rest of that rule's body is joined against the dataset (`SeedsFired`), so every complete match of the body fires the rule |
| Reasoner.Reasoner.InferFrom | reasoner.js:30-38 | one clause match: a new stack for the clause's rule, `stmt` bound, then `matchBody`: the rest of the rule's body is joined from the new binding with `stmt` bound to the clause (`SeedFired`) |
| Reasoner.Reasoner.InferNext | reasoner.js:30-38 | one round of `infer`'s loop: the additions stay a run, and one more matched clause has seeded its rule, the earlier ones staying fired |
| Reasoner.Reasoner.MatchBody | reasoner.js:43-48 | `matchBody` returns the stack to its depth, and the body less the matched clause (`Spliced`) is joined from the current binding |
| Reasoner.Reasoner.MatchClauses | reasoner.js:51-76 | answers true exactly in the base case; the clauses are joined from the current binding (`Joined`): with none left the rule has fired, otherwise every data match of the grounded first clause was explored on its own copy of the binding; the stack returns to its depth and no existing binding is written, so sibling branches are isolated; what it adds is fresh and an instance of a head atom |
| Reasoner.Reasoner.MatchNext | reasoner.js:68-74 | `windup`, bind, recurse, `unwind`: the rest of the clauses is joined from the old binding, without its `undefined` key, with the grounded clause bound to the data match; the stack is back as it was |
| Reasoner.Reasoner.MatchStep | reasoner.js:67-75 | one round of `matchClauses`'s loop: one more data match joined, the earlier ones staying joined, and the current binding unchanged |
| Reasoner.Reasoner.FireRule | reasoner.js:79-91 | afterwards every head atom grounded by the binding has a wildcard match in the dataset; what it adds was new when added and is an instance of a head atom |
| Reasoner.Reasoner.GroundHead | reasoner.js:82 | the head atoms grounded by the binding, in order, each a grounding of a head atom |
| Reasoner.Reasoner.Store | reasoner.js:85 | `dataset.add` adds one copy of the inference and leaves the clause index alone |
| Reasoner.Reasoner.AddInference | reasoner.js:83-90 | an inference is added (and inferred from) exactly when no stored statement wildcard-equals it, and it is then the first thing added; either way the dataset then holds a match for it; when it was added with fuel left, every indexed clause it matches has seeded its rule (`SeedsFired`) |
| Reasoner.MatchPersists | reasoner.js:84 | a statement that `contains` finds stays found as the dataset grows |
| Reasoner.FiredPersists | reasoner.js:79-91 | a rule that has fired stays fired as the dataset grows |
| Reasoner.JoinedGrows | reasoner.js:51-76 | a complete join stays complete as the dataset grows, so later additions never undo an explored branch |
| Reasoner.JoinedSmallerBase | reasoner.js:65-66 | a join complete over the matches in a dataset is complete over those in any part of it |
| Reasoner.JoinedEachStep | reasoner.js:67-75 | exploring one more data match keeps the matches already explored joined |
| Reasoner.MatchesCover | reasoner.js:65-66 | `findMatches(q)` on the dataset yields every stored statement that wildcard-equals `q` |
| Reasoner.JoinedFromMatches | reasoner.js:51-76 | exploring every data match of the grounded first clause completes the join |
| Reasoner.SeedsFiredStep | reasoner.js:28-39 | one more matched clause seeded, the earlier ones staying seeded as the dataset grows |
| Reasoner.ContainsMeansMatch | reasoner.js:84 | on a dataset, `contains` is the absence of a wildcard-equal stored statement |
| Reasoner.AddedOne | reasoner.js:84-88 | adding one fresh derivable statement is a run of its own |
| Reasoner.DerivationAppend | reasoner.js:83-90 | two runs one after the other make a run that adds both sequences |
| Reasoner.AddedFreshAvoidsBase | reasoner.js:84-88 | nothing the reasoner adds wildcard-equals a statement stored before the run, so re-deriving a present statement adds nothing |
| Reasoner.AddedFreshPairwise | reasoner.js:84-88 | nothing added wildcard-equals something added earlier in the same run |
| Reasoner.AddedFreshDistinct | reasoner.js:84-88 | the reasoner never adds the same statement twice |
| Reasoner.StatementSet.constructor | set.js:7-12 | attaching a reasoner makes the new set its dataset |
| Reasoner.StatementSet.Add | set.js:54-64 | `add` stores the statement and then calls `onAdd`; with a reasoner attached, the set grows by the statement plus exactly what inference adds, and with fuel left every indexed clause the statement matches has seeded its rule (`SeedsFired`) |
| Reasoner.StatementSet.OnAdd | set.js:35-38 | `onAdd` runs `infer` once when a reasoner is attached and changes nothing otherwise; with fuel left, every indexed clause the statement matches has then seeded its rule (`SeedsFired`) |

## Left out

- parser.js is not part of this model: it is surface syntax.
- Diagnostics have no behavioural effect and are not modelled: logging, `print()` and
  `toString()`.
- Unbounded recursion: the `infer` → `fireRule` → `infer` recursion has no decreasing measure.
  The model bounds it with `fuel`. `Infer` with no fuel left does nothing, so the model says
  nothing about runs deeper than the budget.
- Live iteration. JavaScript array iterators are live. An iterator over a bucket sees elements
  pushed onto that bucket while it is being read. The model's iterators take a snapshot of
  each bucket when they are created. The reasoner's `for … of` loops read all values first
  (`AllMatches`). For `infer` this is exact, because the clause index never changes after
  construction. For `matchClauses` it means a statement added to a bucket during the join of a
  sibling branch is not visited by that loop in the model.
- `iterateAll` order. It follows JavaScript's `Object.values` order, where integer-like keys
  come first in numeric order. The model enumerates buckets in creation order.
  `IterateAll`'s contract states creation order. That matches JavaScript for keys that are
  not integer-like.
- Dead branches.
  - `NestedIterator`'s `nextMatch.done` branch and `FindMatchesIterator`'s `result.done` break
    are dropped. The inner iterators are array iterators, which never report done together with
    a value.
  - `FindMatchesIterator.equals` is never called, and it references an undefined `exact`.
  - The loop in reasoner.js's `StatementSet` constructor is never reached.
- The double `infer`. With set.js's `add`, a reasoner attached to the dataset is told about each
  inferred statement twice: `add` → `onAdd` → `infer`, then `fireRule`'s own `infer`. The model
  follows reasoner.js's copy of the set, whose `add` does not call `onAdd`. `Store` is that
  storage-only `add`. The second `infer` can derive statements that the model does not.
  Example: a statement pushed into a bucket after the first `infer`'s matching iterator has
  passed its end is missed by that `infer` but seen by the second.
- Builtins inside the join. The reasoner never dispatches on `Builtin` clauses; it treats every
  clause as a triple.
  - `Reasoner.Reasoner.constructor` requires every rule's body and head to be Patterns. A
    Builtin in a body would make `clauses.add` call a missing `get`.
  - It requires only `BodyStamped` (what `new Rule` does to the body), rather than the full
    `Rule.Valid()`.
- Builtin values and host coercion. Values are integers, an abstract total order; JavaScript's
  string/number coercion and floats are not modelled. A missing argument is `undefined`.
- `Statements.Statement.Get` requires a position of 1, 2 or 3. The source's `default` branch
  logs and returns `null`. The callers pass `TermPos.S`, `P` or `O`, or a set's `index`.
  `Sets.SingleIndexStatementSet.constructor` requires that index to be one of the three.
- `Statements.Statement.Set` is a value update of an immutable triple, where `set` assigns a
  field in place. The only caller, `ground`, writes a statement it has just created, so no
  aliasing is lost.
- The same goes for `new Statement()` in `ground`. The model starts from the clause and
  overwrites all three positions.
- Clause identity. Clauses are values, so the visitor returns stamped copies rather than
  writing `pos`, `rule` and `idx` into shared objects. A clause object shared between two rules
  is not modelled.
- Every addition is an instance of a head atom (`Derivable`). Nothing says that its binding
  makes the rule's body match the dataset. With `bind`'s last-write-wins treatment of repeated
  variables it need not: `(?x p ?x)` bound to `(a p b)` fires on `?x = b`
  (`Bindings.RepeatedVariableLastWins`).
- `Statements.Term.Unpacked`: its own contract states only a length bound. The behaviour is
  stated by the `Unpack…` lemmas.
- JavaScript prototype keys. The bucket dictionary and the visitor's `varMap` are plain objects
  in the source, so their lookups see the properties of `Object.prototype`. The model uses
  maps, where such names behave like any other string.
  - Bucket keys. `add` and `iterate` read `this.stmts[key]` directly. For a key that
    `Object.prototype` provides, such as `"constructor"`, `"toString"`, `"valueOf"` or
    `"__proto__"`, they get an inherited function or `Object.prototype` itself, not a bucket.
    So in the source `add` throws at `found.push`, and `findMatches` and `contains` throw at
    `found.values()` (set.js:61, set.js:125). `remove` indexes the inherited value as if it were
    an array, so it answers false or throws depending on that value's `length`. The model stores,
    finds and removes such statements like any others.
  - `Rules.RuleVisitor.VisitTerm`: a Variable named `?constructor`, `?toString`, `?valueOf` or
    `?__proto__` gets a fresh slot in the model. In the source the `in` test finds the
    inherited property, so the name gets no slot. Its `idx` becomes that property: a function,
    or `Object.prototype` for `?__proto__`. `bind` then writes a non-index property of the
    binding array, which `slice()` in `windup` does not copy.
- UTF-16. `Statements.Term.Unpacked` strips one character, a Unicode scalar in the model, at
  each end. JavaScript's `substring` counts UTF-16 code units, so for values ending in a
  character outside the Basic Multilingual Plane the two differ.
