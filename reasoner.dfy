/** The forward-chaining reasoner (reasoner.js `Reasoner`) and the reasoner
    hook of set.js's `StatementSet`. Each new statement is matched against
    the rule-body clauses that could use it; the rest of the body is then
    joined depth-first against the dataset, and every complete match fires
    the rule, whose new head atoms are added and reasoned over in turn.

    The source's `infer` -> `fireRule` -> `infer` recursion has no bound;
    here it carries a `fuel` budget that each nested `infer` consumes. The
    ghost result `derived` lists the statements added, in order. */
module Reasoner {
  import opened Options
  import opened Statements
  import opened Rules
  import opened Iterators
  import opened Sets
  import opened Bindings

  /** The clauses the reasoner indexes: rule-body Patterns, each matched
      through its statement (a Pattern is a Statement in the source). */
  type PatternClause = c: Clause | c.Pattern?
    witness Pattern(Statement(Constant(""), Constant(""), Constant("")), null, None)

  function PatternOf(c: PatternClause): Statement {
    c.stmt
  }

  function Itself(st: Statement): Statement {
    st
  }

  predicate AllPatterns(cs: seq<Clause>) {
    forall i :: 0 <= i < |cs| ==> cs[i].Pattern?
  }

  /** `rule.body.slice()` followed by `splice(pos, 1)`. */
  function Spliced(body: seq<Clause>, pos: nat): (r: seq<Clause>)
    requires pos < |body|
    ensures |r| == |body| - 1
    ensures forall k :: 0 <= k < pos ==> r[k] == body[k]
    ensures forall k :: pos <= k < |r| ==> r[k] == body[k + 1]
  {
    body[..pos] + body[pos + 1..]
  }

  /** Every body clause of every rule, rule by rule. */
  ghost function Bodies(rules: seq<Rule>): seq<Clause>
    reads rules
  {
    if rules == [] then [] else Bodies(rules[..|rules| - 1]) + rules[|rules| - 1].body
  }

  /** The statements of all head clauses. */
  ghost function HeadAtoms(rules: seq<Rule>): set<Statement>
    reads rules
  {
    set r, j | r in rules && 0 <= j < |r.head| && r.head[j].Pattern? :: r.head[j].stmt
  }

  /** The clause index covers the body clauses of the rules, every rule is
      made of Patterns, and `heads` lists every head atom. */
  ghost predicate IndexCovers(clauses: SingleIndexStatementSet<PatternClause>, rules: seq<Rule>, heads: set<Statement>)
    reads clauses, rules
  {
    && clauses.Valid() && clauses.index == P && clauses.view == PatternOf
    && (forall r :: r in rules ==> AllPatterns(r.body) && AllPatterns(r.head) && HeadsListed(r, heads))
    && Stamped(clauses.Elements(), rules)
  }

  /** What `new Rule` does to the body: each clause points back at the rule
      and at its own position. */
  ghost predicate BodyStamped(r: Rule)
    reads r
  {
    forall i :: 0 <= i < |r.body| ==> r.body[i].rule == r && r.body[i].pos == Some(i)
  }

  /** Each clause points at its position in the body of one of the rules. */
  ghost predicate Stamped(cs: seq<PatternClause>, rules: seq<Rule>)
    reads rules
  {
    forall c :: c in cs ==> c.rule in rules && c.pos.Some? && c.pos.value < |c.rule.body|
  }

  ghost predicate HeadsListed(r: Rule, heads: set<Statement>)
    reads r
    requires AllPatterns(r.head)
  {
    forall j :: 0 <= j < |r.head| ==> r.head[j].stmt in heads
  }

  /** `d` is a grounding of some head atom. */
  ghost predicate Derivable(heads: set<Statement>, d: Statement) {
    exists env: Env, h :: h in heads && d == GroundSpec(env, h)
  }

  /** No statement of `ms` wildcard-equals `d`, so `contains(d)` is false. */
  ghost predicate NoMatchIn(ms: multiset<Statement>, d: Statement) {
    forall x :: x in ms ==> !x.Equals(d, false)
  }

  /** Every head atom of `rule`, grounded by `env`, has a wildcard match in
      `ms`: the rule has fired on `env`. */
  ghost predicate Fired(ms: multiset<Statement>, rule: Rule, env: Env)
    reads rule
  {
    forall k :: 0 <= k < |rule.head| && rule.head[k].Pattern? ==> !NoMatchIn(ms, GroundSpec(env, rule.head[k].stmt))
  }

  /** The depth-first join of `clauses` from the binding `env` is complete:
      with no clause left the rule has fired on `env`; otherwise every
      statement of `base` that wildcard-equals the first clause grounded by
      `env` has been bound to it, on a copy of `env`, and the rest of the
      clauses joined from there. `base` is the dataset when the join
      started, `ms` the dataset now. */
  ghost predicate Joined(base: multiset<Statement>, ms: multiset<Statement>, rule: Rule, clauses: seq<Clause>, env: Env)
    reads rule
    decreases |clauses|
  {
    if clauses == [] then Fired(ms, rule, env)
    else
      clauses[0].Pattern? ==>
        var g := GroundSpec(env, clauses[0].stmt);
        forall m :: m in base && m.Equals(g, false) ==> Joined(base, ms, rule, clauses[1..], BindSpec(env.(undef := None), g, m))
  }

  /** `Joined` for each data match in `found`, bound to `g` on `env`. */
  ghost predicate JoinedEach(base: multiset<Statement>, ms: multiset<Statement>, rule: Rule, rest: seq<Clause>,
                             env: Env, g: Statement, found: seq<Statement>)
    reads rule
  {
    forall m :: m in found ==> Joined(base, ms, rule, rest, BindSpec(env, g, m))
  }

  /** `infer` has seeded the rule of `c` with `stmt`: the rest of the body
      was joined from the binding of `c` to `stmt` in a new binding. */
  ghost predicate SeedFired(base: multiset<Statement>, ms: multiset<Statement>, c: PatternClause, stmt: Statement)
    requires c.rule != null && c.pos.Some? && c.pos.value < |c.rule.body|
    reads c.rule, c.rule.visitor
  {
    Joined(base, ms, c.rule, Spliced(c.rule.body, c.pos.value), BindSpec(Unbound(c.rule.NumVars()), c.stmt, stmt))
  }

  /** Every statement of `ds` has a wildcard match in `ms`. */
  ghost predicate AllMatched(ms: multiset<Statement>, ds: seq<Statement>) {
    forall d :: d in ds ==> !NoMatchIn(ms, d)
  }

  /** `SeedFired` for every clause of `cs`. */
  ghost predicate SeedsFired(base: multiset<Statement>, ms: multiset<Statement>, cs: seq<PatternClause>, stmt: Statement)
    reads set c | c in cs && c.rule != null :: c.rule
    reads set c | c in cs && c.rule != null :: c.rule.visitor
  {
    forall c :: c in cs ==> c.rule != null && c.pos.Some? && c.pos.value < |c.rule.body| && SeedFired(base, ms, c, stmt)
  }

  /** Each statement of `derived` was added when nothing in the dataset
      (`base` and the statements added before it) wildcard-equalled it. */
  ghost predicate AddedFresh(base: multiset<Statement>, derived: seq<Statement>) {
    if derived == [] then true
    else
      var init := derived[..|derived| - 1];
      AddedFresh(base, init) && NoMatchIn(base + multiset(init), derived[|derived| - 1])
  }

  /** What a run of the reasoner did to a dataset holding `before`: it now
      holds `after`, which is `before` plus the statements of `derived`, each
      of them new when added and a grounding of a head atom. */
  ghost predicate Derivation(heads: set<Statement>, before: multiset<Statement>, after: multiset<Statement>, derived: seq<Statement>) {
    && after == before + multiset(derived)
    && AddedFresh(before, derived)
    && (forall d :: d in derived ==> Derivable(heads, d))
  }

  class Reasoner {
    var dataset: SingleIndexStatementSet<Statement>
    const rules: seq<Rule>
    /** The rule-body clauses, indexed on the predicate position. */
    const clauses: SingleIndexStatementSet<PatternClause>
    ghost const heads: set<Statement>

    /** The clause index covers the body clauses of the rules, every rule
        is made of Patterns, and `heads` lists every head atom. */
    ghost predicate Indexed()
      reads clauses, rules
    {
      IndexCovers(clauses, rules, heads)
    }

    ghost predicate Ready()
      reads this, dataset, clauses, rules
    {
      Indexed() && Stored()
    }

    /** The dataset is a well-formed set of plain statements. */
    ghost predicate Stored()
      reads this, dataset
    {
      dataset.Valid() && dataset.view == Itself && dataset as object != clauses
    }

    /** The indexed clauses that `stmt` matches: what `infer` iterates. */
    ghost function Seeds(stmt: Statement): seq<PatternClause>
      reads clauses
      requires clauses.Valid()
    {
      Matches(clauses.CandidatesFor(stmt), stmt, clauses.view)
    }

    ghost function Data(): multiset<Statement>
      reads this, dataset
      requires Stored()
    {
      multiset(dataset.Elements())
    }

    /** `new Reasoner(dataset, rules)`: indexes every body clause of every
        rule and leaves the dataset alone. */
    constructor (dataset: SingleIndexStatementSet<Statement>, rules: seq<Rule>)
      requires dataset.Valid() && dataset.view == Itself
      requires forall r :: r in rules ==> BodyStamped(r) && AllPatterns(r.body) && AllPatterns(r.head)
      ensures Ready() && this.dataset == dataset && this.rules == rules && fresh(clauses)
      ensures multiset(clauses.Elements()) == multiset(Bodies(rules))
    {
      var index := IndexBodies(rules);
      ghost var atoms := HeadAtoms(rules);
      HeadAtomsListed(rules);
      assert IndexCovers(index, rules, atoms);
      this.dataset := dataset;
      this.rules := rules;
      clauses := index;
      heads := atoms;
    }

    /** `infer(stmt)`: every indexed clause that wildcard-equals `stmt` seeds
        a binding stack with `stmt` bound to it and matches the rest of its
        rule's body. */
    method Infer(stmt: Statement, fuel: nat) returns (ghost derived: seq<Statement>)
      requires Ready()
      modifies dataset
      ensures Ready()
      ensures Derivation(heads, old(Data()), Data(), derived)
      ensures fuel >= 1 ==> SeedsFired(old(Data()), Data(), Seeds(stmt), stmt)
      decreases fuel, 4, 0, 0
    {
      derived := [];
      if fuel == 0 {
        return;
      }
      var found := AllMatches(clauses, stmt);
      FoundIsStamped(clauses, rules, stmt);
      for i := 0 to |found|
        invariant Ready() && Stamped(found, rules)
        invariant Derivation(heads, old(Data()), Data(), derived)
        invariant SeedsFired(old(Data()), Data(), found[..i], stmt)
      {
        derived := InferNext(found, i, stmt, fuel, old(Data()), derived);
      }
      assert found[..|found|] == found;
    }

    /** One round of `infer`'s loop: clause `found[i]` seeds its rule. */
    method InferNext(found: seq<PatternClause>, i: nat, stmt: Statement, fuel: nat,
                     ghost base: multiset<Statement>, ghost derived: seq<Statement>)
      returns (ghost derived': seq<Statement>)
      requires Ready() && fuel >= 1 && Stamped(found, rules) && i < |found|
      requires Derivation(heads, base, Data(), derived) && SeedsFired(base, Data(), found[..i], stmt)
      modifies dataset
      ensures Ready() && Derivation(heads, base, Data(), derived')
      ensures SeedsFired(base, Data(), found[..i + 1], stmt)
      decreases fuel, 3, 1, 0
    {
      assert found[i] in found;
      ghost var mid := Data();
      var d := InferFrom(found[i], stmt, fuel);
      DerivationAppend(heads, base, mid, Data(), derived, d);
      derived' := derived + d;
      ghost var c := found[i];
      JoinedSmallerBase(mid, base, Data(), c.rule, Spliced(c.rule.body, c.pos.value),
                        BindSpec(Unbound(c.rule.NumVars()), c.stmt, stmt));
      SeedsFiredStep(base, mid, multiset(d), found, i, stmt);
    }

    /** The body of `infer`'s loop: a new binding stack for the clause's
        rule, `stmt` bound against the clause, then `matchBody`. */
    method InferFrom(clause: PatternClause, stmt: Statement, fuel: nat) returns (ghost derived: seq<Statement>)
      requires Ready() && fuel >= 1
      requires clause.rule in rules && clause.pos.Some? && clause.pos.value < |clause.rule.body|
      modifies dataset
      ensures Ready()
      ensures Derivation(heads, old(Data()), Data(), derived)
      ensures SeedFired(old(Data()), Data(), clause, stmt)
      decreases fuel, 3, 0, 0
    {
      var rule: Rule := clause.rule;
      var stack := new BindingStack(rule);
      stack.Current().Bind(clause.stmt, stmt);
      derived := MatchBody(rule, clause, stack, fuel);
    }

    /** `matchBody`: the rule's body without the clause that matched. */
    method MatchBody(rule: Rule, clause: PatternClause, stack: BindingStack, fuel: nat) returns (ghost derived: seq<Statement>)
      requires Ready() && fuel >= 1
      requires rule in rules && clause.pos.Some? && clause.pos.value < |rule.body|
      requires stack.stack != []
      modifies dataset, stack
      ensures Ready() && stack.stack == old(stack.stack)
      ensures Derivation(heads, old(Data()), Data(), derived)
      ensures Joined(old(Data()), Data(), rule, Spliced(rule.body, clause.pos.value), old(stack.Current().State()))
      decreases fuel, 2, 0, 0
    {
      var remaining := Spliced(rule.body, clause.pos.value);
      var _, d := MatchClauses(rule, remaining, stack, fuel);
      derived := d;
    }

    /** `matchClauses`: joins `clauses` front to back. With none left it
        fires the rule and answers true; otherwise each data match of the
        first clause, grounded by the current binding, is explored on a
        pushed copy of the binding, and nothing is answered. */
    method MatchClauses(rule: Rule, clauses: seq<Clause>, stack: BindingStack, fuel: nat)
      returns (r: Option<bool>, ghost derived: seq<Statement>)
      requires Ready() && fuel >= 1 && rule in rules && AllPatterns(clauses)
      requires stack.stack != []
      modifies dataset, stack
      ensures Ready() && stack.stack == old(stack.stack)
      ensures r == if clauses == [] then Some(true) else None
      ensures Derivation(heads, old(Data()), Data(), derived)
      ensures Joined(old(Data()), Data(), rule, clauses, old(stack.Current().State()))
      decreases fuel, 1, |clauses|, 1
    {
      if |clauses| == 0 {
        derived := FireRule(rule, stack.Current(), fuel);
        return Some(true), derived;
      }
      var next := clauses[0];
      var rest := clauses[1..];
      var grounded := stack.Current().Ground(next.stmt);
      var found := AllMatches(dataset, grounded);
      MatchesCover(dataset, grounded);
      ghost var env := stack.Current().State();
      derived := [];
      for i := 0 to |found|
        invariant Ready() && stack.stack == old(stack.stack) && stack.Current().State() == env
        invariant Derivation(heads, old(Data()), Data(), derived)
        invariant JoinedEach(old(Data()), Data(), rule, rest, env.(undef := None), grounded, found[..i])
      {
        derived := MatchStep(rule, grounded, found, i, rest, stack, fuel, old(Data()), env, derived);
      }
      JoinedFromMatches(old(Data()), Data(), rule, clauses, env, found);
      return None, derived;
    }

    /** One round of `matchClauses`'s loop: the data match `found[i]` is
        explored, and the matches before it stay explored. */
    method MatchStep(rule: Rule, grounded: Statement, found: seq<Statement>, i: nat, rest: seq<Clause>,
                     stack: BindingStack, fuel: nat, ghost base: multiset<Statement>, ghost env: Env,
                     ghost derived: seq<Statement>)
      returns (ghost derived': seq<Statement>)
      requires Ready() && fuel >= 1 && rule in rules && AllPatterns(rest) && i < |found|
      requires stack.stack != [] && stack.Current().State() == env
      requires Derivation(heads, base, Data(), derived)
      requires JoinedEach(base, Data(), rule, rest, env.(undef := None), grounded, found[..i])
      modifies dataset, stack
      ensures Ready() && stack.stack == old(stack.stack) && stack.Current().State() == env
      ensures Derivation(heads, base, Data(), derived')
      ensures JoinedEach(base, Data(), rule, rest, env.(undef := None), grounded, found[..i + 1])
      decreases fuel, 1, |rest|, 3
    {
      ghost var mid := Data();
      var d := MatchNext(rule, grounded, found[i], rest, stack, fuel);
      DerivationAppend(heads, base, mid, Data(), derived, d);
      derived' := derived + d;
      JoinedSmallerBase(mid, base, Data(), rule, rest, BindSpec(env.(undef := None), grounded, found[i]));
      JoinedEachStep(base, mid, multiset(d), rule, rest, env.(undef := None), grounded, found, i);
    }

    /** The body of `matchClauses`'s loop: `windup`, bind the grounded
        clause to the data match on the new top binding, match the rest of
        the clauses, `unwind`. */
    method MatchNext(rule: Rule, grounded: Statement, found: Statement, rest: seq<Clause>, stack: BindingStack, fuel: nat)
      returns (ghost derived: seq<Statement>)
      requires Ready() && fuel >= 1 && rule in rules && AllPatterns(rest)
      requires stack.stack != []
      modifies dataset, stack
      ensures Ready() && stack.stack == old(stack.stack)
      ensures Derivation(heads, old(Data()), Data(), derived)
      ensures Joined(old(Data()), Data(), rule, rest, BindSpec(old(stack.Current().State()).(undef := None), grounded, found))
      decreases fuel, 1, |rest|, 2
    {
      stack.Windup();
      stack.Current().Bind(grounded, found);
      var _, d := MatchClauses(rule, rest, stack, fuel);
      derived := d;
      stack.Unwind();
    }

    /** `fireRule`: grounds every head atom with the binding, then adds each
        one that the dataset does not already contain and infers from it. */
    method FireRule(rule: Rule, binding: Binding, fuel: nat) returns (ghost derived: seq<Statement>)
      requires Ready() && fuel >= 1 && rule in rules
      modifies dataset
      ensures Ready()
      ensures Derivation(heads, old(Data()), Data(), derived)
      ensures Fired(Data(), rule, binding.State())
      decreases fuel, 0, 0, 1
    {
      var inferences := GroundHead(rule, binding);
      derived := [];
      for i := 0 to |inferences|
        invariant Ready()
        invariant Derivation(heads, old(Data()), Data(), derived)
        invariant AllMatched(Data(), inferences[..i])
      {
        ghost var mid := Data();
        var d := AddInference(inferences[i], fuel);
        DerivationAppend(heads, old(Data()), mid, Data(), derived, d);
        derived := derived + d;
        AllMatchedStep(mid, multiset(d), inferences, i);
      }
      HeadMatchedIsFired(Data(), rule, binding.State(), inferences);
    }

    /** `rule.head.map(c => binding.ground(c))`: the head atoms grounded by
        the binding, each of them derivable. */
    method GroundHead(rule: Rule, binding: Binding) returns (inferences: seq<Statement>)
      requires Indexed() && rule in rules
      ensures |inferences| == |rule.head|
      ensures forall k :: 0 <= k < |inferences| ==> inferences[k] == GroundSpec(binding.State(), rule.head[k].stmt)
      ensures forall k :: 0 <= k < |inferences| ==> Derivable(heads, inferences[k])
    {
      inferences := [];
      for i := 0 to |rule.head|
        invariant |inferences| == i
        invariant forall k :: 0 <= k < i ==> inferences[k] == GroundSpec(binding.State(), rule.head[k].stmt)
      {
        var grounded := binding.Ground(rule.head[i].stmt);
        inferences := inferences + [grounded];
      }
      forall k | 0 <= k < |inferences|
        ensures Derivable(heads, inferences[k])
      {
        assert rule.head[k].stmt in heads;
      }
    }

    /** `this.dataset.add(inference)`: the storage step, which leaves the
        clause index alone. */
    method Store(inference: Statement)
      requires Ready()
      modifies dataset
      ensures Ready() && Data() == old(Data()) + multiset{inference}
    {
      dataset.Add(inference);
    }

    /** The body of `fireRule`'s loop: an inference that the dataset does
        not contain is added and inferred from; one it contains is
        dropped. */
    method AddInference(inference: Statement, fuel: nat) returns (ghost derived: seq<Statement>)
      requires Ready() && fuel >= 1 && Derivable(heads, inference)
      modifies dataset
      ensures Ready()
      ensures Derivation(heads, old(Data()), Data(), derived)
      ensures derived != [] <==> NoMatchIn(old(Data()), inference)
      ensures derived != [] ==> derived[0] == inference
      ensures !NoMatchIn(Data(), inference)
      ensures fuel >= 2 && derived != [] ==> SeedsFired(old(Data()) + multiset{inference}, Data(), Seeds(inference), inference)
      decreases fuel, 0, 0, 0
    {
      derived := [];
      var present := dataset.Contains(inference);
      ContainsMeansMatch(dataset, inference);
      if present {
        return;
      }
      Store(inference);
      ghost var mid := Data();
      AddedOne(heads, old(Data()), inference);
      var d := Infer(inference, fuel - 1);
      DerivationAppend(heads, old(Data()), mid, Data(), [inference], d);
      derived := [inference] + d;
      StatementEqualsReflexive(inference, false);
      assert inference in mid;
      MatchPersists(mid, multiset(d), inference);
    }
  }

  /** The constructor's loop: every body clause of every rule added to a
      new clause index on the predicate position. */
  method IndexBodies(rules: seq<Rule>) returns (index: SingleIndexStatementSet<PatternClause>)
    requires forall r :: r in rules ==> BodyStamped(r) && AllPatterns(r.body)
    ensures fresh(index) && index.Valid() && index.index == P && index.view == PatternOf
    ensures multiset(index.Elements()) == multiset(Bodies(rules))
    ensures Stamped(index.Elements(), rules)
  {
    BodiesPrefixes(rules);
    BodiesStamped(rules);
    ghost var all := Bodies(rules);
    index := new SingleIndexStatementSet<PatternClause>(P, PatternOf);
    for i := 0 to |rules|
      invariant index.Valid() && fresh(index)
      invariant multiset(index.Elements()) == old(multiset(Bodies(rules[..i])))
    {
      var body := rules[i].body;
      IndexBody(index, body);
    }
    assert rules[..|rules|] == rules;
    forall c | c in index.Elements()
      ensures c in all
    {
      assert c in multiset(all);
    }
  }

  lemma {:induction false} BodiesPrefixes(rules: seq<Rule>)
    ensures forall i :: 0 <= i < |rules| ==>
      multiset(Bodies(rules[..i + 1])) == multiset(Bodies(rules[..i])) + multiset(rules[i].body)
  {
    forall i | 0 <= i < |rules|
      ensures multiset(Bodies(rules[..i + 1])) == multiset(Bodies(rules[..i])) + multiset(rules[i].body)
    {
      assert rules[..i + 1][..i] == rules[..i];
    }
  }

  lemma HeadAtomsListed(rules: seq<Rule>)
    requires forall r :: r in rules ==> AllPatterns(r.head)
    ensures forall r :: r in rules ==> HeadsListed(r, HeadAtoms(rules))
  {
    forall r | r in rules
      ensures HeadsListed(r, HeadAtoms(rules))
    {
      forall j | 0 <= j < |r.head|
        ensures r.head[j].stmt in HeadAtoms(rules)
      {
      }
    }
  }

  /** `for (var clause of rule.body) this.clauses.add(clause)`. */
  method IndexBody(index: SingleIndexStatementSet<PatternClause>, body: seq<Clause>)
    requires index.Valid() && AllPatterns(body)
    modifies index
    ensures index.Valid()
    ensures multiset(index.Elements()) == old(multiset(index.Elements())) + multiset(body)
  {
    for j := 0 to |body|
      invariant index.Valid()
      invariant multiset(index.Elements()) == old(multiset(index.Elements())) + multiset(body[..j])
    {
      var clause: PatternClause := body[j];
      PrefixSnoc(body, j);
      index.Add(clause);
    }
    assert body[..|body|] == body;
  }

  lemma PrefixSnoc<T>(s: seq<T>, j: nat)
    requires j < |s|
    ensures multiset(s[..j + 1]) == multiset(s[..j]) + multiset{s[j]}
  {
    assert s[..j + 1] == s[..j] + [s[j]];
  }

  /** Every body clause of the rules points back into its rule. */
  lemma {:induction false} BodiesStamped(rules: seq<Rule>)
    requires forall r :: r in rules ==> BodyStamped(r)
    ensures forall c :: c in Bodies(rules) ==> c.rule in rules && c.pos.Some? && c.pos.value < |c.rule.body|
  {
    if rules != [] {
      var init, last := rules[..|rules| - 1], rules[|rules| - 1];
      BodiesStamped(init);
      assert Bodies(rules) == Bodies(init) + last.body;
      assert last in rules && BodyStamped(last);
      forall c | c in Bodies(rules)
        ensures c.rule in rules && c.pos.Some? && c.pos.value < |c.rule.body|
      {
        if c in Bodies(init) {
          assert c.rule in init;
        } else {
          var i :| 0 <= i < |last.body| && last.body[i] == c;
        }
      }
    }
  }

  /** `for (x of set.findMatches(q))`: the values the loop visits. */
  method AllMatches<E>(s: SingleIndexStatementSet<E>, q: Statement) returns (found: seq<E>)
    requires s.Valid()
    ensures found == Matches(s.CandidatesFor(q), q, s.view)
  {
    var matches := s.FindMatches(q);
    found := matches.Drain();
  }

  /** set.js's `StatementSet` with its `SingleIndexStatementSet` storage: a
      set that tells the reasoner attached to it about every addition. */
  class StatementSet {
    const store: SingleIndexStatementSet<Statement>
    const reasoner: Reasoner?

    /** Attaching makes the new set the reasoner's dataset. */
    constructor (index: int, reasoner: Reasoner?)
      requires ValidPos(index)
      requires reasoner != null ==> reasoner.Indexed() && reasoner.Stored()
      modifies reasoner
      ensures fresh(store) && store.Valid() && store.index == index && store.Elements() == []
      ensures this.reasoner == reasoner
      ensures reasoner != null ==> reasoner.dataset == store && reasoner.Indexed() && reasoner.Stored()
    {
      var s := new SingleIndexStatementSet<Statement>(index, Itself);
      store := s;
      this.reasoner := reasoner;
      new;
      if reasoner != null {
        reasoner.dataset := s;
      }
    }

    /** `add`: stores the statement, then `onAdd`. */
    method Add(st: Statement, fuel: nat) returns (ghost derived: seq<Statement>)
      requires store.Valid()
      requires reasoner != null ==> reasoner.Indexed() && reasoner.Stored() && reasoner.dataset == store
      modifies store
      ensures store.Valid() && (reasoner != null ==> reasoner.Stored())
      ensures reasoner == null ==> derived == [] && multiset(store.Elements()) == old(multiset(store.Elements())) + multiset{st}
      ensures reasoner != null ==>
        Derivation(reasoner.heads, old(multiset(store.Elements())) + multiset{st}, multiset(store.Elements()), derived)
      ensures reasoner != null && fuel >= 1 ==>
        SeedsFired(old(multiset(store.Elements())) + multiset{st}, reasoner.Data(), reasoner.Seeds(st), st)
    {
      ghost var before := multiset(store.Elements());
      store.Add(st);
      ghost var mid := multiset(store.Elements());
      assert mid == before + multiset{st};
      derived := OnAdd(st, fuel);
    }

    /** `onAdd`: one `infer` call when a reasoner is attached, none
        otherwise. */
    method OnAdd(st: Statement, fuel: nat) returns (ghost derived: seq<Statement>)
      requires store.Valid()
      requires reasoner != null ==> reasoner.Indexed() && reasoner.Stored() && reasoner.dataset == store
      modifies store
      ensures store.Valid() && (reasoner != null ==> reasoner.Stored())
      ensures reasoner == null ==> derived == [] && store.stmts == old(store.stmts) && store.keys == old(store.keys)
      ensures reasoner != null ==>
        Derivation(reasoner.heads, old(multiset(store.Elements())), multiset(store.Elements()), derived)
      ensures reasoner != null && fuel >= 1 ==>
        SeedsFired(old(multiset(store.Elements())), reasoner.Data(), reasoner.Seeds(st), st)
    {
      derived := [];
      if reasoner != null {
        derived := reasoner.Infer(st, fuel);
      }
    }
  }

  // ---------------------------------------------------------------------
  // Properties

  /** Everything a matching iterator over the clause index yields is an
      indexed clause, so it points into its rule. */
  lemma FoundIsStamped(index: SingleIndexStatementSet<PatternClause>, rules: seq<Rule>, q: Statement)
    requires index.Valid() && Stamped(index.Elements(), rules)
    ensures Stamped(Matches(index.CandidatesFor(q), q, index.view), rules)
  {
    var candidates := index.CandidatesFor(q);
    CandidatesComplete(index.stmts, index.keys, index.index, index.view, q);
    forall c | c in Matches(candidates, q, index.view)
      ensures c in index.Elements()
    {
      MatchesMember(candidates, q, index.view, c);
    }
  }

  /** `contains(q)` on a dataset answers whether some stored statement
      wildcard-equals `q`. */
  lemma ContainsMeansMatch(ds: SingleIndexStatementSet<Statement>, q: Statement)
    requires ds.Valid() && ds.view == Itself
    ensures (exists x :: x in ds.Elements() && ds.view(x).Equals(q, false)) <==> !NoMatchIn(multiset(ds.Elements()), q)
  {
    if exists x :: x in ds.Elements() && ds.view(x).Equals(q, false) {
      var x :| x in ds.Elements() && ds.view(x).Equals(q, false);
      assert x in multiset(ds.Elements()) && ds.view(x) == x;
    } else {
      forall x | x in multiset(ds.Elements())
        ensures !x.Equals(q, false)
      {
        assert x in ds.Elements() && ds.view(x) == x;
      }
    }
  }

  /** Adding one fresh, derivable statement is a run of its own. */
  lemma AddedOne(heads: set<Statement>, before: multiset<Statement>, d: Statement)
    requires NoMatchIn(before, d) && Derivable(heads, d)
    ensures Derivation(heads, before, before + multiset{d}, [d])
  {
    assert [d][..0] == [];
  }

  /** Runs compose: a first run adding `d1`, then one adding `d2` from where
      it stopped, add `d1 + d2`. */
  lemma {:induction false} DerivationAppend(heads: set<Statement>, a: multiset<Statement>, b: multiset<Statement>,
                                            c: multiset<Statement>, d1: seq<Statement>, d2: seq<Statement>)
    requires Derivation(heads, a, b, d1) && Derivation(heads, b, c, d2)
    ensures Derivation(heads, a, c, d1 + d2)
  {
    AddedFreshAppend(a, d1, d2);
    assert multiset(d1 + d2) == multiset(d1) + multiset(d2);
    forall d | d in d1 + d2
      ensures Derivable(heads, d)
    {
      assert d in d1 || d in d2;
    }
  }

  lemma {:induction false} AddedFreshAppend(base: multiset<Statement>, d1: seq<Statement>, d2: seq<Statement>)
    requires AddedFresh(base, d1) && AddedFresh(base + multiset(d1), d2)
    ensures AddedFresh(base, d1 + d2)
  {
    if d2 == [] {
      assert d1 + d2 == d1;
    } else {
      var init := d2[..|d2| - 1];
      var last := d2[|d2| - 1];
      assert (d1 + d2)[..|d1 + d2| - 1] == d1 + init;
      assert (d1 + d2)[|d1 + d2| - 1] == last;
      AddedFreshAppend(base, d1, init);
      assert base + multiset(d1) + multiset(init) == base + multiset(d1 + init);
    }
  }

  /** Nothing the reasoner adds wildcard-equals a statement that was there
      before: re-deriving a present statement adds nothing. */
  lemma {:induction false} AddedFreshAvoidsBase(base: multiset<Statement>, derived: seq<Statement>)
    requires AddedFresh(base, derived)
    ensures forall x, j :: x in base && 0 <= j < |derived| ==> !x.Equals(derived[j], false)
  {
    if derived != [] {
      var n := |derived| - 1;
      var init := derived[..n];
      AddedFreshAvoidsBase(base, init);
      forall x, j | x in base && 0 <= j < |derived|
        ensures !x.Equals(derived[j], false)
      {
        if j < n {
          assert init[j] == derived[j];
        }
      }
    }
  }

  /** Nothing the reasoner adds wildcard-equals a statement it added
      earlier in the same run. */
  lemma {:induction false} AddedFreshPairwise(base: multiset<Statement>, derived: seq<Statement>)
    requires AddedFresh(base, derived)
    ensures forall i, j :: 0 <= i < j < |derived| ==> !derived[i].Equals(derived[j], false)
  {
    if derived != [] {
      var n := |derived| - 1;
      var init := derived[..n];
      AddedFreshPairwise(base, init);
      forall i, j | 0 <= i < j < |derived|
        ensures !derived[i].Equals(derived[j], false)
      {
        if j == n {
          assert derived[i] == init[i];
          assert derived[i] in base + multiset(init);
        } else {
          assert init[i] == derived[i] && init[j] == derived[j];
        }
      }
    }
  }

  /** In particular the reasoner never adds the same statement twice. */
  lemma AddedFreshDistinct(base: multiset<Statement>, derived: seq<Statement>)
    requires AddedFresh(base, derived)
    ensures forall i, j :: 0 <= i < j < |derived| ==> derived[i] != derived[j]
  {
    AddedFreshPairwise(base, derived);
    forall i, j | 0 <= i < j < |derived|
      ensures derived[i] != derived[j]
    {
      StatementEqualsReflexive(derived[i], false);
    }
  }

  /** A statement with a wildcard match keeps it when the dataset grows. */
  lemma MatchPersists(ms: multiset<Statement>, extra: multiset<Statement>, d: Statement)
    requires !NoMatchIn(ms, d)
    ensures !NoMatchIn(ms + extra, d)
  {
    var x :| x in ms && x.Equals(d, false);
    assert x in ms + extra;
  }

  /** One more statement matched, and the earlier ones stay matched as
      the dataset grows. */
  lemma AllMatchedStep(ms: multiset<Statement>, extra: multiset<Statement>, ds: seq<Statement>, i: nat)
    requires i < |ds| && AllMatched(ms, ds[..i]) && !NoMatchIn(ms + extra, ds[i])
    ensures AllMatched(ms + extra, ds[..i + 1])
  {
    forall d | d in ds[..i + 1]
      ensures !NoMatchIn(ms + extra, d)
    {
      if d != ds[i] {
        assert d in ds[..i];
        MatchPersists(ms, extra, d);
      }
    }
  }

  /** The grounded head atoms all matched: the rule has fired. */
  lemma HeadMatchedIsFired(ms: multiset<Statement>, rule: Rule, env: Env, inferences: seq<Statement>)
    requires |inferences| == |rule.head| && AllPatterns(rule.head)
    requires forall k :: 0 <= k < |inferences| ==> inferences[k] == GroundSpec(env, rule.head[k].stmt)
    requires AllMatched(ms, inferences[..|inferences|])
    ensures Fired(ms, rule, env)
  {
    forall k | 0 <= k < |rule.head| && rule.head[k].Pattern?
      ensures !NoMatchIn(ms, GroundSpec(env, rule.head[k].stmt))
    {
      assert inferences[k] in inferences[..|inferences|];
    }
  }

  /** A rule that has fired stays fired when the dataset grows. */
  lemma FiredPersists(ms: multiset<Statement>, extra: multiset<Statement>, rule: Rule, env: Env)
    requires Fired(ms, rule, env)
    ensures Fired(ms + extra, rule, env)
  {
    forall k | 0 <= k < |rule.head| && rule.head[k].Pattern?
      ensures !NoMatchIn(ms + extra, GroundSpec(env, rule.head[k].stmt))
    {
      MatchPersists(ms, extra, GroundSpec(env, rule.head[k].stmt));
    }
  }

  /** A complete join stays complete when the dataset grows. */
  lemma {:induction false} JoinedGrows(base: multiset<Statement>, ms: multiset<Statement>, extra: multiset<Statement>,
                                       rule: Rule, clauses: seq<Clause>, env: Env)
    requires Joined(base, ms, rule, clauses, env)
    ensures Joined(base, ms + extra, rule, clauses, env)
    decreases |clauses|
  {
    if clauses == [] {
      FiredPersists(ms, extra, rule, env);
    } else if clauses[0].Pattern? {
      var g := GroundSpec(env, clauses[0].stmt);
      forall m | m in base && m.Equals(g, false)
        ensures Joined(base, ms + extra, rule, clauses[1..], BindSpec(env.(undef := None), g, m))
      {
        JoinedGrows(base, ms, extra, rule, clauses[1..], BindSpec(env.(undef := None), g, m));
      }
    }
  }

  /** A join complete over a dataset is complete over any part of it. */
  lemma {:induction false} JoinedSmallerBase(base: multiset<Statement>, small: multiset<Statement>, ms: multiset<Statement>,
                                             rule: Rule, clauses: seq<Clause>, env: Env)
    requires small <= base && Joined(base, ms, rule, clauses, env)
    ensures Joined(small, ms, rule, clauses, env)
    decreases |clauses|
  {
    if clauses != [] && clauses[0].Pattern? {
      var g := GroundSpec(env, clauses[0].stmt);
      forall m | m in small && m.Equals(g, false)
        ensures Joined(small, ms, rule, clauses[1..], BindSpec(env.(undef := None), g, m))
      {
        JoinedSmallerBase(base, small, ms, rule, clauses[1..], BindSpec(env.(undef := None), g, m));
      }
    }
  }

  /** One more data match joined, and the earlier ones stay joined as the
      dataset grows. */
  lemma JoinedEachStep(base: multiset<Statement>, ms: multiset<Statement>, extra: multiset<Statement>, rule: Rule,
                       rest: seq<Clause>, env: Env, g: Statement, found: seq<Statement>, i: nat)
    requires i < |found| && JoinedEach(base, ms, rule, rest, env, g, found[..i])
    requires Joined(base, ms + extra, rule, rest, BindSpec(env, g, found[i]))
    ensures JoinedEach(base, ms + extra, rule, rest, env, g, found[..i + 1])
  {
    forall m | m in found[..i + 1]
      ensures Joined(base, ms + extra, rule, rest, BindSpec(env, g, m))
    {
      if m != found[i] {
        assert m in found[..i];
        JoinedGrows(base, ms, extra, rule, rest, BindSpec(env, g, m));
      }
    }
  }

  /** `findMatches` yields every stored statement that wildcard-equals the
      query. */
  lemma MatchesCover(ds: SingleIndexStatementSet<Statement>, q: Statement)
    requires ds.Valid() && ds.view == Itself
    ensures forall m :: m in multiset(ds.Elements()) && m.Equals(q, false) ==> m in Matches(ds.CandidatesFor(q), q, ds.view)
  {
    CandidatesComplete(ds.stmts, ds.keys, ds.index, ds.view, q);
    forall m | m in multiset(ds.Elements()) && m.Equals(q, false)
      ensures m in Matches(ds.CandidatesFor(q), q, ds.view)
    {
      assert ds.view(m) == m;
      MatchesMember(ds.CandidatesFor(q), q, ds.view, m);
    }
  }

  /** Joining every data match of the grounded first clause completes the
      join of the clauses. */
  lemma JoinedFromMatches(base: multiset<Statement>, ms: multiset<Statement>, rule: Rule, clauses: seq<Clause>,
                          env: Env, found: seq<Statement>)
    requires clauses != [] && clauses[0].Pattern?
    requires forall m :: m in base && m.Equals(GroundSpec(env, clauses[0].stmt), false) ==> m in found
    requires JoinedEach(base, ms, rule, clauses[1..], env.(undef := None), GroundSpec(env, clauses[0].stmt), found[..|found|])
    ensures Joined(base, ms, rule, clauses, env)
  {
    assert found[..|found|] == found;
  }

  /** One more seed fired, and the earlier ones stay fired as the dataset
      grows. */
  lemma SeedsFiredStep(base: multiset<Statement>, ms: multiset<Statement>, extra: multiset<Statement>,
                       found: seq<PatternClause>, i: nat, stmt: Statement)
    requires i < |found| && SeedsFired(base, ms, found[..i], stmt)
    requires found[i].rule != null && found[i].pos.Some? && found[i].pos.value < |found[i].rule.body|
    requires SeedFired(base, ms + extra, found[i], stmt)
    ensures SeedsFired(base, ms + extra, found[..i + 1], stmt)
  {
    forall c | c in found[..i + 1]
      ensures c.rule != null && c.pos.Some? && c.pos.value < |c.rule.body| && SeedFired(base, ms + extra, c, stmt)
    {
      if c != found[i] {
        assert c in found[..i];
        JoinedGrows(base, ms, extra, c.rule, Spliced(c.rule.body, c.pos.value),
                    BindSpec(Unbound(c.rule.NumVars()), c.stmt, stmt));
      }
    }
  }

  /** The clause list `matchBody` passes on is the body less the matched
      clause, as a multiset. */
  lemma SplicedMultiset(body: seq<Clause>, pos: nat)
    requires pos < |body|
    ensures multiset(Spliced(body, pos)) + multiset{body[pos]} == multiset(body)
  {
    assert body == body[..pos] + [body[pos]] + body[pos + 1..];
  }
}
