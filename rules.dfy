/** Rules and their clauses (rule.js): Pattern and Builtin clauses, and the
    RuleVisitor that stamps every body clause with its position and every
    clause with its rule, and gives each distinct variable name a dense slot
    in first-occurrence order, body before head. */
module Rules {
  import opened Options
  import opened Statements
  import opened Builtins

  /** ClauseTypes: the tag carried by each clause kind. */
  datatype ClauseType = PatternClause | BuiltinClause

  /** A body or head element. A Pattern is a statement plus the rule that owns
      it and its position in the rule body; a Builtin (an FnBuiltin in the
      source) is a comparison over an argument list. Both start out with no
      rule and no position, which the rule's visitor fills in. */
  datatype Clause =
    | Pattern(stmt: Statement, rule: Rule?, pos: Option<nat>)
    | Builtin(fn: Comparison, args: seq<Term>, rule: Rule?, pos: Option<nat>)
  {
    function Type(): ClauseType {
      if Pattern? then PatternClause else BuiltinClause
    }

    /** What `for (const term of clause)` visits: s, p, o for a Pattern, the
        arguments in order for a Builtin. */
    function Terms(): seq<Term> {
      if Pattern? then stmt.Terms() else args
    }

    /** `FnBuiltin.evaluate(grounded)`: the builtin's comparison applied to
        the grounded arguments. */
    function Evaluate(grounded: seq<int>): bool
      requires Builtin?
    {
      Apply(fn, grounded)
    }
  }

  /** The object returned by a Builtin's `[Symbol.iterator]()`: yields the
      arguments in order, then reports done. */
  class BuiltinIterator {
    const args: seq<Term>
    var idx: nat

    ghost predicate Valid()
      reads this
    {
      idx <= |args|
    }

    ghost function Remaining(): seq<Term>
      reads this
      requires Valid()
    {
      args[idx..]
    }

    constructor (builtin: Clause)
      requires builtin.Builtin?
      ensures Valid() && Remaining() == builtin.args
    {
      args := builtin.args;
      idx := 0;
    }

    method Next() returns (r: Option<Term>)
      requires Valid()
      modifies this
      ensures Valid()
      ensures old(Remaining()) == [] ==> r == None && Remaining() == []
      ensures old(Remaining()) != [] ==> r == Some(old(Remaining())[0]) && Remaining() == old(Remaining())[1..]
    {
      if idx >= |args| {
        return None;
      }
      var value := args[idx];
      idx := idx + 1;
      r := Some(value);
    }
  }

  // ---------------------------------------------------------------------
  // Variable names and their first occurrences

  /** The names of the Variables among `ts`, in order, repeats included. */
  function VarNames(ts: seq<Term>): seq<string> {
    if ts == [] then []
    else VarNames(ts[..|ts| - 1]) + (if ts[|ts| - 1].Variable? then [ts[|ts| - 1].name] else [])
  }

  /** The variable names of a clause list, clause after clause. */
  function ClauseVarNames(cs: seq<Clause>): seq<string> {
    if cs == [] then []
    else ClauseVarNames(cs[..|cs| - 1]) + VarNames(cs[|cs| - 1].Terms())
  }

  /** `s` with every repeat dropped: each name where it first occurs. */
  function FirstOccurrences(s: seq<string>): seq<string> {
    FirstOccurrencesOfPrefix(s, |s|)
  }

  /** The first occurrences among `s[..n]`. */
  function FirstOccurrencesOfPrefix(s: seq<string>, n: nat): seq<string>
    requires n <= |s|
  {
    if n == 0 then []
    else
      var r := FirstOccurrencesOfPrefix(s, n - 1);
      if s[n - 1] in r then r else r + [s[n - 1]]
  }

  lemma {:induction false} FirstOccurrencesOfPrefixOnly(s: seq<string>, t: seq<string>, n: nat)
    requires n <= |s|
    ensures FirstOccurrencesOfPrefix(s + t, n) == FirstOccurrencesOfPrefix(s, n)
  {
    if n > 0 {
      FirstOccurrencesOfPrefixOnly(s, t, n - 1);
    }
  }

  /** One more name is kept exactly when it is new. */
  lemma FirstOccurrencesSnoc(s: seq<string>, y: string)
    ensures FirstOccurrences(s + [y]) ==
              if y in FirstOccurrences(s) then FirstOccurrences(s) else FirstOccurrences(s) + [y]
  {
    FirstOccurrencesOfPrefixOnly(s, [y], |s|);
  }

  predicate Distinct(s: seq<string>) {
    forall i, j :: 0 <= i < j < |s| ==> s[i] != s[j]
  }

  /** Where `x` first occurs in `s`. */
  function FirstIndex(s: seq<string>, x: string): (k: nat)
    requires x in s
    ensures k < |s| && s[k] == x && x !in s[..k]
  {
    if s[0] == x then 0
    else
      var k' := FirstIndex(s[1..], x);
      assert s[..k' + 1] == [s[0]] + s[1..][..k'];
      1 + k'
  }

  /** Appending never moves the first occurrence of a name already present. */
  lemma {:induction false} FirstIndexOfPrefix(s: seq<string>, t: seq<string>, x: string)
    requires x in s
    ensures FirstIndex(s + t, x) == FirstIndex(s, x)
  {
    var k0 := FirstIndex(s, x);
    assert (s + t)[..k0] == s[..k0];
    assert (s + t)[k0] == x;
  }

  /** A name is among the first occurrences exactly when it occurs at all. */
  lemma {:induction false} FirstOccurrencesMembers(s: seq<string>)
    ensures forall x :: x in FirstOccurrences(s) <==> x in s
  {
    if s != [] {
      var s' := s[..|s| - 1];
      FirstOccurrencesMembers(s');
      assert s == s' + [s[|s| - 1]];
      FirstOccurrencesSnoc(s', s[|s| - 1]);
    }
  }

  /** No name is listed twice. */
  lemma {:induction false} FirstOccurrencesDistinct(s: seq<string>)
    ensures Distinct(FirstOccurrences(s))
  {
    if s != [] {
      var s' := s[..|s| - 1];
      FirstOccurrencesDistinct(s');
      assert s == s' + [s[|s| - 1]];
      FirstOccurrencesSnoc(s', s[|s| - 1]);
    }
  }

  /** The names are listed in the order of their first occurrence. */
  lemma {:induction false} FirstOccurrencesOrdered(s: seq<string>)
    ensures forall x :: x in FirstOccurrences(s) ==> x in s
    ensures forall j, k :: 0 <= j < k < |FirstOccurrences(s)| ==>
              FirstIndex(s, FirstOccurrences(s)[j]) < FirstIndex(s, FirstOccurrences(s)[k])
  {
    FirstOccurrencesMembers(s);
    if s != [] {
      var s', y := s[..|s| - 1], s[|s| - 1];
      var r, fo := FirstOccurrences(s'), FirstOccurrences(s);
      assert s == s' + [y];
      FirstOccurrencesOrdered(s');
      FirstOccurrencesMembers(s');
      FirstOccurrencesSnoc(s', y);
      forall j, k | 0 <= j < k < |fo|
        ensures FirstIndex(s, fo[j]) < FirstIndex(s, fo[k])
      {
        OrderedAfterSnoc(s', y, j, k);
      }
    }
  }

  /** One pair of names of `FirstOccurrences(s + [y])`, given that the pairs
      of `FirstOccurrences(s)` are ordered. */
  lemma OrderedAfterSnoc(s: seq<string>, y: string, j: nat, k: nat)
    requires forall x :: x in FirstOccurrences(s) <==> x in s
    requires FirstOccurrences(s + [y]) ==
               if y in FirstOccurrences(s) then FirstOccurrences(s) else FirstOccurrences(s) + [y]
    requires j < k < |FirstOccurrences(s + [y])|
    requires k < |FirstOccurrences(s)| ==>
               FirstIndex(s, FirstOccurrences(s)[j]) < FirstIndex(s, FirstOccurrences(s)[k])
    ensures FirstOccurrences(s + [y])[j] in s + [y] && FirstOccurrences(s + [y])[k] in s + [y]
    ensures FirstIndex(s + [y], FirstOccurrences(s + [y])[j]) < FirstIndex(s + [y], FirstOccurrences(s + [y])[k])
  {
    var r, fo := FirstOccurrences(s), FirstOccurrences(s + [y]);
    assert fo[j] == r[j] && r[j] in s;
    FirstIndexOfPrefix(s, [y], fo[j]);
    if k < |r| {
      assert fo[k] == r[k] && r[k] in s;
      FirstIndexOfPrefix(s, [y], fo[k]);
    } else {
      assert fo[k] == y;
      FirstIndexAtEnd(s, y);
    }
  }

  lemma FirstIndexAtEnd(s: seq<string>, y: string)
    requires y !in s
    ensures FirstIndex(s + [y], y) == |s|
  {
    assert forall i :: 0 <= i < |s| ==> (s + [y])[i] != y;
  }

  lemma {:induction false} ClauseVarNamesAppend(a: seq<Clause>, b: seq<Clause>)
    ensures ClauseVarNames(a + b) == ClauseVarNames(a) + ClauseVarNames(b)
  {
    if b != [] {
      var b' := b[..|b| - 1];
      assert (a + b)[..|a + b| - 1] == a + b';
      ClauseVarNamesAppend(a, b');
    } else {
      assert a + b == a;
    }
  }

  // ---------------------------------------------------------------------
  // Stamping

  /** The term with its slot index forgotten. */
  function UnstampTerm(t: Term): Term {
    if t.Variable? then t.(idx := None) else t
  }

  function UnstampTerms(ts: seq<Term>): (r: seq<Term>)
    ensures |r| == |ts|
  {
    if ts == [] then [] else UnstampTerms(ts[..|ts| - 1]) + [UnstampTerm(ts[|ts| - 1])]
  }

  /** The clause with its rule, its position and the slot indices of its
      variables forgotten: what the visitor leaves unchanged. */
  function Unstamp(c: Clause): Clause {
    match c
    case Pattern(st, _, _) =>
      Pattern(Statement(UnstampTerm(st.s), UnstampTerm(st.p), UnstampTerm(st.o)), null, None)
    case Builtin(fn, args, _, _) =>
      Builtin(fn, UnstampTerms(args), null, None)
  }

  lemma {:induction false} UnstampTermsIndex(ts: seq<Term>, k: nat)
    requires k < |ts|
    ensures |UnstampTerms(ts)| == |ts| && UnstampTerms(ts)[k] == UnstampTerm(ts[k])
  {
    if k < |ts| - 1 {
      UnstampTermsIndex(ts[..|ts| - 1], k);
    }
  }

  /** The clauses with their stamps forgotten. */
  function UnstampAll(cs: seq<Clause>): seq<Clause> {
    if cs == [] then [] else UnstampAll(cs[..|cs| - 1]) + [Unstamp(cs[|cs| - 1])]
  }

  /** The visitor's `varMap` once `names` (in slot order) have been given
      slots: each new name gets the next slot. */
  function SlotMap(names: seq<string>): map<string, nat> {
    if names == [] then map[]
    else SlotMap(names[..|names| - 1])[names[|names| - 1] := |names| - 1]
  }

  /** With no repeats, the names are exactly the keys and each name's slot is
      its index. */
  lemma {:induction false} SlotMapIndexes(names: seq<string>)
    requires Distinct(names)
    ensures forall x :: x in SlotMap(names) <==> x in names
    ensures forall x :: x in names ==> SlotMap(names)[x] == FirstIndex(names, x)
  {
    if names != [] {
      var init, y := names[..|names| - 1], names[|names| - 1];
      assert names == init + [y];
      SlotMapIndexes(init);
      assert forall i :: 0 <= i < |init| ==> init[i] == names[i] != y;
      forall x | x in init ensures FirstIndex(names, x) == FirstIndex(init, x) {
        FirstIndexOfPrefix(init, [y], x);
      }
      FirstIndexAtEnd(init, y);
    }
  }

  /** Every Variable among `ts` is stamped with the slot of its name: the
      index at which the name first occurs in `names`. */
  predicate TermsStampedWith(ts: seq<Term>, names: seq<string>) {
    forall t :: t in ts && t.Variable? ==> t.name in names && t.idx == Some(FirstIndex(names, t.name))
  }

  predicate StampedWith(c: Clause, names: seq<string>) {
    TermsStampedWith(c.Terms(), names)
  }

  /** `names'` keeps the slots of `names` and may add more. */
  predicate Extends(names: seq<string>, names': seq<string>) {
    |names| <= |names'| && names'[..|names|] == names
  }

  lemma ExtendsTransitive(a: seq<string>, b: seq<string>, c: seq<string>)
    requires Extends(a, b) && Extends(b, c)
    ensures Extends(a, c)
  {
    assert c[..|b|][..|a|] == c[..|a|];
  }

  /** Every clause of `cs` is stamped with the slots of `names`. */
  predicate AllStampedWith(cs: seq<Clause>, names: seq<string>) {
    if cs == [] then true else AllStampedWith(cs[..|cs| - 1], names) && StampedWith(cs[|cs| - 1], names)
  }

  lemma {:induction false} AllStampedWithMember(cs: seq<Clause>, names: seq<string>, c: Clause)
    requires AllStampedWith(cs, names) && c in cs
    ensures StampedWith(c, names)
  {
    if c != cs[|cs| - 1] {
      assert c in cs[..|cs| - 1] by {
        var k :| 0 <= k < |cs| && cs[k] == c;
        assert cs[..|cs| - 1][k] == c;
      }
      AllStampedWithMember(cs[..|cs| - 1], names, c);
    }
  }

  lemma {:induction false} AllStampedWithExtends(cs: seq<Clause>, names: seq<string>, names': seq<string>)
    requires AllStampedWith(cs, names) && Extends(names, names')
    ensures AllStampedWith(cs, names')
  {
    if cs != [] {
      AllStampedWithExtends(cs[..|cs| - 1], names, names');
      StampedWithExtends(cs[|cs| - 1], names, names');
    }
  }

  /** Slots once given are never changed: a stamp stays right as more names
      get slots. */
  lemma TermsStampedWithExtends(ts: seq<Term>, names: seq<string>, names': seq<string>)
    requires TermsStampedWith(ts, names) && Extends(names, names')
    ensures TermsStampedWith(ts, names')
  {
    assert names' == names + names'[|names|..];
    forall t | t in ts && t.Variable?
      ensures t.name in names' && t.idx == Some(FirstIndex(names', t.name))
    {
      FirstIndexOfPrefix(names, names'[|names|..], t.name);
    }
  }

  lemma StampedWithExtends(c: Clause, names: seq<string>, names': seq<string>)
    requires StampedWith(c, names) && Extends(names, names')
    ensures StampedWith(c, names')
  {
    TermsStampedWithExtends(c.Terms(), names, names');
  }

  lemma PositionIsAStamp(c: Clause, pos: Option<nat>)
    ensures Unstamp(c.(pos := pos)) == Unstamp(c) && c.(pos := pos).Terms() == c.Terms()
  {
  }

  /** The names seen after visiting clause `i` extend those seen before. */
  lemma SeenAfterClause(cs: seq<Clause>, i: nat, start: seq<string>, before: seq<string>, after: seq<string>)
    requires i < |cs|
    requires before == start + ClauseVarNames(cs[..i])
    requires after == before + VarNames(cs[i].Terms())
    ensures after == start + ClauseVarNames(cs[..i + 1])
  {
    assert cs[..i + 1][..i] == cs[..i];
  }

  lemma {:induction false} VarNamesAppend(a: seq<Term>, b: seq<Term>)
    ensures VarNames(a + b) == VarNames(a) + VarNames(b)
  {
    if b != [] {
      var b' := b[..|b| - 1];
      assert (a + b)[..|a + b| - 1] == a + b';
      VarNamesAppend(a, b');
    } else {
      assert a + b == a;
    }
  }

  /** What one more occurrence of the name `n` does to the slot table. */
  lemma SlotOfOccurrence(seen: seq<string>, n: string)
    ensures n in SlotMap(FirstOccurrences(seen)) <==> n in FirstOccurrences(seen)
    ensures n in FirstOccurrences(seen) ==>
              && FirstOccurrences(seen + [n]) == FirstOccurrences(seen)
              && SlotMap(FirstOccurrences(seen))[n] == FirstIndex(FirstOccurrences(seen), n)
    ensures n !in FirstOccurrences(seen) ==>
              && FirstOccurrences(seen + [n]) == FirstOccurrences(seen) + [n]
              && SlotMap(FirstOccurrences(seen) + [n]) == SlotMap(FirstOccurrences(seen))[n := |FirstOccurrences(seen)|]
              && FirstIndex(FirstOccurrences(seen) + [n], n) == |FirstOccurrences(seen)|
  {
    var names := FirstOccurrences(seen);
    FirstOccurrencesDistinct(seen);
    SlotMapIndexes(names);
    FirstOccurrencesSnoc(seen, n);
    if n !in names {
      assert (names + [n])[..|names|] == names;
      FirstIndexAtEnd(names, n);
    }
  }

  /** The terms of `terms[..n]` as the visitor leaves them: equal to the
      originals up to their slot indices, and stamped with the slots of
      `names`. */
  ghost predicate TermsVisited(terms: seq<Term>, n: nat, stamped: seq<Term>, names: seq<string>)
    requires n <= |terms|
  {
    |stamped| == n && UnstampTerms(stamped) == UnstampTerms(terms[..n]) && TermsStampedWith(stamped, names)
  }

  /** Visiting term `i` extends the visited prefix by one term. */
  lemma TermsVisitedStep(terms: seq<Term>, i: nat, stamped: seq<Term>, before: seq<string>,
                         names: seq<string>, t: Term)
    requires i < |terms| && TermsVisited(terms, i, stamped, before)
    requires Extends(before, names) && UnstampTerm(t) == UnstampTerm(terms[i])
    requires t.Variable? ==> t.name in names && t.idx == Some(FirstIndex(names, t.name))
    ensures TermsVisited(terms, i + 1, stamped + [t], names)
  {
    var stamped' := stamped + [t];
    assert stamped'[..i] == stamped && stamped'[i] == t;
    TermsStampedWithExtends(stamped, before, names);
    assert terms[..i + 1][..i] == terms[..i] && terms[..i + 1][i] == terms[i];
    assert UnstampTerms(stamped') == UnstampTerms(terms[..i + 1]);
  }

  /** The names seen after visiting term `i` extend those seen before. */
  lemma SeenAfterTerm(ts: seq<Term>, i: nat, start: seq<string>, before: seq<string>, after: seq<string>)
    requires i < |ts|
    requires before == start + VarNames(ts[..i])
    requires after == before + VarNames([ts[i]])
    ensures after == start + VarNames(ts[..i + 1])
  {
    assert ts[..i + 1] == ts[..i] + [ts[i]];
    VarNamesAppend(ts[..i], [ts[i]]);
  }

  /** The clauses of `clauses[..n]` as the visitor leaves them: equal to the
      originals up to their stamps, owned by `rule0`, positioned by index
      when `positioned`, and stamped with the slots of `names`. */
  ghost predicate ClausesVisited(rule0: Rule?, clauses: seq<Clause>, n: nat, stamped: seq<Clause>,
                                 positioned: bool, names: seq<string>)
    requires n <= |clauses|
  {
    && |stamped| == n && UnstampAll(stamped) == UnstampAll(clauses[..n])
    && (forall k :: 0 <= k < n ==> stamped[k].rule == rule0)
    && (forall k :: 0 <= k < n ==> stamped[k].pos == if positioned then Some(k) else clauses[k].pos)
    && AllStampedWith(stamped, names)
  }

  /** Visiting clause `i` extends the visited prefix by one clause. */
  lemma ClausesVisitedStep(rule0: Rule?, clauses: seq<Clause>, i: nat, stamped: seq<Clause>,
                           positioned: bool, before: seq<string>, names: seq<string>, clause: Clause)
    requires i < |clauses| && ClausesVisited(rule0, clauses, i, stamped, positioned, before)
    requires Extends(before, names) && StampedWith(clause, names)
    requires Unstamp(clause) == Unstamp(clauses[i]) && clause.rule == rule0
    requires clause.pos == if positioned then Some(i) else clauses[i].pos
    ensures ClausesVisited(rule0, clauses, i + 1, stamped + [clause], positioned, names)
  {
    var stamped' := stamped + [clause];
    assert stamped'[..i] == stamped && stamped'[i] == clause;
    AllStampedWithExtends(stamped, before, names);
    assert AllStampedWith(stamped', names);
    assert clauses[..i + 1][..i] == clauses[..i] && clauses[..i + 1][i] == clauses[i];
    assert UnstampAll(stamped') == UnstampAll(clauses[..i + 1]);
    forall k | 0 <= k < i + 1
      ensures stamped'[k].rule == rule0
      ensures stamped'[k].pos == if positioned then Some(k) else clauses[k].pos
    {
      if k < i { assert stamped'[k] == stamped[k]; }
    }
  }

  class RuleVisitor {
    var rule: Rule?
    var numVars: nat
    var varMap: map<string, nat>
    /** The variable names visited so far, repeats included. */
    ghost var seen: seq<string>
    /** The names that have a slot, in slot order. */
    ghost var names: seq<string>

    ghost predicate Valid()
      reads this
    {
      && names == FirstOccurrences(seen)
      && numVars == |names|
      && varMap == SlotMap(names)
    }

    constructor ()
      ensures Valid() && rule == null && seen == [] && names == [] && numVars == 0
    {
      rule := null;
      numVars := 0;
      varMap := map[];
      seen := [];
      names := [];
    }

    /** `visitTerm`: a Variable whose name has no slot yet gets slot
        `numVars`, which then grows; every Variable is stamped with the slot
        of its name. Constants are left alone. */
    method VisitTerm(t: Term) returns (t': Term)
      requires Valid()
      modifies this
      ensures Valid() && rule == old(rule)
      ensures seen == old(seen) + VarNames([t]) && Extends(old(names), names)
      ensures UnstampTerm(t') == UnstampTerm(t)
      ensures t'.Variable? ==> t'.name in names && t'.idx == Some(FirstIndex(names, t'.name))
      ensures t.Variable? && t.name !in old(names) ==> FirstIndex(names, t.name) == old(numVars)
    {
      assert [t][..0] == [];
      if t.IsVariable() {
        SlotOfOccurrence(seen, t.name);
        if t.name !in varMap {
          varMap := varMap[t.name := numVars];
          numVars := numVars + 1;
          names := names + [t.name];
        }
        seen := seen + [t.name];
        t' := t.(idx := Some(varMap[t.name]));
      } else {
        t' := t;
      }
    }

    /** `visitClause`: stamps the owning rule, then visits the clause's terms
        in iteration order. */
    method VisitClause(c: Clause) returns (c': Clause)
      requires Valid()
      modifies this
      ensures Valid() && rule == old(rule)
      ensures seen == old(seen) + VarNames(c.Terms()) && Extends(old(names), names)
      ensures Unstamp(c') == Unstamp(c) && c'.rule == rule && c'.pos == c.pos
      ensures StampedWith(c', names)
    {
      var terms := VisitTerms(c.Terms());
      if c.Pattern? {
        c' := c.(rule := rule, stmt := Statement(terms[0], terms[1], terms[2]));
      } else {
        c' := c.(rule := rule, args := terms);
      }
      assert c'.Terms() == terms;
      if c.Pattern? {
        UnstampTermsIndex(terms, 0);
        UnstampTermsIndex(terms, 1);
        UnstampTermsIndex(terms, 2);
        UnstampTermsIndex(c.Terms(), 0);
        UnstampTermsIndex(c.Terms(), 1);
        UnstampTermsIndex(c.Terms(), 2);
      } else {
        assert c'.args == terms;
      }
    }

    /** The loop of `visitClause` over the clause's terms. */
    method VisitTerms(terms: seq<Term>) returns (stamped: seq<Term>)
      requires Valid()
      modifies this
      ensures Valid() && rule == old(rule)
      ensures seen == old(seen) + VarNames(terms) && Extends(old(names), names)
      ensures UnstampTerms(stamped) == UnstampTerms(terms)
      ensures TermsStampedWith(stamped, names)
    {
      stamped := [];
      for i := 0 to |terms|
        invariant Valid() && rule == old(rule)
        invariant seen == old(seen) + VarNames(terms[..i]) && Extends(old(names), names)
        invariant TermsVisited(terms, i, stamped, names)
      {
        ghost var before, seenBefore := names, seen;
        var t := VisitTerm(terms[i]);
        SeenAfterTerm(terms, i, old(seen), seenBefore, seen);
        ExtendsTransitive(old(names), before, names);
        TermsVisitedStep(terms, i, stamped, before, names, t);
        stamped := stamped + [t];
      }
      assert terms[..|terms|] == terms;
    }

    /** The state after the callback of `body.forEach` (when `positioned`)
        or `head.forEach` has run on `clauses[..n]`, starting from a visitor
        that had seen `seen0` and given slots to `names0`. */
    ghost predicate Visited(seen0: seq<string>, names0: seq<string>, rule0: Rule?,
                            clauses: seq<Clause>, n: nat, stamped: seq<Clause>, positioned: bool)
      reads this
      requires n <= |clauses|
    {
      && Valid() && rule == rule0
      && seen == seen0 + ClauseVarNames(clauses[..n]) && Extends(names0, names)
      && ClausesVisited(rule0, clauses, n, stamped, positioned, names)
    }

    /** One call of the `forEach` callback: clause `i` is (positioned and)
        visited, and appended to the clauses visited so far. */
    method VisitEntry(ghost seen0: seq<string>, ghost names0: seq<string>, ghost rule0: Rule?,
                      clauses: seq<Clause>, i: nat, stamped: seq<Clause>, positioned: bool)
      returns (stamped': seq<Clause>)
      requires i < |clauses| && Visited(seen0, names0, rule0, clauses, i, stamped, positioned)
      modifies this
      ensures Visited(seen0, names0, rule0, clauses, i + 1, stamped', positioned)
    {
      var clause := clauses[i];
      if positioned {
        clause := clause.(pos := Some(i));
        PositionIsAStamp(clauses[i], Some(i));
      }
      ghost var before, seenBefore := names, seen;
      clause := VisitClause(clause);
      SeenAfterClause(clauses, i, seen0, seenBefore, seen);
      ExtendsTransitive(names0, before, names);
      ClausesVisitedStep(rule0, clauses, i, stamped, positioned, before, names, clause);
      stamped' := stamped + [clause];
    }

    /** `visitBody`: each clause gets its index as `pos` and is visited. */
    method VisitBody(clauses: seq<Clause>) returns (stamped: seq<Clause>)
      requires Valid()
      modifies this
      ensures Visited(old(seen), old(names), old(rule), clauses, |clauses|, stamped, true)
    {
      stamped := [];
      for i := 0 to |clauses|
        invariant Visited(old(seen), old(names), old(rule), clauses, i, stamped, true)
      {
        stamped := VisitEntry(old(seen), old(names), old(rule), clauses, i, stamped, true);
      }
    }

    /** `visitHead`: each clause is visited; positions are left as they are. */
    method VisitHead(clauses: seq<Clause>) returns (stamped: seq<Clause>)
      requires Valid()
      modifies this
      ensures Visited(old(seen), old(names), old(rule), clauses, |clauses|, stamped, false)
    {
      stamped := [];
      for i := 0 to |clauses|
        invariant Visited(old(seen), old(names), old(rule), clauses, i, stamped, false)
      {
        stamped := VisitEntry(old(seen), old(names), old(rule), clauses, i, stamped, false);
      }
    }
  }

  /** A rule: its body and head clauses, stamped by its visitor at
      construction; `numVars()` is the visitor's counter. */
  class Rule {
    var body: seq<Clause>
    var head: seq<Clause>
    const visitor: RuleVisitor

    function NumVars(): nat
      reads visitor
    {
      visitor.numVars
    }

    ghost predicate Valid()
      reads this, visitor
    {
      && visitor.Valid()
      && visitor.rule == this
      && (forall i :: 0 <= i < |body| ==> body[i].rule == this && body[i].pos == Some(i))
      && (forall j :: 0 <= j < |head| ==> head[j].rule == this)
      && AllStampedWith(body, visitor.names)
      && AllStampedWith(head, visitor.names)
    }

    /** `new Rule(body, head)`: the visitor walks the body, then the head. */
    constructor (body: seq<Clause>, head: seq<Clause>)
      ensures Valid() && fresh(visitor)
      ensures UnstampAll(this.body) == UnstampAll(body) && UnstampAll(this.head) == UnstampAll(head)
      ensures |this.head| == |head| && forall j :: 0 <= j < |head| ==> this.head[j].pos == head[j].pos
      ensures visitor.names == FirstOccurrences(ClauseVarNames(body + head))
      ensures NumVars() == |FirstOccurrences(ClauseVarNames(body + head))|
    {
      visitor := new RuleVisitor();
      this.body := body;
      this.head := head;
      new;
      visitor.rule := this;
      this.body := visitor.VisitBody(body);
      assert body[..|body|] == body;
      ghost var names1, seen1 := visitor.names, visitor.seen;
      assert seen1 == ClauseVarNames(body);
      this.head := visitor.VisitHead(head);
      assert head[..|head|] == head;
      assert visitor.seen == seen1 + ClauseVarNames(head);
      ClauseVarNamesAppend(body, head);
      assert visitor.seen == ClauseVarNames(body + head);
      AllStampedWithExtends(this.body, names1, visitor.names);
    }
  }

  /** Within one rule, two variable occurrences share a slot exactly when they
      share a name, and every slot is below `numVars()`. */
  lemma {:induction false} SlotsIdentifyNames(r: Rule, c1: Clause, c2: Clause, t1: Term, t2: Term)
    requires r.Valid()
    requires c1 in r.body + r.head && c2 in r.body + r.head
    requires t1 in c1.Terms() && t2 in c2.Terms() && t1.Variable? && t2.Variable?
    ensures t1.idx.Some? && t1.idx.value < r.NumVars()
    ensures t1.idx == t2.idx <==> t1.name == t2.name
  {
    var names := r.visitor.names;
    if c1 in r.body { AllStampedWithMember(r.body, names, c1); } else { AllStampedWithMember(r.head, names, c1); }
    if c2 in r.body { AllStampedWithMember(r.body, names, c2); } else { AllStampedWithMember(r.head, names, c2); }
    var i, j := FirstIndex(names, t1.name), FirstIndex(names, t2.name);
    assert names[i] == t1.name && names[j] == t2.name;
  }
}
