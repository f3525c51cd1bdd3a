/** Variable bindings (reasoner.js `Binding`, `Stack`, `BindingStack`). A
    binding is a JavaScript array indexed by the slot (`idx`) of a Variable.
    Such an array grows when written past its end and reads `undefined`
    there; a Variable that no rule has stamped has `idx === undefined`, which
    JavaScript turns into the property key "undefined" of the array. `Env`
    models both parts: the indexed slots and that one extra property. */
module Bindings {
  import opened Options
  import opened Statements
  import opened Rules

  datatype Env = Env(slots: seq<Option<Term>>, undef: Option<Term>)

  /** `array[vari.idx]`: the term bound to a Variable, if any. */
  function Lookup(env: Env, v: Term): Option<Term>
    requires v.Variable?
  {
    match v.idx
    case None => env.undef
    case Some(i) => if i < |env.slots| then env.slots[i] else None
  }

  /** The array of `new Binding(rule)`: `n` slots, none bound. */
  function Unbound(n: nat): Env {
    Env(seq(n, _ => None), None)
  }

  /** `array[vari.idx] = cnst`; a write past the end fills the gap with
      holes. */
  function Assigned(env: Env, v: Term, value: Term): (r: Env)
    requires v.Variable?
    ensures Lookup(r, v) == Some(value)
    ensures forall w: Term :: w.Variable? && w.idx != v.idx ==> Lookup(r, w) == Lookup(env, w)
  {
    match v.idx
    case None => env.(undef := Some(value))
    case Some(i) =>
      if i < |env.slots| then env.(slots := env.slots[i := Some(value)])
      else env.(slots := env.slots + seq(i - |env.slots|, _ => None) + [Some(value)])
  }

  /** One term of `ground`: a bound Variable is replaced by its binding;
      Constants and unbound Variables stay. */
  function GroundTerm(env: Env, t: Term): Term {
    if t.Variable? && Lookup(env, t).Some? then Lookup(env, t).value else t
  }

  /** `ground(clause)`: a statement without Variables is returned as it is,
      any other is rebuilt position by position. */
  function GroundSpec(env: Env, st: Statement): Statement {
    if !st.HasVariables() then st
    else Statement(GroundTerm(env, st.s), GroundTerm(env, st.p), GroundTerm(env, st.o))
  }

  /** The loop step of `bind` at position `pos`. */
  function BindAt(env: Env, clause: Statement, st: Statement, pos: int): Env
    requires ValidPos(pos)
  {
    var t := clause.Get(pos);
    if t.Variable? then Assigned(env, t, st.Get(pos)) else env
  }

  /** `bind(clause, st)` after the positions before `n` have been handled. */
  function BindUpTo(env: Env, clause: Statement, st: Statement, n: int): Env
    requires S <= n <= O + 1
    decreases n
  {
    if n == S then env else BindAt(BindUpTo(env, clause, st, n - 1), clause, st, n - 1)
  }

  /** `bind(clause, st)`: positions S, P, O in turn. */
  function BindSpec(env: Env, clause: Statement, st: Statement): Env {
    BindUpTo(env, clause, st, O + 1)
  }

  class Binding {
    const rule: Rule
    /** The indexed part of `array`. */
    var slots: seq<Option<Term>>
    /** The `array["undefined"]` property. */
    var undef: Option<Term>

    /** The contents of `array`. */
    function State(): Env
      reads this
    {
      Env(slots, undef)
    }

    /** `new Binding(rule)`: `numVars()` slots, none bound. */
    constructor (rule: Rule)
      ensures this.rule == rule
      ensures |slots| == rule.NumVars()
      ensures forall i :: 0 <= i < |slots| ==> slots[i] == None
      ensures undef == None
    {
      this.rule := rule;
      slots := seq(rule.NumVars(), _ => None);
      undef := None;
    }

    function IsBound(v: Term): bool
      reads this
      requires v.Variable?
    {
      Lookup(State(), v).Some?
    }

    function GetBinding(v: Term): Term
      reads this
      requires v.Variable? && IsBound(v)
    {
      Lookup(State(), v).value
    }

    method BindVar(v: Term, value: Term)
      requires v.Variable?
      modifies this
      ensures State() == Assigned(old(State()), v, value)
    {
      var env := Assigned(State(), v, value);
      slots, undef := env.slots, env.undef;
    }

    method Ground(clause: Statement) returns (grounded: Statement)
      ensures grounded == GroundSpec(State(), clause)
    {
      var hasVariables := IncludesVariables(clause);
      HasVariablesIff(clause);
      if !hasVariables {
        return clause;
      }
      // `new Statement()`: every position is assigned below
      grounded := clause;
      for i := S to O + 1
        invariant forall j :: S <= j < i ==> grounded.Get(j) == GroundTerm(State(), clause.Get(j))
      {
        var term := clause.Get(i);
        if term.IsVariable() && IsBound(term) {
          grounded := grounded.Set(i, GetBinding(term));
        } else {
          grounded := grounded.Set(i, term);
        }
      }
      assert grounded.Get(S) == GroundTerm(State(), clause.s);
      assert grounded.Get(P) == GroundTerm(State(), clause.p);
      assert grounded.Get(O) == GroundTerm(State(), clause.o);
    }

    method Bind(clause: Statement, st: Statement)
      modifies this
      ensures State() == BindSpec(old(State()), clause, st)
    {
      for i := S to O + 1
        invariant State() == BindUpTo(old(State()), clause, st, i)
      {
        var term := clause.Get(i);
        if term.IsVariable() {
          BindVar(term, st.Get(i));
        }
      }
    }

    /** `copy()`: a new binding of the same rule over a copy of the array.
        `slice()` copies the indexed elements only. */
    method Copy() returns (copy: Binding)
      ensures fresh(copy) && copy.rule == rule
      ensures copy.State() == Env(slots, None)
    {
      copy := new Binding(rule);
      copy.slots := slots;
    }
  }

  /** `BindingStack` (with the `push`/`peek`/`pop` of `Stack`). */
  class BindingStack {
    var stack: seq<Binding>

    function Current(): Binding
      reads this
      requires stack != []
    {
      stack[|stack| - 1]
    }

    /** `new BindingStack(rule)`: one fresh binding of `rule`. */
    constructor (rule: Rule)
      ensures |stack| == 1 && fresh(Current()) && Current().rule == rule
      ensures Current().State() == Unbound(rule.NumVars())
    {
      var b := new Binding(rule);
      stack := [b];
    }

    /** `windup()`: pushes a copy of the current binding. */
    method Windup()
      requires stack != []
      modifies this
      ensures |stack| == |old(stack)| + 1 && stack[..|old(stack)|] == old(stack)
      ensures fresh(Current()) && Current().rule == old(Current()).rule
      ensures Current().State() == old(Current().State()).(undef := None)
    {
      var copy := Current().Copy();
      stack := stack + [copy];
    }

    /** `unwind()`: pops the current binding. */
    method Unwind()
      requires stack != []
      modifies this
      ensures stack == old(stack)[..|old(stack)| - 1]
    {
      stack := stack[..|stack| - 1];
    }
  }

  // ---------------------------------------------------------------------
  // Properties of bind and ground

  /** Every two variable positions of `clause` that share a slot meet the
      same term of `st`. */
  ghost predicate RepeatsAgree(clause: Statement, st: Statement) {
    forall i, j ::
      (ValidPos(i) && ValidPos(j) && clause.Get(i).Variable? && clause.Get(j).Variable? && clause.Get(i).idx == clause.Get(j).idx)
      ==> st.Get(i) == st.Get(j)
  }

  /** `bind` followed by `ground` gives back the matched statement, provided
      the clause's constants are the statement's terms and every repeated
      variable meets the same term at each of its positions. */
  lemma {:induction false} BindThenGround(env: Env, clause: Statement, st: Statement)
    requires forall i :: ValidPos(i) && clause.Get(i).Constant? ==> clause.Get(i) == st.Get(i)
    requires RepeatsAgree(clause, st)
    ensures GroundSpec(BindSpec(env, clause, st), clause) == st
  {
    var e := BindSpec(env, clause, st);
    forall i | ValidPos(i)
      ensures GroundTerm(e, clause.Get(i)) == st.Get(i)
    {
      if clause.Get(i).Variable? {
        BoundAtLastWrite(env, clause, st, i);
      }
    }
    assert ValidPos(S) && ValidPos(P) && ValidPos(O);
    if !clause.HasVariables() {
      HasVariablesIff(clause);
      PositionsDetermineStatement(clause, st);
    }
  }

  /** After `bind`, the slot of the variable at position `i` holds the term
      of `st` at the last position whose variable has that slot. */
  lemma {:induction false} BoundAtLastWrite(env: Env, clause: Statement, st: Statement, i: int)
    requires ValidPos(i) && clause.Get(i).Variable?
    requires RepeatsAgree(clause, st)
    ensures Lookup(BindSpec(env, clause, st), clause.Get(i)) == Some(st.Get(i))
  {
    var v := clause.Get(i);
    var e1 := BindUpTo(env, clause, st, P);
    var e2 := BindUpTo(env, clause, st, O);
    var e3 := BindUpTo(env, clause, st, O + 1);
    if clause.o.Variable? && clause.o.idx == v.idx {
      assert clause.Get(O) == clause.o;
    } else if clause.p.Variable? && clause.p.idx == v.idx {
      assert clause.Get(P) == clause.p;
      assert Lookup(e3, v) == Lookup(e2, v);
    } else {
      assert i == S;
      assert Lookup(e3, v) == Lookup(e2, v) == Lookup(e1, v);
    }
  }

  /** A slot that no variable of the clause uses is left as it was. */
  lemma {:induction false} BindLeavesOtherSlots(env: Env, clause: Statement, st: Statement, w: Term)
    requires w.Variable?
    requires forall i :: ValidPos(i) && clause.Get(i).Variable? ==> clause.Get(i).idx != w.idx
    ensures Lookup(BindSpec(env, clause, st), w) == Lookup(env, w)
  {
    assert ValidPos(S) && ValidPos(P) && ValidPos(O);
    var e1 := BindUpTo(env, clause, st, P);
    var e2 := BindUpTo(env, clause, st, O);
    assert Lookup(e1, w) == Lookup(env, w);
    assert Lookup(e2, w) == Lookup(e1, w);
  }

  /** `bind` does not check repeated variables: `(?x p ?x)` wildcard-matches
      `(a p b)`, and binding it leaves `?x` bound to `b`, so grounding the
      clause again gives `(b p b)` rather than the matched statement. */
  lemma RepeatedVariableLastWins()
    ensures var x := Variable("x", Some(0));
      var clause := Statement(x, Constant("p"), x);
      var st := Statement(Constant("a"), Constant("p"), Constant("b"));
      var e := BindSpec(Env([None], None), clause, st);
      clause.Equals(st, false) &&
      Lookup(e, x) == Some(Constant("b")) &&
      GroundSpec(e, clause) == Statement(Constant("b"), Constant("p"), Constant("b")) &&
      GroundSpec(e, clause) != st
  {
    var x := Variable("x", Some(0));
    var clause := Statement(x, Constant("p"), x);
    var st := Statement(Constant("a"), Constant("p"), Constant("b"));
    assert clause.HasVariables() by {
      assert ValidPos(S) && clause.Get(S).Variable?;
    }
  }

  /** Terms bound to Constants only. */
  predicate BoundToConstants(env: Env) {
    && (forall i :: 0 <= i < |env.slots| && env.slots[i].Some? ==> env.slots[i].value.Constant?)
    && (env.undef.Some? ==> env.undef.value.Constant?)
  }

  /** Grounding twice under the same constant bindings is grounding once. */
  lemma {:induction false} GroundIdempotent(env: Env, st: Statement)
    requires BoundToConstants(env)
    ensures GroundSpec(env, GroundSpec(env, st)) == GroundSpec(env, st)
  {
    var g := GroundSpec(env, st);
    if st.HasVariables() && g.HasVariables() {
      assert GroundTerm(env, g.s) == g.s;
      assert GroundTerm(env, g.p) == g.p;
      assert GroundTerm(env, g.o) == g.o;
    }
  }

  /** When every variable of a statement is bound to a Constant, its
      grounding has no variables left. */
  lemma {:induction false} FullyBoundIsGround(env: Env, st: Statement)
    requires BoundToConstants(env)
    requires forall i :: ValidPos(i) && st.Get(i).Variable? ==> Lookup(env, st.Get(i)).Some?
    ensures !GroundSpec(env, st).HasVariables()
  {
    assert ValidPos(S) && ValidPos(P) && ValidPos(O);
    var g := GroundSpec(env, st);
    HasVariablesIff(g);
    HasVariablesIff(st);
  }

  /** A copy made by `windup` sees the same indexed slots as its parent. */
  lemma CopyKeepsSlots(env: Env, v: Term)
    requires v.Variable? && v.idx.Some?
    ensures Lookup(env.(undef := None), v) == Lookup(env, v)
  {
  }
}
