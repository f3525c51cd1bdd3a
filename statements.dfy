/** Terms and statements (statement.js): constants and variables with their
    exact and wildcard equality, and subject-predicate-object triples with
    position-indexed access. */
module Statements {
  import opened Options

  /** TermPos: the three positions of a statement. */
  const S: int := 1
  const P: int := 2
  const O: int := 3

  predicate ValidPos(pos: int) {
    S <= pos <= O
  }

  /** A Constant holds its textual value (delimiters included, e.g. `<alice>`
      or `"17"`); a Variable holds its name and, once a rule has visited it,
      the slot index that rule assigned (`None` before that). */
  datatype Term =
    | Constant(value: string)
    | Variable(name: string, idx: Option<nat>)
  {
    predicate IsConstant() {
      Constant?
    }

    predicate IsVariable() {
      Variable?
    }

    /** `equals(other, exact)`: in exact mode a Constant only equals a
        Constant with the same value and a Variable only a Variable with the
        same name; in wildcard mode a Variable on either side matches. */
    predicate Equals(other: Term, exact: bool) {
      match this
      case Constant(v) =>
        if other.Variable? then !exact else v == other.value
      case Variable(n, _) =>
        if exact then other.Variable? && n == other.name else true
    }

    /** `unpacked()`: a Constant that starts with `"` or `<` loses its first
        and last character. JavaScript's `substring(1, length - 1)` swaps its
        arguments when they are out of order, so a one-character value comes
        back whole. A Variable unpacks to its name. */
    function Unpacked(): (r: string)
      ensures |r| <= |UnpackSource()|
    {
      match this
      case Constant(v) =>
        if |v| >= 1 && (v[0] == '"' || v[0] == '<') then
          if |v| >= 2 then v[1..|v| - 1] else v
        else v
      case Variable(n, _) => n
    }

    /** The text `unpacked` works on: the value of a Constant, the name of a
        Variable. */
    function UnpackSource(): string {
      if Constant? then value else name
    }
  }

  /** A subject-predicate-object triple. */
  datatype Statement = Statement(s: Term, p: Term, o: Term)
  {
    /** `get(pos)`; an unknown position is a caller error in the source (it
        logs and returns null), so it is excluded here. */
    function Get(pos: int): Term
      requires ValidPos(pos)
    {
      if pos == S then s else if pos == P then p else o
    }

    /** `set(pos, term)`: replaces the term at one position. */
    function Set(pos: int, t: Term): (r: Statement)
      requires ValidPos(pos)
      ensures r.Get(pos) == t
      ensures forall q :: ValidPos(q) && q != pos ==> r.Get(q) == Get(q)
    {
      if pos == S then this.(s := t)
      else if pos == P then this.(p := t)
      else this.(o := t)
    }

    /** The terms in iteration order. */
    function Terms(): (ts: seq<Term>)
      ensures |ts| == 3
      ensures forall i :: 0 <= i < 3 ==> ts[i] == Get(i + S)
    {
      [s, p, o]
    }

    /** Whether some position holds a Variable. */
    predicate HasVariables()
    {
      exists i :: S <= i <= O && Get(i).Variable?
    }

    /** `equals(stmt2, exact)`: position-wise term equality. */
    predicate Equals(other: Statement, exact: bool) {
      s.Equals(other.s, exact) && p.Equals(other.p, exact) && o.Equals(other.o, exact)
    }
  }

  /** The object returned by `[Symbol.iterator]()`: a cursor `idx` that starts
      at S and yields the term at `idx` until it passes O. */
  class StatementIterator {
    const stmt: Statement
    var idx: int

    ghost predicate Valid()
      reads this
    {
      S <= idx <= O + 1
    }

    /** The terms still to be yielded. */
    ghost function Remaining(): seq<Term>
      reads this
      requires Valid()
    {
      stmt.Terms()[idx - S..]
    }

    constructor (stmt: Statement)
      ensures Valid() && this.stmt == stmt && Remaining() == stmt.Terms()
    {
      this.stmt := stmt;
      idx := S;
    }

    method Next() returns (r: Option<Term>)
      requires Valid()
      modifies this
      ensures Valid()
      ensures old(Remaining()) == [] ==> r == None && Remaining() == []
      ensures old(Remaining()) != [] ==> r == Some(old(Remaining())[0]) && Remaining() == old(Remaining())[1..]
      ensures old(idx) <= O ==> r == Some(stmt.Get(old(idx))) && idx == old(idx) + 1
      ensures old(idx) > O ==> r == None
    {
      if idx > O {
        return None;
      }
      var value := stmt.Get(idx);
      idx := idx + 1;
      r := Some(value);
    }
  }

  /** `includesVariables()`: walks the statement's iterator and stops at the
      first Variable. */
  method IncludesVariables(st: Statement) returns (r: bool)
    ensures r <==> st.s.Variable? || st.p.Variable? || st.o.Variable?
  {
    var it := new StatementIterator(st);
    while true
      invariant it.Valid() && it.stmt == st && fresh(it)
      invariant S < it.idx ==> st.s.Constant?
      invariant P < it.idx ==> st.p.Constant?
      invariant O < it.idx ==> st.o.Constant?
      decreases O + 1 - it.idx
    {
      var t := it.Next();
      if t.None? {
        break;
      }
      if t.value.IsVariable() {
        return true;
      }
    }
    return false;
  }

  // ---------------------------------------------------------------------
  // Properties of positions

  lemma {:induction false} HasVariablesIff(st: Statement)
    ensures st.HasVariables() <==> st.s.Variable? || st.p.Variable? || st.o.Variable?
  {
    if st.s.Variable? {
      assert ValidPos(S) && st.Get(S).Variable?;
    } else if st.p.Variable? {
      assert ValidPos(P) && st.Get(P).Variable?;
    } else if st.o.Variable? {
      assert ValidPos(O) && st.Get(O).Variable?;
    }
  }

  /** Writing back the term a position holds changes nothing. */
  lemma SetGet(st: Statement, pos: int)
    requires ValidPos(pos)
    ensures st.Set(pos, st.Get(pos)) == st
  {
  }

  /** Two statements with the same term at every position are equal. */
  lemma {:induction false} PositionsDetermineStatement(a: Statement, b: Statement)
    requires forall i :: ValidPos(i) ==> a.Get(i) == b.Get(i)
    ensures a == b
  {
    assert a.Get(S) == b.Get(S) && a.Get(P) == b.Get(P) && a.Get(O) == b.Get(O);
  }

  /** Statement equality is the conjunction of the term equalities at the
      three positions, with the same mode. */
  lemma {:induction false} EqualsPositionwise(a: Statement, b: Statement, exact: bool)
    ensures a.Equals(b, exact) <==> forall i :: ValidPos(i) ==> a.Get(i).Equals(b.Get(i), exact)
  {
    if a.Equals(b, exact) {
      forall i | ValidPos(i) ensures a.Get(i).Equals(b.Get(i), exact) {
        assert i == S || i == P || i == O;
      }
    } else {
      assert ValidPos(S) && ValidPos(P) && ValidPos(O);
    }
  }

  // ---------------------------------------------------------------------
  // Properties of term equality

  /** Exact mode never relates a Constant and a Variable, either way round. */
  lemma ExactSeparatesKinds(c: Term, v: Term)
    requires c.Constant? && v.Variable?
    ensures !c.Equals(v, true) && !v.Equals(c, true)
  {
  }

  /** In exact mode Constants compare by value and Variables by name. */
  lemma ExactComparesValuesAndNames(a: Term, b: Term)
    ensures a.Constant? && b.Constant? ==> (a.Equals(b, true) <==> a.value == b.value)
    ensures a.Variable? && b.Variable? ==> (a.Equals(b, true) <==> a.name == b.name)
  {
  }

  /** In wildcard mode a Variable on either side matches, and two Constants
      still compare by value. */
  lemma WildcardMatchesVariables(a: Term, b: Term)
    ensures a.Variable? || b.Variable? ==> a.Equals(b, false)
    ensures a.Constant? && b.Constant? ==> (a.Equals(b, false) <==> a.value == b.value)
  {
  }

  lemma TermEqualsSymmetric(a: Term, b: Term, exact: bool)
    ensures a.Equals(b, exact) <==> b.Equals(a, exact)
  {
  }

  lemma ExactImpliesWildcard(a: Term, b: Term)
    ensures a.Equals(b, true) ==> a.Equals(b, false)
  {
  }

  lemma TermEqualsReflexive(a: Term, exact: bool)
    ensures a.Equals(a, exact)
  {
  }

  lemma {:induction false} StatementEqualsSymmetric(a: Statement, b: Statement, exact: bool)
    ensures a.Equals(b, exact) <==> b.Equals(a, exact)
  {
    TermEqualsSymmetric(a.s, b.s, exact);
    TermEqualsSymmetric(a.p, b.p, exact);
    TermEqualsSymmetric(a.o, b.o, exact);
  }

  lemma {:induction false} StatementExactImpliesWildcard(a: Statement, b: Statement)
    ensures a.Equals(b, true) ==> a.Equals(b, false)
  {
    ExactImpliesWildcard(a.s, b.s);
    ExactImpliesWildcard(a.p, b.p);
    ExactImpliesWildcard(a.o, b.o);
  }

  lemma {:induction false} StatementEqualsReflexive(a: Statement, exact: bool)
    ensures a.Equals(a, exact)
  {
    TermEqualsReflexive(a.s, exact);
    TermEqualsReflexive(a.p, exact);
    TermEqualsReflexive(a.o, exact);
  }

  // ---------------------------------------------------------------------
  // Properties of unpacked()

  /** A value wrapped in `<...>` or `"..."` unpacks to what is inside. */
  lemma UnpackWrapped(open: char, inner: string, close: char)
    requires open == '"' || open == '<'
    ensures Constant([open] + inner + [close]).Unpacked() == inner
  {
    var v := [open] + inner + [close];
    assert v[1..|v| - 1] == inner;
  }

  /** A value that does not start with a delimiter is returned unchanged. */
  lemma UnpackPlain(v: string)
    requires |v| == 0 || (v[0] != '"' && v[0] != '<')
    ensures Constant(v).Unpacked() == v
  {
  }

  /** The one-character values `"` and `<` come back whole. */
  lemma UnpackSingleDelimiter(c: char)
    requires c == '"' || c == '<'
    ensures Constant([c]).Unpacked() == [c]
  {
  }

  lemma UnpackVariable(n: string, idx: Option<nat>)
    ensures Variable(n, idx).Unpacked() == n
  {
  }
}
