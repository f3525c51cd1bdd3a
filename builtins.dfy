/** The comparison builtins (builtins.js): LT, LE, EQ, GE and GT, each a
    function of the grounded argument list that destructures its first two
    elements as `[a, b]`. Values are modelled as integers, an abstract total
    order; an argument past the end of the list is JavaScript's `undefined`. */
module Builtins {
  import opened Options

  datatype Comparison = LT | LE | EQ | GE | GT

  /** Element `i` of the destructuring pattern `[a, b]`: `undefined` (None)
      when the list is too short. */
  function Arg(grounded: seq<int>, i: nat): Option<int> {
    if i < |grounded| then Some(grounded[i]) else None
  }

  /** The builtin's lambda applied to the grounded arguments. A relational
      operator with an undefined operand is false; `undefined == undefined`
      is true and `undefined == n` is false, which is Option equality. */
  function Apply(fn: Comparison, grounded: seq<int>): bool {
    var a := Arg(grounded, 0);
    var b := Arg(grounded, 1);
    match fn
    case EQ => a == b
    case LT => a.Some? && b.Some? && a.value < b.value
    case LE => a.Some? && b.Some? && a.value <= b.value
    case GE => a.Some? && b.Some? && a.value >= b.value
    case GT => a.Some? && b.Some? && a.value > b.value
  }

  /** Each builtin is its comparison of the first two arguments; whatever
      follows them is never looked at. */
  lemma ComparesFirstTwo(a: int, b: int, rest: seq<int>)
    ensures Apply(LT, [a, b] + rest) <==> a < b
    ensures Apply(LE, [a, b] + rest) <==> a <= b
    ensures Apply(EQ, [a, b] + rest) <==> a == b
    ensures Apply(GE, [a, b] + rest) <==> a >= b
    ensures Apply(GT, [a, b] + rest) <==> a > b
  {
  }

  lemma {:induction false} IgnoresExtraArguments(fn: Comparison, grounded: seq<int>, extra: seq<int>)
    requires |grounded| >= 2
    ensures Apply(fn, grounded + extra) == Apply(fn, grounded)
  {
    assert Arg(grounded + extra, 0) == Arg(grounded, 0);
    assert Arg(grounded + extra, 1) == Arg(grounded, 1);
  }

  /** With fewer than two arguments the relational builtins fail, and EQ
      succeeds only when both operands are missing. */
  lemma MissingArguments(fn: Comparison, grounded: seq<int>)
    requires |grounded| < 2
    ensures Apply(fn, grounded) <==> fn == EQ && grounded == []
  {
  }

  /** Over the integers: LE is LT or EQ, GT and GE are LT and LE with the
      arguments swapped, and exactly one of LT, EQ, GT holds. */
  lemma OrderLaws(a: int, b: int)
    ensures Apply(LE, [a, b]) <==> Apply(LT, [a, b]) || Apply(EQ, [a, b])
    ensures Apply(GT, [a, b]) <==> Apply(LT, [b, a])
    ensures Apply(GE, [a, b]) <==> Apply(LE, [b, a])
    ensures Apply(LT, [a, b]) || Apply(EQ, [a, b]) || Apply(GT, [a, b])
    ensures !(Apply(LT, [a, b]) && Apply(GT, [a, b]))
    ensures Apply(EQ, [a, b]) ==> !Apply(LT, [a, b]) && !Apply(GT, [a, b])
  {
  }
}
