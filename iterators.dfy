/** The pull iterators of iterator.js. A result `{value: v, done: false}` is
    `Some(v)` and `{done: true}` is `None`. Each iterator keeps one element of
    lookahead in `nextMatch`, fetched by `getNext`; `next()` hands out the
    lookahead and fetches the following one. The ghost `Remaining()` of an
    iterator is the sequence of values its `next()` calls will still return. */
module Iterators {
  import opened Options
  import opened Statements

  /** A JavaScript array iterator (`array.values()`): a cursor over the
      elements of one bucket. */
  class ArrayIterator<E> {
    const elems: seq<E>
    var cursor: nat

    ghost predicate Valid()
      reads this
    {
      cursor <= |elems|
    }

    ghost function Remaining(): seq<E>
      reads this
      requires Valid()
    {
      elems[cursor..]
    }

    constructor (elems: seq<E>)
      ensures Valid() && this.elems == elems && Remaining() == elems
    {
      this.elems := elems;
      cursor := 0;
    }

    method Next() returns (r: Option<E>)
      requires Valid()
      modifies this
      ensures Valid()
      ensures old(Remaining()) == [] ==> r == None && Remaining() == []
      ensures old(Remaining()) != [] ==> r == Some(old(Remaining())[0]) && Remaining() == old(Remaining())[1..]
    {
      if cursor == |elems| {
        return None;
      }
      r := Some(elems[cursor]);
      cursor := cursor + 1;
    }
  }

  ghost function Objects<E>(its: seq<ArrayIterator<E>>): set<object> {
    set i | 0 <= i < |its| :: its[i]
  }

  ghost predicate AllValid<E>(its: seq<ArrayIterator<E>>)
    reads Objects(its)
  {
    forall i :: 0 <= i < |its| ==> its[i].Valid()
  }

  /** The elements the iterators `its` have still to yield, one iterator
      after the other. */
  ghost function Concat<E>(its: seq<ArrayIterator<E>>): seq<E>
    reads Objects(its)
    requires AllValid(its)
  {
    if its == [] then [] else its[0].Remaining() + Concat(its[1..])
  }

  /** The sequences of `bs`, one after the other. */
  ghost function Join<E>(bs: seq<seq<E>>): seq<E> {
    if bs == [] then [] else bs[0] + Join(bs[1..])
  }

  lemma {:induction false} JoinSnoc<E>(bs: seq<seq<E>>, b: seq<E>)
    ensures Join(bs + [b]) == Join(bs) + b
  {
    if bs == [] {
      assert [b][1..] == [];
    } else {
      assert (bs + [b])[1..] == bs[1..] + [b];
      JoinSnoc(bs[1..], b);
    }
  }

  /** Iterators that have exactly `bs` left yield `Join(bs)`. */
  lemma {:induction false} ConcatJoin<E>(its: seq<ArrayIterator<E>>, bs: seq<seq<E>>)
    requires |its| == |bs|
    requires forall j :: 0 <= j < |its| ==> its[j].Valid() && its[j].Remaining() == bs[j]
    ensures AllValid(its) && Concat(its) == Join(bs)
  {
    if its != [] {
      ConcatJoin(its[1..], bs[1..]);
    }
  }

  /** `NestedIterator`: the concatenation of a list of iterators. `idx` is
      the iterator being drained; `nextMatch` is the lookahead. */
  class NestedIterator<E> {
    const iterators: seq<ArrayIterator<E>>
    var idx: nat
    var nextMatch: Option<E>
    ghost const Repr: set<object>

    /** The object invariant that holds between `getNext` calls. */
    ghost predicate Inner()
      reads this, Repr
    {
      && Repr == Objects(iterators)
      && this !in Repr
      && (forall i, j :: 0 <= i < j < |iterators| ==> iterators[i] != iterators[j])
      && AllValid(iterators)
      && idx <= |iterators|
    }

    /** A settled iterator: no lookahead means every inner iterator is done. */
    ghost predicate Valid()
      reads this, Repr
    {
      Inner() && (nextMatch.None? ==> idx == |iterators|)
    }

    /** What the inner iterators have left, from `idx` on. */
    ghost function Pending(): seq<E>
      reads this, Repr
      requires Inner()
    {
      Concat(iterators[idx..])
    }

    ghost function Remaining(): seq<E>
      reads this, Repr
      requires Valid()
    {
      (if nextMatch.Some? then [nextMatch.value] else []) + Pending()
    }

    /** The constructor pre-fetches the first element. */
    constructor (iterators: seq<ArrayIterator<E>>)
      requires forall i, j :: 0 <= i < j < |iterators| ==> iterators[i] != iterators[j]
      requires AllValid(iterators)
      modifies Objects(iterators)
      ensures Valid() && this.iterators == iterators && Repr == Objects(iterators)
      ensures Remaining() == old(Concat(iterators))
    {
      this.iterators := iterators;
      idx := 0;
      nextMatch := None;
      Repr := Objects(iterators);
      new;
      assert iterators[0..] == iterators;
      GetNext();
    }

    /** `getNext`: pulls from iterator `idx`; when it is empty, moves on to
        the next iterator, and when none is left, clears the lookahead. */
    method GetNext()
      requires Inner()
      modifies this, Repr
      ensures Valid() && Remaining() == old(Pending())
      decreases |iterators| - idx, 1
    {
      if idx < |iterators| {
        var current := iterators[idx];
        assert iterators[idx..] == [current] + iterators[idx + 1..];
        assert current !in Objects(iterators[idx + 1..]);
        ghost var later := Concat(iterators[idx + 1..]);
        var ret := current.Next();
        assert Concat(iterators[idx + 1..]) == later;
        if ret.Some? {
          nextMatch := ret;
          assert iterators[idx..] == [current] + iterators[idx + 1..];
        } else {
          NextIterator();
        }
      } else {
        nextMatch := None;
      }
    }

    /** `nextIterator`: abandons iterator `idx` and fetches from the rest. */
    method NextIterator()
      requires Inner() && idx < |iterators|
      modifies this, Repr
      ensures Valid() && Remaining() == old(Concat(iterators[idx + 1..]))
      decreases |iterators| - idx, 0
    {
      assert this !in Objects(iterators[idx + 1..]);
      ghost var later := Concat(iterators[idx + 1..]);
      idx := idx + 1;
      assert Pending() == later;
      GetNext();
    }

    /** `DoneIterator.next`: hands out the lookahead and fetches the next
        one; an exhausted iterator keeps answering `{done: true}`. */
    method Next() returns (r: Option<E>)
      requires Valid()
      modifies this, Repr
      ensures Valid()
      ensures old(Remaining()) == [] ==> r == None && Remaining() == []
      ensures old(Remaining()) != [] ==> r == Some(old(Remaining())[0]) && Remaining() == old(Remaining())[1..]
    {
      if nextMatch.None? {
        return None;
      }
      r := nextMatch;
      GetNext();
    }
  }

  /** The elements of `s` that wildcard-equal the query `q`, in order. */
  function Matches<E>(s: seq<E>, q: Statement, view: E -> Statement): seq<E> {
    if s == [] then []
    else (if view(s[0]).Equals(q, false) then [s[0]] else []) + Matches(s[1..], q, view)
  }

  /** `FindMatchesIterator`: the elements of the wrapped iterator that
      wildcard-equal `stmt`. */
  class FindMatchesIterator<E> {
    const inner: NestedIterator<E>
    const stmt: Statement
    const view: E -> Statement
    var nextMatch: Option<E>
    ghost const Repr: set<object>

    ghost predicate Inner()
      reads this, Repr
    {
      && Repr == {inner} + inner.Repr
      && inner.Valid()
    }

    ghost predicate Valid()
      reads this, Repr
    {
      Inner() && (nextMatch.None? ==> inner.Remaining() == [])
    }

    ghost function Remaining(): seq<E>
      reads this, Repr
      requires Valid()
    {
      (if nextMatch.Some? then [nextMatch.value] else []) + Matches(inner.Remaining(), stmt, view)
    }

    /** The constructor pre-fetches the first match. */
    constructor (inner: NestedIterator<E>, stmt: Statement, view: E -> Statement)
      requires inner.Valid()
      modifies inner, inner.Repr
      ensures Valid() && this.inner == inner && this.stmt == stmt && this.view == view
      ensures Repr == {inner} + inner.Repr
      ensures Remaining() == Matches(old(inner.Remaining()), stmt, view)
    {
      this.inner := inner;
      this.stmt := stmt;
      this.view := view;
      nextMatch := None;
      Repr := {inner} + inner.Repr;
      new;
      GetNext();
    }

    /** `getNext`: pulls from the wrapped inner until an element matches
        or it is exhausted. */
    method GetNext()
      requires Inner()
      modifies this, Repr
      ensures Valid() && Remaining() == old(Matches(inner.Remaining(), stmt, view))
    {
      while true
        invariant Inner()
        invariant Matches(inner.Remaining(), stmt, view) == old(Matches(inner.Remaining(), stmt, view))
        decreases |inner.Remaining()|
      {
        var result := inner.Next();
        if result.None? {
          break;
        }
        var stmt2 := result.value;
        if view(stmt2).Equals(stmt, false) {
          nextMatch := result;
          return;
        }
      }
      nextMatch := None;
    }

    /** `DoneIterator.next` over the matches. */
    method Next() returns (r: Option<E>)
      requires Valid()
      modifies this, Repr
      ensures Valid()
      ensures old(Remaining()) == [] ==> r == None && Remaining() == []
      ensures old(Remaining()) != [] ==> r == Some(old(Remaining())[0]) && Remaining() == old(Remaining())[1..]
    {
      if nextMatch.None? {
        return None;
      }
      r := nextMatch;
      GetNext();
    }

    /** A `for ... of` loop's view of the iterator: every value it still
        yields, in order, leaving it exhausted. */
    method Drain() returns (s: seq<E>)
      requires Valid()
      modifies this, Repr
      ensures Valid() && Remaining() == []
      ensures s == old(Remaining())
    {
      s := [];
      ghost var all, rest := Remaining(), Remaining();
      while true
        invariant Valid() && rest == Remaining()
        invariant s + rest == all
        decreases |rest|
      {
        var r := Next();
        if r.None? {
          break;
        }
        MoveFirst(s, rest);
        s, rest := s + [r.value], rest[1..];
      }
    }
  }

  /** Moving the first element of `rest` to the end of `s` keeps their
      concatenation. */
  lemma MoveFirst<E>(s: seq<E>, rest: seq<E>)
    requires rest != []
    ensures (s + [rest[0]]) + rest[1..] == s + rest
  {
    assert rest == [rest[0]] + rest[1..];
  }

  // ---------------------------------------------------------------------
  // Properties of the filter

  /** An element is yielded exactly when it occurs and matches. */
  lemma {:induction false} MatchesMember<E>(s: seq<E>, q: Statement, view: E -> Statement, x: E)
    ensures x in Matches(s, q, view) <==> x in s && view(x).Equals(q, false)
  {
    if s != [] {
      MatchesMember(s[1..], q, view, x);
      assert s == [s[0]] + s[1..];
    }
  }

  /** Filtering a concatenation filters each part in turn, so the order of
      the input is kept. */
  lemma {:induction false} MatchesAppend<E>(a: seq<E>, b: seq<E>, q: Statement, view: E -> Statement)
    ensures Matches(a + b, q, view) == Matches(a, q, view) + Matches(b, q, view)
  {
    if a == [] {
      assert a + b == b;
    } else {
      assert (a + b)[1..] == a[1..] + b;
      MatchesAppend(a[1..], b, q, view);
    }
  }

  /** Each element is yielded as many times as it occurs, if it matches, and
      never otherwise. */
  lemma {:induction false} MatchesCount<E>(s: seq<E>, q: Statement, view: E -> Statement, x: E)
    ensures multiset(Matches(s, q, view))[x] == if view(x).Equals(q, false) then multiset(s)[x] else 0
  {
    if s != [] {
      MatchesCount(s[1..], q, view, x);
      assert s == [s[0]] + s[1..];
    }
  }

  /** The filter never yields more than it is given. */
  lemma {:induction false} MatchesShorter<E>(s: seq<E>, q: Statement, view: E -> Statement)
    ensures |Matches(s, q, view)| <= |s|
  {
    if s != [] {
      MatchesShorter(s[1..], q, view);
    }
  }
}
