/** `SingleIndexStatementSet` (set.js): statements grouped into buckets by the
    term at one position. The key of a bucket is that term's value, or
    `"<null>"` when the term is a Variable. Buckets are append-only arrays;
    nothing is deduplicated. The set is generic in its elements: `view`
    gives the statement an element stands for (the identity for a dataset,
    the pattern of a rule-body clause for the reasoner's clause index). */
module Sets {
  import opened Options
  import opened Statements
  import opened Iterators

  /** `SingleIndexStatementSet.varIndex`. */
  const VarIndex: string := "<null>"

  /** `getIndex`: the bucket key of a statement. */
  function KeyOf(st: Statement, index: int): string
    requires ValidPos(index)
  {
    var t := st.Get(index);
    if t.IsVariable() then VarIndex else t.value
  }

  /** `this.stmts[k]`, with an absent bucket read as empty. */
  function Bucket<E>(m: map<string, seq<E>>, k: string): seq<E> {
    if k in m then m[k] else []
  }

  /** The buckets of `keys`, one after the other. */
  function Flatten<E>(m: map<string, seq<E>>, keys: seq<string>): seq<E>
    requires forall k :: k in keys ==> k in m
  {
    if keys == [] then [] else Flatten(m, keys[..|keys| - 1]) + m[keys[|keys| - 1]]
  }

  /** The invariant of the bucket dictionary: `keys` lists each bucket once,
      and every element sits in the bucket its key selects. */
  ghost predicate WellIndexed<E>(m: map<string, seq<E>>, keys: seq<string>, index: int, view: E -> Statement) {
    && ValidPos(index)
    && (forall i, j :: 0 <= i < j < |keys| ==> keys[i] != keys[j])
    && (forall k :: k in m <==> k in keys)
    && (forall k, e :: k in m && e in m[k] ==> KeyOf(view(e), index) == k)
  }

  /** The elements `getMatchingIterator(q)` runs its filter over: the bucket
      of the query's index value followed by the wildcard bucket, or, when
      the query has a Variable at the index position, every bucket. */
  function Candidates<E>(m: map<string, seq<E>>, keys: seq<string>, index: int, q: Statement): seq<E>
    requires ValidPos(index)
    requires forall k :: k in keys ==> k in m
  {
    var t := q.Get(index);
    if t.IsVariable() then Flatten(m, keys) else Bucket(m, t.value) + Bucket(m, VarIndex)
  }

  /** The first element of `s` that exactly equals `q`. */
  function FirstExact<E>(s: seq<E>, q: Statement, view: E -> Statement): (r: Option<nat>)
    ensures r.Some? ==> r.value < |s| && view(s[r.value]).Equals(q, true)
    ensures r.Some? ==> forall j :: 0 <= j < r.value ==> !view(s[j]).Equals(q, true)
    ensures r.None? ==> forall j :: 0 <= j < |s| ==> !view(s[j]).Equals(q, true)
  {
    if s == [] then None
    else if view(s[0]).Equals(q, true) then Some(0)
    else match FirstExact(s[1..], q, view)
      case None => None
      case Some(i) => Some(i + 1)
  }

  class SingleIndexStatementSet<E> {
    const index: int
    const view: E -> Statement
    var stmts: map<string, seq<E>>
    /** The bucket keys in the order their buckets were created. */
    var keys: seq<string>

    ghost predicate Valid()
      reads this
    {
      WellIndexed(stmts, keys, index, view)
    }

    /** Every stored element, bucket by bucket. */
    ghost function Elements(): seq<E>
      reads this
      requires Valid()
    {
      Flatten(stmts, keys)
    }

    ghost function CandidatesFor(q: Statement): seq<E>
      reads this
      requires Valid()
    {
      Candidates(stmts, keys, index, q)
    }

    constructor (index: int, view: E -> Statement)
      requires ValidPos(index)
      ensures Valid() && this.index == index && this.view == view
      ensures stmts == map[] && keys == []
    {
      this.index := index;
      this.view := view;
      stmts := map[];
      keys := [];
    }

    /** `add` without the reasoner hook: appends `e` to the end of its
        bucket, creating the bucket when absent. */
    method Add(e: E)
      requires Valid()
      modifies this
      ensures Valid()
      ensures stmts == old(stmts)[KeyOf(view(e), index) := Bucket(old(stmts), KeyOf(view(e), index)) + [e]]
      ensures keys == if KeyOf(view(e), index) in old(stmts) then old(keys) else old(keys) + [KeyOf(view(e), index)]
      ensures multiset(Elements()) == multiset(old(Elements())) + multiset{e}
    {
      var key := KeyOf(view(e), index);
      var found: seq<E>;
      if key in stmts {
        found := stmts[key];
      } else {
        found := [];
        keys := keys + [key];
        FlattenExtend(stmts, old(keys), key, []);
      }
      AddPreservesIndex(old(stmts), old(keys), index, view, e);
      stmts := stmts[key := found + [e]];
    }

    /** `remove`: deletes the first element of `e`'s bucket that exactly
        equals `e`, and reports whether there was one. */
    method Remove(e: E) returns (removed: bool)
      requires Valid()
      modifies this
      ensures Valid() && keys == old(keys)
      ensures removed <==> FirstExact(Bucket(old(stmts), KeyOf(view(e), index)), view(e), view).Some?
      ensures removed <==> exists x :: x in old(Elements()) && view(x).Equals(view(e), true)
      ensures !removed ==> stmts == old(stmts)
      ensures removed ==>
        var found := old(stmts)[KeyOf(view(e), index)];
        var i := FirstExact(found, view(e), view).value;
        stmts == old(stmts)[KeyOf(view(e), index) := found[..i] + found[i + 1..]] &&
        multiset(Elements()) == multiset(old(Elements())) - multiset{found[i]}
    {
      var key := KeyOf(view(e), index);
      ExactCopiesShareBucket(stmts, keys, index, view, view(e));
      if key in stmts {
        var found := stmts[key];
        for i := 0 to |found|
          invariant forall j :: 0 <= j < i ==> !view(found[j]).Equals(view(e), true)
        {
          var stmt2 := found[i];
          if view(stmt2).Equals(view(e), true) {
            FirstExactIsFirst(found, view(e), view, i);
            RemovePreservesIndex(stmts, keys, index, view, key, i);
            FlattenMembers(stmts, keys, stmt2);
            stmts := stmts[key := found[..i] + found[i + 1..]];
            return true;
          }
        }
        assert FirstExact(found, view(e), view).None? by {
          FirstExactAbsent(found, view(e), view);
        }
      }
      return false;
    }

    /** `iterate(term)`: the bucket of `term`, then the wildcard bucket. */
    method Iterate(term: string) returns (it: NestedIterator<E>)
      requires Valid()
      ensures fresh(it) && fresh(it.Repr) && it.Valid()
      ensures it.Remaining() == Bucket(stmts, term) + Bucket(stmts, VarIndex)
    {
      var buckets: seq<seq<E>> := [];
      if term in stmts {
        buckets := [stmts[term]];
      }
      if VarIndex in stmts {
        buckets := buckets + [stmts[VarIndex]];
      }
      assert Join(buckets) == Bucket(stmts, term) + Bucket(stmts, VarIndex) by {
        JoinSnoc(if term in stmts then [stmts[term]] else [], Bucket(stmts, VarIndex));
      }
      var iterators := NewIterators(buckets);
      ConcatJoin(iterators, buckets);
      it := new NestedIterator(iterators);
    }

    /** `iterateAll` (also `[Symbol.iterator]`): every bucket in turn. */
    method IterateAll() returns (it: NestedIterator<E>)
      requires Valid()
      ensures fresh(it) && fresh(it.Repr) && it.Valid()
      ensures it.Remaining() == Elements()
    {
      var buckets := BucketsOf(stmts, keys);
      var iterators := NewIterators(buckets);
      ConcatJoin(iterators, buckets);
      JoinBuckets(stmts, keys);
      it := new NestedIterator(iterators);
    }

    /** `getMatchingIterator` (and `findMatches`, which only wraps it as an
        iterable): the candidates filtered by wildcard equality with `q`. */
    method FindMatches(q: Statement) returns (it: FindMatchesIterator<E>)
      requires Valid()
      ensures fresh(it) && fresh(it.Repr) && it.Valid() && it.stmt == q && it.view == view
      ensures it.Remaining() == Matches(CandidatesFor(q), q, view)
    {
      var indexTerm := q.Get(index);
      var nested: NestedIterator<E>;
      if indexTerm.IsVariable() {
        nested := IterateAll();
      } else {
        nested := Iterate(indexTerm.value);
      }
      it := new FindMatchesIterator(nested, q, view);
    }

    /** `contains`: whether the matching iterator yields a first element. */
    method Contains(q: Statement) returns (r: bool)
      requires Valid()
      ensures r <==> Matches(CandidatesFor(q), q, view) != []
      ensures r <==> exists x :: x in Elements() && view(x).Equals(q, false)
    {
      var matches := FindMatches(q);
      var first := matches.Next();
      r := first.Some?;
      ContainsIff(stmts, keys, index, view, q);
    }
  }

  /** One fresh `ArrayIterator` per bucket, in order. */
  method NewIterators<E>(buckets: seq<seq<E>>) returns (its: seq<ArrayIterator<E>>)
    ensures |its| == |buckets|
    ensures forall j :: 0 <= j < |its| ==> fresh(its[j]) && its[j].Valid() && its[j].Remaining() == buckets[j]
    ensures forall j, l :: 0 <= j < l < |its| ==> its[j] != its[l]
  {
    its := [];
    for i := 0 to |buckets|
      invariant |its| == i
      invariant forall j :: 0 <= j < i ==> fresh(its[j])
      invariant forall j, l :: 0 <= j < l < i ==> its[j] != its[l]
      invariant forall j :: 0 <= j < i ==> its[j].Valid() && its[j].Remaining() == buckets[j]
    {
      var values := new ArrayIterator(buckets[i]);
      its := its + [values];
    }
  }

  // ---------------------------------------------------------------------
  // Properties of the bucket dictionary

  /** `Object.values(this.stmts)`: the buckets of `keys`, in order. */
  function BucketsOf<E>(m: map<string, seq<E>>, keys: seq<string>): (bs: seq<seq<E>>)
    requires forall k :: k in keys ==> k in m
    ensures |bs| == |keys| && forall j :: 0 <= j < |keys| ==> bs[j] == m[keys[j]]
  {
    if keys == [] then [] else BucketsOf(m, keys[..|keys| - 1]) + [m[keys[|keys| - 1]]]
  }

  /** The buckets of `keys`, one after the other, are `Flatten`. */
  lemma {:induction false} JoinBuckets<E>(m: map<string, seq<E>>, keys: seq<string>)
    requires forall k :: k in keys ==> k in m
    ensures Join(BucketsOf(m, keys)) == Flatten(m, keys)
  {
    if keys != [] {
      var n := |keys| - 1;
      JoinBuckets(m, keys[..n]);
      JoinSnoc(BucketsOf(m, keys[..n]), m[keys[n]]);
    }
  }

  lemma {:induction false} FlattenMembers<E>(m: map<string, seq<E>>, keys: seq<string>, x: E)
    requires forall k :: k in keys ==> k in m
    ensures x in Flatten(m, keys) <==> exists k :: k in keys && x in m[k]
  {
    if keys != [] {
      var init := keys[..|keys| - 1];
      var last := keys[|keys| - 1];
      assert keys == init + [last];
      FlattenMembers(m, init, x);
    }
  }

  lemma {:induction false} FlattenExtend<E>(m: map<string, seq<E>>, keys: seq<string>, k: string, v: seq<E>)
    requires forall k' :: k' in keys ==> k' in m
    requires k !in keys
    ensures Flatten(m[k := v], keys + [k]) == Flatten(m, keys) + v
  {
    assert (keys + [k])[..|keys|] == keys;
    FlattenUnchanged(m, keys, k, v);
  }

  /** Changing a bucket that `keys` does not list changes nothing. */
  lemma {:induction false} FlattenUnchanged<E>(m: map<string, seq<E>>, keys: seq<string>, k: string, v: seq<E>)
    requires forall k' :: k' in keys ==> k' in m
    requires k !in keys
    ensures Flatten(m[k := v], keys) == Flatten(m, keys)
  {
    if keys != [] {
      FlattenUnchanged(m, keys[..|keys| - 1], k, v);
    }
  }

  /** Replacing one listed bucket by `v` trades its elements for those of
      `v`, counting multiplicity. */
  lemma {:induction false} FlattenReplace<E>(m: map<string, seq<E>>, keys: seq<string>, k: string, v: seq<E>)
    requires forall k' :: k' in keys ==> k' in m
    requires forall i, j :: 0 <= i < j < |keys| ==> keys[i] != keys[j]
    requires k in keys
    ensures multiset(Flatten(m[k := v], keys)) + multiset(m[k]) == multiset(Flatten(m, keys)) + multiset(v)
  {
    var init := keys[..|keys| - 1];
    var last := keys[|keys| - 1];
    assert keys == init + [last];
    assert Flatten(m[k := v], keys) == Flatten(m[k := v], init) + m[k := v][last];
    assert Flatten(m, keys) == Flatten(m, init) + m[last];
    if last == k {
      assert k !in init;
      FlattenUnchanged(m, init, k, v);
      var base := multiset(Flatten(m, init));
      assert multiset(Flatten(m[k := v], keys)) == base + multiset(v);
      assert multiset(Flatten(m, keys)) == base + multiset(m[k]);
    } else {
      assert m[k := v][last] == m[last];
      calc {
        multiset(Flatten(m[k := v], keys)) + multiset(m[k]);
        multiset(Flatten(m[k := v], init)) + multiset(m[last]) + multiset(m[k]);
        (multiset(Flatten(m[k := v], init)) + multiset(m[k])) + multiset(m[last]);
        { FlattenReplace(m, init, k, v); }
        (multiset(Flatten(m, init)) + multiset(v)) + multiset(m[last]);
        multiset(Flatten(m, keys)) + multiset(v);
      }
    }
  }

  lemma CancelRight<T>(a: multiset<T>, b: multiset<T>, c: multiset<T>)
    requires a + c == b + c
    ensures a == b
  {
    forall o
      ensures a[o] == b[o]
    {
      assert (a + c)[o] == (b + c)[o];
    }
  }

  /** Appending to a bucket, or creating it, keeps the dictionary well
      indexed and adds exactly one copy of the element. */
  lemma {:induction false} AddPreservesIndex<E>(m: map<string, seq<E>>, keys: seq<string>, index: int, view: E -> Statement, e: E)
    requires WellIndexed(m, keys, index, view)
    ensures var k := KeyOf(view(e), index);
      var m' := m[k := Bucket(m, k) + [e]];
      var keys' := if k in m then keys else keys + [k];
      WellIndexed(m', keys', index, view) &&
      multiset(Flatten(m', keys')) == multiset(Flatten(m, keys)) + multiset{e}
  {
    AddKeepsBuckets(m, keys, index, view, e);
    var k := KeyOf(view(e), index);
    if k in m {
      assert Bucket(m, k) + [e] == m[k] + [e];
      FlattenAppend(m, keys, k, e);
    } else {
      assert Bucket(m, k) + [e] == [e];
      FlattenExtend(m, keys, k, [e]);
      assert multiset(Flatten(m, keys) + [e]) == multiset(Flatten(m, keys)) + multiset{e};
    }
  }

  lemma {:induction false} FlattenAppend<E>(m: map<string, seq<E>>, keys: seq<string>, k: string, e: E)
    requires forall k' :: k' in keys ==> k' in m
    requires forall i, j :: 0 <= i < j < |keys| ==> keys[i] != keys[j]
    requires k in keys
    ensures multiset(Flatten(m[k := m[k] + [e]], keys)) == multiset(Flatten(m, keys)) + multiset{e}
  {
    var m' := m[k := m[k] + [e]];
    FlattenReplace(m, keys, k, m[k] + [e]);
    calc {
      multiset(Flatten(m', keys)) + multiset(m[k]);
      multiset(Flatten(m, keys)) + multiset(m[k] + [e]);
      (multiset(Flatten(m, keys)) + multiset{e}) + multiset(m[k]);
    }
    CancelRight(multiset(Flatten(m', keys)), multiset(Flatten(m, keys)) + multiset{e}, multiset(m[k]));
  }

  lemma {:induction false} AddKeepsBuckets<E>(m: map<string, seq<E>>, keys: seq<string>, index: int, view: E -> Statement, e: E)
    requires WellIndexed(m, keys, index, view)
    ensures var k := KeyOf(view(e), index);
      WellIndexed(m[k := Bucket(m, k) + [e]], if k in m then keys else keys + [k], index, view)
  {
    var k := KeyOf(view(e), index);
    var m' := m[k := Bucket(m, k) + [e]];
    var keys' := if k in m then keys else keys + [k];
    forall k', x | k' in m' && x in m'[k']
      ensures KeyOf(view(x), index) == k'
    {
      if k' == k && x !in Bucket(m, k) {
        assert x == e;
      }
    }
    if k !in m {
      forall i, j | 0 <= i < j < |keys'|
        ensures keys'[i] != keys'[j]
      {
        if j == |keys| {
          assert keys'[i] in keys;
        }
      }
    }
  }

  /** Deleting one element of a bucket keeps the dictionary well indexed and
      removes exactly one copy of that element. */
  lemma {:induction false} RemovePreservesIndex<E>(m: map<string, seq<E>>, keys: seq<string>, index: int, view: E -> Statement, k: string, i: nat)
    requires WellIndexed(m, keys, index, view)
    requires k in m && i < |m[k]|
    ensures var m' := m[k := m[k][..i] + m[k][i + 1..]];
      WellIndexed(m', keys, index, view) &&
      multiset(Flatten(m', keys)) == multiset(Flatten(m, keys)) - multiset{m[k][i]}
  {
    var s := m[k];
    var rest := s[..i] + s[i + 1..];
    var m' := m[k := rest];
    RemoveKeepsBuckets(m, keys, index, view, k, i);
    assert s == s[..i] + [s[i]] + s[i + 1..];
    FlattenReplace(m, keys, k, rest);
    calc {
      (multiset(Flatten(m', keys)) + multiset{s[i]}) + multiset(rest);
      multiset(Flatten(m', keys)) + multiset(s);
      multiset(Flatten(m, keys)) + multiset(rest);
    }
    CancelRight(multiset(Flatten(m', keys)) + multiset{s[i]}, multiset(Flatten(m, keys)), multiset(rest));
  }

  lemma {:induction false} RemoveKeepsBuckets<E>(m: map<string, seq<E>>, keys: seq<string>, index: int, view: E -> Statement, k: string, i: nat)
    requires WellIndexed(m, keys, index, view)
    requires k in m && i < |m[k]|
    ensures WellIndexed(m[k := m[k][..i] + m[k][i + 1..]], keys, index, view)
  {
    var s := m[k];
    var m' := m[k := s[..i] + s[i + 1..]];
    forall k', x | k' in m' && x in m'[k']
      ensures KeyOf(view(x), index) == k'
    {
      if k' == k {
        assert x in s[..i] || x in s[i + 1..];
      }
    }
  }

  /** Exact equality agrees at the index position, so every stored
      element exactly equal to `q` is in `q`'s own bucket. */
  lemma {:induction false} ExactCopiesShareBucket<E>(m: map<string, seq<E>>, keys: seq<string>, index: int, view: E -> Statement, q: Statement)
    requires WellIndexed(m, keys, index, view)
    ensures forall x :: x in Flatten(m, keys) && view(x).Equals(q, true) ==> x in Bucket(m, KeyOf(q, index))
  {
    forall x | x in Flatten(m, keys) && view(x).Equals(q, true)
      ensures x in Bucket(m, KeyOf(q, index))
    {
      FlattenMembers(m, keys, x);
      var k :| k in keys && x in m[k];
      EqualsPositionwise(view(x), q, true);
      assert view(x).Get(index).Equals(q.Get(index), true);
    }
  }

  lemma {:induction false} FirstExactIsFirst<E>(s: seq<E>, q: Statement, view: E -> Statement, i: nat)
    requires i < |s| && view(s[i]).Equals(q, true)
    requires forall j :: 0 <= j < i ==> !view(s[j]).Equals(q, true)
    ensures FirstExact(s, q, view) == Some(i)
  {
    if i > 0 {
      assert !view(s[0]).Equals(q, true);
      assert s[1..][i - 1] == s[i];
      FirstExactIsFirst(s[1..], q, view, i - 1);
    }
  }

  lemma FirstExactAbsent<E>(s: seq<E>, q: Statement, view: E -> Statement)
    requires forall j :: 0 <= j < |s| ==> !view(s[j]).Equals(q, true)
    ensures FirstExact(s, q, view).None?
  {
  }

  /** Every stored element that wildcard-equals `q` is among the candidates,
      and every candidate is stored. */
  lemma {:induction false} CandidatesComplete<E>(m: map<string, seq<E>>, keys: seq<string>, index: int, view: E -> Statement, q: Statement)
    requires WellIndexed(m, keys, index, view)
    ensures forall x :: x in Flatten(m, keys) && view(x).Equals(q, false) ==> x in Candidates(m, keys, index, q)
    ensures forall x :: x in Candidates(m, keys, index, q) ==> x in Flatten(m, keys)
  {
    var t := q.Get(index);
    forall x | x in Flatten(m, keys) && view(x).Equals(q, false)
      ensures x in Candidates(m, keys, index, q)
    {
      if t.Constant? {
        FlattenMembers(m, keys, x);
        var k :| k in keys && x in m[k];
        EqualsPositionwise(view(x), q, false);
        assert view(x).Get(index).Equals(t, false);
      }
    }
    forall x | x in Candidates(m, keys, index, q)
      ensures x in Flatten(m, keys)
    {
      FlattenMembers(m, keys, x);
      if t.Constant? && x in Bucket(m, t.value) {
        assert t.value in keys && x in m[t.value];
      } else if t.Constant? {
        assert VarIndex in keys && x in m[VarIndex];
      }
    }
  }

  /** `contains(q)` holds exactly when some stored element wildcard-equals `q`. */
  lemma {:induction false} ContainsIff<E>(m: map<string, seq<E>>, keys: seq<string>, index: int, view: E -> Statement, q: Statement)
    requires WellIndexed(m, keys, index, view)
    ensures Matches(Candidates(m, keys, index, q), q, view) != [] <==>
      exists x :: x in Flatten(m, keys) && view(x).Equals(q, false)
  {
    var c := Candidates(m, keys, index, q);
    CandidatesComplete(m, keys, index, view, q);
    if Matches(c, q, view) != [] {
      var x := Matches(c, q, view)[0];
      MatchesMember(c, q, view, x);
      assert x in Flatten(m, keys) && view(x).Equals(q, false);
    }
    if x :| x in Flatten(m, keys) && view(x).Equals(q, false) {
      MatchesMember(c, q, view, x);
    }
  }

  /** After `add(e)` the set contains `e`. */
  lemma {:induction false} ContainsAfterAdd<E>(m: map<string, seq<E>>, keys: seq<string>, index: int, view: E -> Statement, e: E)
    requires WellIndexed(m, keys, index, view)
    ensures var k := KeyOf(view(e), index);
      var m' := m[k := Bucket(m, k) + [e]];
      var keys' := if k in m then keys else keys + [k];
      Matches(Candidates(m', keys', index, view(e)), view(e), view) != []
  {
    var k := KeyOf(view(e), index);
    var m' := m[k := Bucket(m, k) + [e]];
    var keys' := if k in m then keys else keys + [k];
    AddPreservesIndex(m, keys, index, view, e);
    assert e in multiset(Flatten(m', keys'));
    StatementEqualsReflexive(view(e), false);
    ContainsIff(m', keys', index, view, view(e));
  }

  /** A query whose index term is the Constant `"<null>"` reads the wildcard
      bucket twice, so each of its matches there is yielded twice. */
  lemma {:induction false} NullConstantReadsWildcardTwice<E>(m: map<string, seq<E>>, keys: seq<string>, index: int, view: E -> Statement, q: Statement)
    requires WellIndexed(m, keys, index, view)
    requires q.Get(index) == Constant(VarIndex)
    ensures Matches(Candidates(m, keys, index, q), q, view) ==
      Matches(Bucket(m, VarIndex), q, view) + Matches(Bucket(m, VarIndex), q, view)
  {
    MatchesAppend(Bucket(m, VarIndex), Bucket(m, VarIndex), q, view);
  }

  /** With a Variable at the index position each stored element that matches
      is yielded as often as it is stored, and no other element is. */
  lemma {:induction false} VariableQueryScansAll<E>(m: map<string, seq<E>>, keys: seq<string>, index: int, view: E -> Statement, q: Statement, x: E)
    requires WellIndexed(m, keys, index, view)
    requires q.Get(index).Variable?
    ensures multiset(Matches(Candidates(m, keys, index, q), q, view))[x] ==
      if view(x).Equals(q, false) then multiset(Flatten(m, keys))[x] else 0
  {
    MatchesCount(Flatten(m, keys), q, view, x);
  }
}
