/** Tables as sequences of rows, with the two pandas operations the pipeline
    is built from: boolean-mask selection `df[mask]` and the left-outer
    `merge(..., how='left')`. */
module Tables {
  import opened Wrappers

  /** `a` is an order-preserving subsequence of `b`: `a` is obtained from
      `b` by deleting rows, without reordering the rest. */
  predicate IsSubsequence<T(==)>(a: seq<T>, b: seq<T>)
    decreases |b|
  {
    |a| == 0 || (|b| > 0 && ((a[0] == b[0] && IsSubsequence(a[1..], b[1..])) || IsSubsequence(a, b[1..])))
  }

  /** Extra rows in front of `b` keep `a` a subsequence of it. */
  lemma {:induction false} SubsequenceOfLonger<T>(a: seq<T>, pad: seq<T>, b: seq<T>)
    requires IsSubsequence(a, b)
    ensures IsSubsequence(a, pad + b)
    decreases |pad|
  {
    if |pad| > 0 {
      SubsequenceOfLonger(a, pad[1..], b);
      assert (pad + b)[1..] == pad[1..] + b;
      var c := pad + b;
      assert |c| > 0 && c[1..] == pad[1..] + b;
      assert IsSubsequence(a, c[1..]);
    } else {
      assert pad + b == b;
    }
  }

  /** Every sequence is a subsequence of itself. */
  lemma {:induction false} SubsequenceReflexive<T>(a: seq<T>)
    ensures IsSubsequence(a, a)
    decreases |a|
  {
    if |a| > 0 {
      SubsequenceReflexive(a[1..]);
    }
  }

  /** Subsequence is transitive. */
  lemma {:induction false} SubsequenceTransitive<T>(a: seq<T>, b: seq<T>, c: seq<T>)
    requires IsSubsequence(a, b) && IsSubsequence(b, c)
    ensures IsSubsequence(a, c)
    decreases |c|
  {
    if |a| > 0 {
      if b[0] == c[0] && IsSubsequence(b[1..], c[1..]) {
        if a[0] == b[0] && IsSubsequence(a[1..], b[1..]) {
          SubsequenceTransitive(a[1..], b[1..], c[1..]);
        } else {
          SubsequenceTransitive(a, b[1..], c[1..]);
        }
      } else {
        SubsequenceTransitive(a, b, c[1..]);
      }
    }
  }

  /** A subsequence is no longer than the sequence it is taken from. */
  lemma {:induction false} SubsequenceLength<T>(a: seq<T>, b: seq<T>)
    requires IsSubsequence(a, b)
    ensures |a| <= |b|
    decreases |b|
  {
    if |a| > 0 {
      if a[0] == b[0] && IsSubsequence(a[1..], b[1..]) {
        SubsequenceLength(a[1..], b[1..]);
      } else {
        SubsequenceLength(a, b[1..]);
      }
    }
  }

  /** Applying `f` to every row of a table, in order. */
  function Map<A, B>(s: seq<A>, f: A -> B): (r: seq<B>)
    ensures |r| == |s|
    ensures forall i :: 0 <= i < |s| ==> r[i] == f(s[i])
  {
    seq(|s|, i requires 0 <= i < |s| => f(s[i]))
  }

  /** Mapping both sides keeps a subsequence a subsequence. */
  lemma {:induction false} MapSubsequence<A, B>(a: seq<A>, b: seq<A>, f: A -> B)
    requires IsSubsequence(a, b)
    ensures IsSubsequence(Map(a, f), Map(b, f))
    decreases |b|
  {
    if |a| > 0 {
      assert Map(b, f)[1..] == Map(b[1..], f);
      if a[0] == b[0] && IsSubsequence(a[1..], b[1..]) {
        MapSubsequence(a[1..], b[1..], f);
        assert Map(a, f)[1..] == Map(a[1..], f);
      } else {
        MapSubsequence(a, b[1..], f);
      }
    }
  }

  /** Boolean-mask selection `df[df.apply(p)]`: the rows satisfying `p`. */
  function Filter<T>(s: seq<T>, p: T -> bool): (r: seq<T>)
    ensures |r| <= |s|
    ensures forall i :: 0 <= i < |r| ==> p(r[i])
    decreases |s|
  {
    if |s| == 0 then []
    else (if p(s[0]) then [s[0]] else []) + Filter(s[1..], p)
  }

  /** The selection keeps the order of the rows it keeps. */
  lemma {:induction false} FilterIsSubsequence<T>(s: seq<T>, p: T -> bool)
    ensures IsSubsequence(Filter(s, p), s)
    decreases |s|
  {
    if |s| > 0 {
      var rest := Filter(s[1..], p);
      FilterIsSubsequence(s[1..], p);
      if p(s[0]) {
        assert Filter(s, p) == [s[0]] + rest;
        assert ([s[0]] + rest)[1..] == rest;
      } else {
        assert Filter(s, p) == rest;
        if |rest| > 0 {
          assert IsSubsequence(rest, s[1..]);
        }
      }
    }
  }

  /** A row of the selection occurs in the table as many times as in the
      selection when it satisfies `p`, and not at all otherwise: the
      selection drops exactly the rows failing `p`. */
  lemma {:induction false} FilterCount<T>(s: seq<T>, p: T -> bool, x: T)
    ensures multiset(Filter(s, p))[x] == if p(x) then multiset(s)[x] else 0
    decreases |s|
  {
    if |s| > 0 {
      FilterCount(s[1..], p, x);
      assert s == [s[0]] + s[1..];
      assert multiset(s) == multiset([s[0]]) + multiset(s[1..]);
    }
  }

  /** A row is in the selection if and only if it is in the table and
      satisfies `p`. */
  lemma FilterMembership<T>(s: seq<T>, p: T -> bool, x: T)
    ensures x in Filter(s, p) <==> x in s && p(x)
  {
    FilterCount(s, p, x);
    assert x in Filter(s, p) <==> multiset(Filter(s, p))[x] > 0;
    assert x in s <==> multiset(s)[x] > 0;
  }

  /** Selecting with a predicate every row satisfies returns the table. */
  lemma {:induction false} FilterAll<T>(s: seq<T>, p: T -> bool)
    requires forall i :: 0 <= i < |s| ==> p(s[i])
    ensures Filter(s, p) == s
    decreases |s|
  {
    if |s| > 0 {
      FilterAll(s[1..], p);
      assert s == [s[0]] + s[1..];
    }
  }

  /** The registry rows whose key equals `k`, in registry order. */
  function Matches<R, K(==)>(right: seq<R>, rkey: R -> K, k: K): (ms: seq<R>)
    ensures forall i :: 0 <= i < |ms| ==> rkey(ms[i]) == k
  {
    Filter(right, r => rkey(r) == k)
  }

  /** The key `k` matches no registry row exactly when no row has key `k`. */
  lemma NoMatches<R, K>(right: seq<R>, rkey: R -> K, k: K)
    ensures |Matches(right, rkey, k)| == 0 <==> forall r :: r in right ==> rkey(r) != k
  {
    var ms := Matches(right, rkey, k);
    if |ms| > 0 {
      FilterMembership(right, r => rkey(r) == k, ms[0]);
    }
    forall r | r in right && rkey(r) == k
      ensures |ms| > 0
    {
      FilterMembership(right, r' => rkey(r') == k, r);
    }
  }

  /** Registry keys are pairwise distinct. */
  predicate UniqueKeys<R, K(==)>(right: seq<R>, rkey: R -> K) {
    forall i, j :: 0 <= i < j < |right| ==> rkey(right[i]) != rkey(right[j])
  }

  /** With distinct registry keys, a key matches at most one registry row. */
  lemma {:induction false} UniqueKeysMatchAtMostOnce<R, K>(right: seq<R>, rkey: R -> K, k: K)
    requires UniqueKeys(right, rkey)
    ensures |Matches(right, rkey, k)| <= 1
    decreases |right|
  {
    if |right| > 0 {
      var p := (r: R) => rkey(r) == k;
      assert UniqueKeys(right[1..], rkey) by {
        forall i, j | 0 <= i < j < |right[1..]|
          ensures rkey(right[1..][i]) != rkey(right[1..][j])
        {
          assert right[1..][i] == right[i + 1] && right[1..][j] == right[j + 1];
        }
      }
      UniqueKeysMatchAtMostOnce(right[1..], rkey, k);
      if p(right[0]) {
        forall i | 0 <= i < |right[1..]|
          ensures !p(right[1..][i])
        {
          assert right[1..][i] == right[i + 1];
        }
        NoLaterMatch(right[1..], p);
      }
    }
  }

  /** A selection with a predicate no row satisfies is empty. */
  lemma {:induction false} NoLaterMatch<T>(s: seq<T>, p: T -> bool)
    requires forall i :: 0 <= i < |s| ==> !p(s[i])
    ensures Filter(s, p) == []
    decreases |s|
  {
    if |s| > 0 {
      NoLaterMatch(s[1..], p);
    }
  }

  /** The output rows a left-outer merge produces for one left row `l`:
      one row per matching registry row in registry order, or the single
      row `(l, None)` when nothing matches. */
  function JoinRow<L, R, K(==)>(l: L, right: seq<R>, lkey: L -> K, rkey: R -> K): (out: seq<(L, Option<R>)>)
    ensures |out| == if |Matches(right, rkey, lkey(l))| == 0 then 1 else |Matches(right, rkey, lkey(l))|
    ensures forall j :: 0 <= j < |out| ==> out[j].0 == l
  {
    var ms := Matches(right, rkey, lkey(l));
    if |ms| == 0 then [(l, None)]
    else seq(|ms|, j requires 0 <= j < |ms| => (l, Some(ms[j])))
  }

  /** A matched left row is paired with its matches one after another, in
      the order they have in the registry. */
  lemma JoinRowInRegistryOrder<L, R, K>(l: L, right: seq<R>, lkey: L -> K, rkey: R -> K)
    ensures var out := JoinRow(l, right, lkey, rkey); var ms := Matches(right, rkey, lkey(l));
      && IsSubsequence(ms, right)
      && (|ms| > 0 ==> forall j :: 0 <= j < |out| ==> out[j].1 == Some(ms[j]))
  {
    FilterIsSubsequence(right, r => rkey(r) == lkey(l));
  }

  /** pandas `left.merge(right, how='left')` with left key `lkey` and right
      key `rkey`: each left row, in order, followed by its matches. Each
      output row pairs the left row with the matched registry row, or with
      `None` where the registry has no row for the key. */
  function LeftJoin<L, R, K(==)>(left: seq<L>, right: seq<R>, lkey: L -> K, rkey: R -> K): (out: seq<(L, Option<R>)>)
    ensures |out| >= |left|
    decreases |left|
  {
    if |left| == 0 then []
    else JoinRow(left[0], right, lkey, rkey) + LeftJoin(left[1..], right, lkey, rkey)
  }

  /** How many rows a left-outer merge emits: each left row counts once per
      match, and once when it has no match. */
  function FanOut<L, R, K(==)>(left: seq<L>, right: seq<R>, lkey: L -> K, rkey: R -> K): nat
    decreases |left|
  {
    if |left| == 0 then 0
    else
      var m := |Matches(right, rkey, lkey(left[0]))|;
      (if m == 0 then 1 else m) + FanOut(left[1..], right, lkey, rkey)
  }

  /** The row-count law of the left-outer merge. */
  lemma {:induction false} LeftJoinLength<L, R, K>(left: seq<L>, right: seq<R>, lkey: L -> K, rkey: R -> K)
    ensures |LeftJoin(left, right, lkey, rkey)| == FanOut(left, right, lkey, rkey)
    decreases |left|
  {
    if |left| > 0 {
      LeftJoinLength(left[1..], right, lkey, rkey);
    }
  }

  /** The left rows of a merge output, in order. */
  function Lefts<L, R>(out: seq<(L, Option<R>)>): (ls: seq<L>)
    ensures |ls| == |out|
    ensures forall j :: 0 <= j < |out| ==> ls[j] == out[j].0
  {
    seq(|out|, j requires 0 <= j < |out| => out[j].0)
  }

  /** No left row is dropped and none is reordered: the left table is an
      order-preserving subsequence of the merge output's left rows. */
  lemma {:induction false} LeftJoinKeepsLeftRows<L, R, K>(left: seq<L>, right: seq<R>, lkey: L -> K, rkey: R -> K)
    ensures IsSubsequence(left, Lefts(LeftJoin(left, right, lkey, rkey)))
    decreases |left|
  {
    if |left| > 0 {
      var head := JoinRow(left[0], right, lkey, rkey);
      var tail := LeftJoin(left[1..], right, lkey, rkey);
      LeftJoinKeepsLeftRows(left[1..], right, lkey, rkey);
      var ls := Lefts(head + tail);
      assert ls == Lefts(head) + Lefts(tail);
      SubsequenceOfLonger(left[1..], Lefts(head)[1..], Lefts(tail));
      assert ls[1..] == Lefts(head)[1..] + Lefts(tail);
      assert ls[0] == left[0];
    }
  }

  /** `x` is a row a left-outer merge may emit for its left row `x.0`: the
      left row paired with a registry row carrying the same key, or paired
      with `None` when the registry has no row with that key. */
  predicate Joined<L, R(==), K(==)>(x: (L, Option<R>), right: seq<R>, lkey: L -> K, rkey: R -> K) {
    match x.1
    case Some(r) => r in right && rkey(r) == lkey(x.0)
    case None => forall r :: r in right ==> rkey(r) != lkey(x.0)
  }

  /** The rows emitted for one left row are exactly the joined rows for it. */
  lemma JoinRowMembership<L, R, K>(l: L, right: seq<R>, lkey: L -> K, rkey: R -> K, x: (L, Option<R>))
    ensures x in JoinRow(l, right, lkey, rkey) <==> x.0 == l && Joined(x, right, lkey, rkey)
  {
    var ms := Matches(right, rkey, lkey(l));
    var p := (r: R) => rkey(r) == lkey(l);
    NoMatches(right, rkey, lkey(l));
    var out := JoinRow(l, right, lkey, rkey);
    if x in out && x.1.Some? {
      var j :| 0 <= j < |out| && out[j] == x;
      FilterMembership(right, p, ms[j]);
    }
    if x.0 == l && Joined(x, right, lkey, rkey) && x.1.Some? {
      FilterMembership(right, p, x.1.value);
      var j :| 0 <= j < |ms| && ms[j] == x.1.value;
      assert out[j] == x;
    }
  }

  /** The rows of a left-outer merge are exactly the joined rows of the
      left rows: every output row pairs a left row with a registry row of
      the same key, or with `None` when there is none; and every such pair
      is in the output. */
  lemma {:induction false} LeftJoinMembership<L, R, K>(left: seq<L>, right: seq<R>, lkey: L -> K, rkey: R -> K, x: (L, Option<R>))
    ensures x in LeftJoin(left, right, lkey, rkey) <==> x.0 in left && Joined(x, right, lkey, rkey)
    decreases |left|
  {
    if |left| > 0 {
      var head := JoinRow(left[0], right, lkey, rkey);
      var tail := LeftJoin(left[1..], right, lkey, rkey);
      LeftJoinMembership(left[1..], right, lkey, rkey, x);
      JoinRowMembership(left[0], right, lkey, rkey, x);
      assert x in head + tail <==> x in head || x in tail;
      assert left == [left[0]] + left[1..];
      assert x.0 in left <==> x.0 == left[0] || x.0 in left[1..];
    }
  }

  /** Every output row of a merge carries a row of the left table. */
  lemma LeftJoinRowFromLeft<L, R, K>(left: seq<L>, right: seq<R>, lkey: L -> K, rkey: R -> K, k: nat)
    requires k < |LeftJoin(left, right, lkey, rkey)|
    ensures LeftJoin(left, right, lkey, rkey)[k].0 in left
  {
    LeftJoinMembership(left, right, lkey, rkey, LeftJoin(left, right, lkey, rkey)[k]);
  }

  /** The registry row a key matches when it matches at most one. */
  function SoleMatch<R>(ms: seq<R>): Option<R> {
    if |ms| == 0 then None else Some(ms[0])
  }

  /** When every left key matches at most one registry row, the merge keeps
      the row count and the row order: output row `i` is left row `i`,
      paired with its registry row when there is one. */
  lemma {:induction false} LeftJoinAtMostOneMatch<L, R, K>(left: seq<L>, right: seq<R>, lkey: L -> K, rkey: R -> K)
    requires forall i :: 0 <= i < |left| ==> |Matches(right, rkey, lkey(left[i]))| <= 1
    ensures var out := LeftJoin(left, right, lkey, rkey);
      && |out| == |left|
      && forall i :: 0 <= i < |left| ==> out[i] == (left[i], SoleMatch(Matches(right, rkey, lkey(left[i]))))
    decreases |left|
  {
    if |left| > 0 {
      var l := left[0];
      var head := JoinRow(l, right, lkey, rkey);
      var tail := LeftJoin(left[1..], right, lkey, rkey);
      assert forall i :: 0 <= i < |left[1..]| ==> left[1..][i] == left[i + 1];
      LeftJoinAtMostOneMatch(left[1..], right, lkey, rkey);
      assert head == [(l, SoleMatch(Matches(right, rkey, lkey(l))))];
      var out := head + tail;
      forall i | 1 <= i < |left|
        ensures out[i] == tail[i - 1]
      {
      }
    }
  }
}
