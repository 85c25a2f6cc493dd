/** Left outer join of two row sequences on a key that may be missing.
    A missing key (SQL NULL) matches nothing, as in SQL's `LEFT JOIN ... ON
    a.k = b.k`; a join whose keys are never missing behaves like pandas'
    `merge(how="left")` on string keys. Rows come out left-major: for each
    left row in order, its partners in right-table order. */
module Join {
  import opened Wrappers

  /** `a = b` in SQL: true only when both sides are present and equal. */
  predicate KeyMatch<K(==)>(a: Option<K>, b: Option<K>) {
    a.Some? && b.Some? && a.value == b.value
  }

  /** The right rows that join with a left row of key `k`, in right-table order. */
  function Partners<R, K(==)>(k: Option<K>, rs: seq<R>, rk: R -> Option<K>): (m: seq<R>)
    ensures |m| <= |rs|
    ensures k.None? ==> m == []
  {
    if rs == [] then []
    else (if KeyMatch(k, rk(rs[0])) then [rs[0]] else []) + Partners(k, rs[1..], rk)
  }

  /** The partners are exactly the right rows whose key matches `k`. */
  lemma {:induction false} PartnersSpec<R, K>(k: Option<K>, rs: seq<R>, rk: R -> Option<K>)
    ensures forall j :: 0 <= j < |Partners(k, rs, rk)| ==>
              Partners(k, rs, rk)[j] in rs && KeyMatch(k, rk(Partners(k, rs, rk)[j]))
    ensures forall i :: 0 <= i < |rs| && KeyMatch(k, rk(rs[i])) ==> rs[i] in Partners(k, rs, rk)
  {
    if rs != [] {
      PartnersSpec(k, rs[1..], rk);
      var head := if KeyMatch(k, rk(rs[0])) then [rs[0]] else [];
      var tail := Partners(k, rs[1..], rk);
      var m := Partners(k, rs, rk);
      assert m == head + tail;
      forall j | 0 <= j < |m|
        ensures m[j] in rs && KeyMatch(k, rk(m[j]))
      {
        if j >= |head| {
          assert m[j] == tail[j - |head|];
        }
      }
      forall i | 0 <= i < |rs| && KeyMatch(k, rk(rs[i]))
        ensures rs[i] in m
      {
        if i > 0 {
          assert rs[i] == rs[1..][i - 1];
          assert rs[i] in tail;
        }
      }
    }
  }

  /** The partners of a concatenation are the partners in each part, and a
      single right row is a partner exactly when its key matches: together
      the partners are the matching right rows, in right-table order, each
      as often as it occurs. */
  lemma PartnersAppend<R, K>(k: Option<K>, a: seq<R>, b: seq<R>, rk: R -> Option<K>)
    ensures Partners(k, a + b, rk) == Partners(k, a, rk) + Partners(k, b, rk)
    ensures forall x :: Partners(k, [x], rk) == if KeyMatch(k, rk(x)) then [x] else []
  {
    PartnersConcat(k, a, b, rk);
    forall x
      ensures Partners(k, [x], rk) == if KeyMatch(k, rk(x)) then [x] else []
    {
      assert [x][1..] == [];
    }
  }

  /** The append half of `PartnersAppend`, by induction on the first part. */
  lemma {:induction false} PartnersConcat<R, K>(k: Option<K>, a: seq<R>, b: seq<R>, rk: R -> Option<K>)
    ensures Partners(k, a + b, rk) == Partners(k, a, rk) + Partners(k, b, rk)
  {
    if a == [] {
      assert a + b == b;
    } else {
      var h := if KeyMatch(k, rk(a[0])) then [a[0]] else [];
      assert Partners(k, a + b, rk) == h + Partners(k, a[1..] + b, rk) by {
        assert (a + b)[0] == a[0];
        assert (a + b)[1..] == a[1..] + b;
      }
      PartnersConcat(k, a[1..], b, rk);
      assert h + (Partners(k, a[1..], rk) + Partners(k, b, rk)) == (h + Partners(k, a[1..], rk)) + Partners(k, b, rk);
    }
  }

  /** The joined rows contributed by one left row: one per partner, or the left
      row once with no right side when it has no partner. */
  function JoinOne<L, R, K(==)>(l: L, rs: seq<R>, lk: L -> Option<K>, rk: R -> Option<K>)
    : (out: seq<(L, Option<R>)>)
    ensures |out| >= 1
    ensures forall j :: 0 <= j < |out| ==> out[j].0 == l
    ensures Partners(lk(l), rs, rk) == [] ==> out == [(l, None)]
    ensures Partners(lk(l), rs, rk) != [] ==>
              |out| == |Partners(lk(l), rs, rk)|
              && forall j :: 0 <= j < |out| ==> out[j].1 == Some(Partners(lk(l), rs, rk)[j])
  {
    var m := Partners(lk(l), rs, rk);
    if m == [] then [(l, None)] else seq(|m|, j requires 0 <= j < |m| => (l, Some(m[j])))
  }

  /** `ls LEFT JOIN rs ON lk = rk`. */
  function LeftJoin<L, R, K(==)>(ls: seq<L>, rs: seq<R>, lk: L -> Option<K>, rk: R -> Option<K>)
    : (out: seq<(L, Option<R>)>)
    ensures |out| >= |ls|
  {
    if ls == [] then [] else JoinOne(ls[0], rs, lk, rk) + LeftJoin(ls[1..], rs, lk, rk)
  }

  /** The number of rows a left join produces: each left row counts once, or
      once per partner when it has more than one. */
  function JoinSize<L, R, K(==)>(ls: seq<L>, rs: seq<R>, lk: L -> Option<K>, rk: R -> Option<K>): nat
  {
    if ls == [] then 0
    else
      var n := |Partners(lk(ls[0]), rs, rk)|;
      (if n == 0 then 1 else n) + JoinSize(ls[1..], rs, lk, rk)
  }

  lemma {:induction false} LeftJoinSize<L, R, K>(ls: seq<L>, rs: seq<R>, lk: L -> Option<K>, rk: R -> Option<K>)
    ensures |LeftJoin(ls, rs, lk, rk)| == JoinSize(ls, rs, lk, rk)
  {
    if ls != [] {
      LeftJoinSize(ls[1..], rs, lk, rk);
    }
  }

  /** Joining a concatenation is concatenating the joins: the join can be
      computed left row by left row. */
  lemma {:induction false} LeftJoinAppend<L, R, K>(a: seq<L>, b: seq<L>, rs: seq<R>, lk: L -> Option<K>, rk: R -> Option<K>)
    ensures LeftJoin(a + b, rs, lk, rk) == LeftJoin(a, rs, lk, rk) + LeftJoin(b, rs, lk, rk)
  {
    if a != [] {
      assert (a + b)[1..] == a[1..] + b;
      LeftJoinAppend(a[1..], b, rs, lk, rk);
      var h, ta, tb := JoinOne(a[0], rs, lk, rk), LeftJoin(a[1..], rs, lk, rk), LeftJoin(b, rs, lk, rk);
      assert h + (ta + tb) == (h + ta) + tb;
    } else {
      assert a + b == b;
    }
  }

  /** Every left row appears in the join, at the position where the rows of
      the left rows before it end: an outer join drops no left row and keeps
      left-table order. */
  lemma LeftJoinKeepsLeft<L, R, K>(ls: seq<L>, rs: seq<R>, lk: L -> Option<K>, rk: R -> Option<K>)
    ensures forall i :: 0 <= i < |ls| ==>
              |LeftJoin(ls[..i], rs, lk, rk)| < |LeftJoin(ls, rs, lk, rk)|
              && LeftJoin(ls, rs, lk, rk)[|LeftJoin(ls[..i], rs, lk, rk)|].0 == ls[i]
  {
    forall i | 0 <= i < |ls|
      ensures |LeftJoin(ls[..i], rs, lk, rk)| < |LeftJoin(ls, rs, lk, rk)|
              && LeftJoin(ls, rs, lk, rk)[|LeftJoin(ls[..i], rs, lk, rk)|].0 == ls[i]
    {
      var pre, post := ls[..i], ls[i..];
      assert ls == pre + post;
      LeftJoinAppend(pre, post, rs, lk, rk);
      assert post[0] == ls[i];
      var head := JoinOne(ls[i], rs, lk, rk);
      assert LeftJoin(post, rs, lk, rk) == head + LeftJoin(post[1..], rs, lk, rk);
      assert LeftJoin(post, rs, lk, rk)[0] == head[0];
    }
  }

  /** A joined right side is always a row of the right table whose key is
      present and equal to its left row's key. */
  lemma {:induction false} LeftJoinMatches<L, R, K>(ls: seq<L>, rs: seq<R>, lk: L -> Option<K>, rk: R -> Option<K>)
    ensures forall j :: 0 <= j < |LeftJoin(ls, rs, lk, rk)| && LeftJoin(ls, rs, lk, rk)[j].1.Some? ==>
              LeftJoin(ls, rs, lk, rk)[j].1.value in rs
              && KeyMatch(lk(LeftJoin(ls, rs, lk, rk)[j].0), rk(LeftJoin(ls, rs, lk, rk)[j].1.value))
  {
    if ls != [] {
      var head := JoinOne(ls[0], rs, lk, rk);
      var tail := LeftJoin(ls[1..], rs, lk, rk);
      var out := LeftJoin(ls, rs, lk, rk);
      assert out == head + tail;
      LeftJoinMatches(ls[1..], rs, lk, rk);
      forall j | 0 <= j < |out| && out[j].1.Some?
        ensures out[j].1.value in rs && KeyMatch(lk(out[j].0), rk(out[j].1.value))
      {
        if j >= |head| {
          assert out[j] == tail[j - |head|];
        } else {
          assert out[j] == head[j];
          JoinOnePartner(ls[0], rs, lk, rk, j);
        }
      }
    }
  }

  /** A right side in one left row's rows is a partner of that row. */
  lemma JoinOnePartner<L, R, K>(l: L, rs: seq<R>, lk: L -> Option<K>, rk: R -> Option<K>, j: nat)
    requires j < |JoinOne(l, rs, lk, rk)| && JoinOne(l, rs, lk, rk)[j].1.Some?
    ensures JoinOne(l, rs, lk, rk)[j].1.value in rs
    ensures KeyMatch(lk(l), rk(JoinOne(l, rs, lk, rk)[j].1.value))
  {
    var m := Partners(lk(l), rs, rk);
    PartnersSpec(lk(l), rs, rk);
    assert JoinOne(l, rs, lk, rk)[j].1.value == m[j];
  }

  /** When no left row has more than one partner, the join has exactly one
      row per left row, in left-table order. */
  lemma {:induction false} LeftJoinAtMostOne<L, R, K>(ls: seq<L>, rs: seq<R>, lk: L -> Option<K>, rk: R -> Option<K>)
    requires forall i :: 0 <= i < |ls| ==> |Partners(lk(ls[i]), rs, rk)| <= 1
    ensures |LeftJoin(ls, rs, lk, rk)| == |ls|
    ensures forall i :: 0 <= i < |ls| ==> LeftJoin(ls, rs, lk, rk)[i].0 == ls[i]
  {
    if ls != [] {
      assert |Partners(lk(ls[0]), rs, rk)| <= 1;
      assert forall i :: 0 <= i < |ls[1..]| ==> ls[1..][i] == ls[i + 1];
      LeftJoinAtMostOne(ls[1..], rs, lk, rk);
    }
  }

  /** A left row with a missing key joins with nothing. */
  lemma NullKeyJoinsNothing<L, R, K>(l: L, rs: seq<R>, lk: L -> Option<K>, rk: R -> Option<K>)
    requires lk(l).None?
    ensures LeftJoin([l], rs, lk, rk) == [(l, None)]
  {
    assert [l][1..] == [];
  }
}
