/** The counting idiom the core uses twice: a `Record<string, number>` that
    starts empty and, for each key met, does `r[k] = (r[k] ?? 0) + 1`. */
module Counting {

  /** One counting step, `r[k] = (r[k] ?? 0) + 1`: `k` is now present with
      one more than before, every other entry is untouched. */
  function Bump(m: map<string, nat>, k: string): (r: map<string, nat>)
    ensures r.Keys == m.Keys + {k}
    ensures r[k] == (if k in m then m[k] else 0) + 1
    ensures forall j | j in m && j != k :: r[j] == m[j]
  {
    m[k := (if k in m then m[k] else 0) + 1]
  }

  /** The record after counting `xs` from left to right. Its keys are exactly
      the strings of `xs`, and each is mapped to how often it occurs there
      (so never to 0). */
  function Tally(xs: seq<string>): (r: map<string, nat>)
    ensures forall k :: k in r <==> k in xs
    ensures forall k | k in r :: r[k] == multiset(xs)[k] && r[k] >= 1
    decreases |xs|
  {
    if |xs| == 0 then map[]
    else
      var n := |xs| - 1;
      assert xs == xs[..n] + [xs[n]];
      Bump(Tally(xs[..n]), xs[n])
  }

  /** Counting one more key is one more counting step. */
  lemma TallySnoc(xs: seq<string>, x: string)
    ensures Tally(xs + [x]) == Bump(Tally(xs), x)
  {
    assert (xs + [x])[..|xs|] == xs;
  }

  /** Sum of the values of a record. */
  ghost function MapSum(m: map<string, nat>): nat {
    SumOver(m, m.Keys)
  }

  /** Sum of the values of `m` at the keys `ks`. */
  ghost function SumOver(m: map<string, nat>, ks: set<string>): nat
    requires ks <= m.Keys
    decreases ks
  {
    if ks == {} then 0
    else
      var k :| k in ks;
      m[k] + SumOver(m, ks - {k})
  }

  /** The sum can be taken by removing any key first. */
  lemma {:induction false} SumOverRemove(m: map<string, nat>, ks: set<string>, k: string)
    requires ks <= m.Keys && k in ks
    ensures SumOver(m, ks) == m[k] + SumOver(m, ks - {k})
    decreases ks
  {
    var j :| j in ks && SumOver(m, ks) == m[j] + SumOver(m, ks - {j});
    if j != k {
      SumOverRemove(m, ks - {j}, k);
      SumOverRemove(m, ks - {k}, j);
      assert ks - {j} - {k} == ks - {k} - {j};
    }
  }

  /** The sum only reads the values at the keys summed over. */
  lemma {:induction false} SumOverAgree(m: map<string, nat>, m': map<string, nat>, ks: set<string>)
    requires ks <= m.Keys && ks <= m'.Keys
    requires forall k | k in ks :: m[k] == m'[k]
    ensures SumOver(m, ks) == SumOver(m', ks)
    decreases ks
  {
    if ks != {} {
      var j :| j in ks && SumOver(m, ks) == m[j] + SumOver(m, ks - {j});
      SumOverRemove(m', ks, j);
      SumOverAgree(m, m', ks - {j});
    }
  }

  /** One counting step adds exactly one to the total. */
  lemma BumpSum(m: map<string, nat>, k: string)
    ensures MapSum(Bump(m, k)) == MapSum(m) + 1
  {
    var r := Bump(m, k);
    SumOverRemove(r, r.Keys, k);
    assert r.Keys - {k} == m.Keys - {k};
    SumOverAgree(r, m, m.Keys - {k});
    assert MapSum(r) == r[k] + SumOver(m, m.Keys - {k});
    if k in m {
      SumOverRemove(m, m.Keys, k);
    } else {
      assert m.Keys - {k} == m.Keys;
    }
  }

  /** Counting `xs` gives counts that add up to `|xs|`. */
  lemma {:induction false} TallySum(xs: seq<string>)
    ensures MapSum(Tally(xs)) == |xs|
    decreases |xs|
  {
    if |xs| > 0 {
      var n := |xs| - 1;
      TallySum(xs[..n]);
      BumpSum(Tally(xs[..n]), xs[n]);
    }
  }

  /** The record depends only on the multiset of keys counted: counting a
      permutation of `xs` gives the same record. */
  lemma TallyPermutation(xs: seq<string>, ys: seq<string>)
    requires multiset(xs) == multiset(ys)
    ensures Tally(xs) == Tally(ys)
  {
    forall k ensures k in xs <==> k in ys {
      assert k in xs <==> k in multiset(xs);
      assert k in ys <==> k in multiset(ys);
    }
  }
}
