/**
  The `PriorityQueue` class of app.js: a list kept in ascending score order
  by re-sorting the whole list after every push. `Array.prototype.sort` is
  stable, so entries with equal scores stay in insertion order; the model
  spells that sort out as a left-to-right insertion sort.
*/
module PriorityQueue {
  import opened Grid

  /** A frontier entry: a position and the score the queue orders by. */
  datatype Node = Node(pos: Pos, score: int)

  predicate Sorted(q: seq<Node>) {
    forall a, b :: 0 <= a < b < |q| ==> q[a].score <= q[b].score
  }

  /** The entries of `q` whose score is `v`, in their order in `q`; a sort is
      stable exactly when it keeps every such subsequence. */
  function WithScore(q: seq<Node>, v: int): seq<Node> {
    if |q| == 0 then []
    else (if q[0].score == v then [q[0]] else []) + WithScore(q[1..], v)
  }

  /** `x` placed after every entry whose score is at most `x.score`. */
  function Insert(q: seq<Node>, x: Node): seq<Node> {
    if |q| == 0 then [x]
    else if q[0].score <= x.score then [q[0]] + Insert(q[1..], x)
    else [x] + q
  }

  /** The stable ascending sort performed by `_data.sort((a, b) => score(a) - score(b))`. */
  function SortByScore(q: seq<Node>): seq<Node> {
    if |q| == 0 then [] else Insert(SortByScore(q[..|q| - 1]), q[|q| - 1])
  }

  lemma {:induction false} WithScoreAppend(a: seq<Node>, b: seq<Node>, v: int)
    ensures WithScore(a + b, v) == WithScore(a, v) + WithScore(b, v)
  {
    if |a| == 0 {
      assert a + b == b;
    } else {
      var h := if a[0].score == v then [a[0]] else [];
      assert (a + b)[0] == a[0];
      assert (a + b)[1..] == a[1..] + b;
      WithScoreAppend(a[1..], b, v);
      assert WithScore(a + b, v) == h + (WithScore(a[1..], v) + WithScore(b, v));
      assert WithScore(a, v) == h + WithScore(a[1..], v);
    }
  }

  lemma {:induction false} WithScoreNone(q: seq<Node>, v: int)
    requires forall k :: 0 <= k < |q| ==> q[k].score != v
    ensures WithScore(q, v) == []
  {
    if |q| > 0 {
      WithScoreNone(q[1..], v);
    }
  }

  /** How many leading entries `Insert` steps over. */
  function InsertPoint(q: seq<Node>, x: Node): (k: nat)
    ensures k <= |q|
  {
    if |q| == 0 then 0
    else if q[0].score <= x.score then 1 + InsertPoint(q[1..], x)
    else 0
  }

  /** `Insert` splits the list at its insertion point; on a sorted list every
      entry before that point scores at most `x.score` and every entry after it
      scores more. */
  lemma {:induction false} InsertSplits(q: seq<Node>, x: Node)
    ensures Insert(q, x) == q[..InsertPoint(q, x)] + [x] + q[InsertPoint(q, x)..]
    ensures forall t :: 0 <= t < InsertPoint(q, x) ==> q[t].score <= x.score
    ensures Sorted(q) ==> forall t :: InsertPoint(q, x) <= t < |q| ==> q[t].score > x.score
  {
    if |q| > 0 && q[0].score <= x.score {
      InsertSplits(q[1..], x);
      var k := InsertPoint(q[1..], x);
      assert q[..k + 1] == [q[0]] + q[1..][..k];
      assert q[k + 1..] == q[1..][k..];
      forall t | 0 < t < k + 1
        ensures q[t].score <= x.score
      {
        assert q[t] == q[1..][t - 1];
      }
      if Sorted(q) {
        assert Sorted(q[1..]);
        forall t | k + 1 <= t < |q|
          ensures q[t].score > x.score
        {
          assert q[t] == q[1..][t - 1];
        }
      }
    }
  }

  /** Inserting into a sorted list keeps it sorted and adds exactly `x`. */
  lemma InsertSorted(q: seq<Node>, x: Node)
    requires Sorted(q)
    ensures Sorted(Insert(q, x))
    ensures multiset(Insert(q, x)) == multiset(q) + multiset{x}
  {
    InsertSplits(q, x);
    var k := InsertPoint(q, x);
    var r := Insert(q, x);
    assert q == q[..k] + q[k..];
    forall a, b | 0 <= a < b < |r|
      ensures r[a].score <= r[b].score
    {
      if a < k && b < k {
        assert r[a] == q[a] && r[b] == q[b];
      } else if a < k && b > k {
        assert r[a] == q[a] && r[b] == q[b - 1];
      } else if a > k {
        assert r[a] == q[a - 1] && r[b] == q[b - 1];
      }
    }
  }

  /** `x` lands behind every entry of equal score: every score's subsequence
      is kept, with `x` appended to its own. */
  lemma InsertStable(q: seq<Node>, x: Node, v: int)
    requires Sorted(q)
    ensures WithScore(Insert(q, x), v) == WithScore(q, v) + WithScore([x], v)
  {
    InsertSplits(q, x);
    var k := InsertPoint(q, x);
    assert q == q[..k] + q[k..];
    WithScoreAppend(q[..k] + [x], q[k..], v);
    WithScoreAppend(q[..k], [x], v);
    WithScoreAppend(q[..k], q[k..], v);
    assert [x][1..] == [];
    if v == x.score {
      WithScoreNone(q[k..], v);
    }
  }

  /** Sorting orders by score, permutes, and is stable. */
  lemma {:induction false} SortSpec(q: seq<Node>)
    ensures Sorted(SortByScore(q))
    ensures multiset(SortByScore(q)) == multiset(q)
    ensures forall v :: WithScore(SortByScore(q), v) == WithScore(q, v)
  {
    if |q| > 0 {
      var init := q[..|q| - 1];
      var last := q[|q| - 1];
      SortSpec(init);
      InsertSorted(SortByScore(init), last);
      assert q == init + [last];
      forall v
        ensures WithScore(SortByScore(q), v) == WithScore(q, v)
      {
        InsertStable(SortByScore(init), last, v);
        WithScoreAppend(init, [last], v);
      }
    }
  }

  /** Sorting a list that is already sorted leaves it unchanged. */
  lemma {:induction false} SortSorted(q: seq<Node>)
    requires Sorted(q)
    ensures SortByScore(q) == q
  {
    if |q| > 0 {
      var init := q[..|q| - 1];
      var last := q[|q| - 1];
      SortSorted(init);
      InsertAtEnd(init, last);
      assert q == init + [last];
    }
  }

  lemma {:induction false} InsertAtEnd(q: seq<Node>, x: Node)
    requires forall k :: 0 <= k < |q| ==> q[k].score <= x.score
    ensures Insert(q, x) == q + [x]
  {
    if |q| > 0 {
      InsertAtEnd(q[1..], x);
      assert q == [q[0]] + q[1..];
    }
  }

  /** `push`: append, then re-sort the whole list. On a sorted queue the new
      entry lands behind every entry with score at most its own. */
  function Push(q: seq<Node>, x: Node): (r: seq<Node>)
    ensures |r| == |q| + 1
    ensures Sorted(r)
    ensures multiset(r) == multiset(q) + multiset{x}
    ensures forall v :: WithScore(r, v) == WithScore(q + [x], v)
    ensures Sorted(q) ==> WithScore(r, x.score) == WithScore(q, x.score) + [x]
  {
    PushFacts(q, x);
    SortByScore(q + [x])
  }

  lemma PushFacts(q: seq<Node>, x: Node)
    ensures |SortByScore(q + [x])| == |q| + 1
    ensures Sorted(SortByScore(q + [x]))
    ensures multiset(SortByScore(q + [x])) == multiset(q) + multiset{x}
    ensures forall v :: WithScore(SortByScore(q + [x]), v) == WithScore(q + [x], v)
    ensures Sorted(q) ==> WithScore(SortByScore(q + [x]), x.score) == WithScore(q, x.score) + [x]
  {
    SortSpec(q + [x]);
    assert |SortByScore(q + [x])| == |q| + 1 by {
      assert |multiset(SortByScore(q + [x]))| == |multiset(q + [x])|;
    }
    WithScoreAppend(q, [x], x.score);
    assert WithScore([x], x.score) == [x] by { assert [x][1..] == []; }
  }

  /** On a sorted queue `push` is a single ordered insertion. */
  lemma PushIsInsert(q: seq<Node>, x: Node)
    requires Sorted(q)
    ensures Push(q, x) == Insert(q, x)
  {
    SortSorted(q);
    assert (q + [x])[..|q|] == q;
  }

  /** `shift`: remove and return the front entry; None on an empty queue
      (where the source returns undefined). On a sorted queue the front entry
      has the least score. */
  function Shift(q: seq<Node>): (r: Option<(Node, seq<Node>)>)
    ensures r.None? <==> |q| == 0
    ensures r.Some? ==> q == [r.value.0] + r.value.1
    ensures r.Some? ==> |r.value.1| == |q| - 1
    ensures r.Some? ==> multiset(q) == multiset(r.value.1) + multiset{r.value.0}
    ensures r.Some? && Sorted(q) ==>
              Sorted(r.value.1) && forall n :: n in q ==> r.value.0.score <= n.score
  {
    if |q| == 0 then None
    else
      assert q == [q[0]] + q[1..];
      Some((q[0], q[1..]))
  }

  /** `length` */
  function Length(q: seq<Node>): nat {
    |q|
  }

  /** A push grows the queue by one entry and a shift of a non-empty queue
      shrinks it by one. */
  lemma LengthSteps(q: seq<Node>, x: Node)
    ensures Length(Push(q, x)) == Length(q) + 1
    ensures |q| > 0 ==> Length(Shift(q).value.1) == Length(q) - 1
  {
  }
}
