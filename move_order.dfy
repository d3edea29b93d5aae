/** The two display orders of the move tree: children by capture, check and
    mate markers, root moves by a fixed list of opening moves. Both are the
    comparator sorts of main.js, which are stable: the result is sorted by
    non-increasing score and ties keep the engine's order. */
module MoveOrder {
  import opened ChessEngine

  // ---------------------------------------------------------------------
  // A stable sort by non-increasing score

  predicate NonIncreasing<T>(s: seq<T>, score: T -> int) {
    forall i, j :: 0 <= i < j < |s| ==> score(s[i]) >= score(s[j])
  }

  /** Inserts `x` in front of the first element that does not outscore it. */
  function Insert<T>(x: T, t: seq<T>, score: T -> int): (r: seq<T>)
    ensures |r| == |t| + 1
    ensures score(r[0]) == score(x) || (t != [] && score(r[0]) == score(t[0]))
  {
    if t == [] || score(x) >= score(t[0]) then [x] + t
    else [t[0]] + Insert(x, t[1..], score)
  }

  /** Inserting adds `x` and loses nothing. */
  lemma {:induction false} InsertPermutes<T>(x: T, t: seq<T>, score: T -> int)
    ensures multiset(Insert(x, t, score)) == multiset(t) + multiset{x}
  {
    if t != [] && score(x) < score(t[0]) {
      InsertPermutes(x, t[1..], score);
      assert t == [t[0]] + t[1..];
    }
  }

  /** The list in non-increasing score order, ties in their original order. */
  function SortByScore<T>(s: seq<T>, score: T -> int): (r: seq<T>)
    ensures multiset(r) == multiset(s)
    ensures NonIncreasing(r, score)
  {
    if s == [] then []
    else
      assert s == [s[0]] + s[1..];
      InsertSorted(s[0], SortByScore(s[1..], score), score);
      InsertPermutes(s[0], SortByScore(s[1..], score), score);
      Insert(s[0], SortByScore(s[1..], score), score)
  }

  /** Inserting into a sorted list gives a sorted list. */
  lemma {:induction false} InsertSorted<T>(x: T, t: seq<T>, score: T -> int)
    requires NonIncreasing(t, score)
    ensures NonIncreasing(Insert(x, t, score), score)
  {
    if t != [] && score(x) < score(t[0]) {
      var tail := Insert(x, t[1..], score);
      assert NonIncreasing(t[1..], score) by {
        forall i, j | 0 <= i < j < |t[1..]| ensures score(t[1..][i]) >= score(t[1..][j]) {
          assert t[1..][i] == t[i + 1] && t[1..][j] == t[j + 1];
        }
      }
      InsertSorted(x, t[1..], score);
      assert score(t[0]) >= score(tail[0]) by {
        if |t| > 1 { assert t[1..][0] == t[1]; }
      }
      var r := [t[0]] + tail;
      forall i, j | 0 <= i < j < |r| ensures score(r[i]) >= score(r[j]) {
        if i == 0 {
          assert r[j] == tail[j - 1];
          if j > 1 { assert score(tail[0]) >= score(tail[j - 1]); }
        } else {
          assert r[i] == tail[i - 1] && r[j] == tail[j - 1];
        }
      }
    } else {
      var r := [x] + t;
      forall i, j | 0 <= i < j < |r| ensures score(r[i]) >= score(r[j]) {
        if i == 0 {
          assert r[j] == t[j - 1];
          if j > 1 { assert score(t[0]) >= score(t[j - 1]); }
        } else {
          assert r[i] == t[i - 1] && r[j] == t[j - 1];
        }
      }
    }
  }

  /** The elements of `s` that score exactly `v`, in their order in `s`. */
  function WithScore<T>(s: seq<T>, score: T -> int, v: int): seq<T> {
    if s == [] then []
    else (if score(s[0]) == v then [s[0]] else []) + WithScore(s[1..], score, v)
  }

  lemma {:induction false} WithScoreAppend<T>(a: seq<T>, b: seq<T>, score: T -> int, v: int)
    ensures WithScore(a + b, score, v) == WithScore(a, score, v) + WithScore(b, score, v)
  {
    if a != [] {
      assert (a + b)[0] == a[0];
      assert (a + b)[1..] == a[1..] + b;
      WithScoreAppend(a[1..], b, score, v);
    } else {
      assert a + b == b;
    }
  }

  lemma WithScoreCons<T>(x: T, t: seq<T>, score: T -> int, v: int)
    ensures WithScore([x] + t, score, v) == (if score(x) == v then [x] else []) + WithScore(t, score, v)
  {
    assert ([x] + t)[0] == x && ([x] + t)[1..] == t;
  }

  /** Inserting keeps the relative order of every score class. */
  lemma {:induction false} InsertWithScore<T>(x: T, t: seq<T>, score: T -> int, v: int)
    ensures WithScore(Insert(x, t, score), score, v)
         == (if score(x) == v then [x] else []) + WithScore(t, score, v)
  {
    var hx: seq<T> := if score(x) == v then [x] else [];
    if t == [] || score(x) >= score(t[0]) {
      assert Insert(x, t, score) == [x] + t;
      WithScoreCons(x, t, score, v);
    } else {
      var rest := Insert(x, t[1..], score);
      assert Insert(x, t, score) == [t[0]] + rest;
      assert t == [t[0]] + t[1..];
      InsertWithScore(x, t[1..], score, v);
      WithScoreCons(t[0], rest, score, v);
      WithScoreCons(t[0], t[1..], score, v);
      var ht: seq<T> := if score(t[0]) == v then [t[0]] else [];
      var w := WithScore(t[1..], score, v);
      assert hx == [] || ht == [];
      assert ht + (hx + w) == hx + (ht + w);
    }
  }

  /** Stability: each score class comes out in the order it went in. */
  lemma {:induction false} SortStable<T>(s: seq<T>, score: T -> int, v: int)
    ensures WithScore(SortByScore(s, score), score, v) == WithScore(s, score, v)
  {
    if s != [] {
      SortStable(s[1..], score, v);
      InsertWithScore(s[0], SortByScore(s[1..], score), score, v);
    }
  }

  /** Inserting behind a block of strictly higher scores leaves the block in front. */
  lemma {:induction false} InsertBehind<T>(x: T, a: seq<T>, b: seq<T>, score: T -> int)
    requires forall i :: 0 <= i < |a| ==> score(a[i]) > score(x)
    ensures Insert(x, a + b, score) == a + Insert(x, b, score)
  {
    if a != [] {
      var ab := a + b;
      assert ab[0] == a[0] && ab[1..] == a[1..] + b;
      assert score(x) < score(ab[0]);
      assert Insert(x, ab, score) == [a[0]] + Insert(x, a[1..] + b, score);
      InsertBehind(x, a[1..], b, score);
      var ib := Insert(x, b, score);
      assert [a[0]] + (a[1..] + ib) == ([a[0]] + a[1..]) + ib;
      assert a == [a[0]] + a[1..];
    } else {
      assert a + b == b;
    }
  }

  // ---------------------------------------------------------------------
  // Children: captures, checks and mates first (main.js:296-305)

  /** The child score: 10 for a capture, 5 for a '+' and 100 for a '#' in the SAN. */
  function ChildScore(m: Move): (r: int)
    ensures r >= 100 <==> '#' in m.san
    ensures r % 100 >= 10 <==> m.captured
    ensures r % 10 == 5 <==> '+' in m.san
  {
    (if m.captured then 10 else 0) + (if '+' in m.san then 5 else 0) + (if '#' in m.san then 100 else 0)
  }

  /** The engine's moves in the order the tree shows a node's children. */
  function ChildOrder(ms: seq<Move>): seq<Move> {
    SortByScore(ms, ChildScore)
  }

  /** Mating moves come before all others; among the rest captures come
      before non-captures, and among equals a check comes first. */
  lemma ChildOrderRanks(ms: seq<Move>, i: nat, j: nat)
    requires i < |ChildOrder(ms)| && j < |ChildOrder(ms)|
    requires var a, b := ChildOrder(ms)[i], ChildOrder(ms)[j];
      || ('#' in a.san && '#' !in b.san)
      || ('#' !in a.san && '#' !in b.san && a.captured && !b.captured)
      || ('#' !in a.san && '#' !in b.san && a.captured == b.captured && '+' in a.san && '+' !in b.san)
    ensures i < j
  {
    var r := ChildOrder(ms);
    assert ChildScore(r[i]) > ChildScore(r[j]);
  }

  /** The children are exactly the engine's moves, and moves of equal score
      keep the engine's relative order. */
  lemma ChildOrderIsStablePermutation(ms: seq<Move>, v: int)
    ensures multiset(ChildOrder(ms)) == multiset(ms)
    ensures WithScore(ChildOrder(ms), ChildScore, v) == WithScore(ms, ChildScore, v)
  {
    SortStable(ms, ChildScore, v);
  }

  // ---------------------------------------------------------------------
  // Root moves: a fixed list of opening moves first (main.js:387-392)

  const OpeningMoves: seq<string> := ["e4", "e5", "d4", "d5", "Nf3", "Nc6", "Nf6", "Nc3"]

  function OpeningScore(m: Move): (r: int)
    ensures r == 10 || r == 0
    ensures r == 10 <==> m.san in OpeningMoves
  {
    if m.san in OpeningMoves then 10 else 0
  }

  /** The engine's moves in the order the tree shows the root moves. */
  function RootOrder(ms: seq<Move>): seq<Move> {
    SortByScore(ms, OpeningScore)
  }

  /** With only two score levels, the stable sort is the high block followed
      by the low block, each in original order. */
  lemma {:induction false} TwoLevelSplit<T>(s: seq<T>, score: T -> int, hi: int, lo: int)
    requires hi > lo
    requires forall i :: 0 <= i < |s| ==> score(s[i]) == hi || score(s[i]) == lo
    ensures SortByScore(s, score) == WithScore(s, score, hi) + WithScore(s, score, lo)
  {
    if s != [] {
      var rest := s[1..];
      TwoLevelSplit(rest, score, hi, lo);
      WithScoreScores(rest, score, hi);
      WithScoreScores(rest, score, lo);
      var a, b := WithScore(rest, score, hi), WithScore(rest, score, lo);
      TwoLevelStep(s[0], a, b, score, hi, lo);
      assert SortByScore(s, score) == Insert(s[0], a + b, score);
      assert WithScore(s, score, hi) == (if score(s[0]) == hi then [s[0]] else []) + a;
      assert WithScore(s, score, lo) == (if score(s[0]) == lo then [s[0]] else []) + b;
    }
  }

  /** One step of TwoLevelSplit: inserting an element into the two blocks. */
  lemma TwoLevelStep<T>(x: T, a: seq<T>, b: seq<T>, score: T -> int, hi: int, lo: int)
    requires hi > lo && (score(x) == hi || score(x) == lo)
    requires forall i :: 0 <= i < |a| ==> score(a[i]) == hi
    requires forall i :: 0 <= i < |b| ==> score(b[i]) == lo
    ensures Insert(x, a + b, score)
         == ((if score(x) == hi then [x] else []) + a) + ((if score(x) == lo then [x] else []) + b)
  {
    if score(x) == hi {
      assert a + b != [] ==> score(x) >= score((a + b)[0]);
      assert Insert(x, a + b, score) == [x] + (a + b);
      assert [x] + (a + b) == ([x] + a) + ([] + b);
    } else {
      InsertBehind(x, a, b, score);
      assert b != [] ==> score(x) >= score(b[0]);
      assert Insert(x, b, score) == [x] + b;
      assert a + ([x] + b) == ([] + a) + ([x] + b);
    }
  }

  /** The root order is the listed opening moves in engine order, then the
      others in engine order. */
  lemma RootOrderSplits(ms: seq<Move>)
    ensures RootOrder(ms) == WithScore(ms, OpeningScore, 10) + WithScore(ms, OpeningScore, 0)
  {
    TwoLevelSplit(ms, OpeningScore, 10, 0);
  }

  lemma {:induction false} WithScoreScores<T>(s: seq<T>, score: T -> int, v: int)
    ensures forall i :: 0 <= i < |WithScore(s, score, v)| ==> score(WithScore(s, score, v)[i]) == v
  {
    if s != [] {
      WithScoreScores(s[1..], score, v);
    }
  }

  /** A listed opening move is shown before every move not on the list
      (for example e4 before a3). */
  lemma OpeningMovesFirst(ms: seq<Move>, i: nat, j: nat)
    requires i < |RootOrder(ms)| && j < |RootOrder(ms)|
    requires RootOrder(ms)[i].san in OpeningMoves && RootOrder(ms)[j].san !in OpeningMoves
    ensures i < j
  {
  }

  // ---------------------------------------------------------------------
  // Facts the move tree needs about the sorted lists

  /** A sort keeps the SANs distinct when the engine's list had them distinct. */
  lemma {:induction false} SortKeepsDistinct(ms: seq<Move>, score: Move -> int)
    requires DistinctSans(ms)
    ensures DistinctSans(SortByScore(ms, score))
  {
    if ms != [] {
      var rest := ms[1..];
      assert DistinctSans(rest) by {
        forall i, j | 0 <= i < j < |rest| ensures rest[i].san != rest[j].san {
          assert rest[i] == ms[i + 1] && rest[j] == ms[j + 1];
        }
      }
      SortKeepsDistinct(rest, score);
      assert SanFree(rest, ms[0].san) by {
        forall k | 0 <= k < |rest| ensures rest[k].san != ms[0].san { assert rest[k] == ms[k + 1]; }
      }
      SortSanFree(rest, score, ms[0].san);
      var t := SortByScore(rest, score);
      InsertKeepsDistinct(ms[0], t, score);
    }
  }

  /** No move of `t` is written `san`. */
  predicate SanFree(t: seq<Move>, san: string) {
    forall k :: 0 <= k < |t| ==> t[k].san != san
  }

  lemma {:induction false} InsertSanFree(x: Move, t: seq<Move>, score: Move -> int, san: string)
    requires SanFree(t, san) && x.san != san
    ensures SanFree(Insert(x, t, score), san)
  {
    if t != [] && score(x) < score(t[0]) {
      InsertSanFree(x, t[1..], score, san);
      var tail := Insert(x, t[1..], score);
      assert Insert(x, t, score) == [t[0]] + tail;
      forall k | 0 <= k < |tail| + 1 ensures ([t[0]] + tail)[k].san != san {
        if k > 0 { assert ([t[0]] + tail)[k] == tail[k - 1]; }
      }
    } else {
      forall k | 0 <= k < |t| + 1 ensures ([x] + t)[k].san != san {
        if k > 0 { assert ([x] + t)[k] == t[k - 1]; }
      }
    }
  }

  lemma {:induction false} SortSanFree(ms: seq<Move>, score: Move -> int, san: string)
    requires SanFree(ms, san)
    ensures SanFree(SortByScore(ms, score), san)
  {
    if ms != [] {
      assert SanFree(ms[1..], san) by {
        forall k | 0 <= k < |ms[1..]| ensures ms[1..][k].san != san { assert ms[1..][k] == ms[k + 1]; }
      }
      SortSanFree(ms[1..], score, san);
      InsertSanFree(ms[0], SortByScore(ms[1..], score), score, san);
    }
  }

  lemma {:induction false} InsertKeepsDistinct(x: Move, t: seq<Move>, score: Move -> int)
    requires DistinctSans(t)
    requires SanFree(t, x.san)
    ensures DistinctSans(Insert(x, t, score))
  {
    if t != [] && score(x) < score(t[0]) {
      var rest := t[1..];
      assert DistinctSans(rest) by {
        forall i, j | 0 <= i < j < |rest| ensures rest[i].san != rest[j].san {
          assert rest[i] == t[i + 1] && rest[j] == t[j + 1];
        }
      }
      assert SanFree(rest, x.san) by {
        forall k | 0 <= k < |rest| ensures rest[k].san != x.san { assert rest[k] == t[k + 1]; }
      }
      assert SanFree(rest, t[0].san) by {
        forall k | 0 <= k < |rest| ensures rest[k].san != t[0].san { assert rest[k] == t[k + 1]; }
      }
      InsertKeepsDistinct(x, rest, score);
      InsertSanFree(x, rest, score, t[0].san);
      var tail := Insert(x, rest, score);
      var r := [t[0]] + tail;
      assert Insert(x, t, score) == r;
      forall i, j | 0 <= i < j < |r| ensures r[i].san != r[j].san {
        assert r[j] == tail[j - 1];
        if i > 0 { assert r[i] == tail[i - 1]; }
      }
    } else {
      var r := [x] + t;
      forall i, j | 0 <= i < j < |r| ensures r[i].san != r[j].san {
        assert r[j] == t[j - 1];
        if i > 0 { assert r[i] == t[i - 1]; }
      }
    }
  }

  /** Every move of a sorted list is a move of the engine's list. */
  lemma SortedMember<T>(ms: seq<T>, score: T -> int, k: nat)
    requires k < |SortByScore(ms, score)|
    ensures SortByScore(ms, score)[k] in ms
  {
    var r := SortByScore(ms, score);
    assert r[k] in multiset(r);
  }
}
