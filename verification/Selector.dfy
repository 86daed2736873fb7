/** Choosing a connection from a pool by quality score. */
module Selector {
  import opened Basics

  /** Scores are u8. */
  type Score = n: nat | n < 0x100

  /** A pooled connection with the score it reports. */
  datatype Connection = Connection(id: nat, score: Score)

  function Scores(pool: seq<Connection>): (s: seq<Score>)
    ensures |s| == |pool| && forall i :: 0 <= i < |pool| ==> s[i] == pool[i].score
  {
    seq(|pool|, i requires 0 <= i < |pool| => pool[i].score)
  }

  function Sum(s: seq<nat>): nat {
    if s == [] then 0 else Sum(s[..|s| - 1]) + s[|s| - 1]
  }

  /** The index a draw lands on; the length if it lands on none. */
  function Pick(scores: seq<nat>, draw: nat): (i: nat)
    ensures i <= |scores|
  {
    if scores == [] then 0
    else if draw < scores[0] then 0
    else 1 + Pick(scores[1..], draw - scores[0])
  }

  /** `Vec::swap_remove`: the last element takes the place of the removed one. */
  function SwapRemove<T>(s: seq<T>, i: nat): seq<T>
    requires i < |s|
  {
    if i == |s| - 1 then s[..i] else s[..|s| - 1][i := s[|s| - 1]]
  }

  lemma SwapRemoveLosesOne<T>(s: seq<T>, i: nat)
    requires i < |s|
    ensures multiset(SwapRemove(s, i)) + multiset{s[i]} == multiset(s)
    ensures |SwapRemove(s, i)| == |s| - 1
  {
    var n := |s| - 1;
    assert s == s[..n] + [s[n]];
    if i < n {
      assert s[..n] == s[..i] + [s[i]] + s[i + 1..n];
      assert SwapRemove(s, i) == s[..i] + [s[n]] + s[i + 1..n];
    }
  }

  /** What a pool looks like once its k-th connection is taken: one shorter, the
      last connection in its place, the others where they were. */
  ghost predicate Taken(before: seq<Connection>, k: nat, after: seq<Connection>) {
    && k < |before| == |after| + 1
    && (forall j :: 0 <= j < |after| ==> after[j] == if j == k then before[|after|] else before[j])
    && multiset(after) + multiset{before[k]} == multiset(before)
  }

  lemma SwapRemoveTakes(before: seq<Connection>, k: nat)
    requires k < |before|
    ensures Taken(before, k, SwapRemove(before, k))
  {
    SwapRemoveLosesOne(before, k);
  }

  // Weighted selection

  lemma {:induction false} SumSplit(s: seq<nat>, i: nat)
    requires i <= |s|
    ensures Sum(s) == Sum(s[..i]) + Sum(s[i..])
    decreases |s| - i
  {
    if i == |s| {
      assert s[..i] == s;
    } else {
      SumSplit(s, i + 1);
      assert s[..i + 1][..i] == s[..i];
      SumHead(s[i..]);
      assert s[i..][1..] == s[i + 1..];
    }
  }

  lemma {:induction false} SumHead(s: seq<nat>)
    requires s != []
    ensures Sum(s) == s[0] + Sum(s[1..])
  {
    if |s| > 1 {
      SumHead(s[..|s| - 1]);
      assert s[..|s| - 1][1..] == s[1..][..|s| - 2];
    } else {
      assert s[..0] == [] && s[1..] == [];
    }
  }

  /** Index i is picked by exactly the draws in its own stretch of the weights. */
  lemma {:induction false} PickStretch(scores: seq<nat>, draw: nat, i: nat)
    requires i < |scores|
    ensures Pick(scores, draw) == i <==> Sum(scores[..i]) <= draw < Sum(scores[..i]) + scores[i]
  {
    if i > 0 {
      SumHead(scores[..i]);
      assert scores[..i][1..] == scores[1..][..i - 1];
      if draw >= scores[0] {
        PickStretch(scores[1..], draw - scores[0], i - 1);
      }
    }
  }

  lemma {:induction false} PickLands(scores: seq<nat>, draw: nat)
    requires draw < Sum(scores)
    ensures Pick(scores, draw) < |scores|
  {
    SumHead(scores);
    if draw >= scores[0] {
      PickLands(scores[1..], draw - scores[0]);
    }
  }

  /** The draws below `weight` that pick index i. */
  ghost function DrawsFor(scores: seq<nat>, weight: nat, i: nat): set<int> {
    set draw: int | 0 <= draw < weight && Pick(scores, draw) == i
  }

  /** Selection is exactly proportional, score[i] draws out of the total for each
      index, as long as the total fits the u32 it is summed in, and only then. */
  lemma ProportionalExactly(scores: seq<Score>)
    ensures (forall i :: 0 <= i < |scores| ==> |DrawsFor(scores, Sum(scores) % U32_LIMIT, i)| == scores[i])
       <==> Sum(scores) < U32_LIMIT
  {
    if Sum(scores) < U32_LIMIT {
      forall i | 0 <= i < |scores| ensures |DrawsFor(scores, Sum(scores) % U32_LIMIT, i)| == scores[i] {
        AllDraws(scores, i);
      }
    } else {
      var i := WrapMisses(scores, Sum(scores) % U32_LIMIT);
    }
  }

  /** Fewer draws than the sum leave some index short. */
  lemma WrapMisses(scores: seq<nat>, weight: nat) returns (i: nat)
    requires weight < Sum(scores)
    ensures i < |scores| && |DrawsFor(scores, weight, i)| < scores[i]
  {
    PickLands(scores, Sum(scores) - 1);
    i := Pick(scores, Sum(scores) - 1);
    MissedDraw(scores, weight, i);
  }

  lemma {:induction false} SumBound(scores: seq<Score>)
    ensures Sum(scores) <= 0xFF * |scores|
  {
    if scores != [] {
      SumBound(scores[..|scores| - 1]);
    }
  }

  /** Which it does for every pool of up to 16,843,009 connections. */
  lemma SmallPoolsAreProportional(scores: seq<Score>, i: nat)
    requires |scores| <= (U32_LIMIT - 1) / 0xFF && i < |scores|
    ensures |DrawsFor(scores, Sum(scores) % U32_LIMIT, i)| == scores[i]
  {
    SumBound(scores);
    assert Sum(scores) < U32_LIMIT;
    ProportionalExactly(scores);
  }

  lemma AllDraws(scores: seq<nat>, i: nat)
    requires i < |scores|
    ensures |DrawsFor(scores, Sum(scores), i)| == scores[i]
  {
    var a := Sum(scores[..i]);
    SumSplit(scores, i);
    SumHead(scores[i..]);
    forall draw: nat ensures Pick(scores, draw) == i <==> a <= draw < a + scores[i] {
      PickStretch(scores, draw, i);
    }
    assert DrawsFor(scores, Sum(scores), i) == Range(a, scores[i]);
  }

  lemma MissedDraw(scores: seq<nat>, weight: nat, i: nat)
    requires weight < Sum(scores) && i < |scores| && Pick(scores, Sum(scores) - 1) == i
    ensures |DrawsFor(scores, weight, i)| < scores[i]
  {
    AllDraws(scores, i);
    var last := Sum(scores) - 1;
    var all, some := DrawsFor(scores, Sum(scores), i), DrawsFor(scores, weight, i);
    assert last in all;
    SubsetSize(some, all - {last});
  }

  class ConnectionPool {
    var pool: seq<Connection>
    var roundRobinIndex: nat

    constructor (connections: seq<Connection>)
      ensures pool == connections && roundRobinIndex == 0
    {
      pool := connections;
      roundRobinIndex := 0;
    }

    method TakeAt(i: nat) returns (c: Connection)
      requires i < |pool|
      modifies this`pool
      ensures c == old(pool)[i] && pool == SwapRemove(old(pool), i)
      ensures Taken(old(pool), i, pool)
    {
      SwapRemoveTakes(pool, i);
      c := pool[i];
      pool := SwapRemove(pool, i);
    }

    /** `draw` and `uniform` are the random numbers; `fellBack` tells whether the
        loop ran off the end of the scores. */
    method SelectWeightedRandom(draw: nat, uniform: nat) returns (r: Option<Connection>, fellBack: bool)
      requires pool != [] ==> uniform < |pool|
      requires Sum(Scores(pool)) % U32_LIMIT > 0 ==> draw < Sum(Scores(pool)) % U32_LIMIT
      modifies this`pool
      ensures !fellBack
      ensures old(pool) == [] ==> r == None && pool == []
      ensures old(pool) != [] ==>
        var scores := Scores(old(pool));
        var k := if Sum(scores) % U32_LIMIT == 0 then uniform else Pick(scores, draw);
        Taken(old(pool), k, pool) && r == Some(old(pool)[k])
    {
      fellBack := false;
      if pool == [] {
        return None, false;
      }
      var scores := Scores(pool);
      var totalWeight := Sum(scores) % U32_LIMIT;
      if totalWeight == 0 {
        var c := TakeAt(uniform);
        return Some(c), false;
      }
      PickLands(scores, draw);
      var weight: nat := draw;
      var i := 0;
      while i < |scores| && weight >= scores[i]
        invariant 0 <= i <= |scores|
        invariant Pick(scores, draw) == i + Pick(scores[i..], weight)
      {
        weight := weight - scores[i];
        i := i + 1;
      }
      fellBack := i == |scores|;
      var c := TakeAt(if fellBack then |pool| - 1 else i);
      return Some(c), fellBack;
    }

    /** The first connection with the highest score. */
    method SelectBestQuality() returns (r: Option<Connection>)
      modifies this`pool
      ensures old(pool) == [] ==> r == None && pool == []
      ensures old(pool) != [] ==>
        && r.Some?
        && (forall j :: 0 <= j < |old(pool)| ==> old(pool)[j].score <= r.value.score)
        && (exists k :: (0 <= k < |old(pool)| && old(pool)[k] == r.value && Taken(old(pool), k, pool)
                         && forall j :: 0 <= j < k ==> old(pool)[j].score < r.value.score))
    {
      if pool == [] {
        return None;
      }
      var best := 0;
      for i := 1 to |pool|
        invariant 0 <= best < i
        invariant forall j :: 0 <= j < i ==> pool[j].score <= pool[best].score
        invariant forall j :: 0 <= j < best ==> pool[j].score < pool[best].score
      {
        if pool[i].score > pool[best].score {
          best := i;
        }
      }
      var c := TakeAt(best);
      return Some(c);
    }

    method SelectRoundRobin() returns (r: Option<Connection>)
      modifies this
      ensures old(pool) == [] ==> r == None && pool == [] && roundRobinIndex == old(roundRobinIndex)
      ensures old(pool) != [] ==>
        && r == Some(old(pool)[old(roundRobinIndex) % |old(pool)|])
        && roundRobinIndex == (old(roundRobinIndex) + 1) % |old(pool)|
        && Taken(old(pool), old(roundRobinIndex) % |old(pool)|, pool)
    {
      if pool == [] {
        return None;
      }
      var i := roundRobinIndex % |pool|;
      roundRobinIndex := (roundRobinIndex + 1) % |pool|;
      var c := TakeAt(i);
      return Some(c);
    }
  }
}
