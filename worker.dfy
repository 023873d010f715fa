/** tsp_forca_bruta: one worker walks the ranks first..last of the tours over
    the vertices 0..n-1, weighs each tour, keeps the lightest and the
    heaviest seen so far and sends a message on the channel every time one of
    them improves. The channel is modelled as the sequence of messages sent. */
module Worker {
  import opened Factorial
  import opened Lex
  import opened Unranking
  import opened Successor
  import opened Tour

  /** u32::MAX, the starting value of the running minimum. */
  const U32Max: nat := 0xFFFF_FFFF

  /** A (weight, rank) pair: what goes over the channel, and what the worker
      returns for its minimum and its maximum. */
  datatype Msg = Msg(weight: nat, rank: nat)

  /** The worker's state: running minimum and maximum with their ranks, and
      the messages sent so far. */
  datatype Search = Search(min: Msg, max: Msg, sent: seq<Msg>)

  /** min = u32::MAX and max = 0, both at rank 0, nothing sent. */
  function Start(): Search
  {
    Search(Msg(U32Max, 0), Msg(0, 0), [])
  }

  /** Weighing the tour of rank k: a strictly lighter tour replaces the
      minimum and is sent; then, separately, a strictly heavier one replaces
      the maximum and is sent. A single tour can do both. */
  function Observe(s: Search, w: nat, k: nat): Search
  {
    var lighter, heavier := w < s.min.weight, w > s.max.weight;
    Search(if lighter then Msg(w, k) else s.min,
           if heavier then Msg(w, k) else s.max,
           s.sent + (if lighter then [Msg(w, k)] else []) + (if heavier then [Msg(w, k)] else []))
  }

  /** The state after weighing ws[0], ws[1], ... labelled first, first + 1, ... */
  function Scan(ws: seq<nat>, first: nat): Search
    decreases |ws|
  {
    if ws == [] then Start()
    else Observe(Scan(ws[..|ws| - 1], first), ws[|ws| - 1], first + |ws| - 1)
  }

  /** The rank of the first tour weighed: n_esima_ordem_lexicografica leaves
      the vertices in order when first is not below n!. */
  function FirstRank(n: nat, first: nat): (k: nat)
    ensures k < Fact(n)
  {
    if first < Fact(n) then first else 0
  }

  /** How many tours the worker weighs: the loop stops at last, or earlier
      when there is no next arrangement. */
  function Visited(n: nat, first: nat, last: nat): (count: nat)
    ensures FirstRank(n, first) + count <= Fact(n)
    ensures count <= last - first || count == 0
  {
    var room := Fact(n) - FirstRank(n, first);
    if last <= first then 0 else if last - first <= room then last - first else room
  }

  /** The loop goes on past its k-th tour exactly when there is a next rank
      and the next label is still below last. */
  lemma VisitedStep(n: nat, first: nat, last: nat, k: nat)
    requires k < Visited(n, first, last)
    ensures first + k < last
    ensures k + 1 < Visited(n, first, last) <==> FirstRank(n, first) + k + 1 < Fact(n) && first + k + 1 < last
  {
  }

  /** The weights of the count tours from rank start on, in order. */
  function RankWeights(g: seq<seq<nat>>, start: nat, count: nat): (ws: seq<nat>)
    requires Square(g) && start + count <= Fact(|g|)
    ensures |ws| == count
  {
    if count == 0 then [] else RankWeights(g, start, count - 1) + [RankWeight(g, start + count - 1)]
  }

  lemma {:induction false} RankWeightsAt(g: seq<seq<nat>>, start: nat, count: nat, i: nat, r: nat)
    requires Square(g) && start + count <= Fact(|g|) && i < count && r == start + i
    ensures RankWeights(g, start, count)[i] == RankWeight(g, r)
  {
    if i < count - 1 {
      RankWeightsAt(g, start, count - 1, i, r);
    }
  }

  /** The weights the worker computes, in order. */
  function Weights(g: seq<seq<nat>>, first: nat, last: nat): (ws: seq<nat>)
    requires Square(g)
    ensures |ws| == Visited(|g|, first, last)
  {
    RankWeights(g, FirstRank(|g|, first), Visited(|g|, first, last))
  }

  /** The weights of i + 1 tours are those of the first i and that of the
      tour of rank r = start + i. */
  lemma RankWeightsSnoc(g: seq<seq<nat>>, start: nat, i: nat, r: nat)
    requires Square(g) && start + i < Fact(|g|) && r == start + i
    ensures RankWeights(g, start, i + 1) == RankWeights(g, start, i) + [RankWeight(g, r)]
  {
  }

  /** Weighing one more tour after ws. */
  lemma ScanSnoc(ws: seq<nat>, w: nat, first: nat)
    ensures Scan(ws + [w], first) == Observe(Scan(ws, first), w, first + |ws|)
  {
    ScanLast(ws + [w], first);
    assert (ws + [w])[..|ws|] == ws;
  }

  /** One more tour, the one of rank r = start + i, extends the scan of the
      weights of the i tours before it. */
  lemma ScanNext(g: seq<seq<nat>>, start: nat, i: nat, r: nat, first: nat, rank: nat, s: Search, w: nat)
    requires Square(g) && start + i < Fact(|g|) && r == start + i && rank == first + i
    requires s == Scan(RankWeights(g, start, i), first) && w == RankWeight(g, r)
    ensures Observe(s, w, rank) == Scan(RankWeights(g, start, i + 1), first)
  {
    RankWeightsSnoc(g, start, i, r);
    ScanSnoc(RankWeights(g, start, i), w, first);
  }

  /** The two updates of the loop body for a tour of weight w and rank rank:
      the minimum first, then the maximum, each sent when it changes. */
  method Record(min: Msg, max: Msg, sent: seq<Msg>, w: nat, rank: nat)
    returns (min': Msg, max': Msg, sent': seq<Msg>)
    ensures Search(min', max', sent') == Observe(Search(min, max, sent), w, rank)
  {
    min', max', sent' := min, max, sent;
    if w < min'.weight {
      min' := Msg(w, rank);
      sent' := sent' + [min'];
    }
    if w > max'.weight {
      max' := Msg(w, rank);
      sent' := sent' + [max'];
    }
  }

  /** The weight of the tour held in path, which is the tour of rank r. */
  method WeighTour(g: seq<seq<nat>>, path: array<nat>, ghost r: nat) returns (w: nat)
    requires Square(g) && r < Fact(|g|) && path[..] == Unrank(Identity(|g|), r)
    ensures w == RankWeight(g, r)
  {
    TourInRange(g, r);
    w := TourWeight(g, path);
  }

  /** Moving path from the tour of rank r to the next one: it moves exactly
      when r is not the last rank. */
  method Advance(path: array<nat>, ghost r: nat) returns (advanced: bool)
    requires r < Fact(path.Length) && path[..] == Unrank(Identity(path.Length), r)
    modifies path
    ensures advanced <==> r + 1 < Fact(path.Length)
    ensures advanced ==> path[..] == Unrank(Identity(path.Length), r + 1)
    ensures !advanced ==> path[..] == old(path[..])
  {
    IdentityAscending(path.Length);
    AdvancesUnlessLast(Identity(path.Length), r);
    advanced := NextLexOrder(path);
    if advanced {
      SuccessorOfUnrank(Identity(path.Length), r);
    }
  }

  /** The path the worker starts from: the vertices 0..n-1 in order,
      unranked to the first rank of its range (left in order when that rank
      is past the last one). */
  method FirstTour(n: nat, first: nat) returns (path: array<nat>)
    ensures fresh(path) && path.Length == n
    ensures path[..] == Unrank(Identity(n), FirstRank(n, first))
  {
    path := new nat[n](i requires 0 <= i => i);
    assert path[..] == Identity(n);
    IdentityAscending(n);
    SortAscSorted(path[..]);
    UnrankFirst(Identity(n));
    NthLexOrder(path, first);
  }

  /** One turn of the worker loop: weigh the tour of rank r = start + i held
      in path, record it under the label rank = first + i, and move path on
      to the next tour. */
  method Visit(g: seq<seq<nat>>, path: array<nat>, ghost start: nat, ghost i: nat, ghost r: nat,
               first: nat, rank: nat, min: Msg, max: Msg, sent: seq<Msg>)
    returns (min': Msg, max': Msg, sent': seq<Msg>, advanced: bool, ghost i': nat, ghost r': nat)
    requires Square(g) && path.Length == |g| && r == start + i && rank == first + i && r < Fact(|g|)
    requires path[..] == Unrank(Identity(|g|), r)
    requires Search(min, max, sent) == Scan(RankWeights(g, start, i), first)
    modifies path
    ensures i' == i + 1 && r' == r + 1
    ensures Search(min', max', sent') == Scan(RankWeights(g, start, i'), first)
    ensures advanced <==> r' < Fact(|g|)
    ensures advanced ==> path[..] == Unrank(Identity(|g|), r')
    ensures !advanced ==> path[..] == Unrank(Identity(|g|), r)
  {
    i', r' := i + 1, r + 1;
    var w := WeighTour(g, path, r);
    ScanNext(g, start, i, r, first, rank, Search(min, max, sent), w);
    min', max', sent' := Record(min, max, sent, w, rank);
    advanced := Advance(path, r);
  }

  /** tsp_forca_bruta without the channel: the minimum and maximum it returns
      and the messages it sends are those of Scan over the weights of the
      tours of its ranks. */
  method BruteForce(g: seq<seq<nat>>, first: nat, last: nat) returns (min: Msg, max: Msg, sent: seq<Msg>)
    requires Square(g)
    ensures Search(min, max, sent) == Scan(Weights(g, first, last), first)
  {
    var path := FirstTour(|g|, first);
    ghost var start, count := FirstRank(|g|, first), Visited(|g|, first, last);
    ghost var r, i := start, 0;
    min, max, sent := Msg(U32Max, 0), Msg(0, 0), [];
    var rank := first;
    while rank < last
      invariant rank == first + i && i <= count && r == start + i
      invariant rank < last ==> i < count && path[..] == Unrank(Identity(|g|), r)
      invariant Search(min, max, sent) == Scan(RankWeights(g, start, i), first)
      decreases last - rank
    {
      VisitedStep(|g|, first, last, i);
      var advanced;
      min, max, sent, advanced, i, r := Visit(g, path, start, i, r, first, rank, min, max, sent);
      rank := rank + 1;
      if !advanced {
        break;
      }
    }
    assert i == count;
  }

  // ---------------------------------------------------------------------
  // What the worker returns

  /** The fields of the state after one more tour. */
  lemma ObserveFields(s: Search, w: nat, k: nat)
    ensures Observe(s, w, k).min == if w < s.min.weight then Msg(w, k) else s.min
    ensures Observe(s, w, k).max == if w > s.max.weight then Msg(w, k) else s.max
  {
  }

  /** The state after the tours before the last one, and that tour. */
  lemma ScanLast(ws: seq<nat>, first: nat)
    requires ws != []
    ensures Scan(ws, first) == Observe(Scan(ws[..|ws| - 1], first), ws[|ws| - 1], first + |ws| - 1)
  {
  }

  /** The returned minimum is the lightest weight below u32::MAX, at the rank
      where it first occurs; if no tour is lighter than u32::MAX it stays
      (u32::MAX, 0). */
  lemma {:induction false} ScanMin(ws: seq<nat>, first: nat)
    ensures Scan(ws, first).min.weight <= U32Max
    ensures forall i :: 0 <= i < |ws| ==> Scan(ws, first).min.weight <= ws[i]
    ensures Scan(ws, first).min.weight == U32Max ==> Scan(ws, first).min == Msg(U32Max, 0)
    ensures Scan(ws, first).min.weight < U32Max ==>
      exists i :: 0 <= i < |ws| && Scan(ws, first).min == Msg(ws[i], first + i) &&
        forall j :: 0 <= j < i ==> ws[i] < ws[j]
    decreases |ws|
  {
    if ws != [] {
      var n := |ws| - 1;
      var front := ws[..n];
      ScanMin(front, first);
      var before, after := Scan(front, first), Scan(ws, first);
      ScanLast(ws, first);
      ObserveFields(before, ws[n], first + n);
      if ws[n] < before.min.weight {
        assert after.min == Msg(ws[n], first + n);
        assert forall j :: 0 <= j < n ==> ws[j] == front[j];
        assert forall j :: 0 <= j < n ==> ws[n] < ws[j];
      } else {
        assert after.min == before.min;
        if before.min.weight < U32Max {
          var i :| 0 <= i < n && before.min == Msg(front[i], first + i) &&
            forall j :: 0 <= j < i ==> front[i] < front[j];
          assert forall j :: 0 <= j <= i ==> ws[j] == front[j];
        }
      }
    }
  }

  /** The returned maximum is the heaviest weight, at the rank where it first
      occurs; if every tour weighs 0 it stays (0, 0). */
  lemma {:induction false} ScanMax(ws: seq<nat>, first: nat)
    ensures forall i :: 0 <= i < |ws| ==> ws[i] <= Scan(ws, first).max.weight
    ensures Scan(ws, first).max.weight == 0 ==> Scan(ws, first).max == Msg(0, 0)
    ensures Scan(ws, first).max.weight > 0 ==>
      exists i :: 0 <= i < |ws| && Scan(ws, first).max == Msg(ws[i], first + i) &&
        forall j :: 0 <= j < i ==> ws[j] < ws[i]
    decreases |ws|
  {
    if ws != [] {
      var n := |ws| - 1;
      var front := ws[..n];
      ScanMax(front, first);
      var before, after := Scan(front, first), Scan(ws, first);
      ScanLast(ws, first);
      ObserveFields(before, ws[n], first + n);
      if ws[n] > before.max.weight {
        assert after.max == Msg(ws[n], first + n);
        assert forall j :: 0 <= j < n ==> ws[j] == front[j];
        assert forall j :: 0 <= j < n ==> ws[j] < ws[n];
      } else {
        assert after.max == before.max;
        if before.max.weight > 0 {
          var i :| 0 <= i < n && before.max == Msg(front[i], first + i) &&
            forall j :: 0 <= j < i ==> front[j] < front[i];
          assert forall j :: 0 <= j <= i ==> ws[j] == front[j];
        }
      }
    }
  }

  /** Every message reports the weight of a tour the worker weighed, with
      that tour's rank. */
  lemma {:induction false} ScanSent(ws: seq<nat>, first: nat)
    ensures forall m :: m in Scan(ws, first).sent ==>
      exists i :: 0 <= i < |ws| && m == Msg(ws[i], first + i)
    decreases |ws|
  {
    if ws != [] {
      var n := |ws| - 1;
      var front := ws[..n];
      ScanSent(front, first);
      forall m | m in Scan(ws, first).sent
        ensures exists i :: 0 <= i < |ws| && m == Msg(ws[i], first + i)
      {
        if m in Scan(front, first).sent {
          var i :| 0 <= i < |front| && m == Msg(front[i], first + i);
          assert ws[i] == front[i];
        } else {
          assert m == Msg(ws[n], first + n);
        }
      }
    }
  }

  /** sent[j] is a new minimum, strictly lighter than every message before
      it, or a new maximum, strictly heavier than every message before it
      other than a copy of itself (a tour that is both is sent twice). */
  ghost predicate Improving(sent: seq<Msg>, j: nat)
    requires j < |sent|
  {
    || (forall l :: 0 <= l < j ==> sent[j].weight < sent[l].weight)
    || (forall l :: 0 <= l < j ==> sent[l].weight < sent[j].weight || sent[l] == sent[j])
  }

  /** Every message lies between the minimum and the maximum, and improves on
      the messages before it. */
  ghost predicate Orderly(s: Search)
  {
    forall i :: 0 <= i < |s.sent| ==>
      s.min.weight <= s.sent[i].weight <= s.max.weight && Improving(s.sent, i)
  }

  lemma ObserveOrderly(s: Search, w: nat, k: nat, t: Search)
    requires Orderly(s) && t == Observe(s, w, k)
    ensures Orderly(t)
  {
    var n := |s.sent|;
    ObserveFields(s, w, k);
    assert forall l :: 0 <= l < n ==> t.sent[l] == s.sent[l];
    forall i | 0 <= i < |t.sent|
      ensures t.min.weight <= t.sent[i].weight <= t.max.weight && Improving(t.sent, i)
    {
      if i < n {
        assert Improving(s.sent, i);
      } else {
        assert t.sent[i] == Msg(w, k);
        if i == n && w < s.min.weight {
          assert forall l :: 0 <= l < i ==> t.sent[i].weight < t.sent[l].weight;
        } else {
          assert forall l :: 0 <= l < i ==> t.sent[l].weight < t.sent[i].weight || t.sent[l] == t.sent[i];
        }
      }
    }
  }

  /** Along the whole walk, every message the worker sends is a strict
      improvement: the minimum messages strictly decrease and the maximum
      messages strictly increase. */
  lemma {:induction false} ScanOrderly(ws: seq<nat>, first: nat)
    ensures Orderly(Scan(ws, first))
    decreases |ws|
  {
    if ws != [] {
      ScanOrderly(ws[..|ws| - 1], first);
      ScanLast(ws, first);
      ObserveOrderly(Scan(ws[..|ws| - 1], first), ws[|ws| - 1], first + |ws| - 1, Scan(ws, first));
    }
  }

  // ---------------------------------------------------------------------
  // The message stream, as the collector in main sees it

  /** When the collector receives ms[j] it does not take it for a new
      minimum: its weight is at least u32::MAX, or an earlier message is no
      heavier. It then counts it towards the maximum. */
  ghost predicate Settled(ms: seq<Msg>, j: nat)
    requires j < |ms|
  {
    ms[j].weight >= U32Max || exists l :: 0 <= l < j && ms[l].weight <= ms[j].weight
  }

  /** The positive weight of ms[i] is matched by a message at least as heavy
      that the collector counts towards the maximum. */
  ghost predicate Matched(ms: seq<Msg>, i: nat)
    requires i < |ms|
  {
    ms[i].weight > 0 ==> exists j :: 0 <= j < |ms| && ms[i].weight <= ms[j].weight && Settled(ms, j)
  }

  /** Every positive weight in the stream is matched. */
  ghost predicate Covered(ms: seq<Msg>)
  {
    forall i :: 0 <= i < |ms| ==> Matched(ms, i)
  }

  /** What the worker's state keeps true while it runs: its minimum, when
      below u32::MAX, was sent as sent[low]; no message is heavier than the
      maximum; and the message sent[top] of the maximum's weight is settled,
      by its weight or by the no heavier message sent[below] before it. */
  ghost predicate Reporting(t: Search, low: nat, top: nat, below: nat)
  {
    && t.min.weight <= U32Max
    && (t.min.weight < U32Max ==> low < |t.sent| && t.sent[low] == t.min)
    && (forall i :: 0 <= i < |t.sent| ==> t.sent[i].weight <= t.max.weight)
    && (t.max.weight > 0 ==>
          && top < |t.sent| && t.sent[top].weight == t.max.weight
          && (t.max.weight >= U32Max || (below < top && t.sent[below].weight <= t.max.weight)))
  }

  lemma ObserveReporting(s: Search, low: nat, top: nat, below: nat, w: nat, k: nat)
    returns (t: Search, low': nat, top': nat, below': nat)
    requires Reporting(s, low, top, below)
    ensures t == Observe(s, w, k) && Reporting(t, low', top', below')
  {
    var lighter := w < s.min.weight;
    var mid := s.sent + (if lighter then [Msg(w, k)] else []);
    t := Observe(s, w, k);
    ObserveFields(s, w, k);
    assert forall i :: 0 <= i < |s.sent| ==> mid[i] == s.sent[i];
    low' := if lighter then |s.sent| else low;
    assert lighter ==> mid[low'] == Msg(w, k);
    if w > s.max.weight {
      top' := |mid|;
      assert t.sent == mid + [Msg(w, k)] && t.sent[top'] == Msg(w, k);
      below' := if lighter then top' - 1 else low;
    } else {
      assert t.sent == mid;
      top', below' := top, below;
    }
  }

  lemma {:induction false} ScanReporting(ws: seq<nat>, first: nat) returns (t: Search, low: nat, top: nat, below: nat)
    ensures t == Scan(ws, first) && Reporting(t, low, top, below)
    decreases |ws|
  {
    if ws == [] {
      t, low, top, below := Start(), 0, 0, 0;
    } else {
      var s, low0, top0, below0 := ScanReporting(ws[..|ws| - 1], first);
      t, low, top, below := ObserveReporting(s, low0, top0, below0, ws[|ws| - 1], first + |ws| - 1);
    }
  }

  /** A worker's own message stream is covered: its heaviest tour is always
      counted towards the maximum by the collector. */
  lemma WorkerCovered(ws: seq<nat>, first: nat)
    ensures Covered(Scan(ws, first).sent)
  {
    var t, low, top, below := ScanReporting(ws, first);
    forall i | 0 <= i < |t.sent| ensures Matched(t.sent, i) {
      if t.sent[i].weight > 0 {
        assert Settled(t.sent, top);
      }
    }
  }
}
