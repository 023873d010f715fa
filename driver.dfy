/** The arithmetic and the collector of main: how many workers run, which
    ranks each of them walks, and how the messages they send are reduced to
    the lightest and the heaviest tour. The threads and the channel are
    modelled by their effect: each worker's stream of messages, and the
    order in which the collector receives them, which may interleave the
    streams in any way that keeps each one in order. */
module Driver {
  import opened Factorial
  import opened Lex
  import opened Unranking
  import opened Tour
  import opened Worker

  // ---------------------------------------------------------------------
  // How many workers

  /** The thread count of main: the number requested, unless it is 0 or more
      than the machine offers, in which case all of them. */
  function ThreadCount(available: nat, requested: nat): (t: nat)
    ensures t <= available
    ensures available >= 1 ==> t >= 1
    ensures 0 < requested <= available ==> t == requested
    ensures t != requested ==> t == available
  {
    if available < requested || requested == 0 then available else requested
  }

  // ---------------------------------------------------------------------
  // Which ranks each worker walks

  /** A worker's ranks: first, first + 1, ..., last - 1. */
  datatype Range = Range(first: nat, last: nat)

  predicate Holds(r: Range, k: nat)
  {
    r.first <= k < r.last
  }

  /** The number of ranks per worker: (n-1)! / threads, rounded down. Only
      the (n-1)! tours that start at vertex 0 are shared out. */
  function Share(n: nat, threads: nat): nat
    requires n >= 1 && threads >= 1
  {
    Quot(Fact(n - 1), threads)
  }

  /** The ranges main hands out: worker i gets [i * q, (i + 1) * q). */
  function AsWrittenRanges(n: nat, threads: nat): (rs: seq<Range>)
    requires n >= 1 && threads >= 1
    ensures |rs| == threads
  {
    var q := Share(n, threads);
    seq(threads, i requires 0 <= i < threads => Range(Mul(i, q), Mul(i + 1, q)))
  }

  /** The ranges with the rounding corrected: the last worker also takes the
      (n-1)! mod threads ranks left over. */
  function Ranges(n: nat, threads: nat): (rs: seq<Range>)
    requires n >= 1 && threads >= 1
    ensures |rs| == threads
  {
    var q := Share(n, threads);
    seq(threads, i requires 0 <= i < threads =>
      Range(Mul(i, q), if i + 1 == threads then Fact(n - 1) else Mul(i + 1, q)))
  }

  lemma MulCommutes(a: nat, b: nat)
    ensures Mul(a, b) == Mul(b, a)
  {
    MulIsProduct(a, b);
    MulIsProduct(b, a);
  }

  /** threads * q falls short of (n-1)! by (n-1)! mod threads, which is less
      than threads. */
  lemma ShareShortfall(n: nat, threads: nat)
    requires n >= 1 && threads >= 1
    ensures Mul(threads, Share(n, threads)) + Rem(Fact(n - 1), threads) == Fact(n - 1)
    ensures Rem(Fact(n - 1), threads) < threads
  {
    Decompose(Fact(n - 1), threads);
    MulCommutes(Share(n, threads), threads);
  }

  /** The worker whose range holds rank k, where the ranges are of width q
      from 0 on and there are threads of them. */
  function Slot(k: nat, q: nat, threads: nat): (i: nat)
    requires threads >= 1
    ensures i < threads
  {
    if q == 0 then threads - 1
    else if Quot(k, q) < threads then Quot(k, q)
    else threads - 1
  }

  /** Rank k lies in its slot i: from i * q up to (i + 1) * q, or on to
      the end when i is the last slot and k is past threads * q. */
  lemma SlotHolds(k: nat, q: nat, threads: nat)
    requires threads >= 1
    ensures k < Mul(threads, q) ==> Mul(Slot(k, q, threads), q) <= k < Mul(Slot(k, q, threads) + 1, q)
    ensures k >= Mul(threads, q) ==> Slot(k, q, threads) == threads - 1 && Mul(threads - 1, q) <= k
  {
    MulMonotone(threads - 1, threads, q);
    if q > 0 {
      Decompose(k, q);
      if k < Mul(threads, q) {
        QuotBelow(k, q, threads);
      } else if Quot(k, q) < threads {
        MulMonotone(Quot(k, q) + 1, threads, q);
      }
    } else {
      MulZero(threads - 1);
      MulZero(threads);
    }
  }

  lemma {:induction false} MulZero(a: nat)
    ensures Mul(a, 0) == 0
  {
    if a > 0 {
      MulZero(a - 1);
    }
  }

  /** Bounds of consecutive slots do not overlap. */
  lemma SlotsApart(i: nat, j: nat, q: nat)
    requires i < j
    ensures Mul(i + 1, q) <= Mul(j, q)
  {
    MulMonotone(i + 1, j, q);
  }

  /** As written, the ranges are consecutive, of q ranks each, from 0 to
      threads * q, and that stops (n-1)! mod threads ranks short. */
  lemma AsWrittenShape(n: nat, threads: nat)
    requires n >= 1 && threads >= 1
    ensures var rs, q := AsWrittenRanges(n, threads), Share(n, threads);
      && rs[0].first == 0
      && rs[threads - 1].last == Mul(threads, q) == Fact(n - 1) - Rem(Fact(n - 1), threads)
      && (forall i :: 0 <= i < threads ==> rs[i].last - rs[i].first == q)
      && (forall i :: 0 <= i < threads - 1 ==> rs[i].last == rs[i + 1].first)
    ensures threads > Fact(n - 1) ==> Share(n, threads) == 0
  {
    ShareShortfall(n, threads);
  }

  /** As written, rank k is handed to a worker exactly when k < threads * q,
      and to one worker at most. */
  lemma AsWrittenCoverage(n: nat, threads: nat, k: nat)
    requires n >= 1 && threads >= 1
    ensures (exists i :: 0 <= i < threads && Holds(AsWrittenRanges(n, threads)[i], k))
      <==> k < Mul(threads, Share(n, threads))
    ensures forall i, j :: 0 <= i < j < threads ==>
      !(Holds(AsWrittenRanges(n, threads)[i], k) && Holds(AsWrittenRanges(n, threads)[j], k))
  {
    var rs, q := AsWrittenRanges(n, threads), Share(n, threads);
    if k < Mul(threads, q) {
      SlotHolds(k, q, threads);
      assert Holds(rs[Slot(k, q, threads)], k);
    } else {
      forall i | 0 <= i < threads ensures !Holds(rs[i], k) {
        MulMonotone(i + 1, threads, q);
      }
    }
    forall i, j | 0 <= i < j < threads ensures !(Holds(rs[i], k) && Holds(rs[j], k)) {
      SlotsApart(i, j, q);
    }
  }

  /** As written, a rank below bound = threads * q is held by the range of
      its slot in rs, the ranges as written. */
  lemma AsWrittenOwner(n: nat, threads: nat, rs: seq<Range>, bound: nat, k: nat) returns (t: nat)
    requires n >= 1 && threads >= 1
    requires rs == AsWrittenRanges(n, threads) && bound == Mul(threads, Share(n, threads)) && k < bound
    ensures t < |rs| && Holds(rs[t], k)
  {
    var q := Share(n, threads);
    SlotHolds(k, q, threads);
    t := Slot(k, q, threads);
  }

  /** With 4 vertices and 4 workers, q = 3! / 4 = 1 and the ranges are
      [0,1), [1,2), [2,3), [3,4): the tours of ranks 4 and 5, which start at
      vertex 0 like the others, are never weighed. */
  lemma AsWrittenSkipsTours()
    ensures Fact(3) == 6 && Share(4, 4) == 1
    ensures forall i :: 0 <= i < 4 ==> !Holds(AsWrittenRanges(4, 4)[i], 4) && !Holds(AsWrittenRanges(4, 4)[i], 5)
  {
    assert Fact(3) == 6;
    assert Share(4, 4) == 1;
    AsWrittenCoverage(4, 4, 4);
    AsWrittenCoverage(4, 4, 5);
  }

  /** Corrected, the ranges split the ranks below (n-1)! among the workers:
      each rank is in exactly one range, and no range reaches past (n-1)!. */
  lemma RangesPartition(n: nat, threads: nat, k: nat)
    requires n >= 1 && threads >= 1
    ensures forall i :: 0 <= i < threads ==>
      Ranges(n, threads)[i].first <= Ranges(n, threads)[i].last <= Fact(n - 1)
    ensures (exists i :: 0 <= i < threads && Holds(Ranges(n, threads)[i], k)) <==> k < Fact(n - 1)
    ensures forall i, j :: 0 <= i < j < threads ==>
      !(Holds(Ranges(n, threads)[i], k) && Holds(Ranges(n, threads)[j], k))
  {
    var rs, q := Ranges(n, threads), Share(n, threads);
    ShareShortfall(n, threads);
    forall i | 0 <= i < threads ensures rs[i].first <= rs[i].last <= Fact(n - 1) {
      MulMonotone(i, threads, q);
      MulMonotone(i + 1, threads, q);
    }
    if k < Fact(n - 1) {
      OwnerHolds(n, threads, k);
    }
    forall i, j | 0 <= i < j < threads ensures !(Holds(rs[i], k) && Holds(rs[j], k)) {
      SlotsApart(i, j, q);
    }
  }

  /** The worker that weighs the tour of rank k < (n-1)!. */
  function Owner(n: nat, threads: nat, k: nat): nat
    requires n >= 1 && threads >= 1
  {
    Slot(k, Share(n, threads), threads)
  }

  lemma OwnerHolds(n: nat, threads: nat, k: nat)
    requires n >= 1 && threads >= 1 && k < Fact(n - 1)
    ensures Owner(n, threads, k) < threads && Holds(Ranges(n, threads)[Owner(n, threads, k)], k)
  {
    var q := Share(n, threads);
    ShareShortfall(n, threads);
    SlotHolds(k, q, threads);
  }

  // ---------------------------------------------------------------------
  // The workers

  /** The messages the worker over range r sends. */
  function Stream(g: seq<seq<nat>>, r: Range): seq<Msg>
    requires Square(g)
  {
    Scan(Weights(g, r.first, r.last), r.first).sent
  }

  function Streams(g: seq<seq<nat>>, rs: seq<Range>): (ss: seq<seq<Msg>>)
    requires Square(g)
    ensures |ss| == |rs|
  {
    seq(|rs|, i requires 0 <= i < |rs| => Stream(g, rs[i]))
  }

  /** The loop of main that starts one worker per range, run one worker after
      the other: the streams the workers send. */
  method Spawn(g: seq<seq<nat>>, threads: nat) returns (streams: seq<seq<Msg>>)
    requires Square(g) && |g| >= 1 && threads >= 1
    ensures streams == Streams(g, Ranges(|g|, threads))
  {
    ghost var rs := Ranges(|g|, threads);
    var total := CalculateFactorial(|g| - 1);
    var q := Divide(total, threads);
    streams := [];
    var i := 0;
    while i < threads
      invariant i <= threads && |streams| == i
      invariant forall t :: 0 <= t < i ==> streams[t] == Stream(g, rs[t])
    {
      var first := Multiply(i, q);
      var last := total;
      if i + 1 < threads {
        last := Multiply(i + 1, q);
      }
      assert rs[i] == Range(first, last);
      var _, _, sent := BruteForce(g, first, last);
      streams := streams + [sent];
      i := i + 1;
    }
  }

  // ---------------------------------------------------------------------
  // The channel

  /** Where a received message comes from: the index of its sender and its
      position in that sender's stream. */
  datatype Origin = Origin(sender: nat, index: nat)

  /** ms is what the collector receives from the workers' streams: every
      message of every stream exactly once, each stream in the order it was
      sent, the streams interleaved in any way; from[i] says where ms[i] comes
      from. */
  ghost predicate Interleaving(ms: seq<Msg>, streams: seq<seq<Msg>>, from: seq<Origin>)
  {
    && |from| == |ms|
    && (forall i :: 0 <= i < |ms| ==>
          from[i].sender < |streams| && from[i].index < |streams[from[i].sender]|
          && ms[i] == streams[from[i].sender][from[i].index])
    && (forall i, j :: 0 <= i < j < |ms| && from[i].sender == from[j].sender ==>
          from[i].index < from[j].index)
    && (forall t, a :: 0 <= t < |streams| && 0 <= a < |streams[t]| ==> Arrives(from, t, a))
  }

  /** The a-th message of sender t is received. */
  ghost predicate Arrives(from: seq<Origin>, t: nat, a: nat)
  {
    exists i :: 0 <= i < |from| && from[i] == Origin(t, a)
  }

  /** Every message sent arrives somewhere. */
  lemma Arrival(ms: seq<Msg>, streams: seq<seq<Msg>>, from: seq<Origin>, t: nat, a: nat) returns (j: nat)
    requires Interleaving(ms, streams, from) && t < |streams| && a < |streams[t]|
    ensures j < |ms| && from[j] == Origin(t, a) && ms[j] == streams[t][a]
  {
    assert Arrives(from, t, a);
    j :| 0 <= j < |from| && from[j] == Origin(t, a);
  }

  /** Two messages of one sender arrive in the order they were sent. */
  lemma ArrivalOrder(ms: seq<Msg>, streams: seq<seq<Msg>>, from: seq<Origin>, j1: nat, j2: nat)
    requires Interleaving(ms, streams, from) && j1 < |ms| && j2 < |ms|
    requires from[j1].sender == from[j2].sender && from[j1].index < from[j2].index
    ensures j1 < j2
  {
  }

  /** A message settled in its stream is settled once received: the lighter
      message before it in its stream arrives before it. */
  lemma SettledArrival(ms: seq<Msg>, streams: seq<seq<Msg>>, from: seq<Origin>, t: nat, b: nat) returns (j: nat)
    requires Interleaving(ms, streams, from) && t < |streams| && b < |streams[t]|
    requires Settled(streams[t], b)
    ensures j < |ms| && ms[j] == streams[t][b] && Settled(ms, j)
  {
    j := Arrival(ms, streams, from, t, b);
    if streams[t][b].weight < U32Max {
      var l :| 0 <= l < b && streams[t][l].weight <= streams[t][b].weight;
      var jl := Arrival(ms, streams, from, t, l);
      ArrivalOrder(ms, streams, from, jl, j);
      assert ms[jl].weight <= ms[j].weight;
    }
  }

  /** The message ms[i] is matched, in ms, by the message that matched it in
      its own stream. */
  lemma CoveredAt(ms: seq<Msg>, streams: seq<seq<Msg>>, from: seq<Origin>, i: nat)
    requires Interleaving(ms, streams, from) && i < |ms|
    requires Covered(streams[from[i].sender])
    ensures Matched(ms, i)
  {
    var t, a := from[i].sender, from[i].index;
    var st := streams[t];
    assert st[a] == ms[i];
    if ms[i].weight > 0 {
      assert Matched(st, a);
      var b :| 0 <= b < |st| && st[a].weight <= st[b].weight && Settled(st, b);
      var j := SettledArrival(ms, streams, from, t, b);
    }
  }

  /** Interleaving streams that are each covered gives a covered stream: the
      message that settles a stream's heaviest weight still arrives after the
      lighter one that settles it. */
  lemma InterleavingCovered(ms: seq<Msg>, streams: seq<seq<Msg>>, from: seq<Origin>)
    requires Interleaving(ms, streams, from)
    requires forall t :: 0 <= t < |streams| ==> Covered(streams[t])
    ensures Covered(ms)
  {
    forall i | 0 <= i < |ms| ensures Matched(ms, i) {
      CoveredAt(ms, streams, from, i);
    }
  }

  // ---------------------------------------------------------------------
  // The collector

  /** (minimo, indice_minimo) and (maximo, indice_maximo). */
  datatype Outcome = Outcome(min: Msg, max: Msg)

  /** minimo = u32::MAX and maximo = 0, both at index 0. */
  function Initial(): Outcome
  {
    Outcome(Msg(U32Max, 0), Msg(0, 0))
  }

  /** One message received: it replaces the minimum when strictly lighter,
      otherwise the maximum when strictly heavier. The minimum never rises,
      the maximum never falls, and one of them at most changes. */
  function Receive(o: Outcome, m: Msg): (r: Outcome)
    ensures r.min.weight <= o.min.weight && o.max.weight <= r.max.weight
    ensures r.min == o.min || r.max == o.max
    ensures r.min == o.min || r.min == m
    ensures r.max == o.max || r.max == m
  {
    if m.weight < o.min.weight then Outcome(m, o.max)
    else if m.weight > o.max.weight then Outcome(o.min, m)
    else o
  }

  /** The collector after receiving ms. */
  function Reduce(ms: seq<Msg>): Outcome
    decreases |ms|
  {
    if ms == [] then Initial() else Receive(Reduce(ms[..|ms| - 1]), ms[|ms| - 1])
  }

  /** The receiving loop of main. */
  method Collect(ms: seq<Msg>) returns (minimo: Msg, maximo: Msg)
    ensures Outcome(minimo, maximo) == Reduce(ms)
  {
    minimo, maximo := Msg(U32Max, 0), Msg(0, 0);
    var k := 0;
    while k < |ms|
      invariant k <= |ms| && Outcome(minimo, maximo) == Reduce(ms[..k])
    {
      var m := ms[k];
      assert ms[..k + 1][..k] == ms[..k];
      if m.weight < minimo.weight {
        minimo := m;
      } else if m.weight > maximo.weight {
        maximo := m;
      }
      k := k + 1;
    }
    assert ms[..k] == ms;
  }

  /** The collector's minimum is the least of u32::MAX and every weight
      received, and is a message received unless it is still (u32::MAX, 0). */
  lemma {:induction false} ReduceMin(ms: seq<Msg>)
    ensures Reduce(ms).min.weight <= U32Max
    ensures forall i :: 0 <= i < |ms| ==> Reduce(ms).min.weight <= ms[i].weight
    ensures Reduce(ms).min == Msg(U32Max, 0) || exists i :: 0 <= i < |ms| && ms[i] == Reduce(ms).min
    decreases |ms|
  {
    if ms != [] {
      var front := ms[..|ms| - 1];
      ReduceMin(front);
      assert forall i :: 0 <= i < |front| ==> ms[i] == front[i];
    }
  }

  /** A later collector state has no larger minimum and no smaller maximum. */
  lemma {:induction false} ReduceGrows(ms: seq<Msg>, k: nat)
    requires k <= |ms|
    ensures Reduce(ms).min.weight <= Reduce(ms[..k]).min.weight
    ensures Reduce(ms[..k]).max.weight <= Reduce(ms).max.weight
    decreases |ms|
  {
    if k < |ms| {
      var front := ms[..|ms| - 1];
      ReduceGrows(front, k);
      assert front[..k] == ms[..k];
    } else {
      assert ms[..k] == ms;
    }
  }

  /** A settled message counts towards the maximum: once it is received the
      maximum is at least its weight. */
  lemma SettledCounts(ms: seq<Msg>, j: nat)
    requires j < |ms| && Settled(ms, j)
    ensures ms[j].weight <= Reduce(ms).max.weight
  {
    var before := ms[..j];
    ReduceMin(before);
    if ms[j].weight < U32Max {
      var l :| 0 <= l < j && ms[l].weight <= ms[j].weight;
      assert before[l] == ms[l];
    }
    assert ms[..j + 1][..j] == before;
    ReduceGrows(ms, j + 1);
  }

  /** The collector's maximum is a message received unless it is still
      (0, 0); when the stream is covered it is at least every weight
      received. */
  lemma {:induction false} ReduceMax(ms: seq<Msg>)
    ensures Reduce(ms).max == Msg(0, 0) || exists i :: 0 <= i < |ms| && ms[i] == Reduce(ms).max
    ensures Covered(ms) ==> forall i :: 0 <= i < |ms| ==> ms[i].weight <= Reduce(ms).max.weight
    decreases |ms|
  {
    if ms != [] {
      var front := ms[..|ms| - 1];
      ReduceMax(front);
      assert forall i :: 0 <= i < |front| ==> ms[i] == front[i];
    }
    if Covered(ms) {
      forall i | 0 <= i < |ms| ensures ms[i].weight <= Reduce(ms).max.weight {
        assert Matched(ms, i);
        if ms[i].weight > 0 {
          var j :| 0 <= j < |ms| && ms[i].weight <= ms[j].weight && Settled(ms, j);
          SettledCounts(ms, j);
        }
      }
    }
  }

  // ---------------------------------------------------------------------
  // What main finds

  lemma FactGrows(n: nat)
    requires n >= 1
    ensures Fact(n - 1) <= Fact(n)
  {
    FactStep(n);
  }

  /** A worker over ranks first..last - 1, with last <= n!, weighs exactly
      those tours, in order: its i-th weight is that of the tour of rank
      first + i. */
  lemma WeightsCover(g: seq<seq<nat>>, first: nat, last: nat, i: nat, k: nat)
    requires Square(g) && first <= last <= Fact(|g|) && i < last - first && k == first + i
    ensures |Weights(g, first, last)| == last - first
    ensures Weights(g, first, last)[i] == RankWeight(g, k)
  {
    RankWeightsAt(g, first, last - first, i, k);
  }

  /** Every message of such a worker carries a rank of its range and the
      weight of the tour of that rank. */
  lemma StreamMessage(g: seq<seq<nat>>, first: nat, last: nat, m: Msg)
    requires Square(g) && first <= last <= Fact(|g|) && m in Stream(g, Range(first, last))
    ensures first <= m.rank < last && m.rank < Fact(|g|) && m.weight == RankWeight(g, m.rank)
  {
    var ws := Weights(g, first, last);
    ScanSent(ws, first);
    var i :| 0 <= i < |ws| && m == Msg(ws[i], first + i);
    WeightsCover(g, first, last, i, m.rank);
  }

  /** Such a worker sends a message no heavier than each tour it weighs,
      unless that tour weighs u32::MAX or more. */
  lemma WorkerSendsLighter(g: seq<seq<nat>>, first: nat, last: nat, k: nat) returns (a: nat)
    requires Square(g) && first <= k < last <= Fact(|g|)
    ensures RankWeight(g, k) < U32Max ==>
      a < |Stream(g, Range(first, last))| && Stream(g, Range(first, last))[a].weight <= RankWeight(g, k)
  {
    var ws := Weights(g, first, last);
    WeightsCover(g, first, last, k - first, k);
    ScanMin(ws, first);
    var t, low, top, below := ScanReporting(ws, first);
    a := low;
  }

  /** Such a worker sends a message at least as heavy as each tour it
      weighs, unless that tour weighs 0. */
  lemma WorkerSendsHeavier(g: seq<seq<nat>>, first: nat, last: nat, k: nat) returns (a: nat)
    requires Square(g) && first <= k < last <= Fact(|g|)
    ensures RankWeight(g, k) > 0 ==>
      a < |Stream(g, Range(first, last))| && RankWeight(g, k) <= Stream(g, Range(first, last))[a].weight
  {
    var ws := Weights(g, first, last);
    WeightsCover(g, first, last, k - first, k);
    ScanMax(ws, first);
    var t, low, top, below := ScanReporting(ws, first);
    a := top;
  }

  /** The worker that owns rank k, and its range. */
  lemma OwnerRange(n: nat, threads: nat, k: nat) returns (t: nat, r: Range)
    requires n >= 1 && threads >= 1 && k < Fact(n - 1)
    ensures t < threads && r == Ranges(n, threads)[t]
    ensures r.first <= k < r.last <= Fact(n - 1) <= Fact(n)
  {
    t := Owner(n, threads, k);
    r := Ranges(n, threads)[t];
    OwnerHolds(n, threads, k);
    RangesPartition(n, threads, k);
    FactGrows(n);
  }

  /** The first message received, if any, came from some sender's stream. */
  lemma FirstArrival(ms: seq<Msg>, streams: seq<seq<Msg>>, from: seq<Origin>)
    requires Interleaving(ms, streams, from)
    ensures ms != [] ==> from[0].sender < |streams| && from[0].index < |streams[from[0].sender]|
  {
  }

  /** The collector's minimum is no heavier than any message sent. */
  lemma ReceivedMin(ms: seq<Msg>, streams: seq<seq<Msg>>, from: seq<Origin>, t: nat, a: nat, w: nat)
    requires Interleaving(ms, streams, from) && t < |streams| && a < |streams[t]|
    requires streams[t][a].weight <= w
    ensures Reduce(ms).min.weight <= w
  {
    var j := Arrival(ms, streams, from, t, a);
    ReduceMin(ms);
  }

  /** The collector's maximum is no lighter than any message sent, the
      interleaving being covered. */
  lemma ReceivedMax(ms: seq<Msg>, streams: seq<seq<Msg>>, from: seq<Origin>, t: nat, a: nat, w: nat)
    requires Interleaving(ms, streams, from) && Covered(ms) && t < |streams| && a < |streams[t]|
    requires w <= streams[t][a].weight
    ensures w <= Reduce(ms).max.weight
  {
    var j := Arrival(ms, streams, from, t, a);
    ReduceMax(ms);
  }

  /** Every range of rs runs upwards and ends at or below bound. */
  ghost predicate Within(rs: seq<Range>, bound: nat)
  {
    forall t :: 0 <= t < |rs| ==> rs[t].first <= rs[t].last <= bound
  }

  /** The corrected ranges end at or below (n-1)!. */
  lemma RangesWithin(n: nat, threads: nat)
    requires n >= 1 && threads >= 1
    ensures Within(Ranges(n, threads), Fact(n - 1)) && Fact(n - 1) <= Fact(n)
  {
    RangesPartition(n, threads, 0);
    FactGrows(n);
  }

  /** The ranges as written, rs, end at or below bound = threads * q, which
      is at most (n-1)!. */
  lemma AsWrittenWithin(n: nat, threads: nat, rs: seq<Range>, bound: nat)
    requires n >= 1 && threads >= 1
    requires rs == AsWrittenRanges(n, threads) && bound == Mul(threads, Share(n, threads))
    ensures bound <= Fact(n - 1) <= Fact(n) && Within(rs, bound)
  {
    var q := Share(n, threads);
    ShareShortfall(n, threads);
    FactGrows(n);
    forall t | 0 <= t < threads ensures rs[t].first <= rs[t].last <= bound {
      MulMonotone(t, t + 1, q);
      MulMonotone(t + 1, threads, q);
    }
  }

  /** The collector's minimum is no heavier than the tour of a rank k that
      the worker over range r = rs[t] weighs. */
  lemma OwnerSendsLighter(g: seq<seq<nat>>, rs: seq<Range>, ms: seq<Msg>, from: seq<Origin>, k: nat, t: nat, r: Range)
    requires Square(g) && t < |rs| && r == rs[t]
    requires r.first <= k < r.last <= Fact(|g|)
    requires Interleaving(ms, Streams(g, rs), from)
    ensures Reduce(ms).min.weight <= RankWeight(g, k)
  {
    var a := WorkerSendsLighter(g, r.first, r.last, k);
    if RankWeight(g, k) < U32Max {
      var ss := Streams(g, rs);
      assert ss[t] == Stream(g, Range(r.first, r.last));
      ReceivedMin(ms, ss, from, t, a, RankWeight(g, k));
    } else {
      ReduceMin(ms);
    }
  }

  /** The collector's maximum is no lighter than the tour of a rank k that
      the worker over range r = rs[t] weighs, the interleaving being covered. */
  lemma OwnerSendsHeavier(g: seq<seq<nat>>, rs: seq<Range>, ms: seq<Msg>, from: seq<Origin>, k: nat, t: nat, r: Range)
    requires Square(g) && t < |rs| && r == rs[t]
    requires r.first <= k < r.last <= Fact(|g|)
    requires Interleaving(ms, Streams(g, rs), from) && Covered(ms)
    ensures RankWeight(g, k) <= Reduce(ms).max.weight
  {
    var a := WorkerSendsHeavier(g, r.first, r.last, k);
    if RankWeight(g, k) > 0 {
      var ss := Streams(g, rs);
      assert ss[t] == Stream(g, Range(r.first, r.last));
      ReceivedMax(ms, ss, from, t, a, RankWeight(g, k));
    }
  }

  /** A received message is the weight and rank of a tour of a rank below
      the bound of the ranges. */
  lemma ReceivedIsTour(g: seq<seq<nat>>, rs: seq<Range>, bound: nat, ms: seq<Msg>, from: seq<Origin>, i: nat)
    requires Square(g) && bound <= Fact(|g|) && Within(rs, bound) && i < |ms|
    requires Interleaving(ms, Streams(g, rs), from)
    ensures ms[i].rank < bound && ms[i].rank < Fact(|g|) && ms[i].weight == RankWeight(g, ms[i].rank)
  {
    var t, a := from[i].sender, from[i].index;
    var r := rs[t];
    var st := Streams(g, rs)[t];
    assert st == Stream(g, Range(r.first, r.last));
    assert ms[i] == st[a];
    StreamMessage(g, r.first, r.last, ms[i]);
  }

  /** Every worker's stream is covered. */
  lemma StreamsCovered(g: seq<seq<nat>>, rs: seq<Range>)
    requires Square(g)
    ensures forall t :: 0 <= t < |rs| ==> Covered(Streams(g, rs)[t])
  {
    forall t | 0 <= t < |rs| ensures Covered(Streams(g, rs)[t]) {
      WorkerCovered(Weights(g, rs[t].first, rs[t].last), rs[t].first);
    }
  }

  /** Whatever ranges the workers are handed and whatever the interleaving,
      main's minimum is no heavier than any tour of a rank in one of the
      ranges, and unless it is u32::MAX it is the weight and rank of a tour
      of a rank below the ranges' bound. */
  lemma LightestOfRanges(g: seq<seq<nat>>, rs: seq<Range>, bound: nat, ms: seq<Msg>, from: seq<Origin>)
    requires Square(g) && bound <= Fact(|g|) && Within(rs, bound)
    requires Interleaving(ms, Streams(g, rs), from)
    ensures Reduce(ms).min.weight <= U32Max
    ensures forall t, k :: 0 <= t < |rs| && Holds(rs[t], k) ==> Reduce(ms).min.weight <= RankWeight(g, k)
    ensures Reduce(ms).min.weight < U32Max ==>
      Reduce(ms).min.rank < bound && RankWeight(g, Reduce(ms).min.rank) == Reduce(ms).min.weight
  {
    ReduceMin(ms);
    forall t, k | 0 <= t < |rs| && Holds(rs[t], k) ensures Reduce(ms).min.weight <= RankWeight(g, k) {
      OwnerSendsLighter(g, rs, ms, from, k, t, rs[t]);
    }
    if Reduce(ms).min.weight < U32Max {
      var i :| 0 <= i < |ms| && ms[i] == Reduce(ms).min;
      ReceivedIsTour(g, rs, bound, ms, from, i);
    }
  }

  /** Whatever ranges the workers are handed and whatever the interleaving,
      main's maximum is no lighter than any tour of a rank in one of the
      ranges, and unless it is 0 it is the weight and rank of a tour of a
      rank below the ranges' bound. */
  lemma HeaviestOfRanges(g: seq<seq<nat>>, rs: seq<Range>, bound: nat, ms: seq<Msg>, from: seq<Origin>)
    requires Square(g) && bound <= Fact(|g|) && Within(rs, bound)
    requires Interleaving(ms, Streams(g, rs), from)
    ensures forall t, k :: 0 <= t < |rs| && Holds(rs[t], k) ==> RankWeight(g, k) <= Reduce(ms).max.weight
    ensures Reduce(ms).max.weight > 0 ==>
      Reduce(ms).max.rank < bound && RankWeight(g, Reduce(ms).max.rank) == Reduce(ms).max.weight
  {
    StreamsCovered(g, rs);
    InterleavingCovered(ms, Streams(g, rs), from);
    ReduceMax(ms);
    forall t, k | 0 <= t < |rs| && Holds(rs[t], k) ensures RankWeight(g, k) <= Reduce(ms).max.weight {
      OwnerSendsHeavier(g, rs, ms, from, k, t, rs[t]);
    }
    if Reduce(ms).max.weight > 0 {
      var i :| 0 <= i < |ms| && ms[i] == Reduce(ms).max;
      ReceivedIsTour(g, rs, bound, ms, from, i);
    }
  }

  /** A tour of the n vertices weighs what some tour of a rank below (n-1)!
      weighs, and that rank is held by one of the corrected ranges. */
  lemma TourHeld(g: seq<seq<nat>>, threads: nat, p: seq<nat>) returns (t: nat, k: nat)
    requires Square(g) && |g| >= 1 && threads >= 1
    requires IsPermutation(p, Identity(|g|)) && InRange(p, |g|)
    ensures t < threads && Holds(Ranges(|g|, threads)[t], k)
    ensures k < Fact(|g| - 1) && k < Fact(|g|) && RankWeight(g, k) == CycleWeight(g, p)
  {
    StartAtZero(g, p);
    k :| k < Fact(|g| - 1) && k < Fact(|g|) && RankWeight(g, k) == CycleWeight(g, p);
    var r;
    t, r := OwnerRange(|g|, threads, k);
  }

  /** With the ranges corrected, whatever the interleaving, the minimum main
      reports is the weight of the lightest tour of the n vertices (or
      u32::MAX when none is lighter), and it is reported with the rank of a
      tour of that weight that starts at vertex 0. */
  lemma FindsLightest(g: seq<seq<nat>>, threads: nat, ms: seq<Msg>, from: seq<Origin>)
    requires Square(g) && |g| >= 1 && threads >= 1
    requires Interleaving(ms, Streams(g, Ranges(|g|, threads)), from)
    ensures Reduce(ms).min.weight <= U32Max
    ensures forall p :: IsPermutation(p, Identity(|g|)) && InRange(p, |g|) ==>
      Reduce(ms).min.weight <= CycleWeight(g, p)
    ensures Reduce(ms).min.weight < U32Max ==>
      Reduce(ms).min.rank < Fact(|g| - 1) && Reduce(ms).min.rank < Fact(|g|) &&
      RankWeight(g, Reduce(ms).min.rank) == Reduce(ms).min.weight
  {
    RangesWithin(|g|, threads);
    LightestOfRanges(g, Ranges(|g|, threads), Fact(|g| - 1), ms, from);
    forall p | IsPermutation(p, Identity(|g|)) && InRange(p, |g|)
      ensures Reduce(ms).min.weight <= CycleWeight(g, p)
    {
      var t, k := TourHeld(g, threads, p);
    }
  }

  /** With the ranges corrected, whatever the interleaving, the maximum main
      reports is the weight of the heaviest tour of the n vertices, and
      unless it is 0 it is reported with the rank of a tour of that weight
      that starts at vertex 0. */
  lemma FindsHeaviest(g: seq<seq<nat>>, threads: nat, ms: seq<Msg>, from: seq<Origin>)
    requires Square(g) && |g| >= 1 && threads >= 1
    requires Interleaving(ms, Streams(g, Ranges(|g|, threads)), from)
    ensures forall p :: IsPermutation(p, Identity(|g|)) && InRange(p, |g|) ==>
      CycleWeight(g, p) <= Reduce(ms).max.weight
    ensures Reduce(ms).max.weight > 0 ==>
      Reduce(ms).max.rank < Fact(|g| - 1) && Reduce(ms).max.rank < Fact(|g|) &&
      RankWeight(g, Reduce(ms).max.rank) == Reduce(ms).max.weight
  {
    RangesWithin(|g|, threads);
    HeaviestOfRanges(g, Ranges(|g|, threads), Fact(|g| - 1), ms, from);
    forall p | IsPermutation(p, Identity(|g|)) && InRange(p, |g|)
      ensures CycleWeight(g, p) <= Reduce(ms).max.weight
    {
      var t, k := TourHeld(g, threads, p);
    }
  }

  /** As written (rs the ranges main hands out, bound = threads * q where
      they end), whatever the interleaving, main's minimum is no heavier
      than any tour of a rank below bound, and unless it is u32::MAX it is
      the weight and rank of such a tour; the tours of the last
      (n-1)! - bound ranks are never weighed. */
  lemma FindsLightestAsWritten(g: seq<seq<nat>>, threads: nat, rs: seq<Range>, bound: nat, ms: seq<Msg>, from: seq<Origin>)
    requires Square(g) && |g| >= 1 && threads >= 1
    requires rs == AsWrittenRanges(|g|, threads) && bound == Mul(threads, Share(|g|, threads))
    requires Interleaving(ms, Streams(g, rs), from)
    ensures bound <= Fact(|g| - 1) <= Fact(|g|)
    ensures forall k: nat :: k < bound ==> Reduce(ms).min.weight <= RankWeight(g, k)
    ensures Reduce(ms).min.weight < U32Max ==>
      Reduce(ms).min.rank < bound && RankWeight(g, Reduce(ms).min.rank) == Reduce(ms).min.weight
  {
    assert bound <= Fact(|g| - 1) <= Fact(|g|) && Within(rs, bound) by {
      AsWrittenWithin(|g|, threads, rs, bound);
    }
    LightestOfRanges(g, rs, bound, ms, from);
    forall k: nat | k < bound ensures Reduce(ms).min.weight <= RankWeight(g, k) {
      var t := AsWrittenOwner(|g|, threads, rs, bound, k);
    }
  }

  /** As written (rs the ranges main hands out, bound = threads * q where
      they end), whatever the interleaving, main's maximum is no lighter
      than any tour of a rank below bound, and unless it is 0 it is the
      weight and rank of such a tour. */
  lemma FindsHeaviestAsWritten(g: seq<seq<nat>>, threads: nat, rs: seq<Range>, bound: nat, ms: seq<Msg>, from: seq<Origin>)
    requires Square(g) && |g| >= 1 && threads >= 1
    requires rs == AsWrittenRanges(|g|, threads) && bound == Mul(threads, Share(|g|, threads))
    requires Interleaving(ms, Streams(g, rs), from)
    ensures bound <= Fact(|g| - 1) <= Fact(|g|)
    ensures forall k: nat :: k < bound ==> RankWeight(g, k) <= Reduce(ms).max.weight
    ensures Reduce(ms).max.weight > 0 ==>
      Reduce(ms).max.rank < bound && RankWeight(g, Reduce(ms).max.rank) == Reduce(ms).max.weight
  {
    assert bound <= Fact(|g| - 1) <= Fact(|g|) && Within(rs, bound) by {
      AsWrittenWithin(|g|, threads, rs, bound);
    }
    HeaviestOfRanges(g, rs, bound, ms, from);
    forall k: nat | k < bound ensures RankWeight(g, k) <= Reduce(ms).max.weight {
      var t := AsWrittenOwner(|g|, threads, rs, bound, k);
    }
  }

  /** As written, with more threads than tours starting at vertex 0 every
      range is empty: no message is sent and main reports (u32::MAX, 0) and
      (0, 0). */
  lemma AsWrittenWeighsNothing(g: seq<seq<nat>>, threads: nat, ms: seq<Msg>, from: seq<Origin>)
    requires Square(g) && |g| >= 1 && threads > Fact(|g| - 1)
    requires Interleaving(ms, Streams(g, AsWrittenRanges(|g|, threads)), from)
    ensures ms == [] && Reduce(ms) == Initial()
  {
    var rs := AsWrittenRanges(|g|, threads);
    AsWrittenShape(|g|, threads);
    forall t | 0 <= t < threads ensures Streams(g, rs)[t] == [] {
      MulZero(t);
      MulZero(t + 1);
      assert Weights(g, rs[t].first, rs[t].last) == [];
    }
    FirstArrival(ms, Streams(g, rs), from);
  }
}
