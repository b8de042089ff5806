/** One round of `subserver_dishoutwork`: which servers get how many requests. */
module HandOut {

  /** What a round sees of the servers: how many queries each has and can have, which are connected, and which
      have been given up, first one first. */
  datatype Load = Load(noq: seq<int>, moq: seq<nat>, open: seq<bool>, dead: seq<nat>)
  {
    /** Servers do not have more queries than they can, and those given up have none. */
    ghost predicate Valid()
    {
      && |noq| == |moq| == |open|
      && (forall k | 0 <= k < |noq| :: 0 <= noq[k] <= moq[k] && moq[k] > 0)
      && (forall k | k in dead :: k < |noq| && noq[k] == 0)
    }
  }

  /** Server `k` gets one more query.  If it has to be connected to and that fails at once, it is given up, and
      its query goes back to the queue. */
  function Given(l: Load, k: nat, refused: bool): Load
    requires k < |l.noq| == |l.open|
  {
    if !l.open[k] && refused then l.(noq := l.noq[k := 0], dead := l.dead + [k])
    else l.(noq := l.noq[k := l.noq[k] + 1], open := l.open[k := true])
  }

  predicate Refused(refusals: seq<bool>, i: nat)
  {
    i < |refusals| && refusals[i]
  }

  /** The rest of a round: `pss` is the server looked at and `i` counts the steps; `work` requests can still be
      handed out.  A server that has been given up is not moved past, and handing out a request is a step. */
  function Round(l: Load, refusals: seq<bool>, pss: nat, i: nat, work: int): (r: Load)
    requires l.Valid() && pss <= i
    ensures r.Valid() && r.moq == l.moq
    decreases |l.noq| - i
  {
    if i >= |l.noq| || work <= 0 then l
    else if l.noq[pss] == l.moq[pss] then Round(l, refusals, pss + 1, i + 1, work)
    else if pss in l.dead then Round(l, refusals, pss, i + 1, work)
    else Round(Given(l, pss, Refused(refusals, i)), refusals, pss, i + 1, work - 1)
  }

  function Sum(s: seq<int>): int
  {
    if s == [] then 0 else s[0] + Sum(s[1..])
  }

  /** A whole call, with `free` places at live servers, `nreqs` requests waiting: a round, and then, if requests
      are left and it is time to retry, one more for the server given up first. */
  function AfterCall(l: Load, free: int, nreqs: nat, refusals: seq<bool>, retry: bool): (r: Load)
    requires l.Valid()
    ensures |r.noq| == |r.open| == |l.noq|
  {
    var m := Round(l, refusals, 0, 0, if free > nreqs then nreqs else free);
    if nreqs + Sum(l.noq) == Sum(m.noq) || m.dead == [] || !retry then m
    else
      assert m.dead[0] in m.dead;
      Given(m.(dead := m.dead[1..]), m.dead[0], Refused(refusals, |l.noq|))
  }

  // ----- who is served -----

  function Free(l: Load, k: nat): int
    requires k < |l.noq| == |l.moq|
  {
    l.moq[k] - l.noq[k]
  }

  /** The free places of servers `from` up to `to`. */
  function FreeBefore(l: Load, from: nat, to: nat): int
    requires from <= to <= |l.noq| == |l.moq|
    decreases |l.noq| - from
  {
    if from == to then 0 else Free(l, from) + FreeBefore(l, from + 1, to)
  }

  /** The steps it takes to fill those servers and to move past them. */
  function StepsBefore(l: Load, from: nat, to: nat): int
    requires from <= to <= |l.noq| == |l.moq|
  {
    FreeBefore(l, from, to) + (to - from)
  }

  lemma {:induction false} FreeIsNat(l: Load, from: nat, to: nat)
    requires l.Valid() && from <= to <= |l.noq|
    ensures FreeBefore(l, from, to) >= 0
    decreases |l.noq| - from
  {
    if from < to { FreeIsNat(l, from + 1, to); }
  }

  lemma {:induction false} FreeSame(l: Load, m: Load, from: nat, to: nat)
    requires from <= to <= |l.noq| == |l.moq| == |m.noq| == |m.moq|
    requires forall k | from <= k < to :: m.noq[k] == l.noq[k] && m.moq[k] == l.moq[k]
    ensures FreeBefore(m, from, to) == FreeBefore(l, from, to)
    decreases |l.noq| - from
  {
    if from < to { FreeSame(l, m, from + 1, to); }
  }

  /** The round ends at server `k`, if it comes that far from server `pss` in step `i`: the server has been given
      up, or the connection it needs fails. */
  predicate Stops(l: Load, refusals: seq<bool>, pss: nat, i: nat, k: nat)
    requires pss <= k < |l.noq| == |l.moq| == |l.open|
  {
    k in l.dead ||
    (Free(l, k) > 0 && !l.open[k] && i + StepsBefore(l, pss, k) >= 0 && Refused(refusals, i + StepsBefore(l, pss, k)))
  }

  /** Server `j` has a free place, nothing stops the round at or before it, and enough requests and enough
      steps are left for it when the servers before it are full. */
  ghost predicate InReach(l: Load, refusals: seq<bool>, pss: nat, i: nat, work: int, j: nat)
    requires pss <= j < |l.noq| == |l.moq| == |l.open|
  {
    && Free(l, j) > 0
    && (forall k {:trigger Stops(l, refusals, pss, i, k)} | pss <= k <= j :: !Stops(l, refusals, pss, i, k))
    && FreeBefore(l, pss, j) < work
    && i + StepsBefore(l, pss, j) < |l.noq|
  }

  lemma {:induction false} BehindStays(l: Load, refusals: seq<bool>, pss: nat, i: nat, work: int, j: nat)
    requires l.Valid() && pss <= i && j < pss && j < |l.noq|
    ensures Round(l, refusals, pss, i, work).noq[j] == l.noq[j]
    decreases |l.noq| - i
  {
    if i >= |l.noq| || work <= 0 {
    } else if l.noq[pss] == l.moq[pss] {
      BehindStays(l, refusals, pss + 1, i + 1, work, j);
    } else if pss in l.dead {
      BehindStays(l, refusals, pss, i + 1, work, j);
    } else {
      BehindStays(Given(l, pss, Refused(refusals, i)), refusals, pss, i + 1, work - 1, j);
    }
  }

  /** A connected server that has not been given up never loses a query in a round. */
  lemma {:induction false} OpenKeeps(l: Load, refusals: seq<bool>, pss: nat, i: nat, work: int, j: nat)
    requires l.Valid() && pss <= i && j < |l.noq| && l.open[j]
    ensures Round(l, refusals, pss, i, work).noq[j] >= l.noq[j]
    decreases |l.noq| - i
  {
    if i >= |l.noq| || work <= 0 {
    } else if l.noq[pss] == l.moq[pss] {
      OpenKeeps(l, refusals, pss + 1, i + 1, work, j);
    } else if pss in l.dead {
      OpenKeeps(l, refusals, pss, i + 1, work, j);
    } else {
      OpenKeeps(Given(l, pss, Refused(refusals, i)), refusals, pss, i + 1, work - 1, j);
    }
  }

  /** Moving past a full server, or giving one a query, changes nothing about who else is in reach. */
  lemma ReachMovesOn(l: Load, refusals: seq<bool>, pss: nat, next: nat, i: nat, i': nat, work: int, j: nat)
    requires l.Valid() && pss < j < |l.noq| && next == pss + 1 && i' == i + 1 && Free(l, pss) == 0 && pss !in l.dead
    ensures InReach(l, refusals, pss, i, work, j) <==> InReach(l, refusals, next, i', work, j)
  {
    assert !Stops(l, refusals, pss, i, pss);
    assert StepsBefore(l, pss, j) == StepsBefore(l, next, j) + 1;
    forall k | pss < k <= j ensures Stops(l, refusals, pss, i, k) <==> Stops(l, refusals, next, i', k) {
      assert StepsBefore(l, pss, k) == StepsBefore(l, next, k) + 1;
    }
  }

  lemma {:induction false} ServedMovesOn(l: Load, refusals: seq<bool>, pss: nat, i: nat, work: int, j: nat)
    requires l.Valid() && pss <= i < |l.noq| && pss <= j < |l.noq| && work > 0 && l.noq[pss] == l.moq[pss]
    ensures Round(l, refusals, pss, i, work).noq[j] > l.noq[j] <==> InReach(l, refusals, pss, i, work, j)
    decreases |l.noq| - i, 0
  {
    if j == pss {
      BehindStays(l, refusals, pss + 1, i + 1, work, j);
    } else {
      ServedFrom(l, refusals, pss + 1, i + 1, work, j);
      ReachMovesOn(l, refusals, pss, pss + 1, i, i + 1, work, j);
    }
  }

  lemma StoppedHere(l: Load, refusals: seq<bool>, pss: nat, i: nat, work: int, j: nat)
    requires l.Valid() && pss <= j < |l.noq|
    requires pss in l.dead || (l.noq[pss] < l.moq[pss] && !l.open[pss] && Refused(refusals, i))
    ensures !InReach(l, refusals, pss, i, work, j)
  {
    assert FreeBefore(l, pss, pss) == 0;
    assert Stops(l, refusals, pss, i, pss);
  }

  lemma {:induction false} ServedRefused(l: Load, refusals: seq<bool>, pss: nat, i: nat, work: int, j: nat)
    requires l.Valid() && pss <= i < |l.noq| && pss <= j < |l.noq| && work > 0 && l.noq[pss] < l.moq[pss]
    requires pss !in l.dead && !l.open[pss] && Refused(refusals, i)
    ensures Round(l, refusals, pss, i, work).noq[j] <= l.noq[j] && !InReach(l, refusals, pss, i, work, j)
    decreases |l.noq| - i, 0
  {
    var m := Given(l, pss, true);
    ServedFrom(m, refusals, pss, i + 1, work - 1, j);
    StoppedHere(l, refusals, pss, i, work, j);
    StoppedHere(m, refusals, pss, i + 1, work - 1, j);
  }

  lemma ReachGives(l: Load, m: Load, refusals: seq<bool>, pss: nat, i: nat, i': nat, work: int, j: nat)
    requires l.Valid() && pss < j < |l.noq| && i' == i + 1 && Free(l, pss) > 0 && pss !in l.dead
    requires m == Given(l, pss, false) && (l.open[pss] || !Refused(refusals, i))
    ensures InReach(l, refusals, pss, i, work, j) <==> InReach(m, refusals, pss, i', work - 1, j)
  {
    FreeIsNat(l, pss, j);
    assert FreeBefore(l, pss, pss) == 0;
    assert !Stops(l, refusals, pss, i, pss) && !Stops(m, refusals, pss, i', pss);
    forall k | pss < k <= j
      ensures Stops(l, refusals, pss, i, k) <==> Stops(m, refusals, pss, i', k)
      ensures FreeBefore(l, pss, k) == FreeBefore(m, pss, k) + 1
    {
      FreeSame(l, m, pss + 1, k);
    }
  }

  lemma {:induction false} ServedLater(l: Load, refusals: seq<bool>, pss: nat, i: nat, work: int, j: nat)
    requires l.Valid() && pss <= i < |l.noq| && pss < j < |l.noq| && work > 0 && l.noq[pss] < l.moq[pss]
    requires pss !in l.dead && (l.open[pss] || !Refused(refusals, i))
    ensures Round(l, refusals, pss, i, work).noq[j] > l.noq[j] <==> InReach(l, refusals, pss, i, work, j)
    decreases |l.noq| - i, 0
  {
    var m := Given(l, pss, false);
    ServedFrom(m, refusals, pss, i + 1, work - 1, j);
    ReachGives(l, m, refusals, pss, i, i + 1, work, j);
  }

  lemma ReachedNow(l: Load, refusals: seq<bool>, pss: nat, i: nat, work: int)
    requires l.Valid() && pss <= i < |l.noq| && work > 0 && l.noq[pss] < l.moq[pss] && pss !in l.dead
    requires l.open[pss] || !Refused(refusals, i)
    ensures InReach(l, refusals, pss, i, work, pss)
  {
    assert FreeBefore(l, pss, pss) == 0;
    assert !Stops(l, refusals, pss, i, pss);
  }

  lemma {:induction false} ServedGives(l: Load, refusals: seq<bool>, pss: nat, i: nat, work: int, j: nat)
    requires l.Valid() && pss <= i < |l.noq| && pss <= j < |l.noq| && work > 0 && l.noq[pss] < l.moq[pss]
    requires pss !in l.dead
    ensures Round(l, refusals, pss, i, work).noq[j] > l.noq[j] <==> InReach(l, refusals, pss, i, work, j)
    decreases |l.noq| - i, 1
  {
    if !l.open[pss] && Refused(refusals, i) {
      ServedRefused(l, refusals, pss, i, work, j);
    } else if j == pss {
      OpenKeeps(Given(l, pss, false), refusals, pss, i + 1, work - 1, j);
      ReachedNow(l, refusals, pss, i, work);
    } else {
      ServedLater(l, refusals, pss, i, work, j);
    }
  }

  /** From any point of a round on, a server gets work if and only if it is in reach. */
  lemma {:induction false} ServedFrom(l: Load, refusals: seq<bool>, pss: nat, i: nat, work: int, j: nat)
    requires l.Valid() && pss <= i && pss <= j < |l.noq|
    ensures Round(l, refusals, pss, i, work).noq[j] > l.noq[j] <==> InReach(l, refusals, pss, i, work, j)
    decreases |l.noq| - i
  {
    FreeIsNat(l, pss, j);
    if i >= |l.noq| || work <= 0 {
    } else if l.noq[pss] == l.moq[pss] {
      ServedMovesOn(l, refusals, pss, i, work, j);
    } else if pss in l.dead {
      ServedFrom(l, refusals, pss, i + 1, work, j);
      assert Stops(l, refusals, pss, i, pss) && Stops(l, refusals, pss, i + 1, pss);
    } else {
      ServedGives(l, refusals, pss, i, work, j);
    }
  }

  /** In a round a server gets work if and only if it has a free place, no server at or before it has been given
      up or fails to be connected to, and the requests and the steps suffice to fill all servers before it. */
  lemma Served(l: Load, refusals: seq<bool>, work: int, j: nat)
    requires l.Valid() && j < |l.noq|
    ensures Round(l, refusals, 0, 0, work).noq[j] > l.noq[j] <==> InReach(l, refusals, 0, 0, work, j)
  {
    ServedFrom(l, refusals, 0, 0, work, j);
  }

  /** A live server with a free place gets nothing although a request waits: the one before it is dead. */
  lemma StarvesBehindDead()
    ensures var l := Load([0, 0], [1, 1], [false, true], [0]);
            l.Valid() && Round(l, [], 0, 0, 1) == l
  {
    var l := Load([0, 0], [1, 1], [false, true], [0]);
    assert Round(l, [], 0, 2, 1) == l;
    assert Round(l, [], 0, 1, 1) == l;
  }

  /** The same with all servers live: the steps run out. */
  lemma StarvesForSteps()
    ensures var l := Load([0, 0], [1, 1], [true, true], []);
            l.Valid() && Round(l, [], 0, 0, 2) == l.(noq := [1, 0])
  {
    var l := Load([0, 0], [1, 1], [true, true], []);
    var m := Load([1, 0], [1, 1], [true, true], []);
    assert Given(l, 0, false) == m;
    assert Round(m, [], 1, 2, 1) == m;
    assert Round(m, [], 0, 1, 1) == m;
  }

  /** The test for servers that are too loaded never holds of one that is not full. */
  lemma NeverTooLoaded(noq: int, moq: int, total: nat)
    requires 0 <= noq < moq && total > 0
    ensures (noq + 1) / total <= moq / total
  {
    var q, q' := (noq + 1) / total, moq / total;
    assert q * total <= noq + 1 && moq < (q' + 1) * total;
    assert q > q' ==> q * total >= (q' + 1) * total;
  }
}
