/** Open addressing with double hashing: what a probe sequence finds. */
module Probing {
  import opened Collections
  import opened Pigeonhole
  import opened Primes

  /** The high bit, which marks a value or a document number stored in place of an index. */
  const DIRECT: nat := 0x8000_0000

  /** The value each slot of the table stands for, if any. */
  type Keys = seq<Option<nat>>

  function Step(v: nat, m: nat): (s: nat)
    requires m >= 3
    ensures 0 < s < m
  {
    v % (m - 2) + 1
  }

  /** The slot that the `k`th probe for a value looks at: the step is added, and the size subtracted on
      overflow. */
  function At(v: nat, k: nat, m: nat): (s: nat)
    requires m >= 3
    ensures s < m
  {
    if k == 0 then v % m else
      var s := At(v, k - 1, m) + Step(v, m);
      if s >= m then s - m else s
  }

  lemma {:induction false} AtIsProbe(v: nat, k: nat, m: nat)
    requires m >= 3
    ensures At(v, k, m) == Probe(v % m, Step(v, m), k, m)
  {
    if k > 0 {
      AtIsProbe(v, k - 1, m);
      ProbeStep(v % m, Step(v, m), k - 1, m);
    } else {
      ProbeStep(v % m, Step(v, m), 0, m);
    }
  }

  /** The first `k` probes for a value see only slots of other values. */
  ghost predicate Passes(keys: Keys, v: nat, k: nat)
    requires |keys| >= 3
  {
    forall j {:trigger At(v, j, |keys|)} | 0 <= j < k :: keys[At(v, j, |keys|)].Some? && keys[At(v, j, |keys|)] != Some(v)
  }

  ghost predicate Reaches(keys: Keys, v: nat, k: nat, x: nat)
    requires |keys| >= 3
  {
    k < |keys| && At(v, k, |keys|) == x && Passes(keys, v, k)
  }

  /** A used slot is where the search for its value ends. */
  ghost predicate Findable(keys: Keys, x: nat)
    requires |keys| >= 3 && x < |keys|
  {
    keys[x].Some? ==> exists k :: Reaches(keys, keys[x].value, k, x)
  }

  ghost predicate Sound(keys: Keys)
  {
    && |keys| >= 3
    && (forall x {:trigger Findable(keys, x)} | 0 <= x < |keys| :: Findable(keys, x))
  }

  /** Every slot is looked at within as many probes as there are slots. */
  lemma VisitsEverySlot(v: nat, m: nat, x: nat) returns (k: nat)
    requires m >= 3 && IsPrime(m) && x < m
    ensures k < m && At(v, k, m) == x
  {
    var seen := seq(m, k requires 0 <= k < m => At(v, k, m));
    if forall k: nat | k < m :: At(v, k, m) != x {
      forall i, j | 0 <= i < j < m ensures seen[i] != seen[j] {
        ProbesDiffer(v % m, Step(v, m), m, i, j);
        AtIsProbe(v, i, m);
        AtIsProbe(v, j, m);
      }
      Pigeons(seen, m, x);
    }
    k :| k < m && At(v, k, m) == x;
  }

  /** A search ends at one slot only: the first that is empty or has the value. */
  lemma OneEnd(keys: Keys, v: nat, i: nat, x: nat, j: nat, y: nat)
    requires |keys| >= 3 && x < |keys| && y < |keys| && Reaches(keys, v, i, x) && Reaches(keys, v, j, y)
    requires (keys[x].None? || keys[x] == Some(v)) && (keys[y].None? || keys[y] == Some(v))
    ensures x == y
  {
  }

  lemma OneSlotPerValue(keys: Keys, x: nat, y: nat)
    requires Sound(keys) && x < |keys| && y < |keys| && keys[x].Some? && keys[x] == keys[y]
    ensures x == y
  {
    assert Findable(keys, x) && Findable(keys, y);
    var v := keys[x].value;
    var i: nat :| Reaches(keys, v, i, x);
    var j: nat :| Reaches(keys, v, j, y);
    OneEnd(keys, v, i, x, j, y);
  }

  /** Where the search for a value ends at an empty slot, the value is not in the table. */
  lemma EmptyMeansAbsent(keys: Keys, v: nat, k: nat, x: nat)
    requires Sound(keys) && x < |keys| && Reaches(keys, v, k, x) && keys[x].None?
    ensures forall y | 0 <= y < |keys| :: keys[y] != Some(v)
  {
    forall y | 0 <= y < |keys| ensures keys[y] != Some(v) {
      if keys[y] == Some(v) {
        assert Findable(keys, y);
        var j: nat :| Reaches(keys, v, j, y);
        OneEnd(keys, v, k, x, j, y);
      }
    }
  }

  /** Filling the empty slot where a search ends keeps every value findable. */
  lemma PutKeepsSound(keys: Keys, v: nat, k: nat, x: nat)
    requires Sound(keys) && x < |keys| && Reaches(keys, v, k, x) && keys[x].None?
    ensures Sound(keys[x := Some(v)])
  {
    EmptyMeansAbsent(keys, v, k, x);
    var after := keys[x := Some(v)];
    forall y | 0 <= y < |after| ensures Findable(after, y) {
      assert Findable(keys, y);
      if y == x {
        assert Reaches(after, v, k, x);
      } else if keys[y].Some? {
        var j: nat :| Reaches(keys, keys[y].value, j, y);
        assert Reaches(after, keys[y].value, j, y);
      }
    }
  }

  /** A table with fewer values than slots has an empty slot. */
  lemma EmptySlot(keys: Keys, values: set<nat>) returns (x: nat)
    requires Sound(keys) && |values| < |keys|
    requires forall y | 0 <= y < |keys| && keys[y].Some? :: keys[y].value in values
    ensures x < |keys| && keys[x].None?
  {
    if forall y | 0 <= y < |keys| :: keys[y].Some? {
      var vs := seq(|keys|, y requires 0 <= y < |keys| => if keys[y].Some? then keys[y].value else 0);
      forall i, j | 0 <= i < j < |vs| ensures vs[i] != vs[j] {
        if vs[i] == vs[j] { OneSlotPerValue(keys, i, j); }
      }
      Distinct(vs);
      Subset(set i | 0 <= i < |vs| :: vs[i], values);
    }
    x :| x < |keys| && keys[x].None?;
  }

  lemma EmptyTable(m: nat)
    requires m >= 3
    ensures Sound(seq(m, _ => None))
  {
  }
}
