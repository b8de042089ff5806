/** Which block holds the growing last fragment of each record, what bytes every fragment has, and what has
    been written out. */
module Records {
  import opened Collections
  import opened PageMaps
  import opened Pages

  /** One entry of the log: a fragment and the block, in its final numbering, that holds it. */
  datatype Rfb = Rfb(recno: nat, fragno: nat, blkno: nat)

  // ----- live fragments -----

  /** The record tables, the cached blocks, and the bytes of every fragment that has been begun. */
  datatype Tables = Tables(nfrags: seq<nat>, live: seq<nat>, cache: map<nat, Page>, data: Contents)

  ghost predicate RecIn(slots: seq<Slot>, rec: nat)
  {
    exists s | 0 <= s < |slots| :: slots[s].recnum == rec
  }

  /** A cached fragment is the last one of its record, the record's block is this one, and its bytes are
      those the record has. */
  ghost predicate SlotOk(t: Tables, b: nat, s: nat)
    requires b in t.cache && s < |t.cache[b].slots| && |t.live| == |t.nfrags|
  {
    var x := t.cache[b].slots[s];
    && 0 < x.recnum < |t.nfrags| && x.fragnum + 1 == t.nfrags[x.recnum] && t.live[x.recnum] == b
    && (x.recnum, x.fragnum) in t.data && t.data[(x.recnum, x.fragnum)] == Data(t.cache[b], s)
  }

  ghost predicate BlockOk(t: Tables, b: nat)
    requires b in t.cache && |t.live| == |t.nfrags|
  {
    && b > 0 && Valid(t.cache[b])
    && (forall s {:trigger SlotOk(t, b, s)} | 0 <= s < |t.cache[b].slots| :: SlotOk(t, b, s))
  }

  /** A record with a live fragment has it in the block named. */
  ghost predicate LiveOk(t: Tables, rec: nat)
    requires rec < |t.live| == |t.nfrags|
  {
    t.nfrags[rec] >= 1 && (t.live[rec] != 0 ==> t.live[rec] in t.cache && RecIn(t.cache[t.live[rec]].slots, rec))
  }

  /** A fragment has been begun: any but the last one of its record, and that one if it is live. */
  ghost predicate Begun(nfrags: seq<nat>, live: seq<nat>, rec: nat, f: nat)
  {
    0 < rec < |nfrags| && f < nfrags[rec] && (f + 1 == nfrags[rec] ==> rec < |live| && live[rec] != 0)
  }

  ghost predicate TablesOk(t: Tables)
  {
    && |t.live| == |t.nfrags|
    && (forall b {:trigger BlockOk(t, b)} | b in t.cache :: BlockOk(t, b))
    && (forall rec {:trigger LiveOk(t, rec)} | 0 < rec < |t.live| :: LiveOk(t, rec))
    && (forall rec: nat, f: nat {:trigger Begun(t.nfrags, t.live, rec, f)} ::
          (rec, f) in t.data <==> Begun(t.nfrags, t.live, rec, f))
  }

  /** Each record has at most one live fragment. */
  lemma OneLiveFragment(t: Tables, b: nat, s: nat, c: nat, u: nat)
    requires TablesOk(t) && b in t.cache && c in t.cache && s < |t.cache[b].slots| && u < |t.cache[c].slots|
    requires t.cache[b].slots[s].recnum == t.cache[c].slots[u].recnum
    ensures 0 < t.cache[b].slots[s].recnum < |t.live|
    ensures b == c && s == u && t.cache[b].slots[s].fragnum + 1 == t.nfrags[t.cache[b].slots[s].recnum]
    ensures t.live[t.cache[b].slots[s].recnum] == b
  {
    assert BlockOk(t, b) && BlockOk(t, c) && SlotOk(t, b, s) && SlotOk(t, c, u);
    if s != u { KeysUnique(t.cache[b].slots, t.cache[b].recindex, s, u); }
  }

  /** The live fragment of a record is in the block named, and what that block holds for it are its bytes. */
  lemma LiveData(t: Tables, rec: nat)
    requires TablesOk(t) && 0 < rec < |t.live| && t.live[rec] != 0
    ensures t.nfrags[rec] >= 1 && (rec, t.nfrags[rec] - 1) in t.data
    ensures t.live[rec] in t.cache && Valid(t.cache[t.live[rec]])
    ensures Has(t.cache[t.live[rec]].slots, rec, t.nfrags[rec] - 1)
    ensures Value(t.cache[t.live[rec]], rec, t.nfrags[rec] - 1) == Some(t.data[(rec, t.nfrags[rec] - 1)])
  {
    assert LiveOk(t, rec);
    var b := t.live[rec];
    var s: nat :| s < |t.cache[b].slots| && t.cache[b].slots[s].recnum == rec;
    assert BlockOk(t, b) && SlotOk(t, b, s);
    ValueAt(t.cache[b], s);
  }

  /** A record without a live fragment is in no cached block. */
  lemma NotLive(t: Tables, rec: nat, b: nat)
    requires TablesOk(t) && 0 < rec < |t.live| && t.live[rec] == 0 && b in t.cache
    ensures !RecIn(t.cache[b].slots, rec)
  {
    assert BlockOk(t, b);
    forall s | 0 <= s < |t.cache[b].slots| ensures t.cache[b].slots[s].recnum != rec {
      assert SlotOk(t, b, s);
    }
  }

  /** Blocks that a change leaves alone are still in order. */
  lemma OtherBlock(t: Tables, u: Tables, b: nat)
    requires b in t.cache && b in u.cache && u.cache[b] == t.cache[b]
    requires |t.live| == |t.nfrags| <= |u.live| == |u.nfrags| && BlockOk(t, b)
    requires forall s {:trigger t.cache[b].slots[s]} | 0 <= s < |t.cache[b].slots| ::
               var x := t.cache[b].slots[s];
               x.recnum < |t.nfrags| ==>
               && u.nfrags[x.recnum] == t.nfrags[x.recnum] && u.live[x.recnum] == t.live[x.recnum]
               && ((x.recnum, x.fragnum) in t.data ==>
                     (x.recnum, x.fragnum) in u.data && u.data[(x.recnum, x.fragnum)] == t.data[(x.recnum, x.fragnum)])
    ensures BlockOk(u, b)
  {
    forall s | 0 <= s < |u.cache[b].slots| ensures SlotOk(u, b, s) {
      assert SlotOk(t, b, s);
      var x := t.cache[b].slots[s];
    }
  }

  /** A new record, with no fragment begun. */
  lemma NewKeeps(t: Tables)
    requires TablesOk(t) && |t.nfrags| > 0
    ensures TablesOk(t.(nfrags := t.nfrags + [1], live := t.live + [0]))
  {
    var u := t.(nfrags := t.nfrags + [1], live := t.live + [0]);
    forall b | b in u.cache ensures BlockOk(u, b) {
      assert BlockOk(t, b);
      OtherBlock(t, u, b);
    }
    forall r | 0 < r < |u.live| ensures LiveOk(u, r) {
      if r < |t.live| { assert LiveOk(t, r); }
    }
    forall r: nat, f: nat ensures (r, f) in u.data <==> Begun(u.nfrags, u.live, r, f) {
      assert (r, f) in t.data <==> Begun(t.nfrags, t.live, r, f);
    }
  }

  // ----- starting a fragment -----

  /** A fragment of record `rec` has been started in block `b`, whose contents are now `q`. */
  ghost function Started(t: Tables, b: nat, q: Page, rec: nat, bytes: seq<byte>): Tables
    requires rec < |t.live| && rec < |t.nfrags| && t.nfrags[rec] >= 1
  {
    Tables(t.nfrags, t.live[rec := b], t.cache[b := q], t.data[(rec, t.nfrags[rec] - 1) := bytes])
  }

  /** `q` is `p` with one more slot, for the last fragment of a record. */
  ghost predicate OneMore(t: Tables, b: nat, p: Page, q: Page, rec: nat)
  {
    && (if b in t.cache then p == t.cache[b] else p.slots == [])
    && rec < |t.nfrags| && t.nfrags[rec] >= 1
    && Valid(q) && |q.slots| == |p.slots| + 1 && Is(q.slots[|p.slots|], rec, t.nfrags[rec] - 1)
    && (forall s | 0 <= s < |p.slots| :: q.slots[s] == p.slots[s] && Data(q, s) == Data(p, s))
  }

  lemma StartedSlot(t: Tables, b: nat, p: Page, q: Page, rec: nat, bytes: seq<byte>, s: nat)
    requires TablesOk(t) && 0 < rec < |t.live| && t.live[rec] == 0 && OneMore(t, b, p, q, rec)
    requires s < |p.slots|
    ensures SlotOk(Started(t, b, q, rec, bytes), b, s)
  {
    NotLive(t, rec, b);
    assert BlockOk(t, b) && SlotOk(t, b, s);
    assert q.slots[s] == p.slots[s] && Data(q, s) == Data(p, s);
  }

  lemma StartedBlock(t: Tables, b: nat, p: Page, q: Page, rec: nat)
    requires TablesOk(t) && b > 0 && 0 < rec < |t.live| && t.live[rec] == 0 && OneMore(t, b, p, q, rec)
    ensures BlockOk(Started(t, b, q, rec, Data(q, |p.slots|)), b)
  {
    var u := Started(t, b, q, rec, Data(q, |p.slots|));
    forall s | 0 <= s < |q.slots| ensures SlotOk(u, b, s) {
      if s < |p.slots| { StartedSlot(t, b, p, q, rec, Data(q, |p.slots|), s); }
    }
  }

  lemma StartedKeeps(t: Tables, b: nat, p: Page, q: Page, rec: nat)
    requires TablesOk(t) && b > 0 && 0 < rec < |t.live| && t.live[rec] == 0 && OneMore(t, b, p, q, rec)
    ensures TablesOk(Started(t, b, q, rec, Data(q, |p.slots|)))
  {
    var u := Started(t, b, q, rec, Data(q, |p.slots|));
    StartedBlock(t, b, p, q, rec);
    forall c | c in u.cache && c != b ensures BlockOk(u, c) {
      NotLive(t, rec, c);
      assert BlockOk(t, c);
      OtherBlock(t, u, c);
    }
    forall r | 0 < r < |u.live| ensures LiveOk(u, r) {
      assert LiveOk(t, r);
      if r == rec {
        assert q.slots[|p.slots|].recnum == rec;
      } else if t.live[r] == b {
        var s :| 0 <= s < |p.slots| && p.slots[s].recnum == r;
        assert q.slots[s].recnum == r;
      }
    }
    forall r: nat, f: nat ensures (r, f) in u.data <==> Begun(u.nfrags, u.live, r, f) {
      assert (r, f) in t.data <==> Begun(t.nfrags, t.live, r, f);
    }
  }

  // ----- changing the bytes of a fragment -----

  /** The fragment in slot `s` of block `b` has other bytes now; the block's contents are `q`. */
  ghost function Rewritten(t: Tables, b: nat, q: Page, s: nat): Tables
    requires s < |q.slots|
  {
    t.(cache := t.cache[b := q], data := t.data[(q.slots[s].recnum, q.slots[s].fragnum) := Data(q, s)])
  }

  lemma SlotsDiffer(t: Tables, b: nat, s: nat, c: nat, u: nat)
    requires TablesOk(t) && b in t.cache && c in t.cache && s < |t.cache[b].slots| && u < |t.cache[c].slots|
    requires b != c || s != u
    ensures t.cache[b].slots[s].recnum != t.cache[c].slots[u].recnum
  {
    if t.cache[b].slots[s].recnum == t.cache[c].slots[u].recnum { OneLiveFragment(t, b, s, c, u); }
  }

  lemma RewrittenBlock(t: Tables, b: nat, q: Page, s: nat, c: nat)
    requires TablesOk(t) && b in t.cache && OneChanged(t.cache[b], q, s) && c in t.cache
    ensures BlockOk(Rewritten(t, b, q, s), c)
  {
    var u := Rewritten(t, b, q, s);
    assert BlockOk(t, b) && SlotOk(t, b, s) && BlockOk(t, c);
    forall v | 0 <= v < |u.cache[c].slots| ensures SlotOk(u, c, v) {
      assert SlotOk(t, c, v);
      if b != c || v != s { SlotsDiffer(t, b, s, c, v); }
    }
  }

  lemma RewrittenKeeps(t: Tables, b: nat, q: Page, s: nat)
    requires TablesOk(t) && b in t.cache && OneChanged(t.cache[b], q, s)
    ensures TablesOk(Rewritten(t, b, q, s))
  {
    var u := Rewritten(t, b, q, s);
    assert BlockOk(t, b) && SlotOk(t, b, s);
    forall c | c in u.cache ensures BlockOk(u, c) {
      RewrittenBlock(t, b, q, s, c);
    }
    forall r | 0 < r < |u.live| ensures LiveOk(u, r) {
      assert LiveOk(t, r);
      if t.live[r] == b {
        var v :| 0 <= v < |t.cache[b].slots| && t.cache[b].slots[v].recnum == r;
        assert q.slots[v].recnum == r;
      }
    }
    forall r: nat, f: nat ensures (r, f) in u.data <==> Begun(u.nfrags, u.live, r, f) {
      assert (r, f) in t.data <==> Begun(t.nfrags, t.live, r, f);
    }
  }

  // ----- ending a fragment -----

  /** The fragment in slot `s` of block `b` is gone; the block's contents are `q`. */
  ghost function Ended(t: Tables, b: nat, q: Page, s: nat): Tables
    requires b in t.cache && s < |t.cache[b].slots| && t.cache[b].slots[s].recnum < |t.live|
  {
    var x := t.cache[b].slots[s];
    Tables(t.nfrags, t.live[x.recnum := 0], t.cache[b := q], t.data - {(x.recnum, x.fragnum)})
  }

  lemma EndedBlock(t: Tables, b: nat, q: Page, s: nat, c: nat)
    requires TablesOk(t) && b in t.cache && s < |t.cache[b].slots| && OneGone(t.cache[b], q, s) && Valid(q)
    requires t.cache[b].slots[s].recnum < |t.live| && c in t.cache
    ensures BlockOk(Ended(t, b, q, s), c)
  {
    var u := Ended(t, b, q, s);
    assert BlockOk(t, c);
    forall v | 0 <= v < |u.cache[c].slots| ensures SlotOk(u, c, v) {
      var w := if c == b then Skip(v, s) else v;
      assert SlotOk(t, c, w);
      if c == b { assert Kept(t.cache[b], q, v, w); }
      SlotsDiffer(t, b, s, c, w);
    }
  }

  lemma EndedKeeps(t: Tables, b: nat, q: Page, s: nat)
    requires TablesOk(t) && b in t.cache && s < |t.cache[b].slots| && OneGone(t.cache[b], q, s) && Valid(q)
    ensures 0 < t.cache[b].slots[s].recnum < |t.live|
    ensures TablesOk(Ended(t, b, q, s))
  {
    assert BlockOk(t, b) && SlotOk(t, b, s);
    var rec := t.cache[b].slots[s].recnum;
    var u := Ended(t, b, q, s);
    forall c | c in u.cache ensures BlockOk(u, c) {
      EndedBlock(t, b, q, s, c);
    }
    forall r | 0 < r < |u.live| ensures LiveOk(u, r) {
      assert LiveOk(t, r);
      if r != rec && t.live[r] == b {
        var v :| 0 <= v < |t.cache[b].slots| && t.cache[b].slots[v].recnum == r;
        var w := if v > s then v - 1 else v;
        assert Kept(t.cache[b], q, w, Skip(w, s));
      }
    }
    forall r: nat, f: nat ensures (r, f) in u.data <==> Begun(u.nfrags, u.live, r, f) {
      assert (r, f) in t.data <==> Begun(t.nfrags, t.live, r, f);
    }
  }

  // ----- writing out -----

  /** The records with a fragment among these slots have moved on to their next fragment. */
  ghost predicate Advanced(t: Tables, u: Tables, slots: seq<Slot>)
  {
    && |u.nfrags| == |t.nfrags| && |u.live| == |t.live| == |t.nfrags|
    && (forall r | 0 <= r < |t.nfrags| :: u.nfrags[r] == t.nfrags[r] + if RecIn(slots, r) then 1 else 0)
    && (forall r | 0 <= r < |t.live| :: u.live[r] == if RecIn(slots, r) then 0 else t.live[r])
  }

  /** A slot whose record is not among those advanced so far. */
  lemma NotYetAdvanced(t: Tables, u: Tables, b: nat, k: nat)
    requires TablesOk(t) && b in t.cache && k < |t.cache[b].slots| && Advanced(t, u, t.cache[b].slots[..k])
    ensures var x := t.cache[b].slots[k];
            && 0 < x.recnum < |u.nfrags| && x.fragnum + 1 == u.nfrags[x.recnum]
            && !RecIn(t.cache[b].slots[..k], x.recnum)
            && Valid(t.cache[b]) && (x.recnum, x.fragnum) in t.data
            && Value(t.cache[b], x.recnum, x.fragnum) == Some(t.data[(x.recnum, x.fragnum)])
  {
    assert BlockOk(t, b) && SlotOk(t, b, k);
    ValueAt(t.cache[b], k);
    forall s | 0 <= s < k ensures t.cache[b].slots[..k][s].recnum != t.cache[b].slots[k].recnum {
      SlotsDiffer(t, b, s, b, k);
    }
  }

  /** Writing out a whole block. */
  lemma BlockOut(t: Tables, u: Tables, b: nat)
    requires TablesOk(t) && b in t.cache && Advanced(t, u, t.cache[b].slots)
    requires u.cache == t.cache - {b} && u.data == t.data
    ensures TablesOk(u)
  {
    assert BlockOk(t, b);
    forall c | c in u.cache ensures BlockOk(u, c) {
      assert BlockOk(t, c);
      forall s | 0 <= s < |t.cache[c].slots| ensures !RecIn(t.cache[b].slots, t.cache[c].slots[s].recnum) {
        forall v | 0 <= v < |t.cache[b].slots| ensures t.cache[b].slots[v].recnum != t.cache[c].slots[s].recnum {
          SlotsDiffer(t, b, v, c, s);
        }
      }
      OtherBlock(t, u, c);
    }
    forall r | 0 < r < |u.live| ensures LiveOk(u, r) {
      assert LiveOk(t, r);
    }
    forall r: nat, f: nat ensures (r, f) in u.data <==> Begun(u.nfrags, u.live, r, f) {
      assert (r, f) in t.data <==> Begun(t.nfrags, t.live, r, f);
      if 0 < r < |t.nfrags| && RecIn(t.cache[b].slots, r) {
        var v :| 0 <= v < |t.cache[b].slots| && t.cache[b].slots[v].recnum == r;
        assert SlotOk(t, b, v);
      }
    }
  }

  // ----- the log -----

  /** What has been written out. */
  datatype History = History(log: seq<Rfb>, index: map<(nat, nat), nat>, disk: map<nat, Page>, blockout: nat)

  /** The block on disk holds these bytes for a fragment. */
  ghost predicate Stores(h: History, blkno: nat, data: Contents, rec: nat, f: nat)
  {
    && 0 < blkno < h.blockout && blkno in h.disk && Valid(h.disk[blkno])
    && (rec, f) in data && Value(h.disk[blkno], rec, f) == Some(data[(rec, f)])
  }

  /** A log entry names a fragment before the record's last, only once, and its block holds the bytes of it. */
  ghost predicate EntryOk(h: History, nfrags: seq<nat>, data: Contents, i: nat)
    requires i < |h.log|
  {
    var e := h.log[i];
    && 0 < e.recno < |nfrags| && e.fragno + 1 < nfrags[e.recno]
    && (e.recno, e.fragno) in h.index && h.index[(e.recno, e.fragno)] == i
    && Stores(h, e.blkno, data, e.recno, e.fragno)
  }

  ghost predicate FragLogged(h: History, rec: nat, f: nat)
  {
    && (rec, f) in h.index && h.index[(rec, f)] < |h.log|
    && h.log[h.index[(rec, f)]].recno == rec && h.log[h.index[(rec, f)]].fragno == f
  }

  /** Each fragment before the last of its record is logged exactly once. */
  ghost predicate HistoryOk(h: History, nfrags: seq<nat>, data: Contents)
  {
    && h.blockout > 0
    && (forall i {:trigger EntryOk(h, nfrags, data, i)} | 0 <= i < |h.log| :: EntryOk(h, nfrags, data, i))
    && (forall rec, f {:trigger FragLogged(h, rec, f)} | 0 < rec < |nfrags| && 0 <= f && f + 1 < nfrags[rec] ::
          FragLogged(h, rec, f))
  }

  function Logged(h: History, rec: nat, f: nat): History
    requires h.blockout > 0
  {
    h.(log := h.log + [Rfb(rec, f, h.blockout - 1)], index := h.index[(rec, f) := |h.log|])
  }

  /** Log the last fragment of a record, stored in the block just written. */
  lemma LogStep(h: History, nfrags: seq<nat>, data: Contents, rec: nat)
    requires HistoryOk(h, nfrags, data) && 0 < rec < |nfrags| && nfrags[rec] >= 1
    requires Stores(h, h.blockout - 1, data, rec, nfrags[rec] - 1)
    ensures HistoryOk(Logged(h, rec, nfrags[rec] - 1), nfrags[rec := nfrags[rec] + 1], data)
  {
    var g, n := Logged(h, rec, nfrags[rec] - 1), nfrags[rec := nfrags[rec] + 1];
    forall i | 0 <= i < |g.log| ensures EntryOk(g, n, data, i) {
      if i < |h.log| { assert EntryOk(h, nfrags, data, i); }
    }
    forall r, f | 0 < r < |n| && 0 <= f && f + 1 < n[r] ensures FragLogged(g, r, f) {
      if r != rec || f + 1 < nfrags[rec] { assert FragLogged(h, r, f); }
    }
  }

  /** Writing a block to the next place on disk leaves the history as it was. */
  lemma DiskStep(h: History, nfrags: seq<nat>, data: Contents, p: Page)
    requires HistoryOk(h, nfrags, data)
    ensures HistoryOk(h.(disk := h.disk[h.blockout := p], blockout := h.blockout + 1), nfrags, data)
  {
    var g := h.(disk := h.disk[h.blockout := p], blockout := h.blockout + 1);
    forall i | 0 <= i < |g.log| ensures EntryOk(g, nfrags, data, i) { assert EntryOk(h, nfrags, data, i); }
    forall r, f | 0 < r < |nfrags| && 0 <= f && f + 1 < nfrags[r] ensures FragLogged(g, r, f) {
      assert FragLogged(h, r, f);
    }
  }

  lemma NewHistory(h: History, nfrags: seq<nat>, data: Contents)
    requires HistoryOk(h, nfrags, data)
    ensures HistoryOk(h, nfrags + [1], data)
  {
    forall i | 0 <= i < |h.log| ensures EntryOk(h, nfrags + [1], data, i) { assert EntryOk(h, nfrags, data, i); }
    forall r, f | 0 < r < |nfrags + [1]| && 0 <= f && f + 1 < (nfrags + [1])[r] ensures FragLogged(h, r, f) {
      if r < |nfrags| { assert FragLogged(h, r, f); }
    }
  }

  /** The bytes of a record's last fragment are not in the history yet. */
  lemma DataStep(h: History, nfrags: seq<nat>, data: Contents, data': Contents, rec: nat)
    requires HistoryOk(h, nfrags, data) && rec < |nfrags| && nfrags[rec] >= 1
    requires data' - {(rec, nfrags[rec] - 1)} == data - {(rec, nfrags[rec] - 1)}
    ensures HistoryOk(h, nfrags, data')
  {
    var key := (rec, nfrags[rec] - 1);
    forall i | 0 <= i < |h.log| ensures EntryOk(h, nfrags, data', i) {
      assert EntryOk(h, nfrags, data, i);
      var e := h.log[i];
      assert (e.recno, e.fragno) in data - {key};
      assert (data' - {key})[(e.recno, e.fragno)] == data[(e.recno, e.fragno)];
    }
  }
}
