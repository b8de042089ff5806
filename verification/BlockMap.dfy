/** The searcher's map from record fragments to blocks, rebuilt from the log. */
module BlockMap {
  import opened Collections
  import opened Records

  const ENDBIT: nat := 0x8000_0000

  predicate HasEnd(w: nat) { w >= ENDBIT }

  function NumMask(w: nat): nat { w % ENDBIT }

  /** All fragments of records that have more than one. */
  function RunTotal(nfrags: seq<nat>): nat
  {
    if nfrags == [] then 0
    else RunTotal(nfrags[..|nfrags| - 1]) + if nfrags[|nfrags| - 1] > 1 then nfrags[|nfrags| - 1] else 0
  }

  /** Those of them whose record has been given a run already. */
  ghost function RunsGiven(nfrags: seq<nat>, blks: seq<nat>, n: nat): nat
    requires n <= |nfrags| == |blks|
  {
    if n == 0 then 0
    else RunsGiven(nfrags, blks, n - 1) + if nfrags[n - 1] > 1 && blks[n - 1] != 0 then nfrags[n - 1] else 0
  }

  lemma {:induction false} RunsBounded(nfrags: seq<nat>, blks: seq<nat>, n: nat)
    requires n <= |nfrags| == |blks|
    ensures RunsGiven(nfrags, blks, n) <= RunTotal(nfrags[..n])
  {
    if n > 0 {
      RunsBounded(nfrags, blks, n - 1);
      assert nfrags[..n][..n - 1] == nfrags[..n - 1];
    }
  }

  /** Giving a record a run uses up its number of fragments. */
  lemma {:induction false} RunsStep(nfrags: seq<nat>, blks: seq<nat>, r: nat, base: nat, n: nat)
    requires n <= |nfrags| == |blks| && r < |nfrags| && blks[r] == 0 && base != 0
    ensures RunsGiven(nfrags, blks[r := base], n) ==
            RunsGiven(nfrags, blks, n) + if r < n && nfrags[r] > 1 then nfrags[r] else 0
  {
    if n > 0 { RunsStep(nfrags, blks, r, base, n - 1); }
  }

  lemma {:induction false} NoRuns(nfrags: seq<nat>, blks: seq<nat>, n: nat)
    requires n <= |nfrags| == |blks| && forall r | 0 <= r < |blks| :: blks[r] == 0
    ensures RunsGiven(nfrags, blks, n) == 0
  {
    if n > 0 { NoRuns(nfrags, blks, n - 1); }
  }

  /** The block number stored for a fragment, with the end bit on the last one. */
  function Word(nfrags: seq<nat>, e: Rfb): nat
    requires e.recno < |nfrags|
  {
    e.blkno + if e.fragno + 1 == nfrags[e.recno] then ENDBIT else 0
  }

  /** A record's entry: none yet, its one block, or the start of its run. */
  ghost predicate RecOk(nfrags: seq<nat>, blks: seq<nat>, stop: nat, r: nat)
    requires r < |blks| == |nfrags|
  {
    blks[r] != 0 ==>
      if nfrags[r] == 1 then HasEnd(blks[r])
      else nfrags[r] > 1 && blks[r] + nfrags[r] <= stop < ENDBIT
  }

  /** The run of a record holds its fragments, and nobody else's. */
  ghost predicate RunOk(nfrags: seq<nat>, blks: seq<nat>, owner: seq<(nat, nat)>, r: nat, f: nat)
    requires r < |blks| == |nfrags|
  {
    blks[r] != 0 && nfrags[r] > 1 && f < nfrags[r] ==>
      blks[r] + f < |owner| && owner[blks[r] + f] == (r, f)
  }

  ghost predicate OwnerOk(nfrags: seq<nat>, blks: seq<nat>, owner: seq<(nat, nat)>, p: nat)
    requires |blks| == |nfrags| && p < |owner|
  {
    var (r, f) := owner[p];
    0 < r < |nfrags| && f < nfrags[r] && nfrags[r] > 1 && blks[r] != 0 && blks[r] + f == p
  }

  /** The runs given so far lie side by side from index 1 on; `owner` says which fragment an index is for. */
  ghost predicate Shape(nfrags: seq<nat>, blks: seq<nat>, stop: nat, owner: seq<(nat, nat)>)
  {
    && |blks| == |nfrags| && 1 + RunTotal(nfrags) < ENDBIT
    && stop == |owner| == 1 + RunsGiven(nfrags, blks, |nfrags|) <= 1 + RunTotal(nfrags)
    && (forall r {:trigger RecOk(nfrags, blks, stop, r)} | 0 <= r < |blks| :: RecOk(nfrags, blks, stop, r))
    && (forall r, f {:trigger RunOk(nfrags, blks, owner, r, f)} | 0 <= r < |blks| && 0 <= f ::
          RunOk(nfrags, blks, owner, r, f))
    && (forall p {:trigger OwnerOk(nfrags, blks, owner, p)} | 0 < p < stop :: OwnerOk(nfrags, blks, owner, p))
  }

  /** The entry has been entered. */
  ghost predicate Entered(nfrags: seq<nat>, blks: seq<nat>, allblks: seq<nat>, e: Rfb)
    requires |blks| == |nfrags|
  {
    && 0 < e.recno < |blks| && blks[e.recno] != 0 && e.fragno < nfrags[e.recno]
    && if nfrags[e.recno] == 1 then blks[e.recno] == Word(nfrags, e)
       else blks[e.recno] + e.fragno < |allblks| && allblks[blks[e.recno] + e.fragno] == Word(nfrags, e)
  }

  lemma {:induction false} OnlyRuns(nfrags: seq<nat>, blks: seq<nat>, r: nat, w: nat, n: nat)
    requires n <= |nfrags| == |blks| && r < |nfrags| && nfrags[r] == 1
    ensures RunsGiven(nfrags, blks[r := w], n) == RunsGiven(nfrags, blks, n)
  {
    if n > 0 { OnlyRuns(nfrags, blks, r, w, n - 1); }
  }

  /** A record with one fragment gets its block. */
  lemma OnlyKeeps(nfrags: seq<nat>, blks: seq<nat>, stop: nat, owner: seq<(nat, nat)>, r: nat, w: nat)
    requires Shape(nfrags, blks, stop, owner) && r < |nfrags| && nfrags[r] == 1 && HasEnd(w)
    ensures Shape(nfrags, blks[r := w], stop, owner)
  {
    OnlyRuns(nfrags, blks, r, w, |nfrags|);
    var b := blks[r := w];
    forall q | 0 <= q < |b| ensures RecOk(nfrags, b, stop, q) { assert RecOk(nfrags, blks, stop, q); }
    forall q, f | 0 <= q < |b| && 0 <= f ensures RunOk(nfrags, b, owner, q, f) {
      assert RunOk(nfrags, blks, owner, q, f);
    }
    forall p | 0 < p < stop ensures OwnerOk(nfrags, b, owner, p) { assert OwnerOk(nfrags, blks, owner, p); }
  }

  ghost function Owners(r: nat, n: nat): (s: seq<(nat, nat)>)
    ensures |s| == n && forall f | 0 <= f < n :: s[f] == (r, f)
  {
    seq(n, f => (r, f))
  }

  /** A record with several fragments gets the next free run. */
  lemma RunKeeps(nfrags: seq<nat>, blks: seq<nat>, stop: nat, owner: seq<(nat, nat)>, r: nat)
    requires Shape(nfrags, blks, stop, owner) && 0 < r < |nfrags| && nfrags[r] > 1 && blks[r] == 0
    ensures stop > 0 && Shape(nfrags, blks[r := stop], stop + nfrags[r], owner + Owners(r, nfrags[r]))
  {
    var b, stop', own := blks[r := stop], stop + nfrags[r], owner + Owners(r, nfrags[r]);
    RunsStep(nfrags, blks, r, stop, |nfrags|);
    RunsBounded(nfrags, b, |nfrags|);
    assert nfrags[..|nfrags|] == nfrags;
    forall q | 0 <= q < |b| ensures RecOk(nfrags, b, stop', q) { assert RecOk(nfrags, blks, stop, q); }
    forall q, f | 0 <= q < |b| && 0 <= f ensures RunOk(nfrags, b, own, q, f) {
      assert RunOk(nfrags, blks, owner, q, f);
    }
    forall p | 0 < p < stop' ensures OwnerOk(nfrags, b, own, p) {
      if p < stop { assert OwnerOk(nfrags, blks, owner, p); }
    }
  }

  /** Different fragments have different places. */
  lemma PlacesDiffer(nfrags: seq<nat>, blks: seq<nat>, stop: nat, owner: seq<(nat, nat)>, r: nat, f: nat, q: nat, g: nat)
    requires Shape(nfrags, blks, stop, owner) && r < |nfrags| && q < |nfrags| && blks[r] != 0 && blks[q] != 0
    requires nfrags[r] > 1 && nfrags[q] > 1 && f < nfrags[r] && g < nfrags[q] && (r != q || f != g)
    ensures blks[r] + f != blks[q] + g
  {
    assert RunOk(nfrags, blks, owner, r, f) && RunOk(nfrags, blks, owner, q, g);
  }

  // ----- the log -----

  predicate IsRun(e: Rfb)
  {
    HasEnd(e.fragno) && HasEnd(e.blkno)
  }

  /** An entry with both end bits set stands for a number of fragments in consecutive blocks. */
  function Expanded(e: Rfb): seq<Rfb>
  {
    if IsRun(e) then seq(NumMask(e.fragno), f requires 0 <= f => Rfb(e.recno, f, NumMask(e.blkno) + f)) else [e]
  }

  function ExpandedLog(log: seq<Rfb>): seq<Rfb>
  {
    if log == [] then [] else ExpandedLog(log[..|log| - 1]) + Expanded(log[|log| - 1])
  }

  lemma ExpandedNext(log: seq<Rfb>, i: nat)
    requires i < |log|
    ensures ExpandedLog(log[..i + 1]) == ExpandedLog(log[..i]) + Expanded(log[i])
  {
    assert log[..i + 1][..i] == log[..i];
  }

  /** The entry is within the tables. */
  predicate InRange(nfrags: seq<nat>, blockcount: nat, e: Rfb)
  {
    && 0 < e.recno < |nfrags|
    && if IsRun(e) then 0 < NumMask(e.fragno) <= nfrags[e.recno] && NumMask(e.blkno) + NumMask(e.fragno) <= blockcount
       else e.blkno < blockcount && e.fragno < nfrags[e.recno]
  }

  /** The block that the log gives for a fragment: the last entry for it counts. */
  ghost function Last(log: seq<Rfb>, r: nat, f: nat): Option<nat>
  {
    if log == [] then None else
      var e := log[|log| - 1];
      if e.recno == r && e.fragno == f then Some(e.blkno) else Last(log[..|log| - 1], r, f)
  }

  lemma LastAppend(log: seq<Rfb>, e: Rfb, r: nat, f: nat)
    ensures Last(log + [e], r, f) == if e.recno == r && e.fragno == f then Some(e.blkno) else Last(log, r, f)
  {
    assert (log + [e])[..|log|] == log;
  }

  lemma {:induction false} LastAt(log: seq<Rfb>, r: nat, f: nat, i: nat)
    requires i < |log| && log[i].recno == r && log[i].fragno == f
    requires forall j | i < j < |log| :: log[j].recno != r || log[j].fragno != f
    ensures Last(log, r, f) == Some(log[i].blkno)
  {
    if i < |log| - 1 { LastAt(log[..|log| - 1], r, f, i); }
  }

  ghost predicate Below(log: seq<Rfb>, bound: nat)
  {
    forall j | 0 <= j < |log| :: log[j].blkno < bound
  }

  lemma {:induction false} LastBelow(log: seq<Rfb>, bound: nat, r: nat, f: nat)
    requires Below(log, bound)
    ensures Last(log, r, f).Some? ==> Last(log, r, f).value < bound
  {
    if log != [] { LastBelow(log[..|log| - 1], bound, r, f); }
  }

  /** What the tables say of a fragment, when the log gives it this block, or none. */
  ghost predicate Recorded(nfrags: seq<nat>, blks: seq<nat>, allblks: seq<nat>, r: nat, f: nat, last: Option<nat>)
    requires |blks| == |nfrags| && r < |nfrags|
  {
    match last
    case Some(b) => Entered(nfrags, blks, allblks, Rfb(r, f, b))
    case None =>
      && (nfrags[r] == 1 ==> blks[r] == 0)
      && (nfrags[r] > 1 && blks[r] != 0 ==> blks[r] + f < |allblks| && allblks[blks[r] + f] == 0)
  }

  /** The tables are those of a log. */
  ghost predicate Holds(nfrags: seq<nat>, blks: seq<nat>, allblks: seq<nat>, log: seq<Rfb>)
    requires |blks| == |nfrags|
  {
    forall r: nat, f: nat {:trigger Last(log, r, f)} | 0 < r < |nfrags| && f < nfrags[r] ::
      Recorded(nfrags, blks, allblks, r, f, Last(log, r, f))
  }

  /** All places not given to a record yet are empty. */
  ghost predicate Unused(allblks: seq<nat>, stop: nat)
  {
    forall p | stop <= p < |allblks| :: allblks[p] == 0
  }

  // ----- entering one entry -----

  lemma EnteredOnly(nfrags: seq<nat>, blks: seq<nat>, allblks: seq<nat>, log: seq<Rfb>, e: Rfb)
    requires |blks| == |nfrags| && Holds(nfrags, blks, allblks, log)
    requires 0 < e.recno < |nfrags| && e.fragno < nfrags[e.recno] == 1
    ensures Holds(nfrags, blks[e.recno := Word(nfrags, e)], allblks, log + [e])
  {
    var b := blks[e.recno := Word(nfrags, e)];
    forall r: nat, f: nat | 0 < r < |nfrags| && f < nfrags[r]
      ensures Recorded(nfrags, b, allblks, r, f, Last(log + [e], r, f))
    {
      LastAppend(log, e, r, f);
      assert Recorded(nfrags, blks, allblks, r, f, Last(log, r, f));
    }
  }

  /** A record without a place has no entry. */
  lemma NoPlace(nfrags: seq<nat>, blks: seq<nat>, allblks: seq<nat>, log: seq<Rfb>, r: nat, f: nat)
    requires |blks| == |nfrags| && Holds(nfrags, blks, allblks, log) && 0 < r < |nfrags| && blks[r] == 0 && f < nfrags[r]
    ensures Last(log, r, f) == None
  {
    assert Recorded(nfrags, blks, allblks, r, f, Last(log, r, f));
  }

  lemma RunGiven(nfrags: seq<nat>, blks: seq<nat>, allblks: seq<nat>, log: seq<Rfb>, r: nat, stop: nat)
    requires |blks| == |nfrags| && Holds(nfrags, blks, allblks, log) && Unused(allblks, stop)
    requires 0 < r < |nfrags| && nfrags[r] > 1 && blks[r] == 0 && 0 < stop && stop + nfrags[r] <= |allblks|
    ensures Holds(nfrags, blks[r := stop], allblks, log)
  {
    var b := blks[r := stop];
    forall q: nat, f: nat | 0 < q < |nfrags| && f < nfrags[q]
      ensures Recorded(nfrags, b, allblks, q, f, Last(log, q, f))
    {
      assert Recorded(nfrags, blks, allblks, q, f, Last(log, q, f));
      if q == r { NoPlace(nfrags, blks, allblks, log, r, f); }
    }
  }

  lemma EnteredInRun(nfrags: seq<nat>, blks: seq<nat>, allblks: seq<nat>, stop: nat, owner: seq<(nat, nat)>,
                     log: seq<Rfb>, e: Rfb)
    requires Shape(nfrags, blks, stop, owner) && stop <= |allblks| && Holds(nfrags, blks, allblks, log)
    requires 0 < e.recno < |nfrags| && e.fragno < nfrags[e.recno] && nfrags[e.recno] > 1 && blks[e.recno] != 0
    ensures blks[e.recno] + e.fragno < stop
    ensures Holds(nfrags, blks, allblks[blks[e.recno] + e.fragno := Word(nfrags, e)], log + [e])
  {
    assert RecOk(nfrags, blks, stop, e.recno);
    var a := allblks[blks[e.recno] + e.fragno := Word(nfrags, e)];
    forall r: nat, f: nat | 0 < r < |nfrags| && f < nfrags[r]
      ensures Recorded(nfrags, blks, a, r, f, Last(log + [e], r, f))
    {
      LastAppend(log, e, r, f);
      assert Recorded(nfrags, blks, allblks, r, f, Last(log, r, f));
      if nfrags[r] > 1 && blks[r] != 0 && (r != e.recno || f != e.fragno) {
        PlacesDiffer(nfrags, blks, stop, owner, e.recno, e.fragno, r, f);
      }
    }
  }

  // ----- the searcher -----

  /** The log has a block for a fragment.  Block number 0 is not told from no block, unless it comes with
      the end bit. */
  ghost predicate Filled(nfrags: seq<nat>, log: seq<Rfb>, r: nat, f: nat)
    requires r < |nfrags|
  {
    Last(log, r, f).Some? && (Last(log, r, f).value != 0 || f + 1 == nfrags[r])
  }

  /** What the searcher asks of a log: every entry within the tables, and a block for every fragment of
      every record, of which there is at least one. */
  ghost predicate Loadable(nfrags: seq<nat>, blockcount: nat, log: seq<Rfb>)
  {
    && (forall i | 0 <= i < |log| :: InRange(nfrags, blockcount, log[i]))
    && (forall r | 0 < r < |nfrags| :: nfrags[r] > 0)
    && (forall r: nat, f: nat | 0 < r < |nfrags| && f < nfrags[r] :: Filled(nfrags, ExpandedLog(log), r, f))
  }

  /** What an entry within the tables adds to a log. */
  lemma InRangeAdds(nfrags: seq<nat>, blockcount: nat, e: Rfb, log: seq<Rfb>)
    requires InRange(nfrags, blockcount, e) && blockcount <= ENDBIT && Below(log, ENDBIT)
    ensures Below(log + Expanded(e), ENDBIT) && 0 < e.recno < |nfrags|
    ensures !IsRun(e) ==> Expanded(e) == [e] && e.blkno < blockcount && e.fragno < nfrags[e.recno]
  {
  }

  class Searcher {
    var blks: seq<nat>
    var allblks: seq<nat>
    var allblkstop: nat
    ghost var owner: seq<(nat, nat)>
    constructor ()
    {
      blks, allblks, allblkstop, owner := [], [], 1, [];
    }

    /** `hashblockind` */
    function HashBlockInd(recno: nat, fragno: nat): nat
      requires recno < |blks| && (HasEnd(blks[recno]) || blks[recno] + fragno < |allblks|)
      reads this
    {
      NumMask(if HasEnd(blks[recno]) then blks[recno] else allblks[blks[recno] + fragno])
    }

    /** The lookup of a fragment gives this block. */
    ghost predicate Finds(r: nat, f: nat, blkno: nat)
      reads this
    {
      && r < |blks| && (HasEnd(blks[r]) || blks[r] + f < |allblks|)
      && HashBlockInd(r, f) == blkno
    }

    /** The tables are in order and are those of a log. */
    ghost predicate Valid(nfrags: seq<nat>, log: seq<Rfb>)
      reads this
    {
      && Shape(nfrags, blks, allblkstop, owner) && |allblks| == 1 + RunTotal(nfrags)
      && Unused(allblks, allblkstop) && Holds(nfrags, blks, allblks, log)
    }

    method GiveRun(nfrags: seq<nat>, r: nat, ghost log: seq<Rfb>)
      requires Valid(nfrags, log) && 0 < r < |nfrags| && nfrags[r] > 1 && blks[r] == 0
      modifies this
      ensures Valid(nfrags, log) && blks == old(blks)[r := old(allblkstop)] && blks[r] != 0
    {
      RunKeeps(nfrags, blks, allblkstop, owner, r);
      RunGiven(nfrags, blks, allblks, log, r, allblkstop);
      owner := owner + Owners(r, nfrags[r]);
      blks := blks[r := allblkstop];
      allblkstop := allblkstop + nfrags[r];
    }

    /** Enter a block for one fragment.  The first fragment met of a record with several reserves a run for it. */
    method Enter(nfrags: seq<nat>, e: Rfb, ghost log: seq<Rfb>)
      requires Valid(nfrags, log) && 0 < e.recno < |nfrags| && e.fragno < nfrags[e.recno] && e.blkno < ENDBIT
      modifies this
      ensures Valid(nfrags, log + [e])
    {
      var r := e.recno;
      if nfrags[r] == 1 {
        OnlyKeeps(nfrags, blks, allblkstop, owner, r, Word(nfrags, e));
        EnteredOnly(nfrags, blks, allblks, log, e);
        blks := blks[r := Word(nfrags, e)];
      } else {
        if blks[r] == 0 {
          GiveRun(nfrags, r, log);
        }
        EnteredInRun(nfrags, blks, allblks, allblkstop, owner, log, e);
        allblks := allblks[blks[r] + e.fragno := Word(nfrags, e)];
      }
    }

    /** Enter the blocks of an entry that stands for several. */
    method EnterRun(nfrags: seq<nat>, e: Rfb, blockcount: nat, ghost log: seq<Rfb>)
      requires Valid(nfrags, log) && IsRun(e) && InRange(nfrags, blockcount, e) && blockcount <= ENDBIT
      modifies this
      ensures Valid(nfrags, log + Expanded(e))
    {
      hide Shape, Unused, Holds;
      ghost var all := Expanded(e);
      var n := NumMask(e.fragno);
      assert log + all[..0] == log;
      for f := 0 to n
        invariant Valid(nfrags, log + all[..f])
      {
        Enter(nfrags, Rfb(e.recno, f, NumMask(e.blkno) + f), log + all[..f]);
        assert log + all[..f + 1] == log + all[..f] + [all[f]];
      }
      assert all[..n] == all;
    }

    method Init(nfrags: seq<nat>)
      requires |nfrags| > 0 && 1 + RunTotal(nfrags) < ENDBIT
      modifies this
      ensures Valid(nfrags, [])
    {
      blks := seq(|nfrags|, _ => 0);
      allblks := seq(1 + RunTotal(nfrags), _ => 0);
      allblkstop := 1;
      owner := [(0, 0)];
      NoRuns(nfrags, blks, |nfrags|);
      forall r | 0 <= r < |blks| ensures RecOk(nfrags, blks, allblkstop, r) {}
    }

    lemma Unplaced(nfrags: seq<nat>, log: seq<Rfb>, r: nat)
      requires Valid(nfrags, log) && 0 < r < |nfrags| && blks[r] == 0
      ensures nfrags[r] > 0 ==> !Filled(nfrags, log, r, 0)
    {
      if nfrags[r] > 0 { NoPlace(nfrags, blks, allblks, log, r, 0); }
    }

    lemma EmptyPlace(nfrags: seq<nat>, log: seq<Rfb>, p: nat)
      requires Valid(nfrags, log) && 0 < p < allblkstop && p < |allblks| && allblks[p] == 0
      ensures exists r: nat, f: nat :: 0 < r < |nfrags| && f < nfrags[r] && !Filled(nfrags, log, r, f)
    {
      assert OwnerOk(nfrags, blks, owner, p);
      var (r, f) := owner[p];
      assert Recorded(nfrags, blks, allblks, r, f, Last(log, r, f));
      assert !Filled(nfrags, log, r, f);
    }

    lemma FilledOne(nfrags: seq<nat>, log: seq<Rfb>, r: nat, f: nat)
      requires Valid(nfrags, log) && 0 < r < |nfrags| && f < nfrags[r] && blks[r] != 0
      requires forall p | 0 < p < allblkstop :: p < |allblks| && allblks[p] != 0
      requires Last(log, r, f).Some? ==> Last(log, r, f).value < ENDBIT
      ensures Filled(nfrags, log, r, f) && Finds(r, f, Last(log, r, f).value)
    {
      assert Recorded(nfrags, blks, allblks, r, f, Last(log, r, f));
      assert RecOk(nfrags, blks, allblkstop, r);
    }

    lemma AllFilled(nfrags: seq<nat>, log: seq<Rfb>)
      requires Valid(nfrags, log) && Below(log, ENDBIT)
      requires forall r | 0 < r < |nfrags| :: blks[r] != 0
      requires forall p | 0 < p < allblkstop :: p < |allblks| && allblks[p] != 0
      ensures forall r | 0 < r < |nfrags| :: nfrags[r] > 0
      ensures forall r: nat, f: nat | 0 < r < |nfrags| && f < nfrags[r] ::
                Filled(nfrags, log, r, f) && Finds(r, f, Last(log, r, f).value)
    {
      forall r | 0 < r < |nfrags| ensures nfrags[r] > 0 { assert RecOk(nfrags, blks, allblkstop, r); }
      forall r: nat, f: nat | 0 < r < |nfrags| && f < nfrags[r]
        ensures Filled(nfrags, log, r, f) && Finds(r, f, Last(log, r, f).value)
      {
        LastBelow(log, ENDBIT, r, f);
        FilledOne(nfrags, log, r, f);
      }
    }

    /** The final check that every record and every place of the runs is filled. */
    method Check(nfrags: seq<nat>, ghost log: seq<Rfb>) returns (ok: bool)
      requires Valid(nfrags, log) && |nfrags| > 0 && Below(log, ENDBIT)
      ensures ok <==> (forall r | 0 < r < |nfrags| :: nfrags[r] > 0)
                      && (forall r: nat, f: nat | 0 < r < |nfrags| && f < nfrags[r] :: Filled(nfrags, log, r, f))
      ensures ok ==> forall r: nat, f: nat | 0 < r < |nfrags| && f < nfrags[r] ::
                       Last(log, r, f).Some? && Finds(r, f, Last(log, r, f).value)
    {
      var n := 1;
      while n < |nfrags|
        invariant 1 <= n <= |nfrags|
        invariant forall r | 0 < r < n :: blks[r] != 0
      {
        if blks[n] == 0 {
          Unplaced(nfrags, log, n);
          return false;
        }
        n := n + 1;
      }
      ok := true;
      n := 1;
      while n < allblkstop
        invariant 1 <= n <= allblkstop
        invariant ok ==> forall p | 0 < p < n :: p < |allblks| && allblks[p] != 0
        invariant !ok ==> exists r: nat, f: nat :: 0 < r < |nfrags| && f < nfrags[r] && !Filled(nfrags, log, r, f)
      {
        if allblks[n] == 0 {
          EmptyPlace(nfrags, log, n);
          ok := false;
        }
        n := n + 1;
      }
      if ok {
        AllFilled(nfrags, log);
      }
    }

    /** Enter an entry of the log. */
    method EnterOne(nfrags: seq<nat>, e: Rfb, blockcount: nat, ghost log: seq<Rfb>)
      requires Valid(nfrags, log) && Below(log, ENDBIT) && InRange(nfrags, blockcount, e) && blockcount <= ENDBIT
      modifies this
      ensures Valid(nfrags, log + Expanded(e)) && Below(log + Expanded(e), ENDBIT)
    {
      InRangeAdds(nfrags, blockcount, e, log);
      hide Shape, Unused, Holds, InRange, Below, Expanded;
      if IsRun(e) {
        EnterRun(nfrags, e, blockcount, log);
      } else {
        Enter(nfrags, e, log);
      }
    }

    /** `rfbmap_searcher_read`: the tables are rebuilt from a log.  The result is false where the code gives
        up, which it does exactly if the log does not have a block for every fragment; else the lookup of
        a fragment gives the block that the log has for it. */
    method Load(log: seq<Rfb>, nfrags: seq<nat>, blockcount: nat) returns (ok: bool)
      requires |nfrags| > 0 && 1 + RunTotal(nfrags) < ENDBIT && blockcount <= ENDBIT
      modifies this
      ensures ok <==> Loadable(nfrags, blockcount, log)
      ensures ok ==> forall r: nat, f: nat | 0 < r < |nfrags| && f < nfrags[r] ::
                       Last(ExpandedLog(log), r, f).Some? && Finds(r, f, Last(ExpandedLog(log), r, f).value)
    {
      Init(nfrags);
      assert ExpandedLog(log[..0]) == [] && Below([], ENDBIT);
      hide Shape, Unused, Holds, Filled, Last, InRange, Below, Expanded;
      var i := 0;
      while i < |log|
        invariant 0 <= i <= |log| && Valid(nfrags, ExpandedLog(log[..i]))
        invariant forall j | 0 <= j < i :: InRange(nfrags, blockcount, log[j])
        invariant Below(ExpandedLog(log[..i]), ENDBIT)
      {
        var rfb := log[i];
        if !InRange(nfrags, blockcount, rfb) {
          return false;
        }
        ExpandedNext(log, i);
        EnterOne(nfrags, rfb, blockcount, ExpandedLog(log[..i]));
        i := i + 1;
      }
      assert log[..|log|] == log;
      ok := Check(nfrags, ExpandedLog(log));
    }
  }
}
