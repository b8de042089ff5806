/** A numeric attribute that a document may have several values of. */
module MultiValueAttribute {
  import opened Probing

  /** A document's entry: nothing, one value marked direct, or where its run of values begins; the last
      value of the run is marked. */
  ghost predicate DocumentOk(vals: seq<nat>, mvals: seq<nat>, lists: seq<seq<nat>>, d: nat)
    requires d < |vals| == |lists|
  {
    var list := lists[d];
    && (forall v | v in list :: v < DIRECT)
    && (|list| == 0 ==> vals[d] == 0)
    && (|list| == 1 ==> vals[d] == DIRECT + list[0])
    && (|list| > 1 ==>
          && 0 < vals[d] < DIRECT && vals[d] + |list| <= |mvals|
          && (forall i {:trigger list[i]} | 0 <= i < |list| ::
                mvals[vals[d] + i] == list[i] + if i == |list| - 1 then DIRECT else 0))
  }

  /** Runs of different documents do not overlap; they lie in the order of the documents. */
  ghost predicate InOrder(vals: seq<nat>, lists: seq<seq<nat>>, d: nat, e: nat)
    requires d < |vals| == |lists| && e < |vals|
  {
    d < e && |lists[d]| > 1 && |lists[e]| > 1 ==> vals[d] + |lists[d]| <= vals[e]
  }

  /** The run of the last document is the last run. */
  ghost predicate LastRun(vals: seq<nat>, mvals: seq<nat>, lists: seq<seq<nat>>)
    requires |vals| == |lists|
  {
    |vals| > 0 && |lists[|vals| - 1]| > 1 ==> vals[|vals| - 1] + |lists[|vals| - 1]| == |mvals|
  }

  /** A run that lies wholly before what has changed still reads the same. */
  lemma Untouched(ms: seq<nat>, mvals: seq<nat>, base: nat, list: seq<nat>, n: nat)
    requires n <= |ms| <= |mvals| && forall p | 0 <= p < n :: mvals[p] == ms[p]
    requires |list| > 1 ==> base + |list| <= n
    ensures |list| > 1 ==> forall i {:trigger list[i]} | 0 <= i < |list| :: mvals[base + i] == ms[base + i]
  {
  }

  /** A value has been added for the last document. */
  ghost predicate Adds(vs: seq<nat>, ms: seq<nat>, nval: nat, vals: seq<nat>, mvals: seq<nat>)
    requires 0 < |vs| && 0 < |ms|
  {
    var last := |vs| - 1;
    && (vs[last] == 0 ==> vals == vs[last := DIRECT + nval] && mvals == ms)
    && (vs[last] >= DIRECT ==> vals == vs[last := |ms|] && mvals == ms + [vs[last] - DIRECT, DIRECT + nval])
    && (0 < vs[last] < DIRECT ==>
          vals == vs && mvals == ms[|ms| - 1 := ms[|ms| - 1] % DIRECT] + [DIRECT + nval])
  }

  /** The three ways of adding a value: the first, the second, which starts a run at the end of the run
      table, and a further one, whose run is at its end already. */
  lemma Extended(vs: seq<nat>, ms: seq<nat>, ls: seq<seq<nat>>, nval: nat, vals: seq<nat>, mvals: seq<nat>)
    requires 0 < |vs| == |ls| && nval < DIRECT && 0 < |ms| < DIRECT && LastRun(vs, ms, ls)
    requires DocumentOk(vs, ms, ls, |vs| - 1) && Adds(vs, ms, nval, vals, mvals)
    ensures |vals| == |vs|
    ensures var ls' := ls[|vs| - 1 := ls[|vs| - 1] + [nval]];
            DocumentOk(vals, mvals, ls', |vs| - 1) && LastRun(vals, mvals, ls')
  {
    var last := |vs| - 1;
    var list := ls[last];
    var more := list + [nval];
    assert forall i | 0 <= i < |list| :: list[i] in list;
    if |list| > 1 {
      assert ms[|ms| - 1] == list[|list| - 1] + DIRECT;
      assert ms[|ms| - 1] % DIRECT == list[|list| - 1];
      forall i | 0 <= i < |more|
        ensures mvals[vals[last] + i] == more[i] + if i == |more| - 1 then DIRECT else 0
      {
        if i < |list| { assert list[i] < DIRECT; }
      }
    }
  }

  /** Every document's entry reads as its values, in runs that lie in order. */
  ghost predicate AllOk(vals: seq<nat>, mvals: seq<nat>, lists: seq<seq<nat>>)
  {
    && |vals| == |lists| && |mvals| > 0
    && (forall d {:trigger DocumentOk(vals, mvals, lists, d)} | 0 <= d < |vals| :: DocumentOk(vals, mvals, lists, d))
    && (forall d, e {:trigger InOrder(vals, lists, d, e)} | 0 <= d < |vals| && 0 <= e < |vals| ::
          InOrder(vals, lists, d, e))
    && LastRun(vals, mvals, lists)
  }

  lemma OtherKept(vs: seq<nat>, ms: seq<nat>, ls: seq<seq<nat>>, nval: nat, vals: seq<nat>, mvals: seq<nat>, d: nat)
    requires AllOk(vs, ms, ls) && vs != [] && |ms| < DIRECT && Adds(vs, ms, nval, vals, mvals) && d < |vs| - 1
    ensures |vals| == |vs| && DocumentOk(vals, mvals, ls[|vs| - 1 := ls[|vs| - 1] + [nval]], d)
  {
    var last := |vs| - 1;
    assert DocumentOk(vs, ms, ls, d) && DocumentOk(vs, ms, ls, last) && InOrder(vs, ls, d, last);
    Untouched(ms, mvals, vs[d], ls[d], if vs[last] == 0 || vs[last] >= DIRECT then |ms| else |ms| - 1);
  }

  lemma AddKeeps(vs: seq<nat>, ms: seq<nat>, ls: seq<seq<nat>>, nval: nat, vals: seq<nat>, mvals: seq<nat>)
    requires AllOk(vs, ms, ls) && vs != [] && nval < DIRECT && |ms| < DIRECT && Adds(vs, ms, nval, vals, mvals)
    ensures AllOk(vals, mvals, ls[|vs| - 1 := ls[|vs| - 1] + [nval]])
  {
    var last := |vs| - 1;
    var lists := ls[last := ls[last] + [nval]];
    assert DocumentOk(vs, ms, ls, last);
    Extended(vs, ms, ls, nval, vals, mvals);
    forall d | 0 <= d < |vals| ensures DocumentOk(vals, mvals, lists, d) {
      if d != last { OtherKept(vs, ms, ls, nval, vals, mvals, d); }
    }
    forall d, e | 0 <= d < |vals| && 0 <= e < |vals| ensures InOrder(vals, lists, d, e) {
      assert InOrder(vs, ls, d, e) && DocumentOk(vs, ms, ls, d);
    }
  }

  class MultiValueAttribute {
    var vals: seq<nat>
    var mvals: seq<nat>
    ghost var lists: seq<seq<nat>>           // the values given to each document

    ghost predicate Valid()
      reads this
    {
      AllOk(vals, mvals, lists)
    }

    constructor ()
      ensures Valid() && lists == [] && |mvals| == 1
    {
      vals, mvals, lists := [], [0], [];
    }

    /** `attr_num_newdoc` */
    method NewDocument()
      requires Valid()
      modifies `vals, `lists
      ensures Valid() && lists == old(lists) + [[]]
    {
      ghost var vs, ls := vals, lists;
      vals, lists := vals + [0], lists + [[]];
      forall d | 0 <= d < |vals| ensures DocumentOk(vals, mvals, lists, d) {
        if d < |vs| { assert DocumentOk(vs, mvals, ls, d); }
      }
      forall d, e | 0 <= d < |vals| && 0 <= e < |vals| ensures InOrder(vals, lists, d, e) {
        if d < |vs| && e < |vs| { assert InOrder(vs, ls, d, e); }
      }
    }

    /** `attr_numstr_mv_nk_setnval`: one more value for the last document. */
    method AddValue(nval: nat)
      requires Valid() && vals != [] && nval < DIRECT && |mvals| < DIRECT
      modifies this
      ensures Valid() && |mvals| <= old(|mvals|) + 2
      ensures var last := old(|lists|) - 1; lists == old(lists)[last := old(lists[last]) + [nval]]
    {
      assert |vals| == |lists| && |mvals| > 0;
      hide AllOk;
      var last := |vals| - 1;
      ghost var vs, ms, ls := vals, mvals, lists;
      var oldval := vals[last];
      if oldval == 0 {
        vals := vals[last := DIRECT + nval];
      } else if oldval >= DIRECT {
        vals := vals[last := |mvals|];
        mvals := mvals + [oldval - DIRECT] + [DIRECT + nval];
        assert mvals == ms + [oldval - DIRECT, DIRECT + nval];
      } else {
        var top := |mvals|;
        mvals := mvals[top - 1 := mvals[top - 1] % DIRECT] + [DIRECT + nval];
      }
      lists := lists[last := lists[last] + [nval]];
      AddKeeps(vs, ms, ls, nval, vals, mvals);
    }

    /** The values of a document, as the decoding loops read them. */
    method Values(d: nat) returns (list: seq<nat>)
      requires Valid() && d < |vals|
      ensures list == lists[d]
    {
      assert DocumentOk(vals, mvals, lists, d);
      ghost var all := lists[d];
      forall i | 0 <= i < |all| ensures all[i] < DIRECT { assert all[i] in all; }
      var val := vals[d];
      if val == 0 {
        return [];
      }
      if val >= DIRECT {
        return [val % DIRECT];
      }
      var mvidx := val;
      var mvval := mvals[mvidx];
      assert mvals[val + 0] == all[0];
      list := [mvval % DIRECT];
      while mvval < DIRECT
        invariant 0 < |list| <= |all| && list == all[..|list|]
        invariant mvidx == val + |list| - 1 && mvidx < |mvals| && mvval == mvals[mvidx]
        invariant mvval == all[|list| - 1] + if |list| == |all| then DIRECT else 0
        decreases |all| - |list|
      {
        assert mvals[val + |list|] == all[|list|] + if |list| == |all| - 1 then DIRECT else 0;
        mvidx := mvidx + 1;
        mvval := mvals[mvidx];
        list := list + [mvval % DIRECT];
      }
    }
  }

  /** One step of building an index. */
  datatype Action = Start | Add(value: nat)

  /** What a run gives each document, in order. */
  function Given(actions: seq<Action>): (r: seq<seq<nat>>)
    ensures |r| <= |actions|
  {
    if actions == [] then [] else
      var g := Given(actions[..|actions| - 1]);
      match actions[|actions| - 1]
      case Start => g + [[]]
      case Add(v) => if g == [] then g else g[|g| - 1 := g[|g| - 1] + [v]]
  }

  /** After any run, every document decodes to exactly the values given to it, in order. */
  method Build(actions: seq<Action>) returns (decoded: seq<seq<nat>>)
    requires 2 * |actions| + 1 < DIRECT
    requires forall i | 0 <= i < |actions| && actions[i].Add? :: actions[i].value < DIRECT
    ensures decoded == Given(actions)
  {
    var a := new MultiValueAttribute();
    for i := 0 to |actions|
      invariant a.Valid() && fresh(a) && a.lists == Given(actions[..i]) && |a.mvals| <= 2 * i + 1
    {
      assert actions[..i + 1][..i] == actions[..i];
      match actions[i]
      case Start =>
        a.NewDocument();
      case Add(v) =>
        if a.vals != [] {
          a.AddValue(v);
        }
    }
    assert actions[..|actions|] == actions;
    decoded := [];
    for d := 0 to |a.vals|
      invariant a.Valid() && a.lists == Given(actions) && decoded == a.lists[..d]
    {
      var list := a.Values(d);
      decoded := decoded + [list];
    }
  }
}
