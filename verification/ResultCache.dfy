/** The caching server's table of results: a hash table that agrees with a list in order of use. */
module ResultCache {
  import opened Collections
  import opened Primes

  /** The least recently used entry is the last one. */
  lemma {:induction false} WithoutLast(s: seq<string>)
    requires NoDup(s) && s != []
    ensures Without(s, s[|s| - 1]) == s[..|s| - 1]
  {
    var x := s[|s| - 1];
    if |s| > 1 {
      WithoutLast(s[1..]);
      assert s[1..][|s[1..]| - 1] == x;
      assert s[..|s| - 1] == [s[0]] + s[1..][..|s| - 2];
    }
  }

  function HashFrom(h: nat, req: string): nat
    decreases |req|
  {
    if req == [] then h else HashFrom((h * 31 + req[0] as int) % 0x1_0000_0000, req[1..])
  }

  /** The hash of a request, in 32-bit arithmetic. */
  function Hash(req: string): nat
  {
    HashFrom(0, req)
  }

  /** Bucket `b` lists, each once, exactly the entries whose hash leads to it. */
  ghost predicate BucketOk(tab: seq<seq<string>>, lru: seq<string>, b: nat)
    requires b < |tab|
  {
    NoDup(tab[b]) && forall req :: req in tab[b] <==> req in lru && Hash(req) % |tab| == b
  }

  /** Hash chains and list hold the same entries. */
  ghost predicate Agree(tab: seq<seq<string>>, lru: seq<string>)
  {
    |tab| > 0 && NoDup(lru) && forall b {:trigger BucketOk(tab, lru, b)} | 0 <= b < |tab| :: BucketOk(tab, lru, b)
  }

  /** The order of use does not matter to the chains. */
  lemma AgreeReordered(tab: seq<seq<string>>, lru: seq<string>, lru': seq<string>)
    requires Agree(tab, lru) && NoDup(lru') && forall req :: req in lru' <==> req in lru
    ensures Agree(tab, lru')
  {
    forall b | 0 <= b < |tab| ensures BucketOk(tab, lru', b) { assert BucketOk(tab, lru, b); }
  }

  lemma AgreeAdded(tab: seq<seq<string>>, lru: seq<string>, req: string)
    requires Agree(tab, lru) && req !in lru
    ensures var b := Hash(req) % |tab|; Agree(tab[b := [req] + tab[b]], [req] + lru)
  {
    var h := Hash(req) % |tab|;
    var tab', lru' := tab[h := [req] + tab[h]], [req] + lru;
    forall b | 0 <= b < |tab'| ensures BucketOk(tab', lru', b) { assert BucketOk(tab, lru, b); }
  }

  lemma AgreeRemoved(tab: seq<seq<string>>, lru: seq<string>, req: string)
    requires Agree(tab, lru)
    ensures var b := Hash(req) % |tab|; Agree(tab[b := Without(tab[b], req)], Without(lru, req))
  {
    var h := Hash(req) % |tab|;
    var tab', lru' := tab[h := Without(tab[h], req)], Without(lru, req);
    forall b | 0 <= b < |tab'| ensures BucketOk(tab', lru', b) { assert BucketOk(tab, lru, b); }
  }

  /** A chain from its end to its head. */
  function Reversed(s: seq<string>): seq<string>
  {
    if s == [] then [] else Reversed(s[1..]) + [s[0]]
  }

  lemma {:induction false} ReversedSnoc(s: seq<string>, x: string)
    ensures Reversed(s + [x]) == [x] + Reversed(s)
  {
    if s == [] {
      assert [x][1..] == [];
    } else {
      assert (s + [x])[1..] == s[1..] + [x];
      ReversedSnoc(s[1..], x);
    }
  }

  /** The order of use that rehashing leaves: the entries of the last chain first, each chain from its end. */
  function Poured(tab: seq<seq<string>>, n: nat): seq<string>
    requires n <= |tab|
  {
    if n == 0 then [] else Reversed(tab[n - 1]) + Poured(tab, n - 1)
  }

  class ResultCache {
    var tab: seq<seq<string>>
    var lru: seq<string>                 // most recently used first
    var used: nat
    var maxsize: nat

    ghost predicate Valid()
      reads this
    {
      Agree(tab, lru) && used == |lru|
    }

    /** `cache_tab_init` */
    constructor (maxsize: nat)
      ensures Valid() && lru == [] && this.maxsize == maxsize
    {
      var size := Prime(1013);
      tab := seq(size, _ => []);
      lru := [];
      used := 0;
      this.maxsize := maxsize;
    }

    /** `cache_req_lookup`: an entry found becomes the most recently used one. */
    method Lookup(req: string) returns (found: bool, hashval: nat)
      requires Valid()
      modifies `lru
      ensures Valid() && hashval == Hash(req) % |tab| && (found <==> req in old(lru))
      ensures lru == if found then [req] + Without(old(lru), req) else old(lru)
    {
      hashval := Hash(req) % |tab|;
      assert BucketOk(tab, lru, hashval);
      var k := 0;
      while k < |tab[hashval]| && tab[hashval][k] != req
        invariant 0 <= k <= |tab[hashval]| && forall j | 0 <= j < k :: tab[hashval][j] != req
      {
        k := k + 1;
      }
      found := k < |tab[hashval]|;
      if found && lru[0] != req {
        AgreeReordered(tab, lru, [req] + Without(lru, req));
        lru := [req] + Without(lru, req);
      } else if found {
        assert lru == [req] + lru[1..];
        assert Without(lru, req) == Without(lru[1..], req) == lru[1..];
      }
    }

    /** `cache_req_add` */
    method Add(req: string, hashval: nat)
      requires Valid() && req !in lru && hashval == Hash(req) % |tab|
      modifies `tab, `lru, `used
      ensures Valid() && lru == [req] + old(lru) && |tab| == old(|tab|)
    {
      AgreeAdded(tab, lru, req);
      tab := tab[hashval := [req] + tab[hashval]];
      lru := [req] + lru;
      used := used + 1;
    }

    /** `cache_req_delete` */
    method Delete(req: string)
      requires Valid()
      modifies `tab, `lru, `used
      ensures Valid() && lru == Without(old(lru), req)
    {
      ghost var was := lru;
      var found, hashval := Lookup(req);
      if !found {
        return;
      }
      AgreeRemoved(tab, lru, req);
      tab := tab[hashval := Without(tab[hashval], req)];
      lru := Without(lru, req);
      used := used - 1;
      assert Without([req] + Without(was, req), req) == Without(was, req);
    }

    /** Add the entries of one old chain. */
    method PourChain(chain: seq<string>)
      requires Valid() && NoDup(chain) && forall req | req in chain :: req !in lru
      modifies `tab, `lru, `used
      ensures Valid() && lru == Reversed(chain) + old(lru)
      ensures forall req :: req in lru <==> req in old(lru) || req in chain
    {
      var k := 0;
      while k < |chain|
        invariant 0 <= k <= |chain| && Valid() && lru == Reversed(chain[..k]) + old(lru)
        invariant forall req :: req in lru <==> req in old(lru) || req in chain[..k]
      {
        assert chain[k] in chain && chain[k] !in chain[..k];
        assert chain[..k + 1] == chain[..k] + [chain[k]];
        ReversedSnoc(chain[..k], chain[k]);
        Add(chain[k], Hash(chain[k]) % |tab|);
        k := k + 1;
      }
      assert chain[..k] == chain;
    }

    /** `cache_tab_rehash`: a table twice as large.  The order of use is lost: it becomes that of the chains. */
    method Rehash()
      requires Valid()
      modifies `tab, `lru, `used
      ensures Valid() && forall req :: req in lru <==> req in old(lru)
      ensures lru == Poured(old(tab), old(|tab|))
    {
      var oldTab := tab;
      ghost var was := lru;
      var newsize := Prime(|tab| * 2);
      tab, lru, used := seq(newsize, _ => []), [], 0;
      var oldidx := 0;
      while oldidx < |oldTab|
        invariant 0 <= oldidx <= |oldTab| && Valid() && lru == Poured(oldTab, oldidx)
        invariant forall req :: req in lru <==> req in was && Hash(req) % |oldTab| < oldidx
      {
        assert BucketOk(oldTab, was, oldidx);
        PourChain(oldTab[oldidx]);
        oldidx := oldidx + 1;
      }
    }

    /** `cache_req_lookupadd` */
    method LookupAdd(req: string) returns (created: bool)
      requires Valid()
      modifies `tab, `lru, `used
      ensures Valid() && lru != [] && lru[0] == req && (created <==> req !in old(lru))
      ensures forall r :: r in lru <==> r in old(lru) || r == req
      ensures !created ==> lru == [req] + Without(old(lru), req)
      ensures created ==> lru == [req] + if old(used) < old(|tab|) / 2 then old(lru) else Poured(old(tab), old(|tab|))
    {
      var found, hashval := Lookup(req);
      if found {
        return false;
      }
      if used >= |tab| / 2 {
        Rehash();
        hashval := Hash(req) % |tab|;
      }
      Add(req, hashval);
      created := true;
    }

    /** `cache_cleanup`: entries go from the least recently used end until the limit holds. */
    method Cleanup(splat: bool)
      requires Valid()
      modifies `tab, `lru, `used
      ensures Valid()
      ensures var limit := if splat then 0 else maxsize;
              lru == if old(used) > limit then old(lru)[..limit] else old(lru)
    {
      var limit := if splat then 0 else maxsize;
      while used > limit
        invariant Valid() && used <= old(used) && lru == old(lru)[..used]
        invariant used < old(used) ==> used >= limit
        decreases used
      {
        WithoutLast(lru);
        ghost var was := lru;
        Delete(lru[|lru| - 1]);
        assert was[..|was| - 1] == old(lru)[..|was| - 1];
      }
    }
  }

  datatype Operation = Ask(req: string) | Drop(req: string) | Clean(splat: bool)

  /** What has been asked for and not been dropped since. */
  function Asked(operations: seq<Operation>): set<string>
  {
    if operations == [] then {} else
      var before := Asked(operations[..|operations| - 1]);
      match operations[|operations| - 1]
      case Ask(req) => before + {req}
      case Drop(req) => before - {req}
      case Clean(_) => before
  }

  /** After any run of lookups, additions, deletions and clean-ups, chains and list hold the same entries,
      one per key, and the counter is their number.  Every entry has been asked for and not been dropped
      since; without clean-ups all such entries are there. */
  method Run(operations: seq<Operation>, maxsize: nat) returns (c: ResultCache)
    ensures c.Valid()
    ensures forall req | req in c.lru :: req in Asked(operations)
    ensures (forall i | 0 <= i < |operations| :: !operations[i].Clean?) ==>
              forall req | req in Asked(operations) :: req in c.lru
  {
    c := new ResultCache(maxsize);
    for i := 0 to |operations|
      invariant fresh(c) && c.Valid() && forall req | req in c.lru :: req in Asked(operations[..i])
      invariant (forall j | 0 <= j < i :: !operations[j].Clean?) ==>
                  forall req | req in Asked(operations[..i]) :: req in c.lru
    {
      assert operations[..i + 1][..i] == operations[..i];
      match operations[i]
      case Ask(req) =>
        var created := c.LookupAdd(req);
      case Drop(req) =>
        c.Delete(req);
      case Clean(splat) =>
        c.Cleanup(splat);
    }
    assert operations[..|operations|] == operations;
  }
}
