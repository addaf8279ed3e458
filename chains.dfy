/** The intrusive singly-linked lists threaded through the pool array, seen as
    sequences of slot indices, and the partition of the pool among the lists. */
module Chains {
  import opened Particles

  /** The link that the k-th node of chain s must carry: its successor, or Null at the end. */
  function Succ(s: seq<int>, k: int): int
    requires 0 <= k < |s|
  {
    if k + 1 < |s| then s[k + 1] else Null
  }

  /** Every entry of s is a slot of the records ps. */
  ghost predicate InPool(s: seq<int>, ps: seq<Particle>)
  {
    forall k :: 0 <= k < |s| ==> 0 <= s[k] < |ps|
  }

  /** Following `next` from `head` through the records ps visits exactly the slots s and then stops. */
  ghost predicate Chain(s: seq<int>, head: int, ps: seq<Particle>)
  {
    && head == (if s == [] then Null else s[0])
    && InPool(s, ps)
    && (forall k {:trigger ps[s[k]]} :: 0 <= k < |s| ==> ps[s[k]].next == Succ(s, k))
  }

  /** No slot occurs twice in s. */
  ghost predicate Distinct(s: seq<int>)
  {
    forall i, j :: 0 <= i < j < |s| ==> s[i] != s[j]
  }

  /** Every slot of a pool of n records sits exactly once on the four lists or among
      the loose (detached) slots. */
  ghost predicate Partition(a: seq<int>, b: seq<int>, c: seq<int>, d: seq<int>, loose: multiset<int>, n: nat)
  {
    multiset(a) + multiset(b) + multiset(c) + multiset(d) + loose == multiset(Iota(n))
  }

  /** The free list f and the active lists a, b and c chain through the records ps from their
      heads, and together with the detached slots `loose` they hold every slot exactly once. */
  ghost predicate Threaded(ps: seq<Particle>, f: seq<int>, hf: int, a: seq<int>, ha: int,
                           b: seq<int>, hb: int, c: seq<int>, hc: int, loose: multiset<int>)
  {
    && Chain(f, hf, ps) && Chain(a, ha, ps) && Chain(b, hb, ps) && Chain(c, hc, ps)
    && Partition(f, a, b, c, loose, |ps|)
  }

  /** Naming the active lists in another order does not matter. */
  lemma ThreadedReordered(ps: seq<Particle>, f: seq<int>, hf: int, a: seq<int>, ha: int,
                          b: seq<int>, hb: int, c: seq<int>, hc: int, loose: multiset<int>)
    ensures Threaded(ps, f, hf, a, ha, b, hb, c, hc, loose) == Threaded(ps, f, hf, c, hc, a, ha, b, hb, loose)
  {
    PartitionReordered(f, a, b, c, loose, |ps|);
  }

  /** The order in which the lists are named does not matter. */
  lemma PartitionReordered(a: seq<int>, b: seq<int>, c: seq<int>, d: seq<int>, loose: multiset<int>, n: nat)
    ensures Partition(a, b, c, d, loose, n) == Partition(a, c, b, d, loose, n) == Partition(a, d, b, c, loose, n)
  {
  }

  /** The slot indices 0 .. n-1 in order: also the free list as InitializeParticleSystem threads it. */
  function Iota(n: nat): (s: seq<int>)
    ensures |s| == n
    ensures forall k :: 0 <= k < n ==> s[k] == k
  {
    seq(n, k => k)
  }

  /** Records linked slot k to slot k + 1, with the last one null, form the chain Iota from slot 0. */
  lemma IotaChain(ps: seq<Particle>)
    requires |ps| > 0
    requires forall k :: 0 <= k < |ps| - 1 ==> ps[k].next == k + 1
    requires ps[|ps| - 1].next == Null
    ensures Chain(Iota(|ps|), 0, ps)
  {
  }

  /** Each slot of the pool occurs once in Iota, and nothing else occurs. */
  lemma {:induction false} IotaCount(n: nat, x: int)
    ensures multiset(Iota(n))[x] == if 0 <= x < n then 1 else 0
  {
    if n > 0 {
      IotaCount(n - 1, x);
      assert Iota(n) == Iota(n - 1) + [n - 1];
    } else {
      assert Iota(0) == [];
    }
  }

  /** A slot that appears twice is counted twice. */
  lemma CountRepeat(s: seq<int>, i: int, j: int)
    requires 0 <= i < j < |s| && s[i] == s[j]
    ensures multiset(s)[s[i]] >= 2
  {
    assert s == s[..i] + [s[i]] + s[i + 1..j] + [s[j]] + s[j + 1..];
  }

  /** A sequence in which no slot is counted twice is free of repeats. */
  lemma DistinctOfCounts(s: seq<int>)
    requires forall v :: multiset(s)[v] <= 1
    ensures Distinct(s)
  {
    forall i, j | 0 <= i < j < |s|
      ensures s[i] != s[j]
    {
      if s[i] == s[j] {
        CountRepeat(s, i, j);
      }
    }
  }

  /** The partition makes every list repeat-free. */
  lemma PartitionDistinct(a: seq<int>, b: seq<int>, c: seq<int>, d: seq<int>, loose: multiset<int>, n: nat)
    requires Partition(a, b, c, d, loose, n)
    ensures Distinct(a) && Distinct(b) && Distinct(c) && Distinct(d)
  {
    forall v
      ensures multiset(a)[v] <= 1 && multiset(b)[v] <= 1 && multiset(c)[v] <= 1 && multiset(d)[v] <= 1
    {
      IotaCount(n, v);
    }
    DistinctOfCounts(a);
    DistinctOfCounts(b);
    DistinctOfCounts(c);
    DistinctOfCounts(d);
  }

  /** The partition keeps the four lists and the loose slots apart, all slots of the pool. */
  lemma Disjoint(a: seq<int>, b: seq<int>, c: seq<int>, d: seq<int>, loose: multiset<int>, n: nat)
    requires Partition(a, b, c, d, loose, n)
    ensures forall x :: x in a ==> x !in b && x !in c && x !in d && x !in loose && 0 <= x < n
    ensures forall x :: x in b ==> x !in c && x !in d && x !in loose && 0 <= x < n
    ensures forall x :: x in c ==> x !in d && x !in loose && 0 <= x < n
    ensures forall x :: x in d ==> x !in loose && 0 <= x < n
    ensures forall x :: x in loose ==> 0 <= x < n
  {
    forall x
      ensures (x in a) == (multiset(a)[x] > 0) && (x in b) == (multiset(b)[x] > 0)
      ensures (x in c) == (multiset(c)[x] > 0) && (x in d) == (multiset(d)[x] > 0)
      ensures multiset(a)[x] + multiset(b)[x] + multiset(c)[x] + multiset(d)[x] + loose[x] == if 0 <= x < n then 1 else 0
    {
      IotaCount(n, x);
    }
  }

  /** Sizes add up: the four lists and the loose slots hold n slots together. */
  lemma PartitionSize(a: seq<int>, b: seq<int>, c: seq<int>, d: seq<int>, loose: multiset<int>, n: nat)
    requires Partition(a, b, c, d, loose, n)
    ensures |a| + |b| + |c| + |d| + |loose| == n
  {
    assert |multiset(Iota(n))| == n;
  }

  /** Every slot of the pool is on one of the four lists or loose. */
  lemma PartitionCovers(a: seq<int>, b: seq<int>, c: seq<int>, d: seq<int>, loose: multiset<int>, n: nat, x: int)
    requires Partition(a, b, c, d, loose, n)
    requires 0 <= x < n
    ensures x in a || x in b || x in c || x in d || x in loose
  {
    IotaCount(n, x);
  }

  /** A record whose slot is not on the chain, or whose link is kept, may change freely. */
  lemma ChainFrame(s: seq<int>, head: int, ps: seq<Particle>, i: int, v: Particle)
    requires Chain(s, head, ps)
    requires 0 <= i < |ps|
    requires i !in s || v.next == ps[i].next
    ensures Chain(s, head, ps[i := v])
  {
    forall k | 0 <= k < |s|
      ensures ps[i := v][s[k]].next == Succ(s, k)
    {
      if s[k] == i {
        assert i in s;
      }
    }
  }

  /** Rewriting one record without touching its link keeps the four chains and the partition. */
  lemma ThreadedFrame(ps: seq<Particle>, f: seq<int>, hf: int, a: seq<int>, ha: int,
                      b: seq<int>, hb: int, c: seq<int>, hc: int, loose: multiset<int>, i: int, v: Particle)
    requires Threaded(ps, f, hf, a, ha, b, hb, c, hc, loose)
    requires 0 <= i < |ps| && v.next == ps[i].next
    ensures Threaded(ps[i := v], f, hf, a, ha, b, hb, c, hc, loose)
  {
    ChainFrame(f, hf, ps, i, v);
    ChainFrame(a, ha, ps, i, v);
    ChainFrame(b, hb, ps, i, v);
    ChainFrame(c, hc, ps, i, v);
  }

  /** Records whose slots are on the chain keep their links: the chain holds in the new records. */
  lemma ChainKept(s: seq<int>, head: int, ps: seq<Particle>, qs: seq<Particle>)
    requires Chain(s, head, ps)
    requires |qs| == |ps|
    requires forall j :: j in s && 0 <= j < |ps| ==> qs[j].next == ps[j].next
    ensures Chain(s, head, qs)
  {
    forall k | 0 <= k < |s|
      ensures qs[s[k]].next == ps[s[k]].next
    {
      assert s[k] in s;
    }
  }

  /** Breaking off the head leaves a chain that starts at the head's successor. */
  lemma ChainPop(s: seq<int>, head: int, ps: seq<Particle>)
    requires Chain(s, head, ps)
    requires s != []
    ensures 0 <= head < |ps|
    ensures Chain(s[1..], ps[head].next, ps)
  {
    assert ps[s[0]].next == Succ(s, 0);
    forall k | 0 <= k < |s[1..]|
      ensures ps[s[1..][k]].next == Succ(s[1..], k)
    {
      assert ps[s[k + 1]].next == Succ(s, k + 1);
    }
  }

  /** Pushing a detached slot in front of a chain, pointing it at the old head. */
  lemma ChainPush(s: seq<int>, head: int, ps: seq<Particle>, x: int)
    requires Chain(s, head, ps)
    requires 0 <= x < |ps| && x !in s
    ensures Chain([x] + s, x, ps[x := ps[x].(next := head)])
  {
    var qs := ps[x := ps[x].(next := head)];
    var t := [x] + s;
    forall k | 0 <= k < |t|
      ensures 0 <= t[k] < |qs| && qs[t[k]].next == Succ(t, k)
    {
      if k > 0 {
        assert t[k] == s[k - 1];
        assert s[k - 1] in s;
        assert ps[s[k - 1]].next == Succ(s, k - 1);
      }
    }
  }

  /** Unlinking the slot x that follows the non-empty prefix a: the last slot of a takes x's link. */
  lemma ChainUnlink(a: seq<int>, x: int, b: seq<int>, ps: seq<Particle>)
    requires a != []
    requires Chain(a + [x] + b, a[0], ps)
    requires Distinct(a + [x] + b)
    ensures x !in a + b
    ensures 0 <= x < |ps| && 0 <= a[|a| - 1] < |ps|
    ensures Chain(a + b, a[0], ps[a[|a| - 1] := ps[a[|a| - 1]].(next := ps[x].next)])
  {
    var s := a + [x] + b;
    var t := a + b;
    var last := a[|a| - 1];
    assert s[|a|] == x && s[|a| - 1] == last;
    assert ps[x].next == Succ(s, |a|);
    var qs := ps[last := ps[last].(next := ps[x].next)];
    forall i | 0 <= i < |t|
      ensures t[i] != x
    {
      if i < |a| {
        assert t[i] == s[i];
      } else {
        assert t[i] == s[i + 1];
      }
    }
    forall k | 0 <= k < |t|
      ensures 0 <= t[k] < |qs| && qs[t[k]].next == Succ(t, k)
    {
      if k < |a| - 1 {
        assert t[k] == s[k] && s[k] != s[|a| - 1];
        assert ps[s[k]].next == Succ(s, k);
      } else if k == |a| - 1 {
        assert t[k] == last;
      } else {
        assert t[k] == s[k + 1] && s[k + 1] != s[|a| - 1];
        assert ps[s[k + 1]].next == Succ(s, k + 1);
      }
    }
  }

  /** Splicing the detached slot x in after the non-empty prefix a: x takes the link of
      a's last slot, and that slot then points to x. */
  lemma ChainSplice(a: seq<int>, b: seq<int>, ps: seq<Particle>, x: int)
    requires a != []
    requires Chain(a + b, a[0], ps)
    requires Distinct(a + b)
    requires 0 <= x < |ps| && x !in a + b
    ensures 0 <= a[|a| - 1] < |ps|
    ensures
      var last := a[|a| - 1];
      var qs := ps[x := ps[x].(next := ps[last].next)];
      Chain(a + [x] + b, a[0], qs[last := qs[last].(next := x)])
  {
    var s := a + b;
    var t := a + [x] + b;
    var last := a[|a| - 1];
    assert s[|a| - 1] == last;
    assert ps[last].next == Succ(s, |a| - 1);
    var qs := ps[x := ps[x].(next := ps[last].next)];
    var rs := qs[last := qs[last].(next := x)];
    forall k | 0 <= k < |t|
      ensures 0 <= t[k] < |rs| && rs[t[k]].next == Succ(t, k)
    {
      if k < |a| - 1 {
        assert t[k] == s[k] && s[k] != s[|a| - 1];
        assert s[k] in s;
        assert ps[s[k]].next == Succ(s, k);
      } else if k == |a| - 1 {
        assert t[k] == last;
      } else if k == |a| {
        assert t[k] == x;
      } else {
        assert t[k] == s[k - 1] && s[k - 1] != s[|a| - 1];
        assert s[k - 1] in s;
        assert ps[s[k - 1]].next == Succ(s, k - 1);
      }
    }
  }

  /** The records after the detached slot x is linked in at position p of the chain s:
      as the only node of an empty chain, or after s[p - 1], taking over its link. */
  ghost function SpliceLinks(ps: seq<Particle>, s: seq<int>, p: nat, x: int): seq<Particle>
    requires 0 <= x < |ps| && InPool(s, ps) && p <= |s| && (s != [] ==> 1 <= p)
  {
    if s == [] then ps[x := ps[x].(next := Null)]
    else
      var last := s[p - 1];
      var qs := ps[x := ps[x].(next := ps[last].next)];
      qs[last := qs[last].(next := x)]
  }

  /** Linking x in at position p of a repeat-free chain gives the chain with x at position p. */
  lemma SpliceLinksChain(ps: seq<Particle>, s: seq<int>, head: int, p: nat, x: int)
    requires 0 <= x < |ps| && p <= |s| && (s != [] ==> 1 <= p)
    requires Chain(s, head, ps) && Distinct(s) && x !in s
    ensures InPool(s, ps)
    ensures Chain(s[..p] + [x] + s[p..], if s == [] then x else head, SpliceLinks(ps, s, p, x))
  {
    if s != [] {
      var a, b := s[..p], s[p..];
      assert a + b == s;
      ChainSplice(a, b, ps, x);
    }
  }

  /** Linking x in changes the records of x and of its predecessor on s, and only their links. */
  lemma SpliceLinksFrame(ps: seq<Particle>, s: seq<int>, p: nat, x: int)
    requires 0 <= x < |ps| && InPool(s, ps) && p <= |s| && (s != [] ==> 1 <= p)
    ensures |SpliceLinks(ps, s, p, x)| == |ps|
    ensures forall j :: 0 <= j < |ps| && j != x && j !in s ==> SpliceLinks(ps, s, p, x)[j] == ps[j]
    ensures forall j :: 0 <= j < |ps| ==> Payload(SpliceLinks(ps, s, p, x)[j]) == Payload(ps[j])
  {
    if s != [] {
      assert s[p - 1] in s;
    }
  }

  /** After the detached x is linked into s, in records that differ only at x and on s, the
      other three lists still chain and the four lists partition the pool once more. */
  lemma InsertedInto(ps: seq<Particle>, qs: seq<Particle>, x: int, s: seq<int>, p: nat,
                     a: seq<int>, b: seq<int>, c: seq<int>, ha: int, hb: int, hc: int)
    requires |qs| == |ps| && 0 <= x < |ps| && p <= |s|
    requires Chain(a, ha, ps) && Chain(b, hb, ps) && Chain(c, hc, ps)
    requires forall j :: 0 <= j < |ps| && j != x && j !in s ==> qs[j] == ps[j]
    requires multiset(a) + multiset(b) + multiset(c) + multiset(s) + multiset{x} == multiset(Iota(|ps|))
    ensures Chain(a, ha, qs) && Chain(b, hb, qs) && Chain(c, hc, qs)
    ensures multiset(a) + multiset(b) + multiset(c) + multiset(s[..p] + [x] + s[p..]) == multiset(Iota(|ps|))
  {
    Disjoint(a, b, c, s, multiset{x}, |ps|);
    ChainKept(a, ha, ps, qs);
    ChainKept(b, hb, ps, qs);
    ChainKept(c, hc, ps, qs);
    assert s == s[..p] + s[p..];
  }
}
