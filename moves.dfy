/** The relinking steps of KillParticles, stated on values: an expired slot leaves an
    active list (as its successor-of-`last` or as its head) and goes onto the free list,
    pushed in front (general pass) or returned behind the free-list head (fire pass). */
module Moves {
  import opened Particles
  import opened Chains
  import opened Lifecycle

  /** The records after the slot x that follows `last` is unlinked: `last` takes x's link. */
  ghost function Unlinked(ps: seq<Particle>, last: int, x: int): seq<Particle>
    requires 0 <= last < |ps| && 0 <= x < |ps|
  {
    ps[last := ps[last].(next := ps[x].next)]
  }

  /** The records after x is pushed in front of the free list that starts at hf. */
  ghost function Pushed(ps: seq<Particle>, x: int, hf: int): seq<Particle>
    requires 0 <= x < |ps|
  {
    ps[x := ps[x].(next := hf)]
  }

  /** The records after x is returned behind the head of the free list f: SpliceLinks at
      position 1, or as the only node when f is empty. */
  ghost function Returned(ps: seq<Particle>, f: seq<int>, x: int): seq<Particle>
    requires 0 <= x < |ps| && InPool(f, ps)
  {
    SpliceLinks(ps, f, if f == [] then 0 else 1, x)
  }

  /** Records that differ only on slots of the lists f and l or on loose slots leave the
      chains c and d alone, and trading slots between f, l and the loose ones keeps the
      partition. */
  lemma Traded(ps: seq<Particle>, qs: seq<Particle>, f: seq<int>, l: seq<int>, c: seq<int>, d: seq<int>,
               hc: int, hd: int, loose: multiset<int>, f2: seq<int>, l2: seq<int>, loose2: multiset<int>)
    requires |qs| == |ps|
    requires Chain(c, hc, ps) && Chain(d, hd, ps)
    requires Partition(f, l, c, d, loose, |ps|)
    requires forall j :: 0 <= j < |ps| && j !in f && j !in l && j !in loose ==> qs[j] == ps[j]
    requires multiset(f2) + multiset(l2) + loose2 == multiset(f) + multiset(l) + loose
    ensures Chain(c, hc, qs) && Chain(d, hd, qs)
    ensures Partition(f2, l2, c, d, loose2, |ps|)
  {
    Disjoint(f, l, c, d, loose, |ps|);
    ChainKept(c, hc, ps, qs);
    ChainKept(d, hd, ps, qs);
    calc {
      multiset(f2) + multiset(l2) + multiset(c) + multiset(d) + loose2;
      (multiset(f2) + multiset(l2) + loose2) + multiset(c) + multiset(d);
      (multiset(f) + multiset(l) + loose) + multiset(c) + multiset(d);
      multiset(f) + multiset(l) + multiset(c) + multiset(d) + loose;
    }
  }

  /** Unlinking x from behind the non-empty prefix a: the list chains without x, the other
      lists are untouched, x is detached, and only the link of a's last slot changes. */
  lemma UnlinkSuccessor(ps: seq<Particle>, f: seq<int>, hf: int, a: seq<int>, x: int, b: seq<int>,
                        c: seq<int>, hc: int, d: seq<int>, hd: int)
    requires a != []
    requires Threaded(ps, f, hf, a + [x] + b, a[0], c, hc, d, hd, multiset{})
    ensures 0 <= a[|a| - 1] < |ps| && 0 <= x < |ps|
    ensures
      var qs := Unlinked(ps, a[|a| - 1], x);
      && |qs| == |ps|
      && Threaded(qs, f, hf, a + b, a[0], c, hc, d, hd, multiset{x})
      && (forall j :: 0 <= j < |ps| ==> Payload(qs[j]) == Payload(ps[j]))
  {
    var s := a + [x] + b;
    var last := a[|a| - 1];
    assert s[|a| - 1] == last;
    Disjoint(f, s, c, d, multiset{}, |ps|);
    PartitionDistinct(f, s, c, d, multiset{}, |ps|);
    ChainUnlink(a, x, b, ps);
    var qs := Unlinked(ps, last, x);
    ChainFrame(f, hf, ps, last, qs[last]);
    assert s == a + [x] + b;
    Traded(ps, qs, f, s, c, d, hc, hd, multiset{}, f, a + b, multiset{x});
  }

  /** Breaking off the head x of the list x, t: t chains from x's successor, x is detached,
      and no record changes. */
  lemma UnlinkHead(ps: seq<Particle>, f: seq<int>, hf: int, x: int, t: seq<int>, c: seq<int>, hc: int, d: seq<int>, hd: int)
    requires Threaded(ps, f, hf, [x] + t, x, c, hc, d, hd, multiset{})
    ensures 0 <= x < |ps|
    ensures Threaded(ps, f, hf, t, ps[x].next, c, hc, d, hd, multiset{x})
  {
    var s := [x] + t;
    ChainPop(s, x, ps);
    assert s[1..] == t;
  }

  /** Pushing the detached x in front of the free list f. */
  lemma PushDetached(ps: seq<Particle>, f: seq<int>, hf: int, l: seq<int>, hl: int,
                     c: seq<int>, hc: int, d: seq<int>, hd: int, x: int)
    requires Threaded(ps, f, hf, l, hl, c, hc, d, hd, multiset{x})
    ensures 0 <= x < |ps|
    ensures
      var qs := Pushed(ps, x, hf);
      && |qs| == |ps|
      && Threaded(qs, [x] + f, x, l, hl, c, hc, d, hd, multiset{})
      && (forall j :: 0 <= j < |ps| ==> Payload(qs[j]) == Payload(ps[j]))
  {
    Disjoint(f, l, c, d, multiset{x}, |ps|);
    ChainPush(f, hf, ps, x);
    var qs := Pushed(ps, x, hf);
    ChainFrame(l, hl, ps, x, qs[x]);
    Traded(ps, qs, f, l, c, d, hc, hd, multiset{x}, [x] + f, l, multiset{});
  }

  /** Returning the detached x behind the head of the free list f. */
  lemma ReturnDetached(ps: seq<Particle>, f: seq<int>, hf: int, l: seq<int>, hl: int,
                       c: seq<int>, hc: int, d: seq<int>, hd: int, x: int)
    requires Threaded(ps, f, hf, l, hl, c, hc, d, hd, multiset{x})
    ensures 0 <= x < |ps|
    ensures
      var qs := Returned(ps, f, x);
      && |qs| == |ps|
      && Threaded(qs, ReturnAfterHead(f, x), if f == [] then x else hf, l, hl, c, hc, d, hd, multiset{})
      && (forall j :: 0 <= j < |ps| ==> Payload(qs[j]) == Payload(ps[j]))
  {
    Disjoint(f, l, c, d, multiset{x}, |ps|);
    PartitionDistinct(f, l, c, d, multiset{x}, |ps|);
    ReturnChain(ps, f, hf, x);
    var qs := Returned(ps, f, x);
    ChainKept(l, hl, ps, qs);
    ReturnedSlots(f, x);
    Traded(ps, qs, f, l, c, d, hc, hd, multiset{x}, ReturnAfterHead(f, x), l, multiset{});
  }

  /** Returning the detached x behind the free-list head links the free list as
      ReturnAfterHead says, and changes only the links of x and of the free-list head. */
  lemma ReturnChain(ps: seq<Particle>, f: seq<int>, hf: int, x: int)
    requires Chain(f, hf, ps) && Distinct(f) && 0 <= x < |ps| && x !in f
    ensures
      var qs := Returned(ps, f, x);
      && |qs| == |ps|
      && Chain(ReturnAfterHead(f, x), if f == [] then x else hf, qs)
      && (forall j :: 0 <= j < |ps| && j != x && j !in f ==> qs[j] == ps[j])
      && (forall j :: 0 <= j < |ps| ==> Payload(qs[j]) == Payload(ps[j]))
  {
    var p := if f == [] then 0 else 1;
    SpliceLinksChain(ps, f, hf, p, x);
    SpliceLinksFrame(ps, f, p, x);
    if f != [] {
      assert f[..1] + [x] + f[1..] == ReturnAfterHead(f, x);
    }
  }

  /** Returning one slot adds it to the free list's slots. */
  lemma ReturnedSlots(f: seq<int>, x: int)
    ensures multiset(ReturnAfterHead(f, x)) == multiset(f) + multiset{x}
  {
    if f != [] {
      assert f == [f[0]] + f[1..];
    }
  }
}
