/** ParticleManager: one fixed pool of particle records threaded into four singly-linked
    lists (free, general, rain and fire) and the operations that relink, update and
    flatten them each frame. */
module Manager {
  import opened Particles
  import opened Chains
  import opened ZOrder
  import opened Lifecycle
  import opened Layout
  import opened Moves
  import opened Settings
  import opened Spawning
  import opened Splash
  import opened Motion

  /** What the kill passes leave in the records of the rain list r and of the surviving
      fire particles kept, from the records ps before them to qs: but for links, each drop
      holds its old record reset as the rain pass resets it, and each surviving fire
      particle its old record, turned to smoke below SmokeLifeTime. */
  ghost predicate KilledAs(qs: seq<Particle>, ps: seq<Particle>, r: seq<int>, kept: seq<int>)
  {
    && |qs| == |ps| && InPool(r, ps) && InPool(kept, ps)
    && (forall k :: 0 <= k < |r| ==>
          Payload(qs[r[k]]) == Payload(Recycled(ps[r[k]], RainSpawnInHeight, RainSpawnYVelocity)))
    && (forall k :: 0 <= k < |kept| ==> Payload(qs[kept[k]]) == Payload(Smoked(ps[kept[k]], SmokeLifeTime)))
  }

  /** The records after the three kill passes, p0 before the general pass, p1 before the
      rain pass over r, p2 before the fire pass over fi, p3 after it, are KilledAs says. */
  lemma KilledRecords(p0: seq<Particle>, p1: seq<Particle>, p2: seq<Particle>, p3: seq<Particle>,
                      r: seq<int>, fi: seq<int>, kept: seq<int>, f1: seq<int>, g1: seq<int>,
                      circle: seq<(real, real)>, g2: seq<int>, f2: seq<int>)
    requires SamePayloads(p1, p0)
    requires RainPass(r, p1, f1, g1, circle, |r|, g2, f2, p2) && Distinct(f1)
    requires InPool(fi, p2) && kept == Alive(fi, p2)
    requires forall j :: j in r ==> j !in f1 && j !in fi
    requires forall j :: j in fi ==> j !in f1 && j !in r
    requires FirePassed(p3, fi, p2, SmokeLifeTime)
    ensures KilledAs(p3, p0, r, kept)
  {
    KilledDrops(p0, p1, p2, p3, r, fi, f1, g1, circle, g2, f2);
    KilledSparks(p0, p1, p2, p3, r, fi, kept, f1, g1, circle, g2, f2);
  }

  /** Every drop of the rain list r after the three kill passes. */
  lemma KilledDrops(p0: seq<Particle>, p1: seq<Particle>, p2: seq<Particle>, p3: seq<Particle>,
                    r: seq<int>, fi: seq<int>, f1: seq<int>, g1: seq<int>,
                    circle: seq<(real, real)>, g2: seq<int>, f2: seq<int>)
    requires SamePayloads(p1, p0)
    requires RainPass(r, p1, f1, g1, circle, |r|, g2, f2, p2) && Distinct(f1)
    requires InPool(fi, p2)
    requires forall j :: j in r ==> j !in f1 && j !in fi
    requires FirePassed(p3, fi, p2, SmokeLifeTime)
    ensures |p3| == |p0| && InPool(r, p0)
    ensures forall k :: 0 <= k < |r| ==>
      Payload(p3[r[k]]) == Payload(Recycled(p0[r[k]], RainSpawnInHeight, RainSpawnYVelocity))
  {
    forall k | 0 <= k < |r|
      ensures 0 <= r[k] < |p0| && Payload(p3[r[k]]) == Payload(Recycled(p0[r[k]], RainSpawnInHeight, RainSpawnYVelocity))
    {
      assert r[k] in r;
      KilledDrop(p0, p1, p2, p3, r, fi, f1, g1, circle, g2, f2, r[k]);
    }
  }

  /** Every surviving fire particle of kept after the three kill passes. */
  lemma KilledSparks(p0: seq<Particle>, p1: seq<Particle>, p2: seq<Particle>, p3: seq<Particle>,
                     r: seq<int>, fi: seq<int>, kept: seq<int>, f1: seq<int>, g1: seq<int>,
                     circle: seq<(real, real)>, g2: seq<int>, f2: seq<int>)
    requires SamePayloads(p1, p0)
    requires RainPass(r, p1, f1, g1, circle, |r|, g2, f2, p2) && Distinct(f1)
    requires InPool(fi, p2) && kept == Alive(fi, p2)
    requires forall j :: j in fi ==> j !in f1 && j !in r
    requires FirePassed(p3, fi, p2, SmokeLifeTime)
    ensures |p3| == |p0| && InPool(kept, p0)
    ensures forall k :: 0 <= k < |kept| ==> Payload(p3[kept[k]]) == Payload(Smoked(p0[kept[k]], SmokeLifeTime))
  {
    forall k | 0 <= k < |kept|
      ensures 0 <= kept[k] < |p0| && Payload(p3[kept[k]]) == Payload(Smoked(p0[kept[k]], SmokeLifeTime))
    {
      assert kept[k] in kept;
      AliveWithin(fi, p2, kept[k]);
      KilledSpark(p0, p1, p2, p3, r, fi, f1, g1, circle, g2, f2, kept[k]);
    }
  }

  /** The general and rain passes leave the lifetimes of the fire particles fi alone, so
      the fire pass finds the survivors it would have found before them. */
  lemma FireLivesKept(p0: seq<Particle>, p1: seq<Particle>, p2: seq<Particle>,
                      r: seq<int>, fi: seq<int>, f1: seq<int>, g1: seq<int>,
                      circle: seq<(real, real)>, g2: seq<int>, f2: seq<int>)
    requires SamePayloads(p1, p0)
    requires RainPass(r, p1, f1, g1, circle, |r|, g2, f2, p2) && Distinct(f1)
    requires InPool(fi, p0) && forall j :: j in fi ==> j !in f1
    ensures InPool(fi, p2) && Alive(fi, p2) == Alive(fi, p0)
  {
    RainPassKeepsLife(r, p1, f1, g1, circle, |r|, g2, f2, p2);
    forall k | 0 <= k < |fi|
      ensures p2[fi[k]].life == p0[fi[k]].life
    {
      assert fi[k] in fi;
      assert Payload(p1[fi[k]]) == Payload(p0[fi[k]]);
    }
    AliveFrame(fi, p0, p2);
  }

  /** One drop x through the three kill passes: reset by the rain pass, untouched by the others. */
  lemma KilledDrop(p0: seq<Particle>, p1: seq<Particle>, p2: seq<Particle>, p3: seq<Particle>,
                   r: seq<int>, fi: seq<int>, f1: seq<int>, g1: seq<int>,
                   circle: seq<(real, real)>, g2: seq<int>, f2: seq<int>, x: int)
    requires SamePayloads(p1, p0)
    requires RainPass(r, p1, f1, g1, circle, |r|, g2, f2, p2) && Distinct(f1)
    requires InPool(fi, p2) && x in r && x !in f1 && x !in fi
    requires FirePassed(p3, fi, p2, SmokeLifeTime)
    ensures 0 <= x < |p0| == |p3|
    ensures Payload(p3[x]) == Payload(Recycled(p0[x], RainSpawnInHeight, RainSpawnYVelocity))
  {
    RainPassPayload(r, p1, f1, g1, circle, g2, f2, p2, x);
    assert x !in Alive(fi, p2) by {
      if x in Alive(fi, p2) {
        AliveWithin(fi, p2, x);
      }
    }
    assert Payload(p3[x]) == Payload(AfterFirePass(fi, p2, SmokeLifeTime, x));
    assert Payload(p1[x]) == Payload(p0[x]);
  }

  /** One surviving fire particle x through the three kill passes: untouched by the general
      and rain passes, turned to smoke (below SmokeLifeTime) by the fire pass. */
  lemma KilledSpark(p0: seq<Particle>, p1: seq<Particle>, p2: seq<Particle>, p3: seq<Particle>,
                    r: seq<int>, fi: seq<int>, f1: seq<int>, g1: seq<int>,
                    circle: seq<(real, real)>, g2: seq<int>, f2: seq<int>, x: int)
    requires SamePayloads(p1, p0)
    requires RainPass(r, p1, f1, g1, circle, |r|, g2, f2, p2) && Distinct(f1)
    requires InPool(fi, p2) && x in Alive(fi, p2) && x !in r && x !in f1
    requires FirePassed(p3, fi, p2, SmokeLifeTime)
    ensures 0 <= x < |p0| == |p3|
    ensures Payload(p3[x]) == Payload(Smoked(p0[x], SmokeLifeTime))
  {
    AliveWithin(fi, p2, x);
    RainPassPayload(r, p1, f1, g1, circle, g2, f2, p2, x);
    assert Payload(p3[x]) == Payload(AfterFirePass(fi, p2, SmokeLifeTime, x));
    assert Payload(p1[x]) == Payload(p0[x]);
  }

  class ParticleManager {
    /** m_particleList: the backing array of every list. */
    const pool: array<Particle>
    /** m_Instances: what the renderer draws. */
    const instances: array<Instance>
    var freeHead: int
    var generalHead: int
    var rainHead: int
    var fireHead: int
    var fireInstanceCount: int
    var activeParticles: int
    /** The slots on each list, in list order. */
    ghost var free: seq<int>
    ghost var general: seq<int>
    ghost var rain: seq<int>
    ghost var fire: seq<int>

    function HeadOf(which: ActiveList): int
      reads this
    {
      match which
      case General => generalHead
      case Rain => rainHead
      case Fire => fireHead
    }

    ghost function ListOf(which: ActiveList): seq<int>
      reads this
    {
      match which
      case General => general
      case Rain => rain
      case Fire => fire
    }

    /** The four chains run from their heads through the pool, and every slot is on exactly
        one of them or among the detached slots `loose`. */
    ghost predicate Linked(loose: multiset<int>)
      reads this, pool
    {
      && pool.Length == MaxParticles
      && Threaded(pool[..], free, freeHead, general, generalHead, rain, rainHead, fire, fireHead, loose)
    }

    /** The invariant between frames: the lists partition the pool, rain and fire particles
        stay Z-ordered after the head, and the fire counter is the fire list's length. */
    ghost predicate Valid()
      reads this, pool
    {
      && Linked(multiset{})
      && Settled(rain, pool[..])
      && Settled(fire, pool[..])
      && fireInstanceCount == |fire|
      && instances.Length == TotalInstanceCount
    }

    /** InitializeParticleSystem, with the instance array of InitializeBuffers: every slot is
        on the free list in index order, the active lists are empty, the counters are zero. */
    constructor ()
      ensures Valid()
      ensures free == Iota(MaxParticles) && freeHead == 0
      ensures general == [] && rain == [] && fire == []
      ensures fireInstanceCount == 0 && activeParticles == 0
      ensures forall j :: 0 <= j < instances.Length ==> instances[j] == Zero
      ensures fresh(pool) && fresh(instances)
    {
      pool := new Particle[MaxParticles](_ => Blank);
      instances := new Instance[TotalInstanceCount](_ => Zero);
      freeHead := 0;
      generalHead, rainHead, fireHead := Null, Null, Null;
      fireInstanceCount, activeParticles := 0, 0;
      free, general, rain, fire := Iota(MaxParticles), [], [], [];
      new;
      ThreadFreeList();
    }

    /** The loop of InitializeParticleSystem that points every slot at the next one and
        ends the last one with null: the pool becomes one chain, Iota, from slot 0. */
    method ThreadFreeList()
      requires pool.Length > 0
      modifies pool
      ensures Chain(Iota(pool.Length), 0, pool[..])
      ensures forall j :: 0 <= j < pool.Length ==> Payload(pool[j]) == Payload(old(pool[j]))
    {
      var i := 0;
      while i < pool.Length - 1
        invariant 0 <= i <= pool.Length - 1
        invariant forall k :: 0 <= k < i ==> pool[k].next == k + 1
        invariant forall j :: 0 <= j < pool.Length ==> Payload(pool[j]) == Payload(old(pool[j]))
      {
        pool[i] := pool[i].(next := i + 1);
        i := i + 1;
      }
      pool[pool.Length - 1] := pool[pool.Length - 1].(next := Null);
      IotaChain(pool[..]);
    }

    /** Sets the head and the contents of one active list, nothing else. */
    method Relink(which: ActiveList, head: int, ghost s: seq<int>)
      modifies this`generalHead, this`rainHead, this`fireHead, this`general, this`rain, this`fire
      ensures generalHead == (if which == General then head else old(generalHead))
      ensures rainHead == (if which == Rain then head else old(rainHead))
      ensures fireHead == (if which == Fire then head else old(fireHead))
      ensures general == (if which == General then s else old(general))
      ensures rain == (if which == Rain then s else old(rain))
      ensures fire == (if which == Fire then s else old(fire))
    {
      match which
      case General =>
        generalHead, general := head, s;
      case Rain =>
        rainHead, rain := head, s;
      case Fire =>
        fireHead, fire := head, s;
    }

    /** The inline "break off the head of the free list" of the three spawners: the head
        leaves the free list and is detached; its record, link included, is untouched. */
    method PopFree() returns (node: int)
      requires Linked(multiset{})
      requires freeHead != Null
      modifies this`freeHead, this`free
      ensures Linked(multiset{node})
      ensures old(free) != [] && node == old(free)[0] && free == old(free)[1..]
      ensures 0 <= node < pool.Length
    {
      ChainPop(free, freeHead, pool[..]);
      node := freeHead;
      freeHead := pool[node].next;
      assert free == [node] + free[1..];
      free := free[1..];
    }

    /** The walk and splice of PlaceNodeInZSortedList on the list s that starts at `head`;
        the new head is returned, as the source writes it through `headNode`. Into an empty
        list the node goes as the head; otherwise the head stays and the node goes right
        before the first later node that is strictly shallower, or at the end. Only the
        links of the node and of its new predecessor change. */
    method InsertSorted(node: int, head: int, ghost s: seq<int>) returns (newHead: int, ghost p: nat)
      requires 0 <= node < pool.Length
      requires Chain(s, head, pool[..]) && node !in s
      modifies pool
      ensures InPool(s, old(pool[..]))
      ensures p == InsertPos(Depths(s, old(pool[..])), old(pool[node].z))
      ensures p <= |s| && (s != [] ==> 1 <= p)
      ensures pool[..] == SpliceLinks(old(pool[..]), s, p, node)
      ensures newHead == if s == [] then node else head
    {
      if head == Null {
        pool[node] := pool[node].(next := Null);
        newHead, p := node, 0;
        return;
      }
      var cur;
      ghost var k;
      cur, k := FindPredecessor(node, head, s);
      p := k + 1;
      pool[node] := pool[node].(next := pool[cur].next);
      pool[cur] := pool[cur].(next := node);
      newHead := head;
    }

    /** The walk of PlaceNodeInZSortedList over a non-empty list: it stops on the node after
        which the new node goes, the one at position InsertPos - 1. */
    method FindPredecessor(node: int, head: int, ghost s: seq<int>) returns (cur: int, ghost k: nat)
      requires 0 <= node < pool.Length
      requires Chain(s, head, pool[..]) && head != Null
      ensures k < |s| && cur == s[k]
      ensures k + 1 == InsertPos(Depths(s, pool[..]), pool[node].z)
      ensures pool[cur].next == Succ(s, k)
    {
      ghost var ps := pool[..];
      ghost var d := Depths(s, ps);
      ghost var z := ps[node].z;
      cur, k := head, 0;
      while pool[cur].next != Null && !(pool[pool[cur].next].z < pool[node].z)
        invariant 0 <= k < |s| && cur == s[k]
        invariant forall j :: 1 <= j <= k ==> d[j] >= z
        decreases |s| - k
      {
        ghost var k0 := k;
        assert ps[cur].next == Succ(s, k);
        cur := pool[cur].next;
        k := k + 1;
        DeeperStep(d, z, k0, k);
      }
      assert ps[cur].next == Succ(s, k);
      InsertPosUnique(d, z, k + 1);
    }

    /** PlaceNodeInZSortedList: the detached node goes into the chosen list at InsertPos;
        the other lists and every record apart from links are untouched, and a list whose
        nodes after the head were ordered by Z stays so. */
    method PlaceNodeInZSortedList(node: int, which: ActiveList)
      requires 0 <= node < pool.Length
      requires Linked(multiset{node})
      modifies this`generalHead, this`rainHead, this`fireHead, this`general, this`rain, this`fire, pool
      ensures Linked(multiset{})
      ensures
        var s := old(ListOf(which));
        InPool(s, old(pool[..])) &&
        ListOf(which) == Spliced(s, InsertPos(Depths(s, old(pool[..])), old(pool[node].z)), node)
      ensures old(ListOf(which)) != [] ==> HeadOf(which) == old(HeadOf(which))
      ensures which != General ==> generalHead == old(generalHead) && general == old(general)
      ensures which != Rain ==> rainHead == old(rainHead) && rain == old(rain)
      ensures which != Fire ==> fireHead == old(fireHead) && fire == old(fire)
      ensures forall j :: 0 <= j < pool.Length ==> Payload(pool[j]) == Payload(old(pool[j]))
      ensures
        var s := old(ListOf(which));
        InPool(s, old(pool[..])) && InPool(ListOf(which), pool[..]) &&
        (SortedFrom(Depths(s, old(pool[..])), 1) ==> SortedFrom(Depths(ListOf(which), pool[..]), 1))
    {
      ghost var ps := pool[..];
      ghost var s := ListOf(which);
      DetachedFrom(node, which);
      var h, p := InsertSorted(node, HeadOf(which), s);
      Relink(which, h, Spliced(s, p, node));
      ghost var i := match which case General => 1 case Rain => 2 case Fire => 3;
      PlacedAmong(ps, free, old(general), old(rain), old(fire),
                  freeHead, old(generalHead), old(rainHead), old(fireHead), i, p, node,
                  general, rain, fire, generalHead, rainHead, fireHead);
    }

    /** A detached slot is on no list. */
    lemma DetachedFrom(node: int, which: ActiveList)
      requires Linked(multiset{node})
      ensures Chain(ListOf(which), HeadOf(which), pool[..]) && node !in ListOf(which)
    {
      Disjoint(free, general, rain, fire, multiset{node}, pool.Length);
    }

    /** UpdateParticles: one frame of motion for the general list, then the rain list,
        then the fire list. Links are untouched and the invariant between frames holds
        again: rain and fire particles do not move in depth (FrameLifetimes says what
        the frame does to each list's particles). */
    method UpdateParticles(dt: real)
      requires Valid()
      modifies pool
      ensures Valid()
      ensures pool[..] == FrameMotion(old(pool[..]), general, rain, fire, Gravity, dt)
    {
      ghost var p0 := pool[..];
      Disjoint(free, general, rain, fire, multiset{}, pool.Length);
      AdvanceLists(dt);
      FrameKeepsSettled(p0, general, rain, fire, Gravity, dt);
    }

    /** The three loops of UpdateParticles in order: general, rain, fire. */
    method AdvanceLists(dt: real)
      requires Linked(multiset{})
      modifies pool
      ensures Linked(multiset{})
      ensures pool[..] == FrameMotion(old(pool[..]), general, rain, fire, Gravity, dt)
    {
      ghost var p0 := pool[..];
      AdvanceList(General, dt, general, p0);
      ghost var p1 := Advanced(p0, general, General, Gravity, dt);
      AdvanceList(Rain, dt, rain, p1);
      ghost var p2 := Advanced(p1, rain, Rain, Gravity, dt);
      AdvanceList(Fire, dt, fire, p2);
    }

    /** One of the three loops of UpdateParticles: the walk from the list's head to its
        end gives every node one frame of motion. */
    method AdvanceList(which: ActiveList, dt: real, ghost s: seq<int>, ghost ps: seq<Particle>)
      requires Linked(multiset{}) && ListOf(which) == s && pool[..] == ps
      modifies pool
      ensures Linked(multiset{})
      ensures pool[..] == Advanced(ps, s, which, Gravity, dt)
    {
      PartitionDistinct(free, general, rain, fire, multiset{}, pool.Length);
      AdvanceWalk(which, dt, s, ps);
    }

    /** The walk itself, over the list s from its head with the records ps0 at the start. */
    method AdvanceWalk(which: ActiveList, dt: real, ghost s: seq<int>, ghost ps0: seq<Particle>)
      requires Linked(multiset{}) && ListOf(which) == s && Distinct(s) && pool[..] == ps0
      modifies pool
      ensures Linked(multiset{})
      ensures pool[..] == Advanced(ps0, s, which, Gravity, dt)
    {
      var cur := HeadOf(which);
      ghost var k := 0;
      while cur != Null
        invariant Linked(multiset{})
        invariant 0 <= k <= |s| && cur == (if k < |s| then s[k] else Null)
        invariant pool[..] == Advanced(ps0, s[..k], which, Gravity, dt)
        decreases |s| - k
      {
        ghost var k0 := k;
        k := k + 1;
        cur := AdvanceSuccessor(which, cur, dt, s, ps0, k0, k);
      }
      assert k == |s| && s[..k] == s;
    }

    /** One step of that walk: the node s[k] advances and the walk moves to its successor. */
    method AdvanceSuccessor(which: ActiveList, cur: int, dt: real, ghost s: seq<int>, ghost ps0: seq<Particle>,
                            ghost k: int, ghost j: int) returns (next: int)
      requires Linked(multiset{}) && ListOf(which) == s && Distinct(s)
      requires 0 <= k < |s| && cur == s[k] && j == k + 1
      requires pool[..] == Advanced(ps0, s[..k], which, Gravity, dt)
      modifies pool
      ensures Linked(multiset{})
      ensures next == Succ(s, k)
      ensures pool[..] == Advanced(ps0, s[..j], which, Gravity, dt)
    {
      assert cur !in s[..k] by {
        assert forall i :: 0 <= i < k ==> s[..k][i] == s[i] != s[k];
      }
      AdvancedAt(ps0, s[..k], which, Gravity, dt, cur);
      AdvanceNode(which, cur, dt);
      next := pool[cur].next;
      AdvancedSnoc(ps0, s, which, Gravity, dt, k, j);
    }

    /** The body of a loop of UpdateParticles for one node, field by field as the frame
        changes it: a general particle as AdvanceGeneral says; a rain drop falls and moves; a
        fire particle moves and ages. */
    method AdvanceNode(which: ActiveList, node: int, dt: real)
      requires Linked(multiset{}) && 0 <= node < pool.Length
      modifies pool
      ensures Linked(multiset{})
      ensures pool[..] == old(pool[..])[node := Step(which, old(pool[node]), Gravity, dt)]
    {
      match which
      case General => AdvanceGeneral(node, dt);
      case Rain =>
        Rewrite(node, pool[node].(vy := pool[node].vy + Gravity * dt));
        MoveParticles(dt, node);
      case Fire =>
        MoveParticles(dt, node);
        Rewrite(node, pool[node].(life := pool[node].life - dt));
    }

    /** The general loop's body for one node: it falls while above the ground, moves, ages
        and bounces if it went below. */
    method AdvanceGeneral(node: int, dt: real)
      requires Linked(multiset{}) && 0 <= node < pool.Length
      modifies pool
      ensures Linked(multiset{})
      ensures pool[..] == old(pool[..])[node := GeneralStep(old(pool[node]), Gravity, dt)]
    {
      if pool[node].y > 0.0 {
        Rewrite(node, pool[node].(vy := pool[node].vy + Gravity * dt));
      }
      MoveParticles(dt, node);
      Rewrite(node, pool[node].(life := pool[node].life - dt));
      if pool[node].y < 0.0 {
        var p := pool[node];
        Rewrite(node, p.(y := BounceHeight, vy := p.vy * BounceY, vx := p.vx * BounceXZ, vz := p.vz * BounceXZ));
      }
    }

    /** MoveParticles: the node's position advances by its velocity over the frame; a null
        node is left alone. */
    method MoveParticles(dt: real, node: int)
      requires Linked(multiset{}) && (node == Null || 0 <= node < pool.Length)
      modifies pool
      ensures Linked(multiset{})
      ensures node == Null ==> pool[..] == old(pool[..])
      ensures node != Null ==> pool[..] == old(pool[..])[node := Moved(old(pool[node]), dt)]
    {
      if node != Null {
        Rewrite(node, Moved(pool[node], dt));
      }
    }

    /** Storing a record whose link is the slot's own: the lists stay as they were. */
    method Rewrite(node: int, v: Particle)
      requires Linked(multiset{}) && 0 <= node < pool.Length && v.next == pool[node].next
      modifies pool
      ensures Linked(multiset{})
      ensures pool[..] == old(pool[..])[node := v]
    {
      ThreadedFrame(pool[..], free, freeHead, general, generalHead, rain, rainHead, fire, fireHead, multiset{}, node, v);
      pool[node] := v;
    }

    /** KillParticles: the general pass, the rain pass and the fire pass, in that order.
        The invariant between frames holds again afterwards; the rain list keeps its
        drops, the fire list keeps exactly its unexpired particles, and the general list
        keeps its unexpired particles, next to the splash rings the rain pass adds. Each
        drop that was below the ground is back at the spawn height, and each surviving
        fire particle below SmokeLifeTime has turned to smoke (KilledAs). */
    method KillParticles(circle: seq<(real, real)>)
      requires Valid() && RingSize <= |circle|
      modifies this`freeHead, this`free, this`generalHead, this`rainHead, this`fireHead,
               this`general, this`rain, this`fire, this`fireInstanceCount, pool
      ensures Valid()
      ensures InPool(old(general), old(pool[..])) && InPool(old(fire), old(pool[..]))
      ensures rain == old(rain)
      ensures fire == Alive(old(fire), old(pool[..]))
      ensures multiset(Alive(old(general), old(pool[..]))) <= multiset(general)
      ensures KilledAs(pool[..], old(pool[..]), rain, fire)
    {
      ghost var p0, fi0 := pool[..], fire;
      GeneralPhase();
      ghost var p1, f1, g1 := pool[..], free, general;
      PartitionDistinct(free, general, rain, fire, multiset{}, pool.Length);
      Disjoint(free, general, rain, fire, multiset{}, pool.Length);
      RainPhase(circle);
      ghost var p2, f2, g2 := pool[..], free, general;
      FireLivesKept(p0, p1, p2, rain, fi0, f1, g1, circle, g2, f2);
      FirePhase();
      KilledRecords(p0, p1, p2, pool[..], rain, fi0, fire, f1, g1, circle, g2, f2);
    }

    /** The general pass of KillParticles run from the invariant between frames: the
        invariant holds after it, the casualties are pushed on the free list as KillGeneral
        says, and the rain and fire lists and every record apart from its link are as
        they were. */
    method GeneralPhase()
      requires Valid()
      modifies this`freeHead, this`free, this`generalHead, this`general, pool
      ensures Valid()
      ensures InPool(old(general), old(pool[..]))
      ensures general == Alive(old(general), old(pool[..]))
      ensures free == PushAll(old(free), Casualties(old(general), old(pool[..])))
      ensures rain == old(rain) && fire == old(fire)
      ensures SamePayloads(pool[..], old(pool[..]))
    {
      ghost var p0 := pool[..];
      KillGeneral();
      SettledSamePayloads(rain, p0, pool[..]);
      SettledSamePayloads(fire, p0, pool[..]);
    }

    /** The rain pass of KillParticles run from the invariant between frames: the
        invariant holds after it, the drops and the splash rings are as KillRain says
        (RainPass), the rain and fire lists keep their slots, the general list only gains
        slots, and the fire particles keep their lifetimes. */
    method RainPhase(circle: seq<(real, real)>)
      requires Valid() && RingSize <= |circle|
      modifies this`freeHead, this`free, this`generalHead, this`rainHead, this`fireHead,
               this`general, this`rain, this`fire, pool
      ensures Valid()
      ensures rain == old(rain) && fire == old(fire)
      ensures RainPass(old(rain), old(pool[..]), old(free), old(general), circle, |old(rain)|, general, free, pool[..])
      ensures multiset(old(general)) <= multiset(general)
      ensures forall k :: 0 <= k < |fire| ==> pool[fire[k]].life == old(pool[fire[k]].life)
    {
      ghost var p1, g1, f1 := pool[..], general, free;
      PartitionDistinct(free, general, rain, fire, multiset{}, pool.Length);
      Disjoint(free, general, rain, fire, multiset{}, pool.Length);
      KillRain(circle);
      ghost var p2 := pool[..];
      RainPassKeepsSettled(rain, p1, f1, g1, circle, |rain|, general, free, p2, rain);
      RainPassKeepsSettled(rain, p1, f1, g1, circle, |rain|, general, free, p2, fire);
      RainPassKeepsLife(rain, p1, f1, g1, circle, |rain|, general, free, p2);
      RainPassGrowsGeneral(rain, p1, f1, g1, circle, |rain|, general, free, p2);
    }

    /** The fire pass of KillParticles run from the invariant between frames: the
        invariant holds after it (the survivors stay in Z order and the counter counts
        them), and the fire list, the free list, the counter and the records are as
        KillFire says. */
    method FirePhase()
      requires Valid()
      modifies this`freeHead, this`free, this`fireHead, this`fire, this`fireInstanceCount, pool
      ensures Valid()
      ensures InPool(old(fire), old(pool[..]))
      ensures fire == Alive(old(fire), old(pool[..]))
      ensures free == ReturnAll(old(free), Casualties(old(fire), old(pool[..])))
      ensures fireInstanceCount == old(fireInstanceCount) - |Casualties(old(fire), old(pool[..]))|
      ensures FirePassed(pool[..], old(fire), old(pool[..]), SmokeLifeTime)
      ensures general == old(general) && rain == old(rain)
    {
      ghost var p2, fi2, c2 := pool[..], fire, fireInstanceCount;
      KillFire();
      SurvivorsAndCasualties(fi2, p2);
      FirePassKeepsDepth(fi2, p2, SmokeLifeTime, pool[..]);
      SurvivorsSettled(fi2, p2, pool[..]);
      SettledKept(rain, p2, pool[..]);
    }

    /** The general pass of KillParticles: the expired particles leave the general list,
        the nodes after the head first, in list order, then the head; each is pushed onto
        the front of the free list. Only links change. */
    method KillGeneral()
      requires Linked(multiset{})
      modifies this`freeHead, this`free, this`generalHead, this`general, pool
      ensures Linked(multiset{})
      ensures InPool(old(general), old(pool[..]))
      ensures general == Alive(old(general), old(pool[..]))
      ensures free == PushAll(old(free), Casualties(old(general), old(pool[..])))
      ensures forall j :: 0 <= j < pool.Length ==> Payload(pool[j]) == Payload(old(pool[j]))
    {
      if generalHead == Null {
        return;
      }
      ghost var s, ps, f0 := general, pool[..], free;
      ghost var kept := KillGeneralWalk();
      ghost var t := s[1..];
      PushPassFinal(s, ps, f0, kept, general, free, t);
      KillGeneralHead(s, ps, f0, t);
    }

    /** The end of the general pass: the head, checked last, is pushed onto the free list if
        it has expired. */
    method KillGeneralHead(ghost s: seq<int>, ghost ps: seq<Particle>, ghost f0: seq<int>, ghost t: seq<int>)
      requires Linked(multiset{})
      requires s != [] && InPool(s, ps) && t == s[1..] && InPool(t, ps) && pool.Length == |ps|
      requires general == [s[0]] + Alive(t, ps) && free == PushAll(f0, Dead(t, ps))
      requires forall j :: 0 <= j < pool.Length ==> Payload(pool[j]) == Payload(ps[j])
      modifies this`freeHead, this`free, this`generalHead, this`general, pool
      ensures Linked(multiset{})
      ensures general == Alive(s, ps)
      ensures free == PushAll(f0, Casualties(s, ps))
      ensures forall j :: 0 <= j < pool.Length ==> Payload(pool[j]) == Payload(ps[j])
    {
      PushPassEnd(s, ps, f0, general, free, t);
      assert generalHead == s[0];
      assert pool[s[0]].life == ps[s[0]].life by {
        assert Payload(pool[s[0]]) == Payload(ps[s[0]]);
      }
      if pool[generalHead].life < 0.0 {
        PushHeadToFree();
      }
    }

    /** The walk of the general pass over the nodes after the head: an expired successor is
        unlinked and pushed onto the free list, and the walk then looks at the new successor
        of the same node; a surviving one becomes the node the walk stands on. */
    method KillGeneralWalk() returns (ghost kept: seq<int>)
      requires Linked(multiset{}) && general != []
      modifies this`freeHead, this`free, this`generalHead, this`general, pool
      ensures Linked(multiset{})
      ensures PushPass(old(general), old(pool[..]), old(free), |old(general)|, kept, general, free)
      ensures forall j :: 0 <= j < pool.Length ==> Payload(pool[j]) == Payload(old(pool[j]))
    {
      ghost var s, ps, f0 := general, pool[..], free;
      ghost var i := 1;
      kept := [s[0]];
      PushPassStart(s, ps, f0);
      var cur := generalHead;
      while pool[cur].next != Null
        invariant Linked(multiset{})
        invariant PushPass(s, ps, f0, i, kept, general, free)
        invariant cur == kept[|kept| - 1]
        invariant forall j :: 0 <= j < pool.Length ==> Payload(pool[j]) == Payload(ps[j])
        decreases |s| - i
      {
        PushPassNext(s, ps, f0, i, kept, general, free, pool[..], generalHead);
        ghost var x := s[i];
        assert pool[x].life == ps[x].life by {
          assert Payload(pool[x]) == Payload(ps[x]);
        }
        ghost var i0, k0, g, f := i, kept, general, free;
        if pool[pool[cur].next].life < 0.0 {
          NextUnchecked(s, i, kept, general);
          PushSuccessorToFree(cur, kept, x, s[i + 1..]);
          i := i + 1;
          PushPassDrop(s, ps, f0, i0, k0, g, f, i, general, free);
          continue;
        }
        cur := pool[cur].next;
        kept, i := kept + [x], i + 1;
        PushPassKeep(s, ps, f0, i0, k0, g, f, i, kept);
      }
      PushPassNext(s, ps, f0, i, kept, general, free, pool[..], generalHead);
    }

    /** The rain pass of KillParticles: each drop below the ground sets off a ring of
        RingSize splash particles in the general list, at its X-Z position on the ground,
        and is put back at the spawn height with the spawn fall speed; the walk then looks
        at the same drop again, now above the ground, and moves on. The rain and fire
        lists keep their slots. */
    method KillRain(circle: seq<(real, real)>)
      requires Linked(multiset{}) && RingSize <= |circle|
      modifies this`freeHead, this`free, this`generalHead, this`rainHead, this`fireHead,
               this`general, this`rain, this`fire, pool
      ensures Linked(multiset{})
      ensures rain == old(rain) && fire == old(fire)
      ensures RainPass(old(rain), old(pool[..]), old(free), old(general), circle, |old(rain)|, general, free, pool[..])
    {
      ghost var s, ps0, f0, g0 := rain, pool[..], free, general;
      PartitionDistinct(free, general, rain, fire, multiset{}, pool.Length);
      Disjoint(free, general, rain, fire, multiset{}, pool.Length);
      RainPassStart(s, ps0, f0, g0, circle);
      KillRainWalk(circle, s, ps0, f0, g0);
    }

    /** The loop of the rain pass, from the rain head to the end of the rain list. */
    method KillRainWalk(circle: seq<(real, real)>, ghost s: seq<int>, ghost ps0: seq<Particle>,
                        ghost f0: seq<int>, ghost g0: seq<int>)
      requires Linked(multiset{}) && RingSize <= |circle|
      requires rain == s && Distinct(s) && Distinct(f0) && (forall j :: j in s ==> j !in f0)
      requires RainPass(s, ps0, f0, g0, circle, 0, general, free, pool[..])
      modifies this`freeHead, this`free, this`generalHead, this`rainHead, this`fireHead,
               this`general, this`rain, this`fire, pool
      ensures Linked(multiset{})
      ensures rain == s && fire == old(fire)
      ensures RainPass(s, ps0, f0, g0, circle, |s|, general, free, pool[..])
    {
      var cur := rainHead;
      ghost var k, e := 0, 0;
      while cur != Null
        invariant Linked(multiset{})
        invariant rain == s && fire == old(fire)
        invariant 0 <= k <= |s| && (e == k || e == k + 1)
        invariant cur == (if k < |s| then s[k] else Null)
        invariant RainPass(s, ps0, f0, g0, circle, e, general, free, pool[..])
        invariant e == k + 1 ==> k < |s| && pool[s[k]].y >= 0.0
        decreases 2 * |s| - e - k
      {
        cur, k, e := RainWalkStep(cur, circle, s, ps0, f0, g0, k, e);
      }
    }

    /** One round of the rain pass's loop on the drop s[k]: below the ground it splashes and
        is reset, and the loop looks at it again (the source's `continue`); otherwise the walk
        moves on to its successor. The drops dealt with so far are the first e. */
    method RainWalkStep(cur: int, circle: seq<(real, real)>, ghost s: seq<int>, ghost ps0: seq<Particle>,
                        ghost f0: seq<int>, ghost g0: seq<int>, ghost k: int, ghost e: int)
      returns (next: int, ghost k2: int, ghost e2: int)
      requires Linked(multiset{}) && RingSize <= |circle|
      requires rain == s && Distinct(s) && Distinct(f0) && (forall j :: j in s ==> j !in f0)
      requires 0 <= k < |s| && (e == k || e == k + 1) && cur == s[k]
      requires RainPass(s, ps0, f0, g0, circle, e, general, free, pool[..])
      requires e == k + 1 ==> pool[s[k]].y >= 0.0
      modifies this`freeHead, this`free, this`generalHead, this`rainHead, this`fireHead,
               this`general, this`rain, this`fire, pool
      ensures Linked(multiset{}) && rain == s && fire == old(fire)
      ensures 0 <= k2 <= |s| && (e2 == k2 || e2 == k2 + 1) && next == (if k2 < |s| then s[k2] else Null)
      ensures RainPass(s, ps0, f0, g0, circle, e2, general, free, pool[..])
      ensures e2 == k2 + 1 ==> k2 < |s| && pool[s[k2]].y >= 0.0
      ensures e2 + k2 > e + k
    {
      if pool[cur].y < 0.0 {
        SplashDrop(cur, s, ps0, f0, g0, circle, e);
        next, k2, e2 := cur, k, e + 1;
        return;
      }
      e2 := e;
      if e == k {
        RainPassAt(s, ps0, f0, g0, circle, e, general, free, pool[..], k);
        RainPassSkip(s, ps0, f0, g0, circle, e, general, free, pool[..]);
        e2 := e + 1;
      }
      assert pool[cur].next == Succ(s, k);
      next := pool[cur].next;
      k2 := k + 1;
    }

    /** One drop of the rain pass that is below the ground: its ring of splash particles,
        then its reset. */
    method SplashDrop(cur: int, ghost s: seq<int>, ghost ps0: seq<Particle>, ghost f0: seq<int>, ghost g0: seq<int>,
                      circle: seq<(real, real)>, ghost e: int)
      requires Linked(multiset{}) && rain == s && 0 <= e < |s| && cur == s[e] && pool[cur].y < 0.0
      requires RainPass(s, ps0, f0, g0, circle, e, general, free, pool[..])
      requires Distinct(s) && Distinct(f0) && (forall j :: j in s ==> j !in f0)
      modifies this`freeHead, this`free, this`generalHead, this`rainHead, this`fireHead,
               this`general, this`rain, this`fire, pool
      ensures Linked(multiset{})
      ensures rain == old(rain) && fire == old(fire)
      ensures RainPass(s, ps0, f0, g0, circle, e + 1, general, free, pool[..])
      ensures pool[cur].y == RainSpawnInHeight
    {
      RainPassAt(s, ps0, f0, g0, circle, e, general, free, pool[..], e);
      ghost var g, f, qs := general, free, pool[..];
      MakeRingEffect(pool[cur].x, 0.0, pool[cur].z, RingSize, circle);
      RainPassRing(s, ps0, f0, g0, circle, e, g, f, qs, Spawned(RingSize, |f|), general, free, pool[..]);
      qs := pool[..];
      ResetDrop(cur);
      RainPassReset(s, ps0, f0, g0, circle, e, general, free, qs, pool[..]);
    }

    /** A drop that reached the ground goes back to the spawn height with the spawn fall
        speed; nothing else changes. */
    method ResetDrop(j: int)
      requires Linked(multiset{}) && 0 <= j < pool.Length
      modifies pool
      ensures Linked(multiset{})
      ensures pool[..] == old(pool[..])[j := old(pool[j]).(y := RainSpawnInHeight, vy := RainSpawnYVelocity)]
    {
      ThreadedFrame(pool[..], free, freeHead, general, generalHead, rain, rainHead, fire, fireHead, multiset{},
                    j, pool[j].(y := RainSpawnInHeight, vy := RainSpawnYVelocity));
      pool[j] := pool[j].(y := RainSpawnInHeight, vy := RainSpawnYVelocity);
    }

    /** The fire pass of KillParticles: the expired particles leave the fire list, the nodes
        after the head first, in list order, then the head; each is returned right behind
        the free-list head and the fire counter drops by one for each. A survivor whose
        lifetime is below SmokeLifeTime turns to smoke; no other record changes but for links. */
    method KillFire()
      requires Linked(multiset{})
      modifies this`freeHead, this`free, this`fireHead, this`fire, this`fireInstanceCount, pool
      ensures Linked(multiset{})
      ensures InPool(old(fire), old(pool[..]))
      ensures fire == Alive(old(fire), old(pool[..]))
      ensures free == ReturnAll(old(free), Casualties(old(fire), old(pool[..])))
      ensures fireInstanceCount == old(fireInstanceCount) - |Casualties(old(fire), old(pool[..]))|
      ensures FirePassed(pool[..], old(fire), old(pool[..]), SmokeLifeTime)
    {
      if fireHead == Null {
        return;
      }
      ghost var s, ps, f0, c0 := fire, pool[..], free, fireInstanceCount;
      PartitionDistinct(free, general, rain, fire, multiset{}, pool.Length);
      ghost var kept := KillFireWalk();
      KillFireHead(s, ps, f0, c0, kept);
    }

    /** The end of the fire pass: the head, checked last, is returned to the free list if
        it has expired, and may turn to smoke otherwise. */
    method KillFireHead(ghost s: seq<int>, ghost ps: seq<Particle>, ghost f0: seq<int>, ghost c0: int, ghost kept: seq<int>)
      requires Linked(multiset{})
      requires ReturnPass(s, ps, f0, c0, SmokeLifeTime, |s|, kept, fire, free, fireInstanceCount, pool[..])
      modifies this`freeHead, this`free, this`fireHead, this`fire, this`fireInstanceCount, pool
      ensures Linked(multiset{})
      ensures fire == Alive(s, ps)
      ensures free == ReturnAll(f0, Casualties(s, ps))
      ensures fireInstanceCount == c0 - |Casualties(s, ps)|
      ensures InPool(s, ps) && FirePassed(pool[..], s, ps, SmokeLifeTime)
    {
      ghost var t := s[1..];
      ReturnPassNext(s, ps, f0, c0, SmokeLifeTime, |s|, kept, fire, free, fireInstanceCount, pool[..], fireHead);
      ReturnPassFinal(s, ps, f0, c0, SmokeLifeTime, kept, fire, free, fireInstanceCount, pool[..], t);
      if pool[fireHead].life < 0.0 {
        FireDropHead(s, ps, f0, c0, t);
      } else {
        FireKeepHead(s, ps, f0, c0, t);
      }
    }

    /** The fire pass's expired head goes back to the free list. */
    method FireDropHead(ghost s: seq<int>, ghost ps: seq<Particle>, ghost f0: seq<int>, ghost c0: int, ghost t: seq<int>)
      requires Linked(multiset{})
      requires s != [] && InPool(s, ps) && t == s[1..] && InPool(t, ps) && pool.Length == |ps| && Expired(ps[s[0]])
      requires fire == [s[0]] + Alive(t, ps) && free == ReturnAll(f0, Dead(t, ps))
      requires fireInstanceCount == c0 - |Dead(t, ps)|
      requires FirePassed(pool[..], t, ps, SmokeLifeTime)
      modifies this`freeHead, this`free, this`fireHead, this`fire, this`fireInstanceCount, pool
      ensures Linked(multiset{})
      ensures fire == Alive(s, ps)
      ensures free == ReturnAll(f0, Casualties(s, ps))
      ensures fireInstanceCount == c0 - |Casualties(s, ps)|
      ensures FirePassed(pool[..], s, ps, SmokeLifeTime)
    {
      ReturnPassEndDrop(s, ps, f0, c0, SmokeLifeTime, fire, free, fireInstanceCount, pool[..], t);
      ReturnHeadToFree();
    }

    /** The fire pass's surviving head may turn to smoke. */
    method FireKeepHead(ghost s: seq<int>, ghost ps: seq<Particle>, ghost f0: seq<int>, ghost c0: int, ghost t: seq<int>)
      requires Linked(multiset{})
      requires s != [] && InPool(s, ps) && Distinct(s) && t == s[1..] && InPool(t, ps) && pool.Length == |ps|
      requires !Expired(ps[s[0]])
      requires fire == [s[0]] + Alive(t, ps) && free == ReturnAll(f0, Dead(t, ps))
      requires fireInstanceCount == c0 - |Dead(t, ps)|
      requires FirePassed(pool[..], t, ps, SmokeLifeTime)
      modifies pool
      ensures Linked(multiset{})
      ensures fire == Alive(s, ps)
      ensures free == ReturnAll(f0, Casualties(s, ps))
      ensures fireInstanceCount == c0 - |Casualties(s, ps)|
      ensures FirePassed(pool[..], s, ps, SmokeLifeTime)
    {
      ghost var qs := pool[..];
      TurnToSmoke(fireHead);
      ReturnPassEndKeep(s, ps, f0, c0, SmokeLifeTime, fire, free, fireInstanceCount, qs, t, pool[..]);
    }

    /** The walk of the fire pass over the nodes after the head: an expired successor is
        unlinked and returned to the free list, and the walk then looks at the new successor
        of the same node; a surviving one may turn to smoke and becomes the node the walk
        stands on. */
    method KillFireWalk() returns (ghost kept: seq<int>)
      requires Linked(multiset{}) && fire != [] && Distinct(fire)
      modifies this`freeHead, this`free, this`fireHead, this`fire, this`fireInstanceCount, pool
      ensures Linked(multiset{})
      ensures ReturnPass(old(fire), old(pool[..]), old(free), old(fireInstanceCount), SmokeLifeTime,
                         |old(fire)|, kept, fire, free, fireInstanceCount, pool[..])
    {
      ghost var s, ps, f0, c0 := fire, pool[..], free, fireInstanceCount;
      ghost var i := 1;
      kept := [s[0]];
      ReturnPassStart(s, ps, f0, c0, SmokeLifeTime);
      var cur := fireHead;
      while pool[cur].next != Null
        invariant Linked(multiset{})
        invariant ReturnPass(s, ps, f0, c0, SmokeLifeTime, i, kept, fire, free, fireInstanceCount, pool[..])
        invariant cur == kept[|kept| - 1]
        decreases |s| - i
      {
        ghost var i0 := i;
        i := i + 1;
        cur, kept := FireWalkStep(cur, s, ps, f0, c0, i0, kept, i);
      }
      ReturnPassNext(s, ps, f0, c0, SmokeLifeTime, i, kept, fire, free, fireInstanceCount, pool[..], fireHead);
    }

    /** One step of the fire pass's walk from `cur`, which has a successor s[i]: an expired
        one is returned to the free list and the walk stays; a surviving one may turn to
        smoke and the walk moves on to it. */
    method FireWalkStep(cur: int, ghost s: seq<int>, ghost ps: seq<Particle>, ghost f0: seq<int>, ghost c0: int,
                        ghost i: int, ghost kept: seq<int>, ghost j: int) returns (cur2: int, ghost kept2: seq<int>)
      requires Linked(multiset{})
      requires ReturnPass(s, ps, f0, c0, SmokeLifeTime, i, kept, fire, free, fireInstanceCount, pool[..])
      requires cur == kept[|kept| - 1] && pool[cur].next != Null && j == i + 1
      modifies this`freeHead, this`free, this`fireHead, this`fire, this`fireInstanceCount, pool
      ensures Linked(multiset{}) && j <= |s|
      ensures ReturnPass(s, ps, f0, c0, SmokeLifeTime, j, kept2, fire, free, fireInstanceCount, pool[..])
      ensures cur2 == kept2[|kept2| - 1]
    {
      ReturnPassNext(s, ps, f0, c0, SmokeLifeTime, i, kept, fire, free, fireInstanceCount, pool[..], fireHead);
      if pool[pool[cur].next].life < 0.0 {
        FireDropSuccessor(cur, s, ps, f0, c0, i, kept, j);
        cur2, kept2 := cur, kept;
        return;
      }
      kept2 := kept + [s[i]];
      cur2 := FireKeepSuccessor(cur, s, ps, f0, c0, i, kept, j, kept2);
    }

    /** The fire pass's step on an expired successor x = s[i] of `cur`: x goes back to the
        free list and the walk stays on `cur`. */
    method FireDropSuccessor(cur: int, ghost s: seq<int>, ghost ps: seq<Particle>, ghost f0: seq<int>, ghost c0: int,
                             ghost i: int, ghost kept: seq<int>, ghost j: int)
      requires Linked(multiset{})
      requires ReturnPass(s, ps, f0, c0, SmokeLifeTime, i, kept, fire, free, fireInstanceCount, pool[..])
      requires i < |s| && cur == kept[|kept| - 1] && Expired(ps[s[i]]) && j == i + 1
      modifies this`freeHead, this`free, this`fireHead, this`fire, this`fireInstanceCount, pool
      ensures Linked(multiset{})
      ensures ReturnPass(s, ps, f0, c0, SmokeLifeTime, j, kept, fire, free, fireInstanceCount, pool[..])
    {
      ghost var qs, fi1, f1, c1 := pool[..], fire, free, fireInstanceCount;
      ghost var x := s[i];
      NextUnchecked(s, i, kept, fire);
      ReturnSuccessorToFree(cur, kept, x, s[j..]);
      ReturnPassDrop(s, ps, f0, c0, SmokeLifeTime, i, kept, fi1, f1, c1, qs, j, fire, free, fireInstanceCount, pool[..]);
    }

    /** The fire pass's step on a surviving successor s[i] of `cur`: it may turn to smoke,
        and the walk moves on to it. */
    method FireKeepSuccessor(cur: int, ghost s: seq<int>, ghost ps: seq<Particle>, ghost f0: seq<int>, ghost c0: int,
                             ghost i: int, ghost kept: seq<int>, ghost j: int, ghost kept2: seq<int>) returns (next: int)
      requires Linked(multiset{})
      requires ReturnPass(s, ps, f0, c0, SmokeLifeTime, i, kept, fire, free, fireInstanceCount, pool[..])
      requires i < |s| && 0 <= cur < pool.Length && pool[cur].next == s[i] && !Expired(ps[s[i]])
      requires j == i + 1 && kept2 == kept + [s[i]]
      modifies pool
      ensures Linked(multiset{}) && next == s[i]
      ensures ReturnPass(s, ps, f0, c0, SmokeLifeTime, j, kept2, fire, free, fireInstanceCount, pool[..])
    {
      next := pool[cur].next;
      ghost var qs := pool[..];
      TurnToSmoke(next);
      ReturnPassKeep(s, ps, f0, c0, SmokeLifeTime, i, kept, fire, free, fireInstanceCount, qs, j, kept2, pool[..]);
    }

    /** The smoke transition of the fire pass on one node: below SmokeLifeTime its colour
        becomes SmokeShade; the links, and with them the lists, stay as they are. */
    method TurnToSmoke(j: int)
      requires Linked(multiset{}) && 0 <= j < pool.Length
      modifies pool
      ensures Linked(multiset{})
      ensures pool[..] == old(pool[..])[j := Smoked(old(pool[j]), SmokeLifeTime)]
    {
      if pool[j].life < SmokeLifeTime {
        ThreadedFrame(pool[..], free, freeHead, general, generalHead, rain, rainHead, fire, fireHead, multiset{},
                      j, Smoked(pool[j], SmokeLifeTime));
        pool[j] := pool[j].(red := SmokeShade, green := SmokeShade, blue := SmokeShade);
      }
    }

    /** The general pass's unlink of the expired successor x of `cur` (the last slot of a):
        x goes in front of the free list. */
    method PushSuccessorToFree(cur: int, ghost a: seq<int>, ghost x: int, ghost b: seq<int>)
      requires Linked(multiset{})
      requires a != [] && cur == a[|a| - 1] && general == a + [x] + b
      modifies this`freeHead, this`free, this`generalHead, this`general, pool
      ensures Linked(multiset{})
      ensures general == a + b && free == [x] + old(free) && freeHead == x
      ensures generalHead == old(generalHead)
      ensures forall j :: 0 <= j < pool.Length ==> Payload(pool[j]) == Payload(old(pool[j]))
    {
      ghost var ps := pool[..];
      UnlinkSuccessor(ps, free, freeHead, a, x, b, rain, rainHead, fire, fireHead);
      assert general[|a| - 1] == cur && general[|a|] == x;
      assert ps[cur].next == Succ(general, |a| - 1) == x;
      var t := pool[cur].next;
      pool[cur] := pool[cur].(next := pool[t].next);
      ghost var q1 := pool[..];
      assert q1 == Unlinked(ps, cur, x);
      PushDetached(q1, free, freeHead, a + b, a[0], rain, rainHead, fire, fireHead, x);
      pool[t] := pool[t].(next := freeHead);
      assert pool[..] == Pushed(q1, x, freeHead);
      freeHead, free, general := t, [t] + free, a + b;
    }

    /** The general pass's removal of an expired head: it goes in front of the free list. */
    method PushHeadToFree()
      requires Linked(multiset{}) && general != []
      modifies this`freeHead, this`free, this`generalHead, this`general, pool
      ensures Linked(multiset{})
      ensures general == old(general)[1..] && free == [old(general)[0]] + old(free)
      ensures forall j :: 0 <= j < pool.Length ==> Payload(pool[j]) == Payload(old(pool[j]))
    {
      ghost var ps := pool[..];
      ghost var x, t := general[0], general[1..];
      assert general == [x] + t;
      UnlinkHead(ps, free, freeHead, x, t, rain, rainHead, fire, fireHead);
      var node := generalHead;
      generalHead := pool[node].next;
      PushDetached(ps, free, freeHead, t, generalHead, rain, rainHead, fire, fireHead, x);
      pool[node] := pool[node].(next := freeHead);
      assert pool[..] == Pushed(ps, x, freeHead);
      freeHead, free, general := node, [node] + free, t;
    }

    /** The fire pass's unlink of the expired successor x of `cur` (the last slot of a):
        x goes right behind the free-list head, and the fire counter drops by one. */
    method ReturnSuccessorToFree(cur: int, ghost a: seq<int>, ghost x: int, ghost b: seq<int>)
      requires Linked(multiset{})
      requires a != [] && cur == a[|a| - 1] && fire == a + [x] + b
      modifies this`freeHead, this`free, this`fireHead, this`fire, this`fireInstanceCount, pool
      ensures Linked(multiset{})
      ensures fire == a + b && free == ReturnAfterHead(old(free), x)
      ensures fireHead == old(fireHead) && fireInstanceCount == old(fireInstanceCount) - 1
      ensures forall j :: 0 <= j < pool.Length ==> Payload(pool[j]) == Payload(old(pool[j]))
    {
      ghost var ps := pool[..];
      ThreadedReordered(ps, free, freeHead, general, generalHead, rain, rainHead, fire, fireHead, multiset{});
      UnlinkSuccessor(ps, free, freeHead, a, x, b, general, generalHead, rain, rainHead);
      assert fire[|a| - 1] == cur && fire[|a|] == x;
      assert ps[cur].next == Succ(fire, |a| - 1) == x;
      var t := pool[cur].next;
      pool[cur] := pool[cur].(next := pool[t].next);
      fire := a + b;
      ReturnNode(t);
      fireInstanceCount := fireInstanceCount - 1;
    }

    /** The fire pass's removal of an expired head: it goes right behind the free-list head,
        and the fire counter drops by one. */
    method ReturnHeadToFree()
      requires Linked(multiset{}) && fire != []
      modifies this`freeHead, this`free, this`fireHead, this`fire, this`fireInstanceCount, pool
      ensures Linked(multiset{})
      ensures fire == old(fire)[1..] && free == ReturnAfterHead(old(free), old(fire)[0])
      ensures fireInstanceCount == old(fireInstanceCount) - 1
      ensures forall j :: 0 <= j < pool.Length ==> Payload(pool[j]) == Payload(old(pool[j]))
    {
      ghost var ps := pool[..];
      ghost var x, t := fire[0], fire[1..];
      assert fire == [x] + t;
      ThreadedReordered(ps, free, freeHead, general, generalHead, rain, rainHead, fire, fireHead, multiset{});
      UnlinkHead(ps, free, freeHead, x, t, general, generalHead, rain, rainHead);
      var node := fireHead;
      fireHead := pool[node].next;
      fire := t;
      ReturnNode(node);
      fireInstanceCount := fireInstanceCount - 1;
    }

    /** The fire pass's hand-back of the detached `node`: after the free-list head, or as the
        only free node when the free list is empty. */
    method ReturnNode(node: int)
      requires pool.Length == MaxParticles
      requires Threaded(pool[..], free, freeHead, fire, fireHead, general, generalHead, rain, rainHead, multiset{node})
      modifies this`freeHead, this`free, pool
      ensures Linked(multiset{})
      ensures free == ReturnAfterHead(old(free), node)
      ensures forall j :: 0 <= j < pool.Length ==> Payload(pool[j]) == Payload(old(pool[j]))
    {
      ghost var ps := pool[..];
      ReturnDetached(ps, free, freeHead, fire, fireHead, general, generalHead, rain, rainHead, node);
      LinkBehindFreeHead(node);
      free := ReturnAfterHead(free, node);
      ThreadedReordered(pool[..], free, freeHead, general, generalHead, rain, rainHead, fire, fireHead, multiset{});
    }

    /** The two link writes of the fire pass's hand-back. */
    method LinkBehindFreeHead(node: int)
      requires 0 <= node < pool.Length
      requires freeHead == (if free == [] then Null else free[0]) && InPool(free, pool[..])
      modifies this`freeHead, pool
      ensures pool[..] == Returned(old(pool[..]), free, node)
      ensures freeHead == if free == [] then node else old(freeHead)
    {
      if freeHead != Null {
        pool[node] := pool[node].(next := pool[freeHead].next);
        pool[freeHead] := pool[freeHead].(next := node);
      } else {
        pool[node] := pool[node].(next := Null);
        freeHead := node;
      }
    }

    /** The field writes of a spawner to the slot it took off the free list. */
    method Load(node: int, t: Particle)
      requires 0 <= node < pool.Length && Linked(multiset{node})
      modifies pool
      ensures Linked(multiset{node})
      ensures pool[..] == old(pool[..])[node := Loaded(old(pool[node]), t)]
    {
      ThreadedFrame(pool[..], free, freeHead, general, generalHead, rain, rainHead, fire, fireHead, multiset{node},
                    node, Loaded(pool[node], t));
      pool[node] := Loaded(pool[node], t);
    }

    /** The first half of a spawn: the free-list head is taken off and loaded with t. */
    method TakeLoaded(t: Particle) returns (node: int)
      requires Linked(multiset{}) && freeHead != Null
      modifies this`freeHead, this`free, pool
      ensures Linked(multiset{node}) && 0 <= node < pool.Length
      ensures old(free) != [] && node == old(free)[0] && free == old(free)[1..]
      ensures pool[..] == old(pool[..])[node := Loaded(old(pool[node]), t)]
    {
      node := PopFree();
      Load(node, t);
    }

    /** One spawn, the body of the spawners' loops: the free-list head is taken off, loaded
        with the record t and placed into the chosen list at InsertPos. */
    method SpawnOne(t: Particle, which: ActiveList) returns (node: int, ghost p: nat)
      requires Linked(multiset{}) && freeHead != Null
      modifies this`freeHead, this`free, this`generalHead, this`rainHead, this`fireHead,
               this`general, this`rain, this`fire, pool
      ensures Linked(multiset{})
      ensures old(free) != [] && node == old(free)[0] && free == old(free)[1..]
      ensures InPool(old(ListOf(which)), old(pool[..]))
      ensures p == InsertPos(Depths(old(ListOf(which)), old(pool[..])), t.z)
      ensures p <= |old(ListOf(which))| && ListOf(which) == Spliced(old(ListOf(which)), p, node)
      ensures which != General ==> general == old(general)
      ensures which != Rain ==> rain == old(rain)
      ensures which != Fire ==> fire == old(fire)
      ensures SamePayloads(pool[..], old(pool[..])[node := Loaded(old(pool[node]), t)])
      ensures t.vz == 0.0 && Settled(old(ListOf(which)), old(pool[..])) ==>
        InPool(ListOf(which), pool[..]) && Settled(ListOf(which), pool[..])
    {
      ghost var ps, s := pool[..], ListOf(which);
      node := TakeLoaded(t);
      p := PlaceLoaded(node, t, which, s, ps);
    }

    /** The second half of a spawn: the slot node, detached and loaded with t over the
        records ps, goes into the chosen list s at InsertPos. */
    method PlaceLoaded(node: int, t: Particle, which: ActiveList, ghost s: seq<int>, ghost ps: seq<Particle>)
      returns (ghost p: nat)
      requires Linked(multiset{node}) && 0 <= node < pool.Length && |ps| == pool.Length
      requires ListOf(which) == s && pool[..] == ps[node := Loaded(ps[node], t)]
      modifies this`generalHead, this`rainHead, this`fireHead, this`general, this`rain, this`fire, pool
      ensures Linked(multiset{})
      ensures InPool(s, ps)
      ensures p == InsertPos(Depths(s, ps), t.z)
      ensures p <= |s| && ListOf(which) == Spliced(s, p, node)
      ensures which != General ==> general == old(general)
      ensures which != Rain ==> rain == old(rain)
      ensures which != Fire ==> fire == old(fire)
      ensures SamePayloads(pool[..], ps[node := Loaded(ps[node], t)])
      ensures t.vz == 0.0 && Settled(s, ps) ==> InPool(ListOf(which), pool[..]) && Settled(ListOf(which), pool[..])
    {
      ghost var ps1 := pool[..];
      DetachedFrom(node, which);
      PlaceNodeInZSortedList(node, which);
      p := InsertPos(Depths(s, ps1), t.z);
      LoadedPlaced(s, ps, ps1, node, t, p, ListOf(which), pool[..]);
    }

    /** The loop the spawners share: record ts[k] goes into the chosen list for each k in
        turn, and, as in the spawners' early `return`, the loop gives up once the free list is
        empty. The first m free slots take the first m records. */
    method SpawnAll(ts: seq<Particle>, which: ActiveList) returns (m: nat)
      requires Linked(multiset{})
      modifies this`freeHead, this`free, this`generalHead, this`rainHead, this`fireHead,
               this`general, this`rain, this`fire, pool
      ensures Linked(multiset{})
      ensures m == Spawned(|ts|, |old(free)|)
      ensures SpawnPass(old(free), old(ListOf(which)), old(pool[..]), ts, m, ListOf(which), free, pool[..])
      ensures which != General ==> general == old(general)
      ensures which != Rain ==> rain == old(rain)
      ensures which != Fire ==> fire == old(fire)
      ensures (forall k :: 0 <= k < |ts| ==> ts[k].vz == 0.0) &&
              InPool(old(ListOf(which)), old(pool[..])) && Settled(old(ListOf(which)), old(pool[..])) ==>
        InPool(ListOf(which), pool[..]) && Settled(ListOf(which), pool[..])
    {
      ghost var f0, s0, ps0 := free, ListOf(which), pool[..];
      ghost var flat := (forall k :: 0 <= k < |ts| ==> ts[k].vz == 0.0) && InPool(s0, ps0) && Settled(s0, ps0);
      SpawnStart(f0, s0, ps0, ts);
      m := 0;
      while m < |ts|
        invariant Linked(multiset{})
        invariant SpawnPass(f0, s0, ps0, ts, m, ListOf(which), free, pool[..])
        invariant which != General ==> general == old(general)
        invariant which != Rain ==> rain == old(rain)
        invariant which != Fire ==> fire == old(fire)
        invariant flat ==> InPool(ListOf(which), pool[..]) && Settled(ListOf(which), pool[..])
      {
        if freeHead == Null {
          return;
        }
        var i := m;
        m := m + 1;
        SpawnNext(ts, which, f0, s0, ps0, flat, i, m);
      }
    }

    /** One round of that loop: record ts[i] goes into the list, and the loop's invariant
        holds again with j = i + 1 records placed. */
    method SpawnNext(ts: seq<Particle>, which: ActiveList, ghost f0: seq<int>, ghost s0: seq<int>,
                     ghost ps0: seq<Particle>, ghost flat: bool, i: nat, ghost j: int)
      requires Linked(multiset{}) && freeHead != Null && 0 <= i < |ts| && j == i + 1
      requires SpawnPass(f0, s0, ps0, ts, i, ListOf(which), free, pool[..])
      requires flat ==> (forall k :: 0 <= k < |ts| ==> ts[k].vz == 0.0)
      requires flat ==> InPool(ListOf(which), pool[..]) && Settled(ListOf(which), pool[..])
      modifies this`freeHead, this`free, this`generalHead, this`rainHead, this`fireHead,
               this`general, this`rain, this`fire, pool
      ensures Linked(multiset{})
      ensures SpawnPass(f0, s0, ps0, ts, j, ListOf(which), free, pool[..])
      ensures which != General ==> general == old(general)
      ensures which != Rain ==> rain == old(rain)
      ensures which != Fire ==> fire == old(fire)
      ensures flat ==> InPool(ListOf(which), pool[..]) && Settled(ListOf(which), pool[..])
    {
      ghost var s, f, qs := ListOf(which), free, pool[..];
      var node;
      ghost var p;
      node, p := SpawnOne(ts[i], which);
      SpawnStep(f0, s0, ps0, ts, i, s, f, qs, p, j, ListOf(which), free, pool[..]);
    }

    /** Frame, up to the copy into the GPU buffer: the kill passes, this frame's fire
        particles at the fire's spot, one frame of motion and the instance fill, in that
        order. The invariant between frames holds again and the rain list keeps its drops,
        so with the rain block full the fill stays inside the instance array frame after frame. */
    method Frame(dt: real, circle: seq<(real, real)>, draws: seq<FireDraw>)
      requires Valid() && |rain| == RainInstanceCount && RingSize <= |circle|
      requires FireSparkCount(dt) <= |draws| && forall k :: 0 <= k < |draws| ==> FireDrawInRange(draws[k])
      modifies this`freeHead, this`free, this`generalHead, this`rainHead, this`fireHead,
               this`general, this`rain, this`fire, this`fireInstanceCount, this`activeParticles,
               pool, instances
      ensures Valid() && rain == old(rain)
      ensures |rain| <= TotalInstanceCount && RainInstanceCount + |fire| + |general| <= TotalInstanceCount
      ensures instances[..] == Filled(rain, fire, general, RainInstanceCount, TotalInstanceCount, pool[..])
      ensures activeParticles == RainInstanceCount + |fire| + |general|
    {
      KillAndIgnite(dt, circle, draws);
      UpdateParticles(dt);
      UpdateBuffers();
    }

    /** The first half of Frame: the kill passes, then this frame's fire particles. */
    method KillAndIgnite(dt: real, circle: seq<(real, real)>, draws: seq<FireDraw>)
      requires Valid() && RingSize <= |circle|
      requires FireSparkCount(dt) <= |draws| && forall k :: 0 <= k < |draws| ==> FireDrawInRange(draws[k])
      modifies this`freeHead, this`free, this`generalHead, this`rainHead, this`fireHead,
               this`general, this`rain, this`fire, this`fireInstanceCount, pool
      ensures Valid() && rain == old(rain)
    {
      KillParticles(circle);
      MakeFireEffect(FireSpotX, FireSpotY, FireSpotZ, dt, draws);
    }

    /** The instance fill of UpdateBuffers: the array is cleared, then the rain list is
        written from index 0, the fire list from RainInstanceCount and the general list
        right after the fire particles (the fire counter says where); the active count is
        the index after the last general entry. Mapping and copying into the GPU buffer is
        not modelled. */
    method UpdateBuffers()
      requires Valid() && |rain| == RainInstanceCount
      modifies instances, this`activeParticles
      ensures Valid()
      ensures |rain| <= TotalInstanceCount && RainInstanceCount + |fire| + |general| <= TotalInstanceCount
      ensures instances[..] == Filled(rain, fire, general, RainInstanceCount, TotalInstanceCount, pool[..])
      ensures activeParticles == RainInstanceCount + |fire| + |general|
    {
      ghost var ps := pool[..];
      var index := FillInstances();
      activeParticles := index;
      assert pool[..] == ps;
    }

    /** The clearing and the three loops of UpdateBuffers: the index after the last general
        entry comes back. */
    method FillInstances() returns (index: int)
      requires Valid() && |rain| == RainInstanceCount
      modifies instances
      ensures |rain| <= TotalInstanceCount && RainInstanceCount + |fire| + |general| <= TotalInstanceCount
      ensures instances[..] == Filled(rain, fire, general, RainInstanceCount, TotalInstanceCount, pool[..])
      ensures index == RainInstanceCount + |fire| + |general|
    {
      FillFits(free, general, rain, fire);
      ghost var ps := pool[..];
      assert Chain(rain, rainHead, ps) && Chain(fire, fireHead, ps) && Chain(general, generalHead, ps);
      forall j | 0 <= j < instances.Length {
        instances[j] := Zero;
      }
      assert instances[..] == Zeros(TotalInstanceCount);
      index := WriteList(rainHead, rain, ps, 0);
      index := WriteList(fireHead, fire, ps, RainInstanceCount);
      index := WriteList(generalHead, general, ps, RainInstanceCount + fireInstanceCount);
    }

    /** One loop of UpdateBuffers: the instances of the particles of the list s that starts
        at `head`, in list order, from index `start` on; the index after the last one comes
        back. */
    method WriteList(head: int, ghost s: seq<int>, ghost ps: seq<Particle>, start: nat) returns (index: nat)
      requires pool[..] == ps && Chain(s, head, ps) && start + |s| <= instances.Length
      modifies instances
      ensures index == start + |s|
      ensures instances[..] == Overlay(old(instances[..]), start, Instances(s, ps))
    {
      ghost var base := instances[..];
      var cur := head;
      index := start;
      ghost var k := 0;
      while cur != Null
        invariant 0 <= k <= |s| && cur == (if k < |s| then s[k] else Null) && index == start + k
        invariant instances[..] == Overlay(base, start, Instances(s[..k], ps))
        decreases |s| - k
      {
        WriteOne(cur, index, s, ps, base, start, k);
        assert ps[cur].next == Succ(s, k);
        cur := pool[cur].next;
        index := index + 1;
        k := k + 1;
      }
      assert s[..k] == s;
    }

    /** The body of WriteList's loop: the instance of s[k] goes right after those of s[..k]. */
    method WriteOne(cur: int, index: nat, ghost s: seq<int>, ghost ps: seq<Particle>, ghost base: seq<Instance>,
                    start: nat, ghost k: nat)
      requires pool[..] == ps && InPool(s, ps) && k < |s| && cur == s[k] && index == start + k
      requires start + |s| <= |base| == instances.Length
      requires instances[..] == Overlay(base, start, Instances(s[..k], ps))
      modifies instances
      ensures instances[..] == Overlay(base, start, Instances(s[..k + 1], ps))
    {
      WriteStep(base, start, s, ps, k);
      instances[index] := InstanceOf(pool[cur]);
    }

    /** MakeRingEffect: `count` particles start at the target and head outwards in the X-Z
        plane, particle i in the direction circle[i]; they go into the general list, and the
        effect stops early once the free list is empty. */
    method MakeRingEffect(tx: real, ty: real, tz: real, count: int, circle: seq<(real, real)>)
      requires Linked(multiset{}) && count <= |circle|
      modifies this`freeHead, this`free, this`generalHead, this`rainHead, this`fireHead,
               this`general, this`rain, this`fire, pool
      ensures Linked(multiset{})
      ensures SpawnPass(old(free), old(general), old(pool[..]), Ring(tx, ty, tz, count, circle),
                        Spawned(count, |old(free)|), general, free, pool[..])
      ensures rain == old(rain) && fire == old(fire)
    {
      var m := SpawnAll(Ring(tx, ty, tz, count, circle), General);
    }

    /** MakeFireEffect: FireSparkCount(dt) fire particles, drawn from `draws`, go into the
        fire list in Z order, and the fire counter counts each one; the fire list stays
        settled. */
    method MakeFireEffect(tx: real, ty: real, tz: real, dt: real, draws: seq<FireDraw>)
      requires Valid()
      requires FireSparkCount(dt) <= |draws| && forall k :: 0 <= k < |draws| ==> FireDrawInRange(draws[k])
      modifies this`freeHead, this`free, this`generalHead, this`rainHead, this`fireHead,
               this`general, this`rain, this`fire, this`fireInstanceCount, pool
      ensures Valid()
      ensures SpawnPass(old(free), old(fire), old(pool[..]), Sparks(tx, ty, tz, dt, draws),
                        Spawned(FireSparkCount(dt), |old(free)|), fire, free, pool[..])
      ensures general == old(general) && rain == old(rain)
    {
      ghost var f0, ps0 := free, pool[..];
      var ts := Sparks(tx, ty, tz, dt, draws);
      forall k | 0 <= k < |ts|
        ensures ts[k].vz == 0.0
      {
        FireSparkBounds(tx, ty, tz, draws[k]);
      }
      Disjoint(free, general, rain, fire, multiset{}, pool.Length);
      PartitionDistinct(free, general, rain, fire, multiset{}, pool.Length);
      var m := SpawnAll(ts, Fire);
      fireInstanceCount := fireInstanceCount + m;
      SpawnKeepsOther(f0, old(fire), ps0, ts, m, fire, free, pool[..], rain);
    }

    /** InitiateRainEffects: RainInstanceCount rain drops, drawn from `draws`, go into the
        rain list in Z order while free slots last; the rain list stays settled. */
    method InitiateRainEffects(draws: seq<RainDraw>)
      requires Valid()
      requires RainInstanceCount <= |draws| && forall k :: 0 <= k < |draws| ==> RainDrawInRange(draws[k])
      modifies this`freeHead, this`free, this`generalHead, this`rainHead, this`fireHead,
               this`general, this`rain, this`fire, pool
      ensures Valid()
      ensures SpawnPass(old(free), old(rain), old(pool[..]), Drops(draws),
                        Spawned(RainInstanceCount, |old(free)|), rain, free, pool[..])
      ensures |rain| == |old(rain)| + Spawned(RainInstanceCount, |old(free)|)
      ensures general == old(general) && fire == old(fire)
    {
      ghost var f0, ps0 := free, pool[..];
      var ts := Drops(draws);
      forall k | 0 <= k < |ts|
        ensures ts[k].vz == 0.0
      {
        RainDropInBox(draws[k]);
      }
      Disjoint(free, general, rain, fire, multiset{}, pool.Length);
      PartitionDistinct(free, general, rain, fire, multiset{}, pool.Length);
      var m := SpawnAll(ts, Rain);
      SpawnKeepsOther(f0, old(rain), ps0, ts, m, rain, free, pool[..], fire);
      assert |multiset(rain)| == |multiset(old(rain))| + |multiset(f0[..m])|;
    }

    /** The last step of Initialize: from the state the constructor leaves, the whole pool
        free and no rain yet, InitiateRainEffects fills the rain list with RainInstanceCount
        drops, the full rain block that UpdateBuffers relies on. */
    method StartRain(draws: seq<RainDraw>)
      requires Valid() && |free| == MaxParticles && rain == []
      requires RainInstanceCount <= |draws| && forall k :: 0 <= k < |draws| ==> RainDrawInRange(draws[k])
      modifies this`freeHead, this`free, this`generalHead, this`rainHead, this`fireHead,
               this`general, this`rain, this`fire, pool
      ensures Valid() && |rain| == RainInstanceCount
      ensures |free| == MaxParticles - RainInstanceCount
      ensures general == old(general) && fire == old(fire)
    {
      InitiateRainEffects(draws);
    }

  }
}
