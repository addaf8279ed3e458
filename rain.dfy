/** The rain pass of KillParticles: drops below the ground go back to the spawn height,
    and each one first sets off a ring of splash particles in the general list. */
module Splash {
  import opened Particles
  import opened Chains
  import opened Settings
  import opened Spawning
  import opened ZOrder

  /** The number of particles MakeRingEffect is asked for when a drop hits the ground. */
  const RingSize: int := 8

  /** The drops of s that are below the ground when the rain pass reaches them, in list order. */
  ghost function Splashes(s: seq<int>, ps: seq<Particle>): (r: seq<Particle>)
    requires InPool(s, ps)
    ensures |r| <= |s|
    ensures forall k :: 0 <= k < |r| ==> r[k].y < 0.0
  {
    if s == [] then []
    else
      var last := ps[s[|s| - 1]];
      Splashes(s[..|s| - 1], ps) + (if last.y < 0.0 then [last] else [])
  }

  /** The splash records of the drops ds: a ring of RingSize at ground level under each
      drop, in the order the drops are met. */
  function Rings(ds: seq<Particle>, circle: seq<(real, real)>): (r: seq<Particle>)
    requires RingSize <= |circle|
    ensures |r| == RingSize * |ds|
  {
    if ds == [] then []
    else
      var d := ds[|ds| - 1];
      Rings(ds[..|ds| - 1], circle) + Ring(d.x, 0.0, d.z, RingSize, circle)
  }

  /** The records after the drops at the slots s have been reset. */
  ghost function RecycledAll(ps: seq<Particle>, s: seq<int>): (r: seq<Particle>)
    ensures |r| == |ps|
  {
    seq(|ps|, j requires 0 <= j < |ps| => if j in s then Recycled(ps[j], RainSpawnInHeight, RainSpawnYVelocity) else ps[j])
  }

  /** The rain pass part way along the rain list s: the records ps0 with the first `reset`
      drops reset, and the rings of the drops below the ground among the first `rung` loaded
      into the first n slots of the old free list f0, the general list g0 having taken those
      slots; f, g and qs are the free list, the general list and the records now. */
  ghost predicate Progress(s: seq<int>, ps0: seq<Particle>, f0: seq<int>, g0: seq<int>, circle: seq<(real, real)>,
                           rung: int, reset: int, g: seq<int>, f: seq<int>, qs: seq<Particle>)
  {
    && 0 <= rung <= |s| && 0 <= reset <= |s| && RingSize <= |circle|
    && InPool(s, ps0) && InPool(s[..rung], ps0) && InPool(f0, ps0)
    && var rs := Rings(Splashes(s[..rung], ps0), circle);
       var n := Spawned(|rs|, |f0|);
       && InPool(f0[..n], ps0)
       && f == f0[n..]
       && multiset(g) == multiset(g0) + multiset(f0[..n])
       && SamePayloads(qs, Loads(RecycledAll(ps0, s[..reset]), f0[..n], rs))
  }

  /** The rain pass after it has dealt with the first e drops of the rain list s. */
  ghost predicate RainPass(s: seq<int>, ps0: seq<Particle>, f0: seq<int>, g0: seq<int>, circle: seq<(real, real)>,
                           e: int, g: seq<int>, f: seq<int>, qs: seq<Particle>)
  {
    Progress(s, ps0, f0, g0, circle, e, e, g, f, qs)
  }

  /** Before the pass nothing has changed. */
  lemma RainPassStart(s: seq<int>, ps0: seq<Particle>, f0: seq<int>, g0: seq<int>, circle: seq<(real, real)>)
    requires RingSize <= |circle| && InPool(s, ps0) && InPool(f0, ps0)
    ensures RainPass(s, ps0, f0, g0, circle, 0, g0, f0, ps0)
  {
    assert s[..0] == [] && f0[..0] == [];
    assert RecycledAll(ps0, []) == ps0;
  }

  /** A drop the pass reaches has its old record but for its link, unless the pass has reset
      it already, when it is above the ground; either way it is where it was in X and Z. */
  lemma RainPassAt(s: seq<int>, ps0: seq<Particle>, f0: seq<int>, g0: seq<int>, circle: seq<(real, real)>,
                   e: int, g: seq<int>, f: seq<int>, qs: seq<Particle>, i: int)
    requires RainPass(s, ps0, f0, g0, circle, e, g, f, qs) && 0 <= i < |s|
    requires Distinct(s) && Distinct(f0) && (forall j :: j in s ==> j !in f0)
    ensures 0 <= s[i] < |qs|
    ensures qs[s[i]].x == ps0[s[i]].x && qs[s[i]].z == ps0[s[i]].z
    ensures qs[s[i]].vz == ps0[s[i]].vz
    ensures i >= e ==> qs[s[i]].y == ps0[s[i]].y
    ensures i < e ==> qs[s[i]].y >= 0.0
  {
    var rs := Rings(Splashes(s[..e], ps0), circle);
    var n := Spawned(|rs|, |f0|);
    var x := s[i];
    assert x in s;
    assert x !in f0[..n] by {
      assert forall j :: j in f0[..n] ==> j in f0;
    }
    assert Distinct(f0[..n]);
    LoadsAt(RecycledAll(ps0, s[..e]), f0[..n], rs);
    assert Payload(qs[x]) == Payload(RecycledAll(ps0, s[..e])[x]);
    if i < e {
      assert s[..e][i] == x;
    } else {
      assert x !in s[..e] by {
        assert forall k :: 0 <= k < e ==> s[..e][k] == s[k] != x;
      }
    }
  }

  /** A drop above the ground is passed over. */
  lemma RainPassSkip(s: seq<int>, ps0: seq<Particle>, f0: seq<int>, g0: seq<int>, circle: seq<(real, real)>,
                     e: int, g: seq<int>, f: seq<int>, qs: seq<Particle>)
    requires RainPass(s, ps0, f0, g0, circle, e, g, f, qs) && e < |s|
    requires !(ps0[s[e]].y < 0.0)
    ensures RainPass(s, ps0, f0, g0, circle, e + 1, g, f, qs)
  {
    var t := s[..e + 1];
    assert t[..e] == s[..e] && t[e] == s[e];
    assert Splashes(t, ps0) == Splashes(s[..e], ps0);
    var r0, r1 := RecycledAll(ps0, s[..e]), RecycledAll(ps0, t);
    forall j | 0 <= j < |ps0|
      ensures r1[j] == r0[j]
    {
      if j in t && j !in s[..e] {
        assert j == s[e];
      }
    }
    assert r1 == r0;
  }

  /** Loading slots other than x commutes with changing the record at x. */
  lemma {:induction false} LoadsOutside(ps: seq<Particle>, xs: seq<int>, ts: seq<Particle>, x: int, v: Particle)
    requires InPool(xs, ps) && |xs| <= |ts| && 0 <= x < |ps| && x !in xs
    ensures Loads(ps[x := v], xs, ts) == Loads(ps, xs, ts)[x := v]
  {
    if xs != [] {
      LoadsOutside(ps, xs[..|xs| - 1], ts, x, v);
      assert xs[|xs| - 1] in xs;
    }
  }

  /** Loads sees of the records it starts from nothing but their payloads. */
  lemma {:induction false} LoadsPayload(ps: seq<Particle>, qs: seq<Particle>, xs: seq<int>, ts: seq<Particle>)
    requires InPool(xs, ps) && |xs| <= |ts| && SamePayloads(qs, ps)
    ensures InPool(xs, qs) && SamePayloads(Loads(qs, xs, ts), Loads(ps, xs, ts))
  {
    if xs != [] {
      LoadsPayload(ps, qs, xs[..|xs| - 1], ts);
    }
  }

  /** One more splash: the rings of the first e drops and of a drop d below the ground
      are the rings so far and one more ring under d. */
  lemma SplashesStep(s: seq<int>, ps0: seq<Particle>, e: int, circle: seq<(real, real)>)
    requires InPool(s, ps0) && 0 <= e < |s| && RingSize <= |circle| && ps0[s[e]].y < 0.0
    ensures InPool(s[..e], ps0) && InPool(s[..e + 1], ps0)
    ensures var d := ps0[s[e]];
      Rings(Splashes(s[..e + 1], ps0), circle) == Rings(Splashes(s[..e], ps0), circle) + Ring(d.x, 0.0, d.z, RingSize, circle)
  {
    var t := s[..e + 1];
    assert t[..e] == s[..e] && t[e] == s[e];
    var ds := Splashes(t, ps0);
    assert ds == Splashes(s[..e], ps0) + [ps0[s[e]]];
    assert ds[..|ds| - 1] == Splashes(s[..e], ps0);
  }

  /** A ring of m records on top of n, taken from the free list f0 while it lasts, is what
      one run over both would take. */
  lemma SpawnedStep(a: nat, f: nat, n: nat, m: nat)
    requires n == Spawned(a, f) && m == Spawned(RingSize, f - n)
    ensures n + m == Spawned(a + RingSize, f)
    ensures n < a ==> m == 0
  {
  }

  /** Cutting the records rs at n changes none of the first n + m records of rs followed by
      more, when rs is cut only if no more are taken. */
  lemma PrefixAgrees(rs: seq<Particle>, more: seq<Particle>, n: nat, m: nat)
    requires n <= |rs| && m <= |more| && (n < |rs| ==> m == 0)
    ensures forall k :: 0 <= k < n + m ==> (rs[..n] + more)[k] == (rs + more)[k]
  {
  }

  /** The rings so far followed by the new ring (all), loaded over the slots so far and then
      the new ring's slots, are the rings up to here loaded over all k slots. */
  lemma RingsLoaded(r: seq<Particle>, f0: seq<int>, rs: seq<Particle>, ring: seq<Particle>, all: seq<Particle>,
                    n: nat, m: nat, k: nat)
    requires InPool(f0, r) && k == n + m && k <= |f0| && n <= |rs| && m <= |ring| && all == rs + ring
    requires n < |rs| ==> m == 0
    ensures InPool(f0[..n], r) && InPool(f0[n..k], r) && InPool(f0[..k], r)
    ensures Loads(Loads(r, f0[..n], rs), f0[n..k], ring) == Loads(r, f0[..k], all)
  {
    assert f0[..n] + f0[n..k] == f0[..k];
    LoadsAppend(r, f0[..n], f0[n..k], rs, ring);
    PrefixAgrees(rs, ring, n, m);
    LoadsPrefix(r, f0[..k], rs[..n] + ring, all);
  }

  /** The slots a ring takes from what is left of the free list f0 are the next slots of f0
      up to k, and the general list has taken them all. */
  lemma FreeTaken(f0: seq<int>, f: seq<int>, f2: seq<int>, g0: seq<int>, g: seq<int>, g2: seq<int>, n: nat, m: nat, k: nat)
    requires k == n + m && k <= |f0| && f == f0[n..] && m <= |f| && f2 == f[m..]
    requires multiset(g) == multiset(g0) + multiset(f0[..n])
    requires multiset(g2) == multiset(g) + multiset(f[..m])
    ensures f[..m] == f0[n..k] && f2 == f0[k..]
    ensures multiset(g2) == multiset(g0) + multiset(f0[..k])
  {
    assert f0[..k] == f0[..n] + f0[n..k];
  }

  /** The records after the ring, compared with the records the pass started from: the
      payloads are those of the rings so far and the new ring loaded over the first k slots. */
  lemma RingPayloads(r: seq<Particle>, f0: seq<int>, f: seq<int>, qs: seq<Particle>, qs2: seq<Particle>,
                     rs: seq<Particle>, ring: seq<Particle>, all: seq<Particle>, n: nat, m: nat, k: nat)
    requires InPool(f0, r) && k == n + m && k <= |f0| && n <= |rs| && m <= |ring| && all == rs + ring
    requires n < |rs| ==> m == 0
    requires f == f0[n..] && m <= |f| && InPool(f0[..n], r)
    requires SamePayloads(qs, Loads(r, f0[..n], rs))
    requires InPool(f[..m], qs) && SamePayloads(qs2, Loads(qs, f[..m], ring))
    ensures InPool(f0[..k], r) && SamePayloads(qs2, Loads(r, f0[..k], all))
  {
    var q := Loads(r, f0[..n], rs);
    assert f[..m] == f0[n..k];
    RingsLoaded(r, f0, rs, ring, all, n, m, k);
    LoadsPayload(q, qs, f[..m], ring);
  }

  /** A drop below the ground sets off a ring of splash particles in the general list:
      the m free slots it takes (SpawnPass, from the free list f, the general list g and the
      records qs to f2, g2 and qs2) are the next slots of the old free list. */
  lemma RainPassRing(s: seq<int>, ps0: seq<Particle>, f0: seq<int>, g0: seq<int>, circle: seq<(real, real)>,
                     e: int, g: seq<int>, f: seq<int>, qs: seq<Particle>,
                     m: nat, g2: seq<int>, f2: seq<int>, qs2: seq<Particle>)
    requires RainPass(s, ps0, f0, g0, circle, e, g, f, qs) && e < |s| && ps0[s[e]].y < 0.0
    requires var d := ps0[s[e]];
      && m == Spawned(RingSize, |f|)
      && SpawnPass(f, g, qs, Ring(d.x, 0.0, d.z, RingSize, circle), m, g2, f2, qs2)
    ensures Progress(s, ps0, f0, g0, circle, e + 1, e, g2, f2, qs2)
  {
    var d := ps0[s[e]];
    var ring := Ring(d.x, 0.0, d.z, RingSize, circle);
    var rs := Rings(Splashes(s[..e], ps0), circle);
    var n := Spawned(|rs|, |f0|);
    var r0 := RecycledAll(ps0, s[..e]);
    var all := Rings(Splashes(s[..e + 1], ps0), circle);
    SplashesStep(s, ps0, e, circle);
    var k := Spawned(|all|, |f0|);
    SpawnedStep(|rs|, |f0|, n, m);
    FreeTaken(f0, f, f2, g0, g, g2, n, m, k);
    RingPayloads(r0, f0, f, qs, qs2, rs, ring, all, n, m, k);
  }

  /** After its ring the drop is reset (qs3). */
  lemma RainPassReset(s: seq<int>, ps0: seq<Particle>, f0: seq<int>, g0: seq<int>, circle: seq<(real, real)>,
                      e: int, g: seq<int>, f: seq<int>, qs: seq<Particle>, qs2: seq<Particle>)
    requires Progress(s, ps0, f0, g0, circle, e + 1, e, g, f, qs) && ps0[s[e]].y < 0.0
    requires Distinct(s) && Distinct(f0) && (forall j :: j in s ==> j !in f0)
    requires 0 <= s[e] < |qs| && qs2 == qs[s[e] := qs[s[e]].(y := RainSpawnInHeight, vy := RainSpawnYVelocity)]
    ensures RainPass(s, ps0, f0, g0, circle, e + 1, g, f, qs2)
  {
    var x := s[e];
    var rs := Rings(Splashes(s[..e + 1], ps0), circle);
    var n := Spawned(|rs|, |f0|);
    var r0 := RecycledAll(ps0, s[..e]);
    assert x in s;
    assert x !in f0[..n] by {
      assert forall j :: j in f0[..n] ==> j in f0;
    }
    assert Distinct(f0[..n]);
    LoadsAt(r0, f0[..n], rs);
    assert x !in s[..e] by {
      assert forall k :: 0 <= k < e ==> s[..e][k] == s[k] != x;
    }
    assert Payload(qs[x]) == Payload(ps0[x]);
    var v := Recycled(ps0[x], RainSpawnInHeight, RainSpawnYVelocity);
    var t := s[..e + 1];
    assert t[..e] == s[..e] && t[e] == x;
    var r1 := RecycledAll(ps0, t);
    forall j | 0 <= j < |ps0|
      ensures r1[j] == r0[x := v][j]
    {
      if j in t && j !in s[..e] {
        assert j == x;
      }
    }
    assert r1 == r0[x := v];
    LoadsOutside(r0, f0[..n], rs, x, v);
  }

  /** The rain pass moves no particle off its spot in depth: outside the free slots it
      fills, every record keeps its Z position and Z velocity, so a list clear of those
      slots that was settled stays settled. */
  lemma RainPassKeepsSettled(s: seq<int>, ps0: seq<Particle>, f0: seq<int>, g0: seq<int>, circle: seq<(real, real)>,
                             e: int, g: seq<int>, f: seq<int>, qs: seq<Particle>, o: seq<int>)
    requires RainPass(s, ps0, f0, g0, circle, e, g, f, qs) && Distinct(f0)
    requires InPool(o, ps0) && Settled(o, ps0)
    requires forall j :: j in o ==> j !in f0
    ensures InPool(o, qs) && Settled(o, qs)
  {
    var rs := Rings(Splashes(s[..e], ps0), circle);
    var n := Spawned(|rs|, |f0|);
    var r0 := RecycledAll(ps0, s[..e]);
    assert forall j :: j in f0[..n] ==> j in f0;
    assert Distinct(f0[..n]);
    LoadsAt(r0, f0[..n], rs);
    forall j | j in o && 0 <= j < |ps0|
      ensures qs[j].z == ps0[j].z && qs[j].vz == ps0[j].vz
    {
      assert Payload(qs[j]) == Payload(r0[j]);
    }
    SettledKept(o, ps0, qs);
  }

  /** Outside the free slots it fills, the rain pass leaves every particle's lifetime alone. */
  lemma RainPassKeepsLife(s: seq<int>, ps0: seq<Particle>, f0: seq<int>, g0: seq<int>, circle: seq<(real, real)>,
                          e: int, g: seq<int>, f: seq<int>, qs: seq<Particle>)
    requires RainPass(s, ps0, f0, g0, circle, e, g, f, qs) && Distinct(f0)
    ensures |qs| == |ps0|
    ensures forall j :: 0 <= j < |ps0| && j !in f0 ==> qs[j].life == ps0[j].life
  {
    var rs := Rings(Splashes(s[..e], ps0), circle);
    var n := Spawned(|rs|, |f0|);
    var r0 := RecycledAll(ps0, s[..e]);
    assert forall j :: j in f0[..n] ==> j in f0;
    assert Distinct(f0[..n]);
    LoadsAt(r0, f0[..n], rs);
    forall j | 0 <= j < |ps0| && j !in f0
      ensures qs[j].life == ps0[j].life
    {
      assert Payload(qs[j]) == Payload(r0[j]);
    }
  }

  /** After the whole rain pass, a slot the splash rings could not have taken holds, but
      for its link, its old record reset as a drop if it is on the rain list, and its old
      record otherwise. */
  lemma RainPassPayload(s: seq<int>, ps0: seq<Particle>, f0: seq<int>, g0: seq<int>, circle: seq<(real, real)>,
                        g: seq<int>, f: seq<int>, qs: seq<Particle>, j: int)
    requires RainPass(s, ps0, f0, g0, circle, |s|, g, f, qs) && Distinct(f0)
    requires 0 <= j < |ps0| && j !in f0
    ensures |qs| == |ps0|
    ensures Payload(qs[j]) == Payload(if j in s then Recycled(ps0[j], RainSpawnInHeight, RainSpawnYVelocity) else ps0[j])
  {
    var rs := Rings(Splashes(s, ps0), circle);
    var n := Spawned(|rs|, |f0|);
    assert s[..|s|] == s;
    var r0 := RecycledAll(ps0, s);
    assert j !in f0[..n] by {
      assert forall i :: i in f0[..n] ==> i in f0;
    }
    assert Distinct(f0[..n]);
    LoadsAt(r0, f0[..n], rs);
    assert Payload(qs[j]) == Payload(r0[j]);
  }

  /** The rain pass only adds to the general list: its splash rings. */
  lemma RainPassGrowsGeneral(s: seq<int>, ps0: seq<Particle>, f0: seq<int>, g0: seq<int>, circle: seq<(real, real)>,
                             e: int, g: seq<int>, f: seq<int>, qs: seq<Particle>)
    requires RainPass(s, ps0, f0, g0, circle, e, g, f, qs)
    ensures multiset(g0) <= multiset(g)
  {
    var rs := Rings(Splashes(s[..e], ps0), circle);
    var n := Spawned(|rs|, |f0|);
    assert multiset(g) == multiset(g0) + multiset(f0[..n]);
  }
}
