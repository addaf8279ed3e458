/** What the three spawners write into the slots they take off the free list: the record each
    one computes from its target and its random draws, and the records after a run of spawns. */
module Spawning {
  import opened Particles
  import opened Chains
  import opened Lifecycle
  import opened ZOrder
  import opened Settings

  /** A spawner sets every field of a slot but its link, which PlaceNodeInZSortedList sets,
      and its alpha, which no spawner touches. */
  function Loaded(p: Particle, t: Particle): Particle
  {
    t.(alpha := p.alpha, next := p.next)
  }

  /** The records ps after slot xs[k] has been loaded with ts[k], for each k in order. */
  ghost function Loads(ps: seq<Particle>, xs: seq<int>, ts: seq<Particle>): (r: seq<Particle>)
    requires InPool(xs, ps) && |xs| <= |ts|
    ensures |r| == |ps|
  {
    if xs == [] then ps
    else
      var k := |xs| - 1;
      var q := Loads(ps, xs[..k], ts);
      q[xs[k] := Loaded(q[xs[k]], ts[k])]
  }

  /** Loading distinct slots: slot xs[k] holds ts[k] (with its own alpha and link), and every
      slot not among xs is as it was. */
  lemma {:induction false} LoadsAt(ps: seq<Particle>, xs: seq<int>, ts: seq<Particle>)
    requires InPool(xs, ps) && |xs| <= |ts| && Distinct(xs)
    ensures forall k :: 0 <= k < |xs| ==> Loads(ps, xs, ts)[xs[k]] == Loaded(ps[xs[k]], ts[k])
    ensures forall j :: 0 <= j < |ps| && j !in xs ==> Loads(ps, xs, ts)[j] == ps[j]
  {
    if xs != [] {
      var n := |xs| - 1;
      var init := xs[..n];
      assert Distinct(init);
      LoadsAt(ps, init, ts);
      forall k | 0 <= k < n
        ensures xs[k] in init && xs[k] != xs[n]
      {
        assert init[k] == xs[k];
      }
      assert forall j :: j in init ==> j in xs;
      assert xs[n] !in init;
    }
  }

  /** Loading the slots xs and then the slots ys is loading xs + ys. */
  lemma {:induction false} LoadsAppend(ps: seq<Particle>, xs: seq<int>, ys: seq<int>, ts: seq<Particle>, us: seq<Particle>)
    requires InPool(xs, ps) && InPool(ys, ps) && |xs| <= |ts| && |ys| <= |us|
    ensures InPool(xs + ys, ps) && |xs + ys| <= |ts[..|xs|] + us|
    ensures Loads(Loads(ps, xs, ts), ys, us) == Loads(ps, xs + ys, ts[..|xs|] + us)
    decreases |ys|
  {
    if ys == [] {
      assert xs + ys == xs;
      LoadsPrefix(ps, xs, ts, ts[..|xs|] + us);
    } else {
      var n := |ys| - 1;
      LoadsAppend(ps, xs, ys[..n], ts, us);
      assert (xs + ys)[..|xs| + n] == xs + ys[..n];
      assert (xs + ys)[|xs| + n] == ys[n];
      assert (ts[..|xs|] + us)[|xs| + n] == us[n];
    }
  }

  /** Only the first |xs| records of ts matter. */
  lemma {:induction false} LoadsPrefix(ps: seq<Particle>, xs: seq<int>, ts: seq<Particle>, us: seq<Particle>)
    requires InPool(xs, ps) && |xs| <= |ts| && |xs| <= |us|
    requires forall k :: 0 <= k < |xs| ==> ts[k] == us[k]
    ensures Loads(ps, xs, ts) == Loads(ps, xs, us)
  {
    if xs != [] {
      LoadsPrefix(ps, xs[..|xs| - 1], ts, us);
    }
  }

  /** A spawn on values: x, on none of the lists, is loaded with t (giving the records ps1)
      and spliced into s at p, giving the list s2 over the records qs. The depths of s do not change, and a record
      that never moves in Z, placed so that the nodes after the head stay ordered, leaves a
      settled list settled. */
  lemma LoadedPlaced(s: seq<int>, ps: seq<Particle>, ps1: seq<Particle>, x: int, t: Particle, p: nat,
                     s2: seq<int>, qs: seq<Particle>)
    requires InPool(s, ps) && 0 <= x < |ps| && x !in s && p <= |s| && s2 == Spliced(s, p, x)
    requires ps1 == ps[x := Loaded(ps[x], t)]
    requires InPool(s2, qs) && SamePayloads(qs, ps1)
    requires SortedFrom(Depths(s, ps1), 1) ==> SortedFrom(Depths(s2, qs), 1)
    ensures Depths(s, ps1) == Depths(s, ps)
    ensures t.vz == 0.0 && Settled(s, ps) ==> Settled(s2, qs)
  {
    DepthsKept(s, ps, ps1);
    if t.vz == 0.0 && Settled(s, ps) {
      SplicedSlots(s, p, x);
      assert qs[x].vz == Payload(qs[x]).vz == t.vz;
      forall j | 0 <= j < |ps| && j != x
        ensures qs[j].vz == ps[j].vz
      {
        assert qs[j].vz == Payload(qs[j]).vz == Payload(ps1[j]).vz;
      }
      SettledPlaced(s, ps, x, s2, qs);
    }
  }

  /** Loading slots that are not on a settled list leaves that list settled. */
  lemma LoadsKeepSettled(s: seq<int>, ps: seq<Particle>, xs: seq<int>, ts: seq<Particle>, qs: seq<Particle>)
    requires InPool(xs, ps) && |xs| <= |ts| && Distinct(xs)
    requires InPool(s, ps) && Settled(s, ps)
    requires forall j :: j in s ==> j !in xs
    requires SamePayloads(qs, Loads(ps, xs, ts))
    ensures InPool(s, qs) && Settled(s, qs)
  {
    LoadsAt(ps, xs, ts);
    SettledKept(s, ps, qs);
  }

  /** How many records a run of spawns places: all n of them, unless the `avail` free
      slots run out first. */
  function Spawned(n: int, avail: nat): (m: nat)
    ensures m <= avail && (n >= 0 ==> m <= n)
    ensures m < avail ==> m == n || (n < 0 && m == 0)
  {
    if n < 0 then 0 else if n <= avail then n else avail
  }

  /** OverallVelocity of MakeRingEffect: the speed at which ring particles leave the centre. */
  const RingSpeed: real := 0.35
  /** The lifetime of a ring particle. */
  const RingLifeTime: real := 0.5

  /** The particle MakeRingEffect spawns at the target (tx, ty, tz), heading in the direction
      whose cosine and sine are `cos` and `sin` in the X-Z plane. */
  function RingDrop(tx: real, ty: real, tz: real, cos: real, sin: real): Particle
  {
    Particle(tx, ty, tz, 0.5, 0.5, 1.0, 0.0, RingSpeed * cos, 0.0, RingSpeed * sin, Null, RingLifeTime)
  }

  /** A ring particle starts at the target, moves flat at RingSpeed and is alive. */
  lemma RingDropMotion(tx: real, ty: real, tz: real, cos: real, sin: real)
    requires cos * cos + sin * sin == 1.0
    ensures var p := RingDrop(tx, ty, tz, cos, sin);
      && p.x == tx && p.y == ty && p.z == tz && p.vy == 0.0
      && p.vx * p.vx + p.vz * p.vz == RingSpeed * RingSpeed
      && !Expired(p)
  {
    var p := RingDrop(tx, ty, tz, cos, sin);
    calc {
      p.vx * p.vx + p.vz * p.vz;
      RingSpeed * RingSpeed * (cos * cos + sin * sin);
    }
  }

  /** The records of one ring of `count` particles around (tx, ty, tz): particle i heads in
      the direction circle[i], the cosine and sine of 360 * i / count degrees. */
  function Ring(tx: real, ty: real, tz: real, count: int, circle: seq<(real, real)>): (r: seq<Particle>)
    requires count <= |circle|
    ensures |r| == if count < 0 then 0 else count
    ensures forall i :: 0 <= i < |r| ==> r[i] == RingDrop(tx, ty, tz, circle[i].0, circle[i].1)
  {
    seq(if count < 0 then 0 else count, i requires 0 <= i < |circle| => RingDrop(tx, ty, tz, circle[i].0, circle[i].1))
  }

  /** The four random integers one fire particle is drawn from: X offset, Z offset, X velocity
      and extra lifetime. */
  datatype FireDraw = FireDraw(dx: int, dz: int, dvx: int, dlife: int)

  /** The ranges MakeFireEffect asks the random generator for. */
  predicate FireDrawInRange(d: FireDraw)
  {
    0 <= d.dx <= 20 && 0 <= d.dz <= 80 && -10 <= d.dvx <= 10 && 0 <= d.dlife <= 15
  }

  const FireBaseLifeTime: real := 6.0
  const FireRiseSpeed: real := 1.5

  /** The particle MakeFireEffect spawns around the target (tx, ty, tz) for the draw d. */
  function FireSpark(tx: real, ty: real, tz: real, d: FireDraw): Particle
  {
    Particle(tx + 0.04 * d.dx as real, ty, tz - 0.0125 * d.dz as real, 2.0, 0.8, 0.1, 0.0,
             0.015 * d.dvx as real, FireRiseSpeed, 0.0, Null, FireBaseLifeTime + 0.1 * d.dlife as real)
  }

  /** A fire particle starts in a small box behind and to the right of the target, rises,
      never moves in Z, and lives between 6 and 7.5 seconds. */
  lemma FireSparkBounds(tx: real, ty: real, tz: real, d: FireDraw)
    requires FireDrawInRange(d)
    ensures var p := FireSpark(tx, ty, tz, d);
      && tx <= p.x <= tx + 0.8 && p.y == ty && tz - 1.0 <= p.z <= tz
      && -0.15 <= p.vx <= 0.15 && p.vy == FireRiseSpeed && p.vz == 0.0
      && FireBaseLifeTime <= p.life <= FireBaseLifeTime + 1.5
  {
  }

  /** How many fire particles MakeFireEffect emits for a frame of dt seconds: the C++ `(int)`
      cast of FireParticlesPerSecond * dt. */
  function FireSparkCount(dt: real): int
  {
    Truncate(FireParticlesPerSecond as real * dt)
  }

  /** The records of one MakeFireEffect: one per draw, as many as FireSparkCount(dt). */
  function Sparks(tx: real, ty: real, tz: real, dt: real, draws: seq<FireDraw>): (r: seq<Particle>)
    requires FireSparkCount(dt) <= |draws|
    ensures |r| == if FireSparkCount(dt) < 0 then 0 else FireSparkCount(dt)
    ensures forall i :: 0 <= i < |r| ==> r[i] == FireSpark(tx, ty, tz, draws[i])
  {
    var n := FireSparkCount(dt);
    seq(if n < 0 then 0 else n, i requires 0 <= i < |draws| => FireSpark(tx, ty, tz, draws[i]))
  }

  /** The three random integers one rain drop is drawn from: X, Y and Z offsets in tenths. */
  datatype RainDraw = RainDraw(dx: int, dy: int, dz: int)

  /** The ranges InitiateRainEffects asks the random generator for: ten times the width of
      the rain box, the spawn height and the depth of the rain box, each cast to int first. */
  predicate RainDrawInRange(d: RainDraw)
  {
    && 0 <= d.dx <= Truncate(RainBoxRight - RainBoxLeft) * 10
    && 0 <= d.dy <= Truncate(RainSpawnInHeight) * 10
    && 0 <= d.dz <= Truncate(RainBoxFar - RainBoxClose) * 10
  }

  /** The rain drop InitiateRainEffects spawns for the draw d. */
  function RainDrop(d: RainDraw): Particle
  {
    Particle(RainBoxLeft + 0.1 * d.dx as real, RainSpawnInHeight - 0.1 * d.dy as real, RainBoxClose + 0.1 * d.dz as real,
             0.5, 0.5, 1.0, 0.0, 0.0, RainSpawnYVelocity, 0.0, Null, 0.0)
  }

  /** A rain drop starts inside the rain box, between the ground and the spawn height, and
      falls straight down at the spawn velocity. */
  lemma RainDropInBox(d: RainDraw)
    requires RainDrawInRange(d)
    ensures var p := RainDrop(d);
      && RainBoxLeft <= p.x <= RainBoxRight && 0.0 <= p.y <= RainSpawnInHeight && RainBoxClose <= p.z <= RainBoxFar
      && p.vx == 0.0 && p.vz == 0.0 && p.vy == RainSpawnYVelocity
  {
    assert Truncate(RainBoxRight - RainBoxLeft) == 30;
    assert Truncate(RainSpawnInHeight) == 20;
    assert Truncate(RainBoxFar - RainBoxClose) == 35;
  }

  /** The records of one InitiateRainEffects: one per draw, RainInstanceCount of them. */
  function Drops(draws: seq<RainDraw>): (r: seq<Particle>)
    requires RainInstanceCount <= |draws|
    ensures |r| == RainInstanceCount
    ensures forall i :: 0 <= i < |r| ==> r[i] == RainDrop(draws[i])
  {
    seq(RainInstanceCount, i requires 0 <= i < |draws| => RainDrop(draws[i]))
  }

  /** A run of spawns part way: the first i of the records ts have been loaded into the first
      i slots of the old free list f0 and placed into the list s (s0 before the run); f is
      what is left of the free list, and the records qs are ps0 with those loads, links apart. */
  ghost predicate SpawnPass(f0: seq<int>, s0: seq<int>, ps0: seq<Particle>, ts: seq<Particle>,
                            i: int, s: seq<int>, f: seq<int>, qs: seq<Particle>)
  {
    && 0 <= i <= |ts| && i <= |f0| && InPool(f0, ps0) && InPool(f0[..i], ps0)
    && f == f0[i..]
    && multiset(s) == multiset(s0) + multiset(f0[..i])
    && SamePayloads(qs, Loads(ps0, f0[..i], ts))
  }

  /** Before the run nothing is spawned. */
  lemma SpawnStart(f0: seq<int>, s0: seq<int>, ps0: seq<Particle>, ts: seq<Particle>)
    requires InPool(f0, ps0)
    ensures SpawnPass(f0, s0, ps0, ts, 0, s0, f0, ps0)
  {
    assert f0[..0] == [];
  }

  /** One more spawn: the free-list head is loaded with ts[i] and spliced into s. */
  lemma SpawnStep(f0: seq<int>, s0: seq<int>, ps0: seq<Particle>, ts: seq<Particle>,
                  i: int, s: seq<int>, f: seq<int>, qs: seq<Particle>, p: nat,
                  j: int, s2: seq<int>, f2: seq<int>, qs2: seq<Particle>)
    requires SpawnPass(f0, s0, ps0, ts, i, s, f, qs) && i < |ts| && f != [] && j == i + 1
    requires p <= |s| && s2 == Spliced(s, p, f[0]) && f2 == f[1..]
    requires 0 <= f[0] < |qs| && SamePayloads(qs2, qs[f[0] := Loaded(qs[f[0]], ts[i])])
    ensures SpawnPass(f0, s0, ps0, ts, j, s2, f2, qs2)
  {
    var x := f[0];
    assert x == f0[i];
    var xs := f0[..j];
    assert xs[..i] == f0[..i] && xs[i] == x;
    assert f0[..j] == f0[..i] + [x];
    assert f[1..] == f0[j..];
    SplicedSlots(s, p, x);
    var l := Loads(ps0, f0[..i], ts);
    assert Loads(ps0, xs, ts) == l[x := Loaded(l[x], ts[i])];
    assert Payload(qs[x]) == Payload(l[x]);
  }

  /** A list that holds none of the free slots f0 stays settled through a run of spawns
      from f0. */
  lemma SpawnKeepsOther(f0: seq<int>, s0: seq<int>, ps0: seq<Particle>, ts: seq<Particle>, m: int,
                        s: seq<int>, f: seq<int>, qs: seq<Particle>, o: seq<int>)
    requires SpawnPass(f0, s0, ps0, ts, m, s, f, qs) && Distinct(f0)
    requires InPool(o, ps0) && Settled(o, ps0)
    requires forall j :: j in o ==> j !in f0
    ensures InPool(o, qs) && Settled(o, qs)
  {
    assert forall j :: j in f0[..m] ==> j in f0;
    LoadsKeepSettled(o, ps0, f0[..m], ts, qs);
  }
}
