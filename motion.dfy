/** UpdateParticles on values: one frame of motion applied to every slot of one list. */
module Motion {
  import opened Particles
  import opened Chains
  import opened ZOrder

  /** One frame of a particle of the given list. */
  function Step(which: ActiveList, p: Particle, gravity: real, dt: real): (r: Particle)
    ensures r.next == p.next
    ensures which != General ==> r.vz == p.vz && (p.vz == 0.0 ==> r.z == p.z)
    ensures which == General ==> r.y >= 0.0
    ensures r.life == if which == Rain then p.life else p.life - dt
  {
    match which
    case General => GeneralStep(p, gravity, dt)
    case Rain => RainStep(p, gravity, dt)
    case Fire => FireStep(p, dt)
  }

  /** A general particle moves in depth by its full Z velocity over the frame: the bounce
      damps the velocity only after the move. */
  lemma GeneralDepthStep(p: Particle, gravity: real, dt: real)
    ensures Step(General, p, gravity, dt).z == p.z + p.vz * dt
  {
  }

  /** The general list is in Z order only as each particle is placed: a frame of motion can
      undo it. Two general particles, a at least as deep as b, whose Z velocities part them
      by more than their distance over the frame end it with a shallower than b. */
  lemma GeneralPairFlips(a: Particle, b: Particle, gravity: real, dt: real)
    requires a.z >= b.z && a.z - b.z < (b.vz - a.vz) * dt
    ensures Step(General, a, gravity, dt).z < Step(General, b, gravity, dt).z
  {
    GeneralDepthStep(a, gravity, dt);
    GeneralDepthStep(b, gravity, dt);
  }

  /** The records ps after one frame of every slot on the list s. */
  ghost function Advanced(ps: seq<Particle>, s: seq<int>, which: ActiveList, gravity: real, dt: real): (r: seq<Particle>)
    ensures |r| == |ps|
  {
    seq(|ps|, j requires 0 <= j < |ps| => if j in s then Step(which, ps[j], gravity, dt) else ps[j])
  }

  /** Advancing a slot on the list gives its one-frame step; any other slot is left alone. */
  lemma AdvancedAt(ps: seq<Particle>, s: seq<int>, which: ActiveList, gravity: real, dt: real, x: int)
    requires 0 <= x < |ps|
    ensures x in s ==> Advanced(ps, s, which, gravity, dt)[x] == Step(which, ps[x], gravity, dt)
    ensures x !in s ==> Advanced(ps, s, which, gravity, dt)[x] == ps[x]
  {
  }

  /** Advancing the first j = k + 1 slots of s is advancing the first k and then s[k]. */
  lemma AdvancedSnoc(ps: seq<Particle>, s: seq<int>, which: ActiveList, gravity: real, dt: real, k: int, j: int)
    requires 0 <= k < |s| && j == k + 1 && 0 <= s[k] < |ps|
    ensures Advanced(ps, s[..j], which, gravity, dt)
         == Advanced(ps, s[..k], which, gravity, dt)[s[k] := Step(which, ps[s[k]], gravity, dt)]
  {
    var a := Advanced(ps, s[..k], which, gravity, dt);
    var b := Advanced(ps, s[..j], which, gravity, dt);
    forall x | 0 <= x < |ps|
      ensures b[x] == a[s[k] := Step(which, ps[s[k]], gravity, dt)][x]
    {
      assert s[..j] == s[..k] + [s[k]];
      assert (x in s[..j]) == (x in s[..k] || x == s[k]);
    }
  }

  /** A list that is not the general one stays settled when its own particles advance:
      its particles do not move in depth. */
  lemma AdvancedSettledSelf(ps: seq<Particle>, s: seq<int>, which: ActiveList, gravity: real, dt: real)
    requires which != General && InPool(s, ps) && Settled(s, ps)
    ensures InPool(s, Advanced(ps, s, which, gravity, dt)) && Settled(s, Advanced(ps, s, which, gravity, dt))
  {
    var qs := Advanced(ps, s, which, gravity, dt);
    forall j | j in s && 0 <= j < |ps|
      ensures qs[j].z == ps[j].z && qs[j].vz == ps[j].vz
    {
      var k :| 0 <= k < |s| && s[k] == j;
      assert ps[s[k]].vz == 0.0;
    }
    SettledKept(s, ps, qs);
  }

  /** A settled list clear of the advanced one stays settled. */
  lemma AdvancedSettledOther(ps: seq<Particle>, s: seq<int>, which: ActiveList, gravity: real, dt: real, o: seq<int>)
    requires InPool(o, ps) && Settled(o, ps) && (forall j :: j in o ==> j !in s)
    ensures InPool(o, Advanced(ps, s, which, gravity, dt)) && Settled(o, Advanced(ps, s, which, gravity, dt))
  {
    SettledKept(o, ps, Advanced(ps, s, which, gravity, dt));
  }

  /** The frame of UpdateParticles on values: the general list, then the rain list, then
      the fire list advance. */
  ghost function FrameMotion(ps: seq<Particle>, g: seq<int>, r: seq<int>, f: seq<int>, gravity: real, dt: real): (qs: seq<Particle>)
    ensures |qs| == |ps|
  {
    Advanced(Advanced(Advanced(ps, g, General, gravity, dt), r, Rain, gravity, dt), f, Fire, gravity, dt)
  }

  /** On three lists that share no slot, each slot takes its own list's step once. */
  lemma FrameSteps(ps: seq<Particle>, g: seq<int>, r: seq<int>, f: seq<int>, gravity: real, dt: real)
    requires InPool(g, ps) && InPool(r, ps) && InPool(f, ps)
    requires forall x :: x in g ==> x !in r && x !in f
    requires forall x :: x in r ==> x !in f
    ensures forall k :: 0 <= k < |g| ==> FrameMotion(ps, g, r, f, gravity, dt)[g[k]] == Step(General, ps[g[k]], gravity, dt)
    ensures forall k :: 0 <= k < |r| ==> FrameMotion(ps, g, r, f, gravity, dt)[r[k]] == Step(Rain, ps[r[k]], gravity, dt)
    ensures forall k :: 0 <= k < |f| ==> FrameMotion(ps, g, r, f, gravity, dt)[f[k]] == Step(Fire, ps[f[k]], gravity, dt)
  {
    var p1 := Advanced(ps, g, General, gravity, dt);
    var p2 := Advanced(p1, r, Rain, gravity, dt);
    forall k | 0 <= k < |g|
      ensures FrameMotion(ps, g, r, f, gravity, dt)[g[k]] == Step(General, ps[g[k]], gravity, dt)
    {
      AdvancedAt(ps, g, General, gravity, dt, g[k]);
      AdvancedAt(p1, r, Rain, gravity, dt, g[k]);
      AdvancedAt(p2, f, Fire, gravity, dt, g[k]);
    }
    forall k | 0 <= k < |r|
      ensures FrameMotion(ps, g, r, f, gravity, dt)[r[k]] == Step(Rain, ps[r[k]], gravity, dt)
    {
      AdvancedAt(ps, g, General, gravity, dt, r[k]);
      AdvancedAt(p1, r, Rain, gravity, dt, r[k]);
      AdvancedAt(p2, f, Fire, gravity, dt, r[k]);
    }
    forall k | 0 <= k < |f|
      ensures FrameMotion(ps, g, r, f, gravity, dt)[f[k]] == Step(Fire, ps[f[k]], gravity, dt)
    {
      AdvancedAt(ps, g, General, gravity, dt, f[k]);
      AdvancedAt(p1, r, Rain, gravity, dt, f[k]);
      AdvancedAt(p2, f, Fire, gravity, dt, f[k]);
    }
  }

  /** The frame keeps the rain and fire lists settled: neither moves in depth, and the
      general list's steps do not touch them. */
  lemma FrameKeepsSettled(ps: seq<Particle>, g: seq<int>, r: seq<int>, f: seq<int>, gravity: real, dt: real)
    requires InPool(r, ps) && InPool(f, ps) && Settled(r, ps) && Settled(f, ps)
    requires forall x :: x in g ==> x !in r && x !in f
    requires forall x :: x in r ==> x !in f
    ensures InPool(r, FrameMotion(ps, g, r, f, gravity, dt)) && Settled(r, FrameMotion(ps, g, r, f, gravity, dt))
    ensures InPool(f, FrameMotion(ps, g, r, f, gravity, dt)) && Settled(f, FrameMotion(ps, g, r, f, gravity, dt))
  {
    var p1 := Advanced(ps, g, General, gravity, dt);
    var p2 := Advanced(p1, r, Rain, gravity, dt);
    AdvancedSettledOther(ps, g, General, gravity, dt, r);
    AdvancedSettledOther(ps, g, General, gravity, dt, f);
    AdvancedSettledSelf(p1, r, Rain, gravity, dt);
    AdvancedSettledOther(p1, r, Rain, gravity, dt, f);
    AdvancedSettledOther(p2, f, Fire, gravity, dt, r);
    AdvancedSettledSelf(p2, f, Fire, gravity, dt);
  }

  /** What a frame does to each list's particles: a general particle never ends the frame
      below the ground, a rain drop never ages, and general and fire particles age by
      one frame. */
  lemma FrameLifetimes(ps: seq<Particle>, g: seq<int>, r: seq<int>, f: seq<int>, gravity: real, dt: real)
    requires InPool(g, ps) && InPool(r, ps) && InPool(f, ps)
    requires forall x :: x in g ==> x !in r && x !in f
    requires forall x :: x in r ==> x !in f
    ensures forall k :: 0 <= k < |g| ==>
      FrameMotion(ps, g, r, f, gravity, dt)[g[k]].y >= 0.0 && FrameMotion(ps, g, r, f, gravity, dt)[g[k]].life == ps[g[k]].life - dt
    ensures forall k :: 0 <= k < |r| ==> FrameMotion(ps, g, r, f, gravity, dt)[r[k]].life == ps[r[k]].life
    ensures forall k :: 0 <= k < |f| ==> FrameMotion(ps, g, r, f, gravity, dt)[f[k]].life == ps[f[k]].life - dt
  {
    FrameSteps(ps, g, r, f, gravity, dt);
  }
}
