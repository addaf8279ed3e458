/** The per-instance records that UpdateBuffers writes for the renderer, and where in the
    instance array each list's particles end up. */
module Layout {
  import opened Particles
  import opened Chains
  import opened Settings

  /** InstanceType: a position and an RGBA colour. */
  datatype Instance = Instance(x: real, y: real, z: real, red: real, green: real, blue: real, alpha: real)

  /** An entry cleared by the zero fill. */
  const Zero: Instance := Instance(0.0, 0.0, 0.0, 0.0, 0.0, 0.0, 0.0)

  /** The instance drawn for a particle: its position and colour, always fully opaque
      (the particle's own alpha is not used). */
  function InstanceOf(p: Particle): Instance
  {
    Instance(p.x, p.y, p.z, p.red, p.green, p.blue, 1.0)
  }

  /** The entry UpdateBuffers leaves at index j: rain from index 0, fire from `rainBlock`,
      general particles right after the fire particles, zeros everywhere else. */
  ghost function Slot(j: int, rain: seq<int>, fire: seq<int>, general: seq<int>, rainBlock: nat, ps: seq<Particle>): Instance
    requires InPool(rain, ps) && InPool(fire, ps) && InPool(general, ps)
  {
    if 0 <= j < |rain| then InstanceOf(ps[rain[j]])
    else if rainBlock <= j < rainBlock + |fire| then InstanceOf(ps[fire[j - rainBlock]])
    else if rainBlock + |fire| <= j < rainBlock + |fire| + |general| then InstanceOf(ps[general[j - rainBlock - |fire|]])
    else Zero
  }

  /** The instances of the slots s, in list order. */
  ghost function Instances(s: seq<int>, ps: seq<Particle>): (r: seq<Instance>)
    requires InPool(s, ps)
    ensures |r| == |s|
    ensures forall k :: 0 <= k < |s| ==> r[k] == InstanceOf(ps[s[k]])
  {
    seq(|s|, k requires 0 <= k < |s| => InstanceOf(ps[s[k]]))
  }

  /** n cleared entries. */
  function Zeros(n: nat): (r: seq<Instance>)
    ensures |r| == n
    ensures forall k :: 0 <= k < n ==> r[k] == Zero
  {
    seq(n, k => Zero)
  }

  /** The instance array as blocks: the rain block padded with zeros to `rainBlock` entries,
      the fire particles, the general particles, and zeros up to the array's length. */
  ghost function Blocks(rain: seq<int>, fire: seq<int>, general: seq<int>, rainBlock: nat, n: nat, ps: seq<Particle>): seq<Instance>
    requires InPool(rain, ps) && InPool(fire, ps) && InPool(general, ps)
    requires |rain| <= rainBlock && rainBlock + |fire| + |general| <= n
  {
    Instances(rain, ps) + Zeros(rainBlock - |rain|) + Instances(fire, ps) + Instances(general, ps)
      + Zeros(n - rainBlock - |fire| - |general|)
  }

  /** When the rain fits its block and everything fits the array, the entries written one by
      one are exactly the blocks laid end to end: no list overwrites another, none is cut off. */
  lemma SlotsAreBlocks(rain: seq<int>, fire: seq<int>, general: seq<int>, rainBlock: nat, n: nat, ps: seq<Particle>)
    requires InPool(rain, ps) && InPool(fire, ps) && InPool(general, ps)
    requires |rain| <= rainBlock && rainBlock + |fire| + |general| <= n
    ensures |Blocks(rain, fire, general, rainBlock, n, ps)| == n
    ensures forall j :: 0 <= j < n ==> Blocks(rain, fire, general, rainBlock, n, ps)[j] == Slot(j, rain, fire, general, rainBlock, ps)
  {
    var b := Blocks(rain, fire, general, rainBlock, n, ps);
    var r, z1, f, g := Instances(rain, ps), Zeros(rainBlock - |rain|), Instances(fire, ps), Instances(general, ps);
    var z2 := Zeros(n - rainBlock - |fire| - |general|);
    forall j | 0 <= j < n
      ensures b[j] == Slot(j, rain, fire, general, rainBlock, ps)
    {
      if j < |rain| {
        assert b[j] == r[j];
      } else if j < rainBlock {
        assert b[j] == z1[j - |rain|];
      } else if j < rainBlock + |fire| {
        assert b[j] == f[j - rainBlock];
      } else if j < rainBlock + |fire| + |general| {
        assert b[j] == g[j - rainBlock - |fire|];
      } else {
        assert b[j] == z2[j - rainBlock - |fire| - |general|];
      }
    }
  }

  /** The entries base with xs written one by one from index `at` on. */
  function Overlay(base: seq<Instance>, at: nat, xs: seq<Instance>): (r: seq<Instance>)
    requires at + |xs| <= |base|
    ensures |r| == |base|
    ensures r[..at] == base[..at] && r[at..at + |xs|] == xs && r[at + |xs|..] == base[at + |xs|..]
  {
    base[..at] + xs + base[at + |xs|..]
  }

  /** Writing one more entry right after the ones already written. */
  lemma OverlaySnoc(base: seq<Instance>, at: nat, xs: seq<Instance>, x: Instance, ys: seq<Instance>)
    requires at + |xs| < |base| && ys == xs + [x]
    ensures Overlay(base, at, ys) == Overlay(base, at, xs)[at + |xs| := x]
  {
    var a := Overlay(base, at, ys);
    var b := Overlay(base, at, xs)[at + |xs| := x];
    assert |a| == |b|;
    forall j | 0 <= j < |a|
      ensures a[j] == b[j]
    {
      if j < at {
        assert a[j] == a[..at][j];
      } else if j < at + |ys| {
        assert a[j] == a[at..at + |ys|][j - at];
        if j < at + |xs| {
          assert b[j] == Overlay(base, at, xs)[at..at + |xs|][j - at];
        }
      } else {
        assert a[j] == a[at + |ys|..][j - at - |ys|];
        assert b[j] == Overlay(base, at, xs)[at + |xs|..][j - at - |xs|];
      }
    }
  }

  /** Writing the instance of s[k] right after those of s[..k]. */
  lemma WriteStep(base: seq<Instance>, start: nat, s: seq<int>, ps: seq<Particle>, k: nat)
    requires InPool(s, ps) && k < |s| && start + |s| <= |base|
    ensures Overlay(base, start, Instances(s[..k + 1], ps))
         == Overlay(base, start, Instances(s[..k], ps))[start + k := InstanceOf(ps[s[k]])]
  {
    var xs := Instances(s[..k], ps);
    assert Instances(s[..k + 1], ps) == xs + [InstanceOf(ps[s[k]])];
    OverlaySnoc(base, start, xs, InstanceOf(ps[s[k]]), Instances(s[..k + 1], ps));
  }

  /** The instance array after UpdateBuffers: cleared, then the rain instances from index 0,
      the fire instances from `rainBlock`, the general instances right after the fire ones. */
  ghost function Filled(rain: seq<int>, fire: seq<int>, general: seq<int>, rainBlock: nat, n: nat, ps: seq<Particle>): seq<Instance>
    requires InPool(rain, ps) && InPool(fire, ps) && InPool(general, ps)
    requires |rain| <= n && rainBlock + |fire| + |general| <= n
  {
    Overlay(Overlay(Overlay(Zeros(n), 0, Instances(rain, ps)), rainBlock, Instances(fire, ps)),
            rainBlock + |fire|, Instances(general, ps))
  }

  /** When the rain fits its block, the fill is the blocks laid end to end. */
  lemma FilledIsBlocks(rain: seq<int>, fire: seq<int>, general: seq<int>, rainBlock: nat, n: nat, ps: seq<Particle>)
    requires InPool(rain, ps) && InPool(fire, ps) && InPool(general, ps)
    requires |rain| <= rainBlock && rainBlock + |fire| + |general| <= n
    ensures Filled(rain, fire, general, rainBlock, n, ps) == Blocks(rain, fire, general, rainBlock, n, ps)
  {
    var r, f, g := Instances(rain, ps), Instances(fire, ps), Instances(general, ps);
    var z1 := Zeros(rainBlock - |r|);
    assert [] + Zeros(n - 0) == Zeros(n);
    OverlayZeroTail([], n, 0, r);
    assert [] + Zeros(0) + r == r;
    var a := Overlay(Zeros(n), 0, r);
    assert a == r + Zeros(n - |r|);
    OverlayZeroTail(r, n, rainBlock, f);
    var b := Overlay(a, rainBlock, f);
    assert b == (r + z1 + f) + Zeros(n - |r + z1 + f|);
    OverlayZeroTail(r + z1 + f, n, rainBlock + |f|, g);
    assert Zeros(rainBlock + |f| - |r + z1 + f|) == [];
  }

  /** Writing xs at `at` into entries that are pre followed by zeros, with `at` at or past
      the end of pre, leaves pre, zeros up to `at`, xs, and zeros to the end. */
  lemma OverlayZeroTail(pre: seq<Instance>, n: nat, at: nat, xs: seq<Instance>)
    requires |pre| <= at && at + |xs| <= n
    ensures Overlay(pre + Zeros(n - |pre|), at, xs) == pre + Zeros(at - |pre|) + xs + Zeros(n - at - |xs|)
  {
    var base := pre + Zeros(n - |pre|);
    var o := Overlay(base, at, xs);
    var t := pre + Zeros(at - |pre|) + xs + Zeros(n - at - |xs|);
    assert |o| == |t|;
    forall j | 0 <= j < n
      ensures o[j] == t[j]
    {
      if j < at {
        assert o[j] == o[..at][j] == base[j];
      } else if j < at + |xs| {
        assert o[j] == o[at..at + |xs|][j - at];
      } else {
        assert o[j] == o[at + |xs|..][j - at - |xs|] == base[j];
      }
    }
  }

  /** With every slot on one of the four lists and the rain block full, the rain, fire and
      general instances all end within the array: the rain drops use up RainInstanceCount
      slots of the pool, which leaves at most TotalInstanceCount - RainInstanceCount for the
      fire and general particles written after the rain block. */
  lemma FillFits(free: seq<int>, general: seq<int>, rain: seq<int>, fire: seq<int>)
    requires Partition(free, general, rain, fire, multiset{}, MaxParticles)
    requires |rain| == RainInstanceCount
    ensures |rain| <= TotalInstanceCount && RainInstanceCount + |fire| + |general| <= TotalInstanceCount
  {
    PartitionSize(free, general, rain, fire, multiset{}, MaxParticles);
  }

  /** The full rain block cannot be dropped from FillFits: the fire and general instances
      start after RainInstanceCount entries whether or not there are that many drops, so with
      no rain drops and the whole pool on the general list (a partition of the pool) the last
      general instance would go to index RainInstanceCount + MaxParticles - 1, past the end
      of the array. */
  lemma OverrunWithoutRain()
    ensures var general := Iota(MaxParticles);
      && Partition([], general, [], [], multiset{}, MaxParticles)
      && RainInstanceCount + |general| - 1 >= TotalInstanceCount
  {
  }
}
