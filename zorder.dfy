/** The depth-ordered insertion that PlaceNodeInZSortedList performs, stated on the
    sequence of Z values of a list. */
module ZOrder {
  import opened Particles
  import opened Chains

  /** The Z values of the slots s, in list order. */
  ghost function Depths(s: seq<int>, ps: seq<Particle>): (d: seq<real>)
    requires InPool(s, ps)
    ensures |d| == |s|
    ensures forall k {:trigger d[k]} :: 0 <= k < |s| ==> d[k] == ps[s[k]].z
  {
    seq(|s|, k requires 0 <= k < |s| => ps[s[k]].z)
  }

  /** From index `from` on, Z never increases along the list. */
  ghost predicate SortedFrom(d: seq<real>, from: nat)
  {
    forall i, j :: from <= i < j < |d| ==> d[i] >= d[j]
  }

  /** The scan standing on index k: the position at which a node of depth z is spliced in.
      Only successors are compared, never the node the scan stands on. */
  function ScanFrom(d: seq<real>, z: real, k: nat): (p: nat)
    requires k < |d|
    ensures k < p <= |d|
    ensures forall j :: k < j < p ==> d[j] >= z
    ensures p < |d| ==> d[p] < z
    decreases |d| - k
  {
    if k + 1 == |d| then |d|
    else if d[k + 1] < z then k + 1
    else ScanFrom(d, z, k + 1)
  }

  /** Where PlaceNodeInZSortedList puts a node of depth z into a list of depths d: at the
      head of an empty list; otherwise never before the head, but before the first later
      node that is strictly shallower, or at the end. */
  function InsertPos(d: seq<real>, z: real): (p: nat)
    ensures d == [] ==> p == 0
    ensures d != [] ==> 1 <= p <= |d|
    ensures forall j :: 1 <= j < p ==> d[j] >= z
    ensures p < |d| ==> d[p] < z
  {
    if d == [] then 0 else ScanFrom(d, z, 0)
  }

  /** s with x inserted at position p. */
  function Spliced<T>(s: seq<T>, p: nat, x: T): (r: seq<T>)
    requires p <= |s|
    ensures |r| == |s| + 1 && r[p] == x
    ensures r[..p] == s[..p] && r[p + 1..] == s[p..]
  {
    s[..p] + [x] + s[p..]
  }

  /** Inserting at InsertPos keeps a list whose nodes after the head are non-increasing in Z
      that way, and places the node after every earlier node of equal depth. */
  lemma InsertKeepsTailOrder(d: seq<real>, z: real)
    requires SortedFrom(d, 1)
    ensures SortedFrom(Spliced(d, InsertPos(d, z), z), 1)
  {
    var p := InsertPos(d, z);
    var r := Spliced(d, p, z);
    forall i, j | 1 <= i < j < |r|
      ensures r[i] >= r[j]
    {
      if j < p {
        assert r[i] == d[i] && r[j] == d[j];
      } else if j == p {
        assert r[i] == d[i];
      } else if i < p {
        assert r[i] == d[i] && r[j] == d[j - 1];
        assert d[j - 1] <= d[p] || j - 1 == p;
      } else if i == p {
        assert r[j] == d[j - 1];
        assert d[j - 1] <= d[p] || j - 1 == p;
      } else {
        assert r[i] == d[i - 1] && r[j] == d[j - 1];
      }
    }
  }

  /** The head is exempt from the ordering: a deeper node never goes in front of it, so
      a list built by PlaceNodeInZSortedList need not be ordered at its first node. */
  lemma HeadIsNeverDisplaced(d: seq<real>, z: real)
    requires d != []
    ensures Spliced(d, InsertPos(d, z), z)[0] == d[0]
  {
  }

  /** A list whose particles never move in Z and whose nodes after the head are ordered by Z:
      what the rain and fire lists are at every frame. */
  ghost predicate Settled(s: seq<int>, ps: seq<Particle>)
    requires InPool(s, ps)
  {
    && (forall k {:trigger ps[s[k]]} :: 0 <= k < |s| ==> ps[s[k]].vz == 0.0)
    && SortedFrom(Depths(s, ps), 1)
  }

  /** Records of the list that keep their Z position and Z velocity keep it settled. */
  lemma SettledKept(s: seq<int>, ps: seq<Particle>, qs: seq<Particle>)
    requires InPool(s, ps) && |qs| == |ps|
    requires forall j :: j in s && 0 <= j < |ps| ==> qs[j].z == ps[j].z && qs[j].vz == ps[j].vz
    requires Settled(s, ps)
    ensures InPool(s, qs) && Settled(s, qs)
  {
    forall k | 0 <= k < |s|
      ensures qs[s[k]].z == ps[s[k]].z && qs[s[k]].vz == ps[s[k]].vz
    {
      assert s[k] in s;
    }
    DepthsKept(s, ps, qs);
  }

  /** Records of the list that keep their Z position keep the list's depths. */
  lemma DepthsKept(s: seq<int>, ps: seq<Particle>, qs: seq<Particle>)
    requires InPool(s, ps) && |qs| == |ps|
    requires forall j :: j in s && 0 <= j < |ps| ==> qs[j].z == ps[j].z
    ensures InPool(s, qs) && Depths(s, qs) == Depths(s, ps)
  {
    forall k | 0 <= k < |s|
      ensures qs[s[k]].z == ps[s[k]].z
    {
      assert s[k] in s;
    }
  }

  /** Records that differ only in their links leave a settled list settled. */
  lemma SettledSamePayloads(s: seq<int>, ps: seq<Particle>, qs: seq<Particle>)
    requires InPool(s, ps) && Settled(s, ps) && SamePayloads(qs, ps)
    ensures InPool(s, qs) && Settled(s, qs)
  {
    forall j | j in s && 0 <= j < |ps|
      ensures qs[j].z == ps[j].z && qs[j].vz == ps[j].vz
    {
      assert Payload(qs[j]) == Payload(ps[j]);
    }
    SettledKept(s, ps, qs);
  }

  /** A node that never moves in Z, added to a settled list so that the nodes after the head
      stay ordered by Z, leaves the list settled; no other record changes its Z velocity. */
  lemma SettledPlaced(s: seq<int>, ps: seq<Particle>, x: int, t: seq<int>, qs: seq<Particle>)
    requires InPool(s, ps) && Settled(s, ps) && 0 <= x < |ps| && |qs| == |ps|
    requires InPool(t, qs) && multiset(t) == multiset(s) + multiset{x}
    requires forall j :: 0 <= j < |ps| && j != x ==> qs[j].vz == ps[j].vz
    requires qs[x].vz == 0.0
    requires SortedFrom(Depths(t, qs), 1)
    ensures Settled(t, qs)
  {
    forall k | 0 <= k < |t|
      ensures qs[t[k]].vz == 0.0
    {
      assert t[k] in multiset(t);
      if t[k] != x {
        assert t[k] in multiset(s);
        var i :| 0 <= i < |s| && s[i] == t[k];
        assert ps[s[i]].vz == 0.0;
      }
    }
  }

  /** The depths of a list with a node spliced in are the old depths with the node's depth
      spliced in at the same place, as long as no depth changed. */
  lemma DepthsSpliced(s: seq<int>, p: nat, x: int, ps: seq<Particle>, qs: seq<Particle>)
    requires InPool(s, ps) && 0 <= x < |ps| && p <= |s| && |qs| == |ps|
    requires forall j :: 0 <= j < |ps| ==> qs[j].z == ps[j].z
    ensures InPool(Spliced(s, p, x), qs)
    ensures Depths(Spliced(s, p, x), qs) == Spliced(Depths(s, ps), p, ps[x].z)
  {
    var t := Spliced(s, p, x);
    forall k | 0 <= k < |t|
      ensures 0 <= t[k] < |qs|
    {
      if k < p {
        assert t[k] == s[k];
      } else if k > p {
        assert t[k] == s[k - 1];
      }
    }
    var d, e := Depths(t, qs), Spliced(Depths(s, ps), p, ps[x].z);
    forall k | 0 <= k < |t|
      ensures d[k] == e[k]
    {
      if k < p {
        assert t[k] == s[k];
      } else if k > p {
        assert t[k] == s[k - 1];
      }
    }
  }

  /** Splicing adds the one slot to the list's slots. */
  lemma SplicedSlots<T>(s: seq<T>, p: nat, x: T)
    requires p <= |s|
    ensures multiset(Spliced(s, p, x)) == multiset(s) + multiset{x}
  {
    assert s == s[..p] + s[p..];
  }

  /** The scan passes one more node no shallower than z. */
  lemma DeeperStep(d: seq<real>, z: real, k0: int, k: int)
    requires k == k0 + 1 && 0 <= k < |d| && d[k] >= z
    requires forall j :: 1 <= j <= k0 ==> d[j] >= z
    ensures forall j :: 1 <= j <= k ==> d[j] >= z
  {
  }

  /** The position the scan finds is the only one that satisfies InsertPos's contract. */
  lemma InsertPosUnique(d: seq<real>, z: real, p: nat)
    requires 1 <= p <= |d|
    requires forall j :: 1 <= j < p ==> d[j] >= z
    requires p < |d| ==> d[p] < z
    ensures p == InsertPos(d, z)
  {
  }

  /** The one detached slot of a partition is on none of the lists, and the second list
      repeats no slot. */
  lemma DetachedOutside(f: seq<int>, s: seq<int>, b: seq<int>, c: seq<int>, x: int, n: nat)
    requires Partition(f, s, b, c, multiset{x}, n)
    ensures Distinct(s) && x !in s
  {
    Disjoint(f, s, b, c, multiset{x}, n);
    PartitionDistinct(f, s, b, c, multiset{x}, n);
  }

  /** Everything that linking the detached x into s at InsertPos establishes, stated on
      values: the list afterwards, s2 with head h2, and the three other lists f, b and c
      chain through the relinked records and partition the pool again, no record changes
      apart from its link, and a list whose nodes after the head were ordered by Z stays so. */
  lemma Placed(ps: seq<Particle>, f: seq<int>, s: seq<int>, b: seq<int>, c: seq<int>,
               hf: int, head: int, hb: int, hc: int, p: nat, x: int, s2: seq<int>, h2: int)
    requires 0 <= x < |ps|
    requires Threaded(ps, f, hf, s, head, b, hb, c, hc, multiset{x})
    requires p == InsertPos(Depths(s, ps), ps[x].z)
    requires s2 == Spliced(s, p, x) && h2 == (if s == [] then x else head)
    ensures (s != [] ==> 1 <= p)
    ensures
      var qs := SpliceLinks(ps, s, p, x);
      && |qs| == |ps|
      && Threaded(qs, f, hf, s2, h2, b, hb, c, hc, multiset{})
      && (forall j :: 0 <= j < |ps| ==> Payload(qs[j]) == Payload(ps[j]))
      && (SortedFrom(Depths(s, ps), 1) ==> SortedFrom(Depths(s2, qs), 1))
  {
    DetachedOutside(f, s, b, c, x, |ps|);
    var qs := SpliceLinks(ps, s, p, x);
    SpliceLinksChain(ps, s, head, p, x);
    SpliceLinksFrame(ps, s, p, x);
    InsertedInto(ps, qs, x, s, p, f, b, c, hf, hb, hc);
    assert Partition(f, s2, b, c, multiset{}, |ps|);
    DepthsSpliced(s, p, x, ps, qs);
    if SortedFrom(Depths(s, ps), 1) {
      InsertKeepsTailOrder(Depths(s, ps), ps[x].z);
    }
  }

  /** The active list numbered i: 1 general, 2 rain, 3 fire. */
  function Pick(g: seq<int>, r: seq<int>, fi: seq<int>, i: int): seq<int>
  {
    if i == 1 then g else if i == 2 then r else fi
  }

  /** Placed, for the free list f and the active lists g, r and fi, x going into active list
      number i: afterwards list i is spliced and the others are as they were (g2, r2 and fi2
      with heads hg2, hr2 and hfi2). */
  lemma PlacedAmong(ps: seq<Particle>, f: seq<int>, g: seq<int>, r: seq<int>, fi: seq<int>,
                    hf: int, hg: int, hr: int, hfi: int, i: int, p: nat, x: int,
                    g2: seq<int>, r2: seq<int>, fi2: seq<int>, hg2: int, hr2: int, hfi2: int)
    requires 1 <= i <= 3 && 0 <= x < |ps|
    requires Threaded(ps, f, hf, g, hg, r, hr, fi, hfi, multiset{x})
    requires InPool(Pick(g, r, fi, i), ps)
    requires p == InsertPos(Depths(Pick(g, r, fi, i), ps), ps[x].z)
    requires p <= |Pick(g, r, fi, i)|
    requires
      var s := Pick(g, r, fi, i);
      var t := Spliced(s, p, x);
      && g2 == (if i == 1 then t else g) && r2 == (if i == 2 then t else r) && fi2 == (if i == 3 then t else fi)
      && hg2 == (if i == 1 && s == [] then x else hg)
      && hr2 == (if i == 2 && s == [] then x else hr)
      && hfi2 == (if i == 3 && s == [] then x else hfi)
    ensures
      var s := Pick(g, r, fi, i);
      && (s != [] ==> 1 <= p)
      && var qs := SpliceLinks(ps, s, p, x);
      && |qs| == |ps|
      && Threaded(qs, f, hf, g2, hg2, r2, hr2, fi2, hfi2, multiset{})
      && (forall j :: 0 <= j < |ps| ==> Payload(qs[j]) == Payload(ps[j]))
      && InPool(Pick(g2, r2, fi2, i), qs)
      && (SortedFrom(Depths(s, ps), 1) ==> SortedFrom(Depths(Pick(g2, r2, fi2, i), qs), 1))
  {
    var n := |ps|;
    if i == 1 {
      Placed(ps, f, g, r, fi, hf, hg, hr, hfi, p, x, g2, hg2);
    } else if i == 2 {
      PartitionReordered(f, g, r, fi, multiset{x}, n);
      Placed(ps, f, r, g, fi, hf, hr, hg, hfi, p, x, r2, hr2);
      PartitionReordered(f, g, r2, fi, multiset{}, n);
    } else {
      PartitionReordered(f, g, r, fi, multiset{x}, n);
      Placed(ps, f, fi, g, r, hf, hfi, hg, hr, p, x, fi2, hfi2);
      PartitionReordered(f, g, r, fi2, multiset{}, n);
    }
  }
}
