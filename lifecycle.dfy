/** What the three passes of KillParticles do to the lists, stated as functions of the
    list contents and the records before the pass. */
module Lifecycle {
  import opened Particles
  import opened Chains
  import opened ZOrder

  /** The test of the kill passes: a lifetime below zero marks a particle as expired. */
  predicate Expired(p: Particle)
  {
    p.life < 0.0
  }

  /** The slots of s whose particle has not expired, in list order. */
  ghost function Alive(s: seq<int>, ps: seq<Particle>): (r: seq<int>)
    requires InPool(s, ps)
    ensures |r| <= |s| && InPool(r, ps)
    ensures forall k {:trigger ps[r[k]]} :: 0 <= k < |r| ==> !Expired(ps[r[k]])
  {
    if s == [] then []
    else
      var last := s[|s| - 1];
      Alive(s[..|s| - 1], ps) + (if Expired(ps[last]) then [] else [last])
  }

  /** The slots of s whose particle has expired, in list order. */
  ghost function Dead(s: seq<int>, ps: seq<Particle>): (r: seq<int>)
    requires InPool(s, ps)
    ensures |r| <= |s| && InPool(r, ps)
    ensures forall k {:trigger ps[r[k]]} :: 0 <= k < |r| ==> Expired(ps[r[k]])
  {
    if s == [] then []
    else
      var last := s[|s| - 1];
      Dead(s[..|s| - 1], ps) + (if Expired(ps[last]) then [last] else [])
  }

  /** Every slot of s goes to exactly one of the survivors and the expired. */
  lemma {:induction false} AliveDeadSplit(s: seq<int>, ps: seq<Particle>)
    requires InPool(s, ps)
    ensures multiset(Alive(s, ps)) + multiset(Dead(s, ps)) == multiset(s)
    ensures |Alive(s, ps)| + |Dead(s, ps)| == |s|
  {
    if s != [] {
      var init, last := s[..|s| - 1], s[|s| - 1];
      AliveDeadSplit(init, ps);
      assert s == init + [last];
      SortInto(Alive(init, ps), Dead(init, ps), Alive(s, ps), Dead(s, ps), last, Expired(ps[last]));
    }
  }

  /** Adding x to one of two lists, `toSecond` saying which, adds x to their combined
      contents and one to their combined length. */
  lemma SortInto(a: seq<int>, d: seq<int>, a2: seq<int>, d2: seq<int>, x: int, toSecond: bool)
    requires toSecond ==> a2 == a && d2 == d + [x]
    requires !toSecond ==> a2 == a + [x] && d2 == d
    ensures multiset(a2) + multiset(d2) == multiset(a) + multiset(d) + multiset{x}
    ensures |a2| + |d2| == |a| + |d| + 1
  {
    if toSecond {
      assert multiset(d + [x]) == multiset(d) + multiset{x};
    } else {
      assert multiset(a + [x]) == multiset(a) + multiset{x};
    }
  }

  /** Survivors are slots of the list they come from. */
  lemma {:induction false} AliveWithin(s: seq<int>, ps: seq<Particle>, x: int)
    requires InPool(s, ps)
    requires x in Alive(s, ps)
    ensures x in s
  {
    var init := s[..|s| - 1];
    var last := s[|s| - 1];
    assert s == init + [last];
    if x in Alive(init, ps) {
      AliveWithin(init, ps, x);
    } else {
      assert x == last;
    }
  }

  /** Filtering a list piece by piece gives the filter of the whole list. */
  lemma {:induction false} AliveAppend(a: seq<int>, b: seq<int>, ps: seq<Particle>)
    requires InPool(a, ps) && InPool(b, ps)
    ensures InPool(a + b, ps)
    ensures Alive(a + b, ps) == Alive(a, ps) + Alive(b, ps)
    ensures Dead(a + b, ps) == Dead(a, ps) + Dead(b, ps)
    decreases |b|
  {
    if b != [] {
      var init := b[..|b| - 1];
      assert (a + b)[..|a + b| - 1] == a + init;
      AliveAppend(a, init, ps);
    } else {
      assert a + b == a;
    }
  }

  /** Taking in one more node, the one at index i, after the head: the survivors and the
      expired of s[1..i+1] are those of s[1..i] with that node added to one side. */
  lemma AliveStep(s: seq<int>, i: int, ps: seq<Particle>)
    requires InPool(s, ps) && 1 <= i < |s|
    ensures InPool(s[1..i], ps) && InPool(s[1..i + 1], ps)
    ensures Alive(s[1..i + 1], ps) == Alive(s[1..i], ps) + (if Expired(ps[s[i]]) then [] else [s[i]])
    ensures Dead(s[1..i + 1], ps) == Dead(s[1..i], ps) + (if Expired(ps[s[i]]) then [s[i]] else [])
  {
    var t := s[1..i + 1];
    assert |t| == i && t[i - 1] == s[i];
    assert t[..i - 1] == s[1..i] by {
      assert forall k :: 0 <= k < i - 1 ==> t[..i - 1][k] == s[k + 1] == s[1..i][k];
    }
  }

  /** The head, checked last, joins the survivors in front or the casualties at the end. */
  lemma AliveHead(s: seq<int>, ps: seq<Particle>)
    requires InPool(s, ps) && s != []
    ensures InPool(s[1..], ps)
    ensures Alive(s, ps) == (if Expired(ps[s[0]]) then [] else [s[0]]) + Alive(s[1..], ps)
    ensures Casualties(s, ps) == Dead(s[1..], ps) + (if Expired(ps[s[0]]) then [s[0]] else [])
  {
    var h := s[..1];
    AliveSingle(h, ps);
    HeadSplit(s, ps);
  }

  /** A one-slot list survives or dies whole. */
  lemma AliveSingle(h: seq<int>, ps: seq<Particle>)
    requires InPool(h, ps) && |h| == 1
    ensures Alive(h, ps) == (if Expired(ps[h[0]]) then [] else [h[0]])
    ensures Dead(h, ps) == (if Expired(ps[h[0]]) then [h[0]] else [])
  {
    assert h[..0] == [];
  }

  /** The survivors of a list are those of its head followed by those of its tail. */
  lemma HeadSplit(s: seq<int>, ps: seq<Particle>)
    requires InPool(s, ps) && s != []
    ensures InPool(s[..1], ps) && InPool(s[1..], ps)
    ensures Alive(s, ps) == Alive(s[..1], ps) + Alive(s[1..], ps)
  {
    assert s == s[..1] + s[1..];
    AliveAppend(s[..1], s[1..], ps);
  }

  /** The order in which a kill pass returns the expired slots of a list to the free list:
      those after the head in list order, then the head, which is checked last. */
  ghost function Casualties(s: seq<int>, ps: seq<Particle>): (r: seq<int>)
    requires InPool(s, ps)
  {
    if s == [] then [] else Dead(s[1..], ps) + Dead(s[..1], ps)
  }

  /** A kill pass splits a list into its survivors (Alive) and its casualties. */
  lemma SurvivorsAndCasualties(s: seq<int>, ps: seq<Particle>)
    requires InPool(s, ps)
    ensures multiset(Alive(s, ps)) + multiset(Casualties(s, ps)) == multiset(s)
    ensures |Alive(s, ps)| + |Casualties(s, ps)| == |s|
  {
    if s != [] {
      var head, tail := s[..1], s[1..];
      assert s == head + tail;
      AliveAppend(head, tail, ps);
      AliveDeadSplit(head, ps);
      AliveDeadSplit(tail, ps);
      var ah, at, dh, dt := Alive(head, ps), Alive(tail, ps), Dead(head, ps), Dead(tail, ps);
      assert Casualties(s, ps) == dt + dh;
      Regroup(ah, at, dh, dt, head, tail);
    }
  }

  /** Survivors and casualties of two pieces regroup into those of the whole. */
  lemma Regroup(ah: seq<int>, at: seq<int>, dh: seq<int>, dt: seq<int>, h: seq<int>, t: seq<int>)
    requires multiset(ah) + multiset(dh) == multiset(h)
    requires multiset(at) + multiset(dt) == multiset(t)
    ensures multiset(ah + at) + multiset(dt + dh) == multiset(h + t)
    ensures |ah + at| + |dt + dh| == |h + t|
  {
    assert |multiset(ah)| + |multiset(dh)| == |multiset(h)|;
    assert |multiset(at)| + |multiset(dt)| == |multiset(t)|;
  }

  /** Every casualty of a kill pass has expired. */
  lemma CasualtiesExpired(s: seq<int>, ps: seq<Particle>)
    requires InPool(s, ps)
    ensures InPool(Casualties(s, ps), ps)
    ensures forall k :: 0 <= k < |Casualties(s, ps)| ==> Expired(ps[Casualties(s, ps)[k]])
  {
  }

  /** A lower bound on Z that holds of every slot of s holds of every survivor. */
  lemma {:induction false} AliveBelow(s: seq<int>, ps: seq<Particle>, z: real)
    requires InPool(s, ps)
    requires forall k :: 0 <= k < |s| ==> ps[s[k]].z >= z
    ensures forall k :: 0 <= k < |Alive(s, ps)| ==> ps[Alive(s, ps)[k]].z >= z
  {
    if s != [] {
      var init := s[..|s| - 1];
      var last := s[|s| - 1];
      AliveBelow(init, ps, z);
      assert Alive(s, ps) == Alive(init, ps) + (if Expired(ps[last]) then [] else [last]);
    }
  }

  /** Removing expired slots keeps a list that is non-increasing in Z non-increasing. */
  lemma {:induction false} AliveKeepsOrder(s: seq<int>, ps: seq<Particle>)
    requires InPool(s, ps)
    requires SortedFrom(Depths(s, ps), 0)
    ensures SortedFrom(Depths(Alive(s, ps), ps), 0)
  {
    if s != [] {
      var init := s[..|s| - 1];
      var last := s[|s| - 1];
      var d := Depths(s, ps);
      assert SortedFrom(Depths(init, ps), 0) by {
        forall i, j | 0 <= i < j < |init|
          ensures Depths(init, ps)[i] >= Depths(init, ps)[j]
        {
          assert d[i] >= d[j];
        }
      }
      AliveKeepsOrder(init, ps);
      var a := Alive(init, ps);
      var r := Alive(s, ps);
      assert r == a + (if Expired(ps[last]) then [] else [last]);
      if !Expired(ps[last]) {
        forall k | 0 <= k < |init|
          ensures ps[init[k]].z >= ps[last].z
        {
          assert d[k] >= d[|s| - 1];
        }
        AliveBelow(init, ps, ps[last].z);
        var da := Depths(a, ps);
        var dr := Depths(r, ps);
        forall i, j | 0 <= i < j < |r|
          ensures dr[i] >= dr[j]
        {
          assert r[i] == a[i];
          if j < |a| {
            assert r[j] == a[j];
            assert da[i] >= da[j];
          } else {
            assert r[j] == last;
            assert dr[i] == ps[a[i]].z && dr[j] == ps[last].z;
          }
        }
        assert SortedFrom(dr, 0);
      } else {
        assert r == a;
      }
    }
  }

  /** Survivors depend on nothing but the lifetimes of the list's own records. */
  lemma {:induction false} AliveFrame(s: seq<int>, ps: seq<Particle>, qs: seq<Particle>)
    requires InPool(s, ps) && |qs| == |ps|
    requires forall k :: 0 <= k < |s| ==> qs[s[k]].life == ps[s[k]].life
    ensures InPool(s, qs) && Alive(s, qs) == Alive(s, ps)
  {
    if s != [] {
      var init := s[..|s| - 1];
      forall k | 0 <= k < |init|
        ensures qs[init[k]].life == ps[init[k]].life
      {
        assert init[k] == s[k];
      }
      AliveFrame(init, ps, qs);
    }
  }

  /** The survivors of a list that was settled, in records that keep every particle's Z
      position and Z velocity, are settled. */
  lemma SurvivorsSettled(s: seq<int>, ps: seq<Particle>, qs: seq<Particle>)
    requires InPool(s, ps) && Settled(s, ps) && |qs| == |ps|
    requires forall j :: 0 <= j < |ps| ==> qs[j].z == ps[j].z && qs[j].vz == ps[j].vz
    ensures InPool(Alive(s, ps), qs) && Settled(Alive(s, ps), qs)
  {
    var r := Alive(s, ps);
    SurvivorsKeepTailOrder(s, ps);
    forall k | 0 <= k < |r|
      ensures ps[r[k]].vz == 0.0
    {
      AliveWithin(s, ps, r[k]);
      var i :| 0 <= i < |s| && s[i] == r[k];
    }
    SettledKept(r, ps, qs);
  }

  /** The nodes after the head of a list ordered from its second node are ordered. */
  lemma TailSorted(s: seq<int>, ps: seq<Particle>)
    requires InPool(s, ps) && s != []
    requires SortedFrom(Depths(s, ps), 1)
    ensures InPool(s[1..], ps)
    ensures SortedFrom(Depths(s[1..], ps), 0)
  {
    var d, t := Depths(s, ps), Depths(s[1..], ps);
    forall i, j | 0 <= i < j < |t|
      ensures t[i] >= t[j]
    {
      assert t[i] == d[i + 1] && t[j] == d[j + 1];
    }
  }

  /** Putting any node in front of an ordered list gives a list ordered from its second node. */
  lemma ConsSorted(x: int, t: seq<int>, ps: seq<Particle>)
    requires 0 <= x < |ps| && InPool(t, ps)
    requires SortedFrom(Depths(t, ps), 0)
    ensures InPool([x] + t, ps)
    ensures SortedFrom(Depths([x] + t, ps), 1)
  {
    var r := [x] + t;
    var d, e := Depths(t, ps), Depths(r, ps);
    forall i, j | 1 <= i < j < |e|
      ensures e[i] >= e[j]
    {
      assert r[i] == t[i - 1] && r[j] == t[j - 1];
      assert d[i - 1] >= d[j - 1];
    }
  }

  /** Survivors of a list whose nodes after the head are ordered by Z are ordered the same way. */
  lemma {:induction false} SurvivorsKeepTailOrder(s: seq<int>, ps: seq<Particle>)
    requires InPool(s, ps)
    requires SortedFrom(Depths(s, ps), 1)
    ensures SortedFrom(Depths(Alive(s, ps), ps), 1)
  {
    if s != [] {
      var head, tail := s[..1], s[1..];
      TailSorted(s, ps);
      AliveKeepsOrder(tail, ps);
      assert s == head + tail;
      AliveAppend(head, tail, ps);
      assert head[..0] == [];
      assert Alive(head, ps) == Alive([], ps) + (if Expired(ps[s[0]]) then [] else [s[0]]);
      if !Expired(ps[s[0]]) {
        assert Alive(head, ps) == [s[0]];
        assert Alive(s, ps) == [s[0]] + Alive(tail, ps);
        ConsSorted(s[0], Alive(tail, ps), ps);
      } else {
        assert Alive(s, ps) == Alive(tail, ps);
      }
    }
  }

  /** s in reverse order. */
  function Reverse(s: seq<int>): (r: seq<int>)
    ensures |r| == |s|
    ensures forall k :: 0 <= k < |s| ==> r[k] == s[|s| - 1 - k]
  {
    if s == [] then [] else [s[|s| - 1]] + Reverse(s[..|s| - 1])
  }

  /** Reversing keeps the slots. */
  lemma {:induction false} ReverseSlots(s: seq<int>)
    ensures multiset(Reverse(s)) == multiset(s)
  {
    if s != [] {
      ReverseSlots(s[..|s| - 1]);
      assert s == s[..|s| - 1] + [s[|s| - 1]];
    }
  }

  /** The free list after the general list's kill pass pushed the slots ds, in that order,
      onto its head: the last one pushed is on top, the old list lies beneath. */
  function PushAll(f: seq<int>, ds: seq<int>): (r: seq<int>)
  {
    Reverse(ds) + f
  }

  /** One more push: PushAll is the result of pushing the slots one at a time. */
  lemma PushStep(f: seq<int>, ds: seq<int>, x: int)
    ensures PushAll(f, ds + [x]) == [x] + PushAll(f, ds)
    ensures multiset(PushAll(f, ds)) == multiset(f) + multiset(ds)
  {
    assert (ds + [x])[..|ds|] == ds;
    ReverseSlots(ds);
  }

  /** The general pass part way: the nodes of s before index i have been checked (the head
      is checked last); the list g is the head, the survivors so far and the unchecked rest,
      and the free list f has had the casualties so far pushed onto the old free list f0. */
  ghost predicate PushPass(s: seq<int>, ps: seq<Particle>, f0: seq<int>, i: int, kept: seq<int>, g: seq<int>, f: seq<int>)
  {
    && 1 <= i <= |s| && InPool(s, ps) && InPool(s[1..i], ps)
    && kept == [s[0]] + Alive(s[1..i], ps)
    && g == kept + s[i..]
    && f == PushAll(f0, Dead(s[1..i], ps))
  }

  /** Where the general pass's walk stands: on the last survivor, whose link in the records
      qs leads to the next unchecked node s[i], or to null when none is left. */
  lemma PushPassNext(s: seq<int>, ps: seq<Particle>, f0: seq<int>, i: int, kept: seq<int>, g: seq<int>, f: seq<int>,
                     qs: seq<Particle>, h: int)
    requires PushPass(s, ps, f0, i, kept, g, f) && Chain(g, h, qs)
    ensures 0 <= kept[|kept| - 1] < |qs|
    ensures qs[kept[|kept| - 1]].next == if i < |s| then s[i] else Null
  {
    var k := |kept| - 1;
    assert g[k] == kept[k];
    assert qs[g[k]].next == Succ(g, k);
    if i < |s| {
      assert g[k + 1] == s[i];
    }
  }

  /** Before the walk nothing has been checked. */
  lemma PushPassStart(s: seq<int>, ps: seq<Particle>, f0: seq<int>)
    requires InPool(s, ps) && s != []
    ensures PushPass(s, ps, f0, 1, [s[0]], s, f0)
  {
    assert s == [s[0]] + s[1..];
  }

  /** The next node to check, s[i], sits right after the survivors so far. */
  lemma NextUnchecked(s: seq<int>, i: int, kept: seq<int>, g: seq<int>)
    requires 0 <= i < |s| && g == kept + s[i..]
    ensures g == kept + [s[i]] + s[i + 1..]
  {
    assert s[i..] == [s[i]] + s[i + 1..];
  }

  /** An expired node at index i is unlinked from behind the last survivor (leaving the
      list g2) and pushed (giving the free list f2); the walk moves on to index j. */
  lemma PushPassDrop(s: seq<int>, ps: seq<Particle>, f0: seq<int>, i: int, kept: seq<int>, g: seq<int>, f: seq<int>,
                     j: int, g2: seq<int>, f2: seq<int>)
    requires PushPass(s, ps, f0, i, kept, g, f) && i < |s| && Expired(ps[s[i]])
    requires j == i + 1 && g2 == kept + s[j..] && f2 == [s[i]] + f
    ensures PushPass(s, ps, f0, j, kept, g2, f2)
  {
    var x, d := s[i], Dead(s[1..i], ps);
    assert InPool(s[1..j], ps) && Alive(s[1..j], ps) == Alive(s[1..i], ps) && Dead(s[1..j], ps) == d + [x] by {
      AliveStep(s, i, ps);
    }
    assert PushAll(f0, d + [x]) == f2 by {
      PushStep(f0, d, x);
    }
  }

  /** A surviving node at index i becomes the last survivor (kept2), and the walk moves on
      to index j. */
  lemma PushPassKeep(s: seq<int>, ps: seq<Particle>, f0: seq<int>, i: int, kept: seq<int>, g: seq<int>, f: seq<int>,
                     j: int, kept2: seq<int>)
    requires PushPass(s, ps, f0, i, kept, g, f) && i < |s| && !Expired(ps[s[i]])
    requires j == i + 1 && kept2 == kept + [s[i]]
    ensures PushPass(s, ps, f0, j, kept2, g, f)
  {
    var x := s[i];
    assert g == kept2 + s[j..] by {
      NextUnchecked(s, i, kept, g);
    }
    assert InPool(s[1..j], ps) && Alive(s[1..j], ps) == Alive(s[1..i], ps) + [x]
        && Dead(s[1..j], ps) == Dead(s[1..i], ps) by {
      AliveStep(s, i, ps);
    }
  }

  /** At the end of the walk every node after the head, t = s[1..], has been checked: the
      list is the head and the survivors of t, and the casualties of t have been pushed. */
  lemma PushPassFinal(s: seq<int>, ps: seq<Particle>, f0: seq<int>, kept: seq<int>, g: seq<int>, f: seq<int>, t: seq<int>)
    requires PushPass(s, ps, f0, |s|, kept, g, f) && t == s[1..]
    ensures s != [] && InPool(s, ps) && InPool(t, ps)
    ensures g == [s[0]] + Alive(t, ps) && f == PushAll(f0, Dead(t, ps))
  {
    assert s[1..|s|] == t && s[|s|..] == [];
  }

  /** After the walk, checking the head completes the pass: an expired head is pushed last. */
  lemma PushPassEnd(s: seq<int>, ps: seq<Particle>, f0: seq<int>, g: seq<int>, f: seq<int>, t: seq<int>)
    requires s != [] && InPool(s, ps) && t == s[1..] && InPool(t, ps)
    requires g == [s[0]] + Alive(t, ps) && f == PushAll(f0, Dead(t, ps))
    ensures Expired(ps[s[0]]) ==> g[1..] == Alive(s, ps) && [s[0]] + f == PushAll(f0, Casualties(s, ps))
    ensures !Expired(ps[s[0]]) ==> g == Alive(s, ps) && f == PushAll(f0, Casualties(s, ps))
  {
    var d := Dead(t, ps);
    if Expired(ps[s[0]]) {
      assert Alive(s, ps) == Alive(t, ps) && Casualties(s, ps) == d + [s[0]] by {
        AliveHead(s, ps);
      }
      assert PushAll(f0, d + [s[0]]) == [s[0]] + f by {
        PushStep(f0, d, s[0]);
      }
    } else {
      assert Alive(s, ps) == [s[0]] + Alive(t, ps) && Casualties(s, ps) == d by {
        AliveHead(s, ps);
      }
    }
  }

  /** The fire list's return of one slot: just after the free-list head, or as the new
      head when the free list is empty. */
  function ReturnAfterHead(f: seq<int>, x: int): (r: seq<int>)
  {
    if f == [] then [x] else [f[0], x] + f[1..]
  }

  /** The free list after the fire list's kill pass returned the slots ds, in that order:
      the free-list head stays on top (or the first returned slot becomes the head), the
      returned slots follow it in reverse order, then the rest of the old list. */
  function ReturnAll(f: seq<int>, ds: seq<int>): (r: seq<int>)
  {
    if f != [] then [f[0]] + Reverse(ds) + f[1..]
    else if ds == [] then []
    else [ds[0]] + Reverse(ds[1..])
  }

  /** What the fire pass leaves in record j of the records ps before it: a survivor of the
      list s has turned to smoke (if its lifetime is below `smokeLife`), any other record
      is as it was. */
  ghost function AfterFirePass(s: seq<int>, ps: seq<Particle>, smokeLife: real, j: int): (r: Particle)
    requires InPool(s, ps) && 0 <= j < |ps|
    ensures r.life == ps[j].life && r.z == ps[j].z && r.vz == ps[j].vz
  {
    if j in Alive(s, ps) then Smoked(ps[j], smokeLife) else ps[j]
  }

  /** The fire pass moves nothing in depth: every record keeps its Z position and Z velocity. */
  lemma FirePassKeepsDepth(s: seq<int>, ps: seq<Particle>, smokeLife: real, qs: seq<Particle>)
    requires InPool(s, ps) && |qs| == |ps|
    requires forall j :: 0 <= j < |ps| ==> Payload(qs[j]) == Payload(AfterFirePass(s, ps, smokeLife, j))
    ensures forall j :: 0 <= j < |ps| ==> qs[j].z == ps[j].z && qs[j].vz == ps[j].vz
  {
    forall j | 0 <= j < |ps|
      ensures qs[j].z == ps[j].z && qs[j].vz == ps[j].vz
    {
      assert Payload(qs[j]) == Payload(AfterFirePass(s, ps, smokeLife, j));
    }
  }

  /** The records qs are the records ps after the fire pass over the list s, but for links. */
  ghost predicate FirePassed(qs: seq<Particle>, s: seq<int>, ps: seq<Particle>, smokeLife: real)
    requires InPool(s, ps)
  {
    |qs| == |ps| && forall j :: 0 <= j < |ps| ==> Payload(qs[j]) == Payload(AfterFirePass(s, ps, smokeLife, j))
  }

  /** The fire pass part way over the list s of the records ps: the nodes before index i
      have been checked (the head is checked last); the list fi is the head, the survivors so
      far and the unchecked rest; the free list f has had the casualties so far returned to
      the old free list f0, the counter c has dropped by one for each, and the records qs
      differ from ps only in the links and in the colour of the survivors so far. */
  ghost predicate ReturnPass(s: seq<int>, ps: seq<Particle>, f0: seq<int>, c0: int, smokeLife: real,
                             i: int, kept: seq<int>, fi: seq<int>, f: seq<int>, c: int, qs: seq<Particle>)
  {
    && 1 <= i <= |s| && InPool(s, ps) && Distinct(s) && InPool(s[1..i], ps)
    && kept == [s[0]] + Alive(s[1..i], ps)
    && fi == kept + s[i..]
    && f == ReturnAll(f0, Dead(s[1..i], ps))
    && c == c0 - |Dead(s[1..i], ps)|
    && |qs| == |ps|
    && (forall j :: 0 <= j < |ps| ==> Payload(qs[j]) == Payload(AfterFirePass(s[1..i], ps, smokeLife, j)))
  }

  /** Where the fire pass's walk stands: on the last survivor, whose link leads to the next
      unchecked node s[i], or to null when none is left; that node's lifetime is the one it
      had before the pass. */
  lemma ReturnPassNext(s: seq<int>, ps: seq<Particle>, f0: seq<int>, c0: int, smokeLife: real,
                       i: int, kept: seq<int>, fi: seq<int>, f: seq<int>, c: int, qs: seq<Particle>, h: int)
    requires ReturnPass(s, ps, f0, c0, smokeLife, i, kept, fi, f, c, qs) && Chain(fi, h, qs)
    ensures 0 <= kept[|kept| - 1] < |qs|
    ensures qs[kept[|kept| - 1]].next == if i < |s| then s[i] else Null
    ensures i < |s| ==> 0 <= s[i] < |qs| && qs[s[i]].life == ps[s[i]].life
  {
    var k := |kept| - 1;
    assert fi[k] == kept[k];
    assert qs[fi[k]].next == Succ(fi, k);
    if i < |s| {
      assert fi[k + 1] == s[i];
      assert Payload(qs[s[i]]) == Payload(AfterFirePass(s[1..i], ps, smokeLife, s[i]));
    }
  }

  /** Before the walk nothing has been checked. */
  lemma ReturnPassStart(s: seq<int>, ps: seq<Particle>, f0: seq<int>, c0: int, smokeLife: real)
    requires InPool(s, ps) && Distinct(s) && s != []
    ensures ReturnPass(s, ps, f0, c0, smokeLife, 1, [s[0]], s, f0, c0, ps)
  {
    assert s == [s[0]] + s[1..];
    assert s[1..1] == [];
  }

  /** The node at index i is on none of the lists the pass has built so far. */
  lemma NotYetChecked(s: seq<int>, ps: seq<Particle>, i: int)
    requires InPool(s, ps) && Distinct(s) && 1 <= i < |s|
    ensures InPool(s[1..i], ps) && s[i] !in Alive(s[1..i], ps) && s[i] != s[0]
  {
    if s[i] in Alive(s[1..i], ps) {
      AliveWithin(s[1..i], ps, s[i]);
    }
  }

  /** An expired node at index i is unlinked from behind the last survivor (leaving the
      fire list fi2) and returned (giving the free list f2 and the count c2); the walk moves
      on to index j. */
  lemma ReturnPassDrop(s: seq<int>, ps: seq<Particle>, f0: seq<int>, c0: int, smokeLife: real,
                       i: int, kept: seq<int>, fi: seq<int>, f: seq<int>, c: int, qs: seq<Particle>,
                       j: int, fi2: seq<int>, f2: seq<int>, c2: int, qs2: seq<Particle>)
    requires ReturnPass(s, ps, f0, c0, smokeLife, i, kept, fi, f, c, qs) && i < |s| && Expired(ps[s[i]])
    requires j == i + 1 && fi2 == kept + s[j..] && f2 == ReturnAfterHead(f, s[i]) && c2 == c - 1
    requires SamePayloads(qs2, qs)
    ensures ReturnPass(s, ps, f0, c0, smokeLife, j, kept, fi2, f2, c2, qs2)
  {
    var x, d := s[i], Dead(s[1..i], ps);
    assert InPool(s[1..j], ps) && Alive(s[1..j], ps) == Alive(s[1..i], ps)
        && Dead(s[1..j], ps) == d + [x] by {
      AliveStep(s, i, ps);
    }
    assert ReturnAll(f0, d + [x]) == f2 by {
      ReturnStep(f0, d, x);
    }
    SameSurvivors(s[1..j], s[1..i], ps, smokeLife, qs2);
  }

  /** A surviving node at index i turns to smoke if its time has come (giving the records
      qs2) and becomes the last survivor (kept2); the walk moves on to index j. */
  lemma ReturnPassKeep(s: seq<int>, ps: seq<Particle>, f0: seq<int>, c0: int, smokeLife: real,
                       i: int, kept: seq<int>, fi: seq<int>, f: seq<int>, c: int, qs: seq<Particle>,
                       j: int, kept2: seq<int>, qs2: seq<Particle>)
    requires ReturnPass(s, ps, f0, c0, smokeLife, i, kept, fi, f, c, qs) && i < |s| && !Expired(ps[s[i]])
    requires j == i + 1 && kept2 == kept + [s[i]] && 0 <= s[i] < |qs|
    requires qs2 == qs[s[i] := Smoked(qs[s[i]], smokeLife)]
    ensures qs[s[i]].life == ps[s[i]].life
    ensures ReturnPass(s, ps, f0, c0, smokeLife, j, kept2, fi, f, c, qs2)
  {
    assert fi == kept2 + s[j..] by {
      NextUnchecked(s, i, kept, fi);
    }
    assert InPool(s[1..j], ps) && Alive(s[1..j], ps) == Alive(s[1..i], ps) + [s[i]]
        && Dead(s[1..j], ps) == Dead(s[1..i], ps) by {
      AliveStep(s, i, ps);
    }
    SmokedNext(s, ps, smokeLife, i, j, qs, qs2);
  }

  /** Records that look like the fire pass over s[1..i], with the unchecked survivor s[i]
      turned to smoke, look like the pass over s[1..j]. */
  lemma SmokedNext(s: seq<int>, ps: seq<Particle>, smokeLife: real, i: int, j: int, qs: seq<Particle>, qs2: seq<Particle>)
    requires InPool(s, ps) && Distinct(s) && 1 <= i < |s| && j == i + 1 && |qs| == |ps|
    requires InPool(s[1..i], ps) && InPool(s[1..j], ps) && Alive(s[1..j], ps) == Alive(s[1..i], ps) + [s[i]]
    requires forall k :: 0 <= k < |ps| ==> Payload(qs[k]) == Payload(AfterFirePass(s[1..i], ps, smokeLife, k))
    requires qs2 == qs[s[i] := Smoked(qs[s[i]], smokeLife)]
    ensures qs[s[i]].life == ps[s[i]].life
    ensures forall k :: 0 <= k < |ps| ==> Payload(qs2[k]) == Payload(AfterFirePass(s[1..j], ps, smokeLife, k))
  {
    var x, a := s[i], Alive(s[1..i], ps);
    NotYetChecked(s, ps, i);
    assert Payload(qs[x]) == Payload(ps[x]);
    forall k | 0 <= k < |ps|
      ensures Payload(qs2[k]) == Payload(AfterFirePass(s[1..j], ps, smokeLife, k))
    {
      assert (k in a + [x]) == (k in a || k == x);
    }
  }

  /** At the end of the walk every node after the head, t = s[1..], has been checked: the
      fire list is the head and the survivors of t, the free list has had the casualties of
      t returned, and the survivors of t have turned to smoke if their time had come. */
  lemma ReturnPassFinal(s: seq<int>, ps: seq<Particle>, f0: seq<int>, c0: int, smokeLife: real,
                        kept: seq<int>, fi: seq<int>, f: seq<int>, c: int, qs: seq<Particle>, t: seq<int>)
    requires ReturnPass(s, ps, f0, c0, smokeLife, |s|, kept, fi, f, c, qs) && t == s[1..]
    ensures s != [] && InPool(s, ps) && Distinct(s) && InPool(t, ps) && |qs| == |ps|
    ensures fi == [s[0]] + Alive(t, ps) && f == ReturnAll(f0, Dead(t, ps)) && c == c0 - |Dead(t, ps)|
    ensures FirePassed(qs, t, ps, smokeLife)
  {
    assert s[1..|s|] == t && s[|s|..] == [];
  }

  /** After the walk, an expired head is unlinked and returned last. */
  lemma ReturnPassEndDrop(s: seq<int>, ps: seq<Particle>, f0: seq<int>, c0: int, smokeLife: real,
                          fi: seq<int>, f: seq<int>, c: int, qs: seq<Particle>, t: seq<int>)
    requires s != [] && InPool(s, ps) && t == s[1..] && InPool(t, ps) && |qs| == |ps| && Expired(ps[s[0]])
    requires fi == [s[0]] + Alive(t, ps) && f == ReturnAll(f0, Dead(t, ps)) && c == c0 - |Dead(t, ps)|
    requires FirePassed(qs, t, ps, smokeLife)
    ensures fi[1..] == Alive(s, ps)
    ensures ReturnAfterHead(f, s[0]) == ReturnAll(f0, Casualties(s, ps))
    ensures c - 1 == c0 - |Casualties(s, ps)|
    ensures FirePassed(qs, s, ps, smokeLife)
  {
    var d := Dead(t, ps);
    assert Alive(s, ps) == Alive(t, ps) && Casualties(s, ps) == d + [s[0]] by {
      AliveHead(s, ps);
    }
    assert ReturnAll(f0, d + [s[0]]) == ReturnAfterHead(f, s[0]) by {
      ReturnStep(f0, d, s[0]);
    }
    SameSurvivors(s, t, ps, smokeLife, qs);
  }

  /** Records that look like the fire pass over t look like the fire pass over s when the
      two lists have the same survivors. */
  lemma SameSurvivors(s: seq<int>, t: seq<int>, ps: seq<Particle>, smokeLife: real, qs: seq<Particle>)
    requires InPool(s, ps) && InPool(t, ps) && Alive(s, ps) == Alive(t, ps) && |qs| == |ps|
    requires forall j :: 0 <= j < |ps| ==> Payload(qs[j]) == Payload(AfterFirePass(t, ps, smokeLife, j))
    ensures forall j :: 0 <= j < |ps| ==> Payload(qs[j]) == Payload(AfterFirePass(s, ps, smokeLife, j))
  {
    forall j | 0 <= j < |ps|
      ensures Payload(qs[j]) == Payload(AfterFirePass(s, ps, smokeLife, j))
    {
      assert AfterFirePass(s, ps, smokeLife, j) == AfterFirePass(t, ps, smokeLife, j);
    }
  }

  /** After the walk, a surviving head turns to smoke if its time has come (giving the
      records qs2), and stays. */
  lemma ReturnPassEndKeep(s: seq<int>, ps: seq<Particle>, f0: seq<int>, c0: int, smokeLife: real,
                          fi: seq<int>, f: seq<int>, c: int, qs: seq<Particle>, t: seq<int>, qs2: seq<Particle>)
    requires s != [] && InPool(s, ps) && Distinct(s) && t == s[1..] && InPool(t, ps) && |qs| == |ps|
    requires !Expired(ps[s[0]])
    requires fi == [s[0]] + Alive(t, ps) && f == ReturnAll(f0, Dead(t, ps)) && c == c0 - |Dead(t, ps)|
    requires FirePassed(qs, t, ps, smokeLife)
    requires qs2 == qs[s[0] := Smoked(qs[s[0]], smokeLife)]
    ensures qs[s[0]].life == ps[s[0]].life
    ensures fi == Alive(s, ps)
    ensures f == ReturnAll(f0, Casualties(s, ps))
    ensures c == c0 - |Casualties(s, ps)|
    ensures FirePassed(qs2, s, ps, smokeLife)
  {
    assert Alive(s, ps) == [s[0]] + Alive(t, ps) && Casualties(s, ps) == Dead(t, ps) by {
      AliveHead(s, ps);
    }
    SmokedHead(s, ps, smokeLife, qs, t, qs2);
  }

  /** The survivors of s are its head and the survivors of t = s[1..]; records that look like
      the fire pass over t, with the head turned to smoke, look like the pass over s. */
  lemma SmokedHead(s: seq<int>, ps: seq<Particle>, smokeLife: real, qs: seq<Particle>, t: seq<int>, qs2: seq<Particle>)
    requires s != [] && InPool(s, ps) && Distinct(s) && t == s[1..] && InPool(t, ps) && |qs| == |ps|
    requires Alive(s, ps) == [s[0]] + Alive(t, ps)
    requires forall j :: 0 <= j < |ps| ==> Payload(qs[j]) == Payload(AfterFirePass(t, ps, smokeLife, j))
    requires qs2 == qs[s[0] := Smoked(qs[s[0]], smokeLife)]
    ensures qs[s[0]].life == ps[s[0]].life
    ensures forall j :: 0 <= j < |ps| ==> Payload(qs2[j]) == Payload(AfterFirePass(s, ps, smokeLife, j))
  {
    var x, a := s[0], Alive(t, ps);
    HeadNotSurvivor(s, ps, t);
    assert Payload(qs[x]) == Payload(ps[x]);
    forall j | 0 <= j < |ps|
      ensures Payload(qs2[j]) == Payload(AfterFirePass(s, ps, smokeLife, j))
    {
      assert (j in [x] + a) == (j in a || j == x);
    }
  }

  /** The head of a list of distinct slots is not among the survivors of the rest. */
  lemma HeadNotSurvivor(s: seq<int>, ps: seq<Particle>, t: seq<int>)
    requires s != [] && Distinct(s) && t == s[1..] && InPool(t, ps)
    ensures s[0] !in Alive(t, ps)
  {
    assert s[0] !in t by {
      assert forall k :: 0 <= k < |t| ==> t[k] == s[k + 1];
    }
    if s[0] in Alive(t, ps) {
      AliveWithin(t, ps, s[0]);
    }
  }

  /** Reversing a list with one more slot at the end puts that slot in front. */
  lemma ReverseSnoc(ds: seq<int>, x: int)
    ensures Reverse(ds + [x]) == [x] + Reverse(ds)
  {
    assert (ds + [x])[..|ds|] == ds;
  }

  /** One more return: ReturnAll is the result of returning the slots one at a time. */
  lemma ReturnStep(f: seq<int>, ds: seq<int>, x: int)
    ensures ReturnAll(f, ds + [x]) == ReturnAfterHead(ReturnAll(f, ds), x)
  {
    if f != [] {
      ReturnStepBehindHead(f, ds, x);
    } else if ds == [] {
      assert ds + [x] == [x];
    } else {
      ReturnStepAsHead(ds, x);
    }
  }

  /** ReturnStep when the free list was not empty: the head stays, x goes right behind it. */
  lemma ReturnStepBehindHead(f: seq<int>, ds: seq<int>, x: int)
    requires f != []
    ensures ReturnAll(f, ds + [x]) == ReturnAfterHead(ReturnAll(f, ds), x)
  {
    ReverseSnoc(ds, x);
    BehindHead(f[0], Reverse(ds), f[1..], x);
  }

  /** Returning x behind the head h of h, rs, t puts it between h and rs. */
  lemma BehindHead(h: int, rs: seq<int>, t: seq<int>, x: int)
    ensures ReturnAfterHead([h] + rs + t, x) == [h] + ([x] + rs) + t
  {
    var r := [h] + rs + t;
    assert r[0] == h && r[1..] == rs + t;
  }

  /** ReturnStep when the free list was empty: the first slot returned became the head. */
  lemma ReturnStepAsHead(ds: seq<int>, x: int)
    requires ds != []
    ensures ReturnAll([], ds + [x]) == ReturnAfterHead(ReturnAll([], ds), x)
  {
    var e := ds + [x];
    assert e[0] == ds[0] && e[1..] == ds[1..] + [x];
    ReverseSnoc(ds[1..], x);
    var r := ReturnAll([], ds);
    assert r == [ds[0]] + Reverse(ds[1..]);
  }

  /** Returning slots to the free list loses none and adds no other. */
  lemma {:induction false} ReturnSlots(f: seq<int>, ds: seq<int>)
    ensures multiset(ReturnAll(f, ds)) == multiset(f) + multiset(ds)
  {
    if f != [] {
      ReverseSlots(ds);
      assert f == [f[0]] + f[1..];
    } else if ds != [] {
      ReverseSlots(ds[1..]);
      assert ds == [ds[0]] + ds[1..];
    }
  }
}
