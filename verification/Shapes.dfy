/** Trees of nodes in memory, as the addresses of the blocks they own. */
module Shapes {

  /** An address; 0 is the null pointer. */
  type Ptr = nat

  /** A node at p with the two strings it may own, and its children. The children of a node that is a reference
      belong to someone else and are not part of its shape. */
  datatype Shape = Shape(p: Ptr, reference: bool, name: Ptr, text: Ptr, kids: seq<Shape>)

  function At(ks: seq<Shape>, i: int): Ptr
  {
    if 0 <= i < |ks| then ks[i].p else 0
  }

  /** The blocks a node owns itself. */
  function Own(t: Shape): set<Ptr>
  {
    {t.p, t.name, t.text} - {0}
  }

  function Footprint(t: Shape): set<Ptr>
  {
    Own(t) + Footprints(t.kids)
  }

  function Footprints(ks: seq<Shape>): set<Ptr>
  {
    if ks == [] then {} else Footprint(ks[0]) + Footprints(ks[1..])
  }

  /** No block is owned twice. */
  ghost predicate Separate(t: Shape)
  {
    && t.name != t.p && t.text != t.p && (t.name == t.text ==> t.name == 0)
    && Own(t) !! Footprints(t.kids)
    && SeparateAll(t.kids)
  }

  ghost predicate SeparateAll(ks: seq<Shape>)
  {
    && (forall i :: 0 <= i < |ks| ==> Separate(ks[i]))
    && (forall i, j :: 0 <= i < j < |ks| ==> Footprint(ks[i]) !! Footprint(ks[j]))
  }

  lemma {:induction false} InFootprints(ks: seq<Shape>, q: Ptr)
    ensures q in Footprints(ks) <==> exists i :: 0 <= i < |ks| && q in Footprint(ks[i])
  {
    if ks != [] {
      InFootprints(ks[1..], q);
      if q in Footprints(ks[1..]) {
        var i :| 0 <= i < |ks[1..]| && q in Footprint(ks[1..][i]);
        assert q in Footprint(ks[i + 1]);
      }
      if i :| 0 <= i < |ks| && q in Footprint(ks[i]) {
        if i > 0 {
          assert q in Footprint(ks[1..][i - 1]);
        }
      }
    }
  }

  lemma FootprintsAt(ks: seq<Shape>, i: nat)
    requires i < |ks|
    ensures Footprint(ks[i]) <= Footprints(ks)
  {
    forall q | q in Footprint(ks[i]) ensures q in Footprints(ks) {
      InFootprints(ks, q);
    }
  }

  /** A list without its i-th element. */
  function Without(ks: seq<Shape>, i: nat): (r: seq<Shape>)
    requires i < |ks|
    ensures |r| == |ks| - 1
    ensures forall j :: 0 <= j < |r| ==> r[j] == ks[if j < i then j else j + 1]
  {
    ks[..i] + ks[i + 1..]
  }

  /** Of the items in s, a tree has none but perhaps its root. */
  predicate RootOnly(t: Shape, s: seq<Ptr>)
  {
    forall q :: q in s && q in Footprint(t) ==> q == t.p
  }

  // ---------------------------------------------------------------------------------
  // Lists of children
  // ---------------------------------------------------------------------------------

  function Ptrs(ks: seq<Shape>): (ps: seq<Ptr>)
    ensures |ps| == |ks| && forall i :: 0 <= i < |ks| ==> ps[i] == ks[i].p
  {
    seq(|ks|, i requires 0 <= i < |ks| => ks[i].p)
  }

  function PtrAt(ps: seq<Ptr>, i: int): Ptr
  {
    if 0 <= i < |ps| then ps[i] else 0
  }

  predicate NoDup(ps: seq<Ptr>)
  {
    forall i, j :: 0 <= i < j < |ps| ==> ps[i] != ps[j]
  }

  function PtrsWithout(ps: seq<Ptr>, k: nat): (r: seq<Ptr>)
    requires k < |ps|
    ensures |r| == |ps| - 1 && forall j :: 0 <= j < |r| ==> r[j] == ps[if j < k then j else j + 1]
  {
    ps[..k] + ps[k + 1..]
  }

  /** Two places of a list without duplicates. */
  lemma Differ(ps: seq<Ptr>, i: nat, j: nat)
    requires NoDup(ps) && i < |ps| && j < |ps| && i != j
    ensures ps[i] != ps[j]
  {
    if i < j {
    } else {
      assert ps[j] != ps[i];
    }
  }

  /** The neighbours of place k are where they are expected, and elsewhere than the others. */
  lemma Neighbours(ps: seq<Ptr>, k: nat, j: nat)
    requires NoDup(ps) && 0 !in ps && k < |ps| && j < |ps|
    ensures ps[j] == ps[k] <==> j == k
    ensures ps[j] == PtrAt(ps, k + 1) <==> j == k + 1
    ensures ps[j] == PtrAt(ps, k - 1) <==> j == k - 1
    ensures ps[0] == ps[k] <==> k == 0
  {
    if j != k {
      Differ(ps, j, k);
    }
    if k + 1 < |ps| && j != k + 1 {
      Differ(ps, j, k + 1);
    }
    if k > 0 {
      Differ(ps, 0, k);
      if j != k - 1 {
        Differ(ps, j, k - 1);
      }
    }
  }

  lemma {:induction false} FootprintsJoin(ks: seq<Shape>, ls: seq<Shape>)
    ensures Footprints(ks + ls) == Footprints(ks) + Footprints(ls)
  {
    if ks == [] {
      assert ks + ls == ls;
    } else {
      assert (ks + ls)[1..] == ks[1..] + ls;
      FootprintsJoin(ks[1..], ls);
    }
  }

  lemma {:induction false} FootprintsCut(ks: seq<Shape>, k: nat)
    requires k < |ks|
    ensures Footprints(ks) == Footprint(ks[k]) + Footprints(Without(ks, k))
    decreases k
  {
    if k == 0 {
      assert Without(ks, 0) == ks[1..];
    } else {
      FootprintsCut(ks[1..], k - 1);
      WithoutTail(ks, k);
    }
  }

  lemma WithoutTail(ks: seq<Shape>, k: nat)
    requires 0 < k < |ks|
    ensures Without(ks, k)[0] == ks[0] && Without(ks, k)[1..] == Without(ks[1..], k - 1) && ks[1..][k - 1] == ks[k]
  {
  }

  lemma SeparateWithout(ks: seq<Shape>, k: nat)
    requires k < |ks| && SeparateAll(ks)
    ensures SeparateAll(Without(ks, k))
  {
    var ls := Without(ks, k);
    forall i, j | 0 <= i < j < |ls| ensures Footprint(ls[i]) !! Footprint(ls[j]) {
      assert Footprint(ks[if i < k then i else i + 1]) !! Footprint(ks[if j < k then j else j + 1]);
    }
  }

  lemma FootprintsWithout(ks: seq<Shape>, k: nat)
    requires k < |ks| && SeparateAll(ks)
    ensures Footprints(ks) == Footprint(ks[k]) + Footprints(Without(ks, k))
    ensures Footprint(ks[k]) !! Footprints(Without(ks, k)) && SeparateAll(Without(ks, k))
  {
    var ls := Without(ks, k);
    FootprintsCut(ks, k);
    SeparateWithout(ks, k);
    forall q | q in Footprints(ls) ensures q !in Footprint(ks[k]) {
      InFootprints(ls, q);
      var j :| 0 <= j < |ls| && q in Footprint(ls[j]);
      if j < k {
        assert Footprint(ks[j]) !! Footprint(ks[k]);
      } else {
        assert Footprint(ks[k]) !! Footprint(ks[j + 1]);
      }
    }
  }

  lemma Singleton(t: Shape)
    ensures Footprints([t]) == Footprint(t)
  {
    assert [t][1..] == [];
  }

  lemma FootprintsUpTo(ks: seq<Shape>, i: nat)
    requires i < |ks|
    ensures Footprints(ks[..i + 1]) == Footprints(ks[..i]) + Footprint(ks[i])
  {
    FootprintsJoin(ks[..i], [ks[i]]);
    Singleton(ks[i]);
    assert ks[..i] + [ks[i]] == ks[..i + 1];
  }

  /** A tree added to a list it shares nothing with. */
  lemma JoinSeparate(ks: seq<Shape>, t: Shape)
    requires SeparateAll(ks) && Separate(t) && Footprint(t) !! Footprints(ks)
    ensures SeparateAll(ks + [t]) && Footprints(ks + [t]) == Footprints(ks) + Footprint(t)
  {
    FootprintsJoin(ks, [t]);
    Singleton(t);
    forall i | 0 <= i < |ks| ensures Footprint(ks[i]) !! Footprint(t) {
      FootprintsAt(ks, i);
    }
  }

  lemma OwnApart(a: Shape, ks: seq<Shape>)
    requires Own(a) !! Footprints(ks)
    ensures forall i :: 0 <= i < |ks| ==> a.p !in Footprint(ks[i]) || a.p == 0
  {
    forall i | 0 <= i < |ks| ensures a.p !in Footprint(ks[i]) || a.p == 0 {
      FootprintsAt(ks, i);
    }
  }

  lemma UpdateSeparate(ks: seq<Shape>, k: nat, t: Shape)
    requires k < |ks| && SeparateAll(ks) && Separate(t) && Footprint(t) !! Footprints(ks)
    ensures SeparateAll(ks[k := t])
    ensures Footprints(ks[k := t]) == Footprints(ks) - Footprint(ks[k]) + Footprint(t)
    ensures Footprint(ks[k]) !! Footprints(ks[k := t]) && Footprint(ks[k]) <= Footprints(ks)
  {
    var ls := ks[k := t];
    assert Without(ls, k) == Without(ks, k);
    forall i | 0 <= i < |ks| ensures Footprint(ks[i]) !! Footprint(t) {
      FootprintsAt(ks, i);
    }
    forall i, j | 0 <= i < j < |ls| ensures Footprint(ls[i]) !! Footprint(ls[j]) {
      assert i != k && j != k ==> Footprint(ks[i]) !! Footprint(ks[j]);
    }
    FootprintsWithout(ks, k);
    FootprintsWithout(ls, k);
  }
}
