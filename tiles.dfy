/**
 * Grid cells, 4-neighbour adjacency and connectivity of tile sets.
 *
 * `Connected` is the reference notion of contiguity the flood fills of the
 * district module are proved against: a tile set is connected when no
 * non-trivial part of it is closed under taking 4-neighbours inside the set.
 */
module Tiles {

  /** A grid cell, identified by (row, column). */
  type Tile = (int, int)

  /** A district is a plain set of tiles. */
  type District = set<Tile>

  /** Four-neighbour (up, down, left, right) adjacency. */
  predicate Adjacent(a: Tile, b: Tile) {
    (a.0 == b.0 && (a.1 - b.1 == 1 || b.1 - a.1 == 1)) ||
    (a.1 == b.1 && (a.0 - b.0 == 1 || b.0 - a.0 == 1))
  }

  /** `_has_neighbors`: does `t` have a 4-neighbour in `s`? */
  function HasNeighborIn(t: Tile, s: set<Tile>): (r: bool)
    ensures r <==> exists u :: u in s && Adjacent(t, u)
  {
    var (i, j) := t;
    var r := (i - 1, j) in s || (i, j - 1) in s || (i + 1, j) in s || (i, j + 1) in s;
    assert r ==> exists u :: u in s && Adjacent(t, u) by {
      if (i - 1, j) in s { assert Adjacent(t, (i - 1, j)); }
      else if (i, j - 1) in s { assert Adjacent(t, (i, j - 1)); }
      else if (i + 1, j) in s { assert Adjacent(t, (i + 1, j)); }
      else if (i, j + 1) in s { assert Adjacent(t, (i, j + 1)); }
    }
    assert (exists u :: u in s && Adjacent(t, u)) ==> r by {
      if u :| u in s && Adjacent(t, u) {
        AdjacentCases(t, u);
      }
    }
    r
  }

  /** `_get_neighbors`: the 4-neighbours of `t` that lie in `s`. */
  function NeighborsIn(t: Tile, s: set<Tile>): (r: set<Tile>)
    ensures forall u :: u in r <==> u in s && Adjacent(t, u)
  {
    var (i, j) := t;
    var r := (if (i - 1, j) in s then {(i - 1, j)} else {}) +
             (if (i, j - 1) in s then {(i, j - 1)} else {}) +
             (if (i + 1, j) in s then {(i + 1, j)} else {}) +
             (if (i, j + 1) in s then {(i, j + 1)} else {});
    assert forall u :: u in s && Adjacent(t, u) ==> u in r by {
      forall u | u in s && Adjacent(t, u) ensures u in r {
        AdjacentCases(t, u);
      }
    }
    r
  }

  /** The four neighbours are the only tiles adjacent to `t`. */
  lemma AdjacentCases(t: Tile, u: Tile)
    requires Adjacent(t, u)
    ensures u == (t.0 - 1, t.1) || u == (t.0, t.1 - 1) || u == (t.0 + 1, t.1) || u == (t.0, t.1 + 1)
  {
  }

  /** No tile of `s` adjacent to a tile of `a` lies outside `a`. */
  ghost predicate Closed(a: set<Tile>, s: set<Tile>) {
    forall x, y {:trigger Adjacent(x, y)} :: x in a && y in s && Adjacent(x, y) ==> y in a
  }

  /** Contiguity: every subset of `s` closed inside `s` is empty or all of `s`. */
  ghost predicate Connected(s: set<Tile>) {
    forall a {:trigger Closed(a, s)} :: a <= s && Closed(a, s) ==> a == {} || a == s
  }

  /** `c` is a connected component of `s`: non-empty, closed in `s` and connected. */
  ghost predicate IsComponent(c: set<Tile>, s: set<Tile>) {
    c != {} && c <= s && Closed(c, s) && Connected(c)
  }

  /** The complement of a closed part is closed (adjacency is symmetric). */
  lemma ComplementClosed(a: set<Tile>, s: set<Tile>)
    requires a <= s && Closed(a, s)
    ensures Closed(s - a, s)
  {
    forall x, y | x in s - a && y in s && Adjacent(x, y)
      ensures y in s - a
    {
      assert Adjacent(y, x);
    }
  }

  /** Closedness composes along nested sets. */
  lemma ClosedTrans(a: set<Tile>, b: set<Tile>, s: set<Tile>)
    requires a <= b <= s && Closed(a, b) && Closed(b, s)
    ensures Closed(a, s)
  {
  }

  /**
   * A closed set that lies inside every closed set containing `start` is
   * connected. This is what a flood fill from `start` produces.
   */
  lemma LeastClosedIsConnected(x: set<Tile>, s: set<Tile>, start: Tile)
    requires start in x && x <= s && Closed(x, s)
    requires forall a {:trigger Closed(a, s)} :: a <= s && Closed(a, s) && start in a ==> x <= a
    ensures IsComponent(x, s)
  {
    forall a | a <= x && Closed(a, x)
      ensures a == {} || a == x
    {
      ClosedTrans(a, x, s);
      if start in a {
        assert x <= a;
      } else {
        ComplementClosed(a, x);
        ClosedTrans(x - a, x, s);
        assert x <= x - a;
      }
    }
  }

  /** Sets of at most one tile are connected. */
  lemma SmallConnected(s: set<Tile>)
    requires |s| <= 1
    ensures Connected(s)
  {
    forall a | a <= s && Closed(a, s)
      ensures a == {} || a == s
    {
      if a != {} {
        var x :| x in a;
        assert s == {x} by {
          forall y | y in s ensures y == x {
            if y != x {
              assert {x, y} <= s;
              assert |{x, y}| == 2;
              SubsetCard({x, y}, s);
            }
          }
        }
      }
    }
  }

  lemma SubsetCard<T>(a: set<T>, b: set<T>)
    requires a <= b
    ensures |a| <= |b|
  {
    if a != {} {
      var x :| x in a;
      SubsetCard(a - {x}, b - {x});
    }
  }

  /** Two adjacent tiles form a connected set. */
  lemma {:induction false} PairConnected(x: Tile, y: Tile)
    requires Adjacent(x, y)
    ensures Connected({x, y})
  {
    forall a | a <= {x, y} && Closed(a, {x, y})
      ensures a == {} || a == {x, y}
    {
      assert Adjacent(x, y) && Adjacent(y, x);
      assert x in a ==> y in a;
      assert y in a ==> x in a;
    }
  }

  /** Two components of the same set that share a tile are equal. */
  lemma {:induction false} ComponentsMeet(c1: set<Tile>, c2: set<Tile>, s: set<Tile>, t: Tile)
    requires IsComponent(c1, s) && IsComponent(c2, s) && t in c1 && t in c2
    ensures c1 == c2
  {
    assert t in c1 * c2;
    assert c1 * c2 <= c1 && Closed(c1 * c2, c1);
    assert c1 * c2 <= c2 && Closed(c1 * c2, c2);
    assert c1 * c2 == c1;
    assert c1 * c2 == c2;
  }

  /** A connected set is its own only component. */
  lemma {:induction false} ConnectedSoleComponent(c: set<Tile>, s: set<Tile>)
    requires Connected(s) && IsComponent(c, s)
    ensures c == s
  {
  }

  /** The component of `t` in `s`: the least closed part of `s` containing `t`. */
  ghost function ComponentOf(t: Tile, s: set<Tile>): (c: set<Tile>)
    requires t in s
    ensures t in c && IsComponent(c, s)
    ensures forall a {:trigger Closed(a, s)} :: a <= s && Closed(a, s) && t in a ==> c <= a
  {
    var c := set u | u in s && forall a {:trigger Closed(a, s)} :: a <= s && Closed(a, s) && t in a ==> u in a;
    assert Closed(c, s);
    LeastClosedIsConnected(c, s, t);
    c
  }

  /**
   * A tile adjacent to every component of `s` joins them into one connected set.
   * This is the sufficiency argument behind the trade filter.
   */
  lemma {:induction false} HubConnects(s: set<Tile>, hub: Tile)
    requires forall c :: IsComponent(c, s) ==> HasNeighborIn(hub, c)
    ensures Connected(s + {hub})
  {
    var t := s + {hub};
    forall a | a <= t && Closed(a, t)
      ensures a == {} || a == t
    {
      if hub in a {
        HubClosedCoversAll(s, hub, a);
      } else {
        ComplementClosed(a, t);
        HubClosedCoversAll(s, hub, t - a);
        assert a == {};
      }
    }
  }

  lemma {:induction false} HubClosedCoversAll(s: set<Tile>, hub: Tile, a: set<Tile>)
    requires forall c :: IsComponent(c, s) ==> HasNeighborIn(hub, c)
    requires a <= s + {hub} && Closed(a, s + {hub}) && hub in a
    ensures a == s + {hub}
  {
    forall x | x in s
      ensures x in a
    {
      var c := ComponentOf(x, s);
      assert HasNeighborIn(hub, c);
      var y :| y in c && Adjacent(hub, y);
      assert y in a;
      forall u, v | u in a * c && v in c && Adjacent(u, v)
        ensures v in a * c
      {
        assert v in s + {hub};
      }
      assert y in a * c;
      assert a * c <= c && Closed(a * c, c);
      assert a * c == c;
    }
  }

  /** The union of a sequence of tile sets (the source's `reduce` with `|`). */
  function Union(ds: seq<set<Tile>>): set<Tile> {
    if |ds| == 0 then {} else Union(ds[..|ds| - 1]) + ds[|ds| - 1]
  }

  /** A tile is in the union exactly when some set of the sequence holds it. */
  lemma {:induction false} UnionMember(ds: seq<set<Tile>>, t: Tile)
    ensures t in Union(ds) <==> exists k :: 0 <= k < |ds| && t in ds[k]
  {
    if |ds| > 0 {
      var init := ds[..|ds| - 1];
      UnionMember(init, t);
      if t in Union(init) {
        var k :| 0 <= k < |init| && t in init[k];
        assert t in ds[k];
      }
      if k :| 0 <= k < |ds| && t in ds[k] {
        if k < |ds| - 1 { assert t in init[k]; }
      }
    }
  }

  lemma UnionAppend(ds: seq<set<Tile>>, d: set<Tile>)
    ensures Union(ds + [d]) == Union(ds) + d
  {
    assert (ds + [d])[..|ds|] == ds;
  }
}
