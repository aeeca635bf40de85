/**
 * The `District` class of the redistricting engine: flood-fill contiguity,
 * decomposition into connected sub-districts, borders and the enumeration of
 * one-for-one tile trades that keep a district contiguous.
 *
 * A district never changes its tiles after construction, so it is the value
 * `Tiles.District` (a set of tiles) and its methods take it as `self`.
 */
module Districts {
  import opened Tiles
  import opened Wrappers

  /** One round of the flood fill: the tiles of `remaining` with a 4-neighbour in `queue`. */
  method Expand(queue: set<Tile>, remaining: set<Tile>) returns (newTiles: set<Tile>)
    ensures forall y :: y in newTiles <==> y in remaining && exists x :: x in queue && Adjacent(x, y)
  {
    newTiles := {};
    var todo := queue;
    while todo != {}
      invariant todo <= queue
      invariant forall y :: y in newTiles <==>
        y in remaining && exists x :: x in queue - todo && Adjacent(x, y)
      decreases |todo|
    {
      var tile :| tile in todo;
      newTiles := newTiles + NeighborsIn(tile, remaining);
      todo := todo - {tile};
    }
  }

  /** Every 4-neighbour inside `pool` of a collected tile is collected or queued. */
  ghost predicate FrontierQueued(collected: set<Tile>, queue: set<Tile>, pool: set<Tile>) {
    forall x, y {:trigger Adjacent(x, y)} :: x in collected && y in pool && Adjacent(x, y) ==> y in collected + queue
  }

  /** `r` lies inside every part of `pool` that is closed and contains `start`. */
  ghost predicate InsideClosedParts(r: set<Tile>, pool: set<Tile>, start: Tile) {
    forall a {:trigger Closed(a, pool)} :: a <= pool && Closed(a, pool) && start in a ==> r <= a
  }

  /**
   * The flood fill shared by `is_contiguous` and `get_contiguous_subdistricts`:
   * starting from `start`, move the reachable tiles of `pool` from `remaining`
   * through `queue` into `collected`. The collected tiles are the connected
   * component of `start`; `remaining` is what the fill did not reach.
   */
  method FloodFill(pool: set<Tile>, start: Tile) returns (collected: set<Tile>, remaining: set<Tile>)
    requires start in pool
    ensures collected !! remaining && collected + remaining == pool
    ensures start in collected && IsComponent(collected, pool)
  {
    collected := {};
    var queue := {start};
    remaining := pool - queue;
    while queue != {}
      invariant collected !! queue && collected !! remaining && queue !! remaining
      invariant collected + queue + remaining == pool
      invariant start in collected + queue
      invariant FrontierQueued(collected, queue, pool)
      invariant InsideClosedParts(collected + queue, pool, start)
      decreases |remaining| + |queue|
    {
      var newTiles := Expand(queue, remaining);
      FloodStep(collected, queue, remaining, pool, start, newTiles);
      collected := collected + queue;
      remaining := remaining - newTiles;
      queue := newTiles;
    }
    FloodDone(collected, pool, start);
  }

  /** With the queue empty, the collected tiles are the component of `start`. */
  lemma FloodDone(collected: set<Tile>, pool: set<Tile>, start: Tile)
    requires start in collected && collected <= pool
    requires FrontierQueued(collected, {}, pool)
    requires InsideClosedParts(collected, pool, start)
    ensures IsComponent(collected, pool)
  {
    assert Closed(collected, pool);
    LeastClosedIsConnected(collected, pool, start);
  }

  /** One round of the flood fill keeps its two invariants. */
  lemma FloodStep(collected: set<Tile>, queue: set<Tile>, remaining: set<Tile>, pool: set<Tile>,
                  start: Tile, newTiles: set<Tile>)
    requires collected !! queue && collected !! remaining && queue !! remaining
    requires collected + queue + remaining == pool
    requires start in collected + queue && queue != {}
    requires FrontierQueued(collected, queue, pool)
    requires InsideClosedParts(collected + queue, pool, start)
    requires forall y :: y in newTiles <==> y in remaining && exists x :: x in queue && Adjacent(x, y)
    ensures var c, r := collected + queue, remaining - newTiles;
      c !! newTiles && c !! r && newTiles !! r && c + newTiles + r == pool && start in c + newTiles
    ensures |remaining - newTiles| + |newTiles| < |remaining| + |queue|
    ensures FrontierQueued(collected + queue, newTiles, pool)
    ensures InsideClosedParts(collected + queue + newTiles, pool, start)
  {
    assert newTiles <= remaining;
    assert |remaining - newTiles| + |newTiles| == |remaining| by {
      assert remaining == (remaining - newTiles) + newTiles;
    }
    forall a | a <= pool && Closed(a, pool) && start in a
      ensures collected + queue + newTiles <= a
    {
      assert collected + queue <= a;
      forall y | y in newTiles ensures y in a {
        var x :| x in queue && Adjacent(x, y);
      }
    }
    forall x, y | x in collected + queue && y in pool && Adjacent(x, y)
      ensures y in collected + queue + newTiles
    {
      if x in queue && y in remaining {
        assert y in newTiles;
      }
    }
  }

  /** `is_contiguous`: a flood fill from one tile reaches every tile. */
  method IsContiguous(self: District) returns (b: bool)
    ensures b == Connected(self)
  {
    if |self| <= 1 {
      SmallConnected(self);
      return true;
    }
    var start :| start in self;
    var collected, remaining := FloodFill(self, start);
    b := |remaining| == 0;
    if !b {
      assert collected <= self && Closed(collected, self);
    }
  }

  /**
   * `get_contiguous_subdistricts`: the connected components of `self`,
   * pairwise disjoint and together exactly `self`.
   */
  method GetContiguousSubdistricts(self: District) returns (subs: seq<District>)
    ensures self == {} ==> subs == []
    ensures forall k :: 0 <= k < |subs| ==> IsComponent(subs[k], self)
    ensures forall k, l :: 0 <= k < l < |subs| ==> subs[k] !! subs[l]
    ensures Union(subs) == self
    ensures Connected(self) && self != {} ==> subs == [self]
  {
    if |self| == 0 {
      return [];
    }
    if |self| == 1 {
      SmallConnected(self);
      subs := [self];
      assert subs[..0] == [];
      return;
    }
    subs := [];
    var pool := self;
    while pool != {}
      invariant PartialDecomposition(subs, pool, self)
      invariant Connected(self) ==> (subs == [] && pool == self) || (subs == [self] && pool == {})
      decreases |pool|
    {
      var start :| start in pool;
      var collected, remaining := FloodFill(pool, start);
      ghost var first := Connected(self) && pool == self;
      if first {
        ConnectedSoleComponent(collected, self);
        assert collected == self && remaining == {};
      }
      DecompositionStep(subs, pool, self, collected, remaining);
      subs := subs + [collected];
      pool := remaining;
      if first {
        assert subs == [self];
      }
    }
    DecompositionDone(subs, self);
  }

  lemma DecompositionDone(subs: seq<District>, self: District)
    requires PartialDecomposition(subs, {}, self)
    ensures forall k :: 0 <= k < |subs| ==> IsComponent(subs[k], self)
    ensures forall k, l :: 0 <= k < l < |subs| ==> subs[k] !! subs[l]
    ensures Union(subs) == self
  {
  }

  /**
   * `subs` are disjoint components of `self` and `pool` holds the tiles of
   * `self` no sub-district has collected yet.
   */
  ghost predicate PartialDecomposition(subs: seq<District>, pool: set<Tile>, self: District) {
    && pool <= self && Closed(pool, self)
    && (forall k :: 0 <= k < |subs| ==> IsComponent(subs[k], self) && subs[k] !! pool)
    && (forall k, l :: 0 <= k < l < |subs| ==> subs[k] !! subs[l])
    && self == pool + Union(subs)
  }

  /** Moving the component a flood fill collected from `pool` into `subs`. */
  lemma DecompositionStep(subs: seq<District>, pool: set<Tile>, self: District,
                          collected: set<Tile>, remaining: set<Tile>)
    requires PartialDecomposition(subs, pool, self)
    requires collected !! remaining && collected + remaining == pool
    requires IsComponent(collected, pool)
    ensures PartialDecomposition(subs + [collected], remaining, self)
  {
    ClosedTrans(collected, pool, self);
    ComplementClosed(collected, pool);
    assert remaining == pool - collected;
    ClosedTrans(remaining, pool, self);
    UnionAppend(subs, collected);
  }

  /** `find_border`: the tiles of `self` with a 4-neighbour in `other`. */
  function FindBorder(self: District, other: District): (r: set<Tile>)
    ensures r <= self
    ensures forall t :: t in r <==> t in self && exists u :: u in other && Adjacent(t, u)
  {
    set t | t in self && HasNeighborIn(t, other)
  }

  /** `find_border_pairs`: every adjacent pair (tile of `self`, tile of `other`). */
  method FindBorderPairs(self: District, other: District) returns (border: set<(Tile, Tile)>)
    ensures forall a, b :: (a, b) in border <==> a in self && b in other && Adjacent(a, b)
  {
    border := {};
    var todo := self;
    while todo != {}
      invariant todo <= self
      invariant forall a, b :: (a, b) in border <==> a in self - todo && b in other && Adjacent(a, b)
      decreases |todo|
    {
      var tile :| tile in todo;
      var neighbors := NeighborsIn(tile, other);
      border := border + set b | b in neighbors :: (tile, b);
      todo := todo - {tile};
    }
  }

  /**
   * The rule `find_allowed_trades` implements for giving `a` (a tile of
   * `self`) in exchange for `b` (a tile of `other`): `b` borders `self`;
   * `a` is not `b` and, once `b` has joined `self`, borders every connected
   * component left of `other` without `b`; and `self` with `b` and without
   * `a` is still contiguous.
   */
  ghost predicate IsAllowedTrade(self: District, other: District, a: Tile, b: Tile) {
    && b in other && HasNeighborIn(b, self)
    && a in self && a != b
    && (forall c :: IsComponent(c, other - {b}) ==> HasNeighborIn(a, c))
    && Connected((self + {b}) - {a})
  }

  ghost predicate NoDuplicates<T>(s: seq<T>) {
    forall k, l :: 0 <= k < l < |s| ==> s[k] != s[l]
  }

  /**
   * A trade the rule allows leaves both districts contiguous: `self` gives
   * `a` and takes `b`, `other` gives `b` and takes `a`.
   */
  lemma {:induction false} AllowedTradeKeepsContiguity(self: District, other: District, a: Tile, b: Tile)
    requires IsAllowedTrade(self, other, a, b)
    ensures a in self && b in other && a != b
    ensures Connected((self - {a}) + {b})
    ensures Connected((other - {b}) + {a})
  {
    assert (self - {a}) + {b} == (self + {b}) - {a};
    HubConnects(other - {b}, a);
  }

  /** The tiles of `base` bordering every set of `subs`. */
  function BorderingAll(base: set<Tile>, subs: seq<District>): (r: set<Tile>)
    ensures forall t :: t in r <==> t in base && forall k :: 0 <= k < |subs| ==> HasNeighborIn(t, subs[k])
  {
    if |subs| == 0 then base
    else BorderingAll(base, subs[..|subs| - 1]) * FindBorder(base, subs[|subs| - 1])
  }

  /** Adjacency to every listed component is adjacency to every component. */
  lemma {:induction false} BorderingAllComponents(subs: seq<District>, s: District, t: Tile)
    requires forall k :: 0 <= k < |subs| ==> IsComponent(subs[k], s)
    requires Union(subs) == s
    ensures (forall k :: 0 <= k < |subs| ==> HasNeighborIn(t, subs[k])) <==>
            (forall c :: IsComponent(c, s) ==> HasNeighborIn(t, c))
  {
    if forall k :: 0 <= k < |subs| ==> HasNeighborIn(t, subs[k]) {
      forall c | IsComponent(c, s) ensures HasNeighborIn(t, c) {
        var x :| x in c;
        UnionMember(subs, x);
        var k :| 0 <= k < |subs| && x in subs[k];
        ComponentsMeet(c, subs[k], s, x);
      }
    }
  }

  /**
   * `find_allowed_trades`, with the intersection of the sub-district borders
   * started from the enlarged `self` (see `FindAllowedTradesAsWritten`): the
   * pairs (tile of `self`, tile of `other`) the trade rule allows, each once.
   */
  method FindAllowedTrades(self: District, other: District) returns (trades: seq<(Tile, Tile)>)
    ensures forall a, b :: (a, b) in trades <==> IsAllowedTrade(self, other, a, b)
    ensures forall k :: 0 <= k < |trades| ==>
      trades[k].0 in self && trades[k].1 in other && trades[k].0 != trades[k].1 &&
      Connected((self - {trades[k].0}) + {trades[k].1})
    ensures NoDuplicates(trades)
  {
    trades := [];
    var borderOther := FindBorder(other, self);
    var todo := borderOther;
    while todo != {}
      invariant todo <= borderOther
      invariant TradesFor(trades, self, other, borderOther - todo, {}, {})
      invariant NoDuplicates(trades)
      decreases |todo|
    {
      var tradeOther :| tradeOther in todo;
      ghost var done := borderOther - todo;
      var candidates := TradeCandidates(self, other, tradeOther);
      ghost var before := trades;
      NotYetTraded(trades, self, other, done, tradeOther);
      trades := AppendContiguousTrades(trades, self + {tradeOther}, tradeOther, candidates);
      BatchDone(before, trades, self, other, done, tradeOther, candidates);
      todo := todo - {tradeOther};
    }
    AllowedTradesKeepContiguity(trades, self, other);
  }

  lemma AllowedTradesKeepContiguity(trades: seq<(Tile, Tile)>, self: District, other: District)
    requires forall a, b :: (a, b) in trades ==> IsAllowedTrade(self, other, a, b)
    ensures forall k :: 0 <= k < |trades| ==>
      trades[k].0 in self && trades[k].1 in other && trades[k].0 != trades[k].1 &&
      Connected((self - {trades[k].0}) + {trades[k].1})
  {
    forall k | 0 <= k < |trades|
      ensures trades[k].0 in self && trades[k].1 in other && trades[k].0 != trades[k].1 &&
              Connected((self - {trades[k].0}) + {trades[k].1})
    {
      assert trades[k] in trades;
      AllowedTradeKeepsContiguity(self, other, trades[k].0, trades[k].1);
    }
  }

  /**
   * The trades collected so far: the allowed ones whose `other` tile is in
   * `done`, and those giving a tile of `chosen` for the tile in `current`.
   */
  ghost predicate TradesFor(trades: seq<(Tile, Tile)>, self: District, other: District,
                            done: set<Tile>, current: set<Tile>, chosen: set<Tile>) {
    forall a, b :: (a, b) in trades <==>
      (b in done && IsAllowedTrade(self, other, a, b)) || (b in current && a in chosen)
  }

  /**
   * The inner loop of `find_allowed_trades`: append `(a, b)` for every
   * candidate `a` whose removal leaves `newThis` contiguous.
   */
  method AppendContiguousTrades(trades0: seq<(Tile, Tile)>, newThis: District, b: Tile, candidates: set<Tile>)
    returns (trades: seq<(Tile, Tile)>)
    requires NoDuplicates(trades0) && forall a :: (a, b) !in trades0
    ensures NoDuplicates(trades)
    ensures forall x, y :: (x, y) in trades <==>
      (x, y) in trades0 || (y == b && x in candidates && Connected(newThis - {x}))
  {
    trades := trades0;
    var todoThis := candidates;
    while todoThis != {}
      invariant todoThis <= candidates
      invariant NoDuplicates(trades)
      invariant forall x, y :: (x, y) in trades <==>
        (x, y) in trades0 || (y == b && x in candidates - todoThis && Connected(newThis - {x}))
      decreases |todoThis|
    {
      var tradeThis :| tradeThis in todoThis;
      var ok := IsContiguous(newThis - {tradeThis});
      if ok {
        assert (tradeThis, b) !in trades;
        trades := trades + [(tradeThis, b)];
      }
      todoThis := todoThis - {tradeThis};
    }
  }

  lemma NotYetTraded(trades: seq<(Tile, Tile)>, self: District, other: District, done: set<Tile>, b: Tile)
    requires TradesFor(trades, self, other, done, {}, {}) && b !in done
    ensures forall a :: (a, b) !in trades
  {
  }

  lemma BatchDone(before: seq<(Tile, Tile)>, trades: seq<(Tile, Tile)>, self: District, other: District,
                  done: set<Tile>, b: Tile, candidates: set<Tile>)
    requires TradesFor(before, self, other, done, {}, {})
    requires forall a :: a in candidates && Connected((self + {b}) - {a}) <==> IsAllowedTrade(self, other, a, b)
    requires forall x, y :: (x, y) in trades <==>
      (x, y) in before || (y == b && x in candidates && Connected((self + {b}) - {x}))
    ensures TradesFor(trades, self, other, done + {b}, {}, {})
  {
  }

  /**
   * The first half of the body of `find_allowed_trades` for one tile `b` of
   * `other` bordering `self`: the tiles of `self` that border every
   * sub-district `other` falls into without `b`. Exactly those of them whose
   * removal keeps `self + {b}` contiguous give allowed trades.
   */
  method TradeCandidates(self: District, other: District, b: Tile) returns (candidates: set<Tile>)
    requires b in other && HasNeighborIn(b, self)
    ensures candidates <= self
    ensures forall a :: a in candidates && Connected((self + {b}) - {a}) <==> IsAllowedTrade(self, other, a, b)
  {
    var newThis := self + {b};
    var newOther := other - {b};
    var subs := GetContiguousSubdistricts(newOther);
    candidates := BorderingAll(newThis, subs) - {b};
    ghost var chosen := set a | a in candidates && Connected(newThis - {a});
    CandidatesAllowed(self, other, b, subs, candidates, chosen);
  }

  lemma CandidatesAllowed(self: District, other: District, b: Tile, subs: seq<District>,
                          candidates: set<Tile>, chosen: set<Tile>)
    requires b in other && HasNeighborIn(b, self)
    requires forall k :: 0 <= k < |subs| ==> IsComponent(subs[k], other - {b})
    requires Union(subs) == other - {b}
    requires candidates == BorderingAll(self + {b}, subs) - {b}
    requires chosen == set a | a in candidates && Connected((self + {b}) - {a})
    ensures forall a :: a in chosen <==> IsAllowedTrade(self, other, a, b)
  {
    forall a ensures a in chosen <==> IsAllowedTrade(self, other, a, b) {
      BorderingAllComponents(subs, other - {b}, a);
    }
  }

  datatype TradeError = EmptyReduce

  /** `other` is one tile bordering `self`: the source's `reduce` then gets an empty list. */
  ghost predicate ReducesEmpty(self: District, other: District) {
    exists b :: other == {b} && HasNeighborIn(b, self)
  }

  /**
   * `find_allowed_trades` as written: when `other` is a single tile that
   * borders `self`, removing it leaves no sub-districts and `reduce` over the
   * empty list of borders raises instead of yielding the trades. On every
   * other input it agrees with `FindAllowedTrades`.
   */
  method FindAllowedTradesAsWritten(self: District, other: District) returns (r: Result<seq<(Tile, Tile)>, TradeError>)
    ensures r.Err? <==> ReducesEmpty(self, other)
    ensures r.Ok? ==> forall a, b :: (a, b) in r.value <==> IsAllowedTrade(self, other, a, b)
  {
    if |other| == 1 {
      var b :| b in other;
      assert other == {b} by {
        forall x | x in other ensures x == b {
          if x != b { SubsetCard({x, b}, other); }
        }
      }
      if HasNeighborIn(b, self) {
        return Err(EmptyReduce);
      }
    }
    var trades := FindAllowedTrades(self, other);
    return Ok(trades);
  }

  /**
   * The input that shows the discrepancy: a row district `{(0,2),(0,3)}` next
   * to the one-tile district `{(0,4)}`. The source raises, yet giving (0,2)
   * for (0,4) leaves `{(0,3),(0,4)}` and `{(0,2)}`, both contiguous, and the
   * corrected rule allows it.
   */
  lemma SingleTileNeighborCounterexample()
    ensures ReducesEmpty({(0, 2), (0, 3)}, {(0, 4)})
    ensures IsAllowedTrade({(0, 2), (0, 3)}, {(0, 4)}, (0, 2), (0, 4))
  {
    var self: District := {(0, 2), (0, 3)};
    assert HasNeighborIn((0, 4), self);
    assert (self + {(0, 4)}) - {(0, 2)} == {(0, 3), (0, 4)};
    PairConnected((0, 3), (0, 4));
  }
}
