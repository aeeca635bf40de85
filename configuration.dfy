/**
 * `BaseConfiguration` with the acceptance rule of `ClassicConfiguration`:
 * a list of districts partitioning the board, the voter distribution, and
 * the list of trades that keep both districts of a trade contiguous, kept
 * up to date incrementally after every trade.
 */
module Configurations {
  import opened Tiles
  import opened Districts
  import opened Wrappers

  /** The voter distribution: `votes[i][j]` is the vote of tile (i, j) for party 1. */
  type Votes = seq<seq<int>>

  function Rows(votes: Votes): nat {
    |votes|
  }

  /** The number of columns, read off the first row as the shape of a 2-D array. */
  function Cols(votes: Votes): nat {
    if |votes| == 0 then 0 else |votes[0]|
  }

  /** Every cell (i, j) of a `rows` by `cols` board. */
  function GridTiles(rows: nat, cols: nat): (r: set<Tile>)
    ensures forall t :: t in r <==> 0 <= t.0 < rows && 0 <= t.1 < cols
  {
    set i, j | 0 <= i < rows && 0 <= j < cols :: (i, j)
  }

  /** Contiguous, pairwise disjoint districts that together cover the board. */
  ghost predicate ValidPartition(ds: seq<District>, votes: Votes) {
    && (forall k :: 0 <= k < |ds| ==> Connected(ds[k]))
    && (forall k, l :: 0 <= k < l < |ds| ==> ds[k] !! ds[l])
    && Union(ds) == GridTiles(Rows(votes), Cols(votes))
  }

  /**
   * `_validate_districts`: each failed assertion, and `reduce` over an empty
   * list of districts, raises; the result says whether none of them did.
   */
  method ValidateDistricts(ds: seq<District>, votes: Votes) returns (ok: bool)
    ensures ok <==> |ds| > 0 && ValidPartition(ds, votes)
  {
    for k := 0 to |ds|
      invariant forall m :: 0 <= m < k ==> Connected(ds[m])
    {
      var contiguous := IsContiguous(ds[k]);
      if !contiguous {
        return false;
      }
    }
    for k := 0 to |ds|
      invariant forall m, l :: 0 <= m < k && m < l < |ds| ==> ds[m] !! ds[l]
    {
      for l := k + 1 to |ds|
        invariant forall m, n :: 0 <= m < k && m < n < |ds| ==> ds[m] !! ds[n]
        invariant forall n :: k < n < l ==> ds[k] !! ds[n]
      {
        if |ds[k] * ds[l]| != 0 {
          return false;
        }
        assert ds[k] !! ds[l] by {
          forall t | t in ds[k] ensures t !in ds[l] {
            assert t !in ds[k] * ds[l];
          }
        }
      }
    }
    if |ds| == 0 {
      return false;
    }
    var allTiles := ds[0];
    assert ds[..1][..0] == [];
    for k := 1 to |ds|
      invariant allTiles == Union(ds[..k])
    {
      assert ds[..k + 1][..k] == ds[..k];
      allTiles := allTiles + ds[k];
    }
    assert ds[..|ds|] == ds;
    ok := allTiles == GridTiles(Rows(votes), Cols(votes));
  }

  /** An entry of the trade list: district `idx1` gives `tile1` and district `idx2` gives `tile2`. */
  datatype Trade = Trade(idx1: nat, idx2: nat, tile1: Tile, tile2: Tile)

  /** A trade between two districts `idx1 < idx2` that the trade rule allows. */
  ghost predicate IsLegalTrade(ds: seq<District>, e: Trade) {
    e.idx1 < e.idx2 < |ds| && IsAllowedTrade(ds[e.idx1], ds[e.idx2], e.tile1, e.tile2)
  }

  /** `ts` lists every legal trade of `ds`, each once. */
  ghost predicate TradesExact(ds: seq<District>, ts: seq<Trade>) {
    (forall e :: e in ts <==> IsLegalTrade(ds, e)) && NoDuplicates(ts)
  }

  /** The trade does not involve any district of `updated`. */
  predicate Untouched(e: Trade, updated: set<nat>) {
    e.idx1 !in updated && e.idx2 !in updated
  }

  /**
   * The trades of `find_allowed_trades(ds[i], ds[j])`, tagged with the pair
   * of indices and appended to `ts0`.
   */
  method AppendPairTrades(ts0: seq<Trade>, ds: seq<District>, i: nat, j: nat) returns (ts: seq<Trade>)
    requires i < j < |ds|
    requires NoDuplicates(ts0) && forall e :: e in ts0 ==> e.idx1 != i || e.idx2 != j
    ensures NoDuplicates(ts)
    ensures forall e :: e in ts <==>
      (e in ts0 || (e.idx1 == i && e.idx2 == j && IsAllowedTrade(ds[i], ds[j], e.tile1, e.tile2)))
  {
    var pairs := FindAllowedTrades(ds[i], ds[j]);
    ts := ts0;
    for k := 0 to |pairs|
      invariant NoDuplicates(ts)
      invariant forall e :: e in ts <==>
        (e in ts0 || (e.idx1 == i && e.idx2 == j && (e.tile1, e.tile2) in pairs[..k]))
    {
      assert Trade(i, j, pairs[k].0, pairs[k].1) !in ts by {
        if m :| 0 <= m < k && pairs[m] == pairs[k] {
          assert false;
        }
      }
      ts := ts + [Trade(i, j, pairs[k].0, pairs[k].1)];
      assert pairs[..k + 1] == pairs[..k] + [pairs[k]];
    }
    assert pairs[..|pairs|] == pairs;
  }

  /** The pair (i, j) comes before (p, q) in the order of `combinations`. */
  predicate PairBefore(i: nat, j: nat, p: nat, q: nat) {
    i < p || (i == p && j < q)
  }

  /**
   * The loop over `combinations(enumerate(districts), 2)` shared by
   * `_compute_possible_trades` and `_update_possible_trades`: the legal
   * trades whose pair of districts meets `updated`.
   */
  method CollectTrades(ds: seq<District>, updated: set<nat>) returns (ts: seq<Trade>)
    ensures NoDuplicates(ts)
    ensures forall e :: e in ts <==> IsLegalTrade(ds, e) && !Untouched(e, updated)
  {
    ts := [];
    for i := 0 to |ds|
      invariant NoDuplicates(ts)
      invariant forall e :: e in ts <==> IsLegalTrade(ds, e) && !Untouched(e, updated) && e.idx1 < i
    {
      for j := i + 1 to |ds|
        invariant NoDuplicates(ts)
        invariant forall e :: e in ts <==>
          IsLegalTrade(ds, e) && !Untouched(e, updated) && PairBefore(e.idx1, e.idx2, i, j)
      {
        if i in updated || j in updated {
          ts := AppendPairTrades(ts, ds, i, j);
        }
      }
    }
  }

  /** The list comprehension that drops the trades touching `updated`, in order. */
  function KeepUntouched(ts: seq<Trade>, updated: set<nat>): (r: seq<Trade>)
    ensures forall e :: e in r <==> e in ts && Untouched(e, updated)
    ensures NoDuplicates(ts) ==> NoDuplicates(r)
  {
    if |ts| == 0 then []
    else
      var rest := KeepUntouched(ts[1..], updated);
      assert NoDuplicates(ts) ==> NoDuplicates(ts[1..]) && ts[0] !in ts[1..];
      if Untouched(ts[0], updated) then [ts[0]] + rest else rest
  }

  lemma NoDuplicatesConcat<T>(a: seq<T>, b: seq<T>)
    requires NoDuplicates(a) && NoDuplicates(b)
    requires forall x :: x in a ==> x !in b
    ensures NoDuplicates(a + b)
  {
    forall k, l | 0 <= k < l < |a + b|
      ensures (a + b)[k] != (a + b)[l]
    {
      if k < |a| && l >= |a| {
        assert (a + b)[k] in a && (a + b)[l] == b[l - |a|];
      }
    }
  }

  /** The indices 0 .. n - 1. */
  function Indices(n: nat): (r: set<nat>)
    ensures forall k: nat :: k in r <==> k < n
  {
    if n == 0 then {} else Indices(n - 1) + {n - 1}
  }

  /** `_make_trade` on values: district i gives t1 and takes t2, district j the reverse. */
  function ApplyTrade(ds: seq<District>, i: nat, t1: Tile, j: nat, t2: Tile): (r: seq<District>)
    requires i < |ds| && j < |ds|
    ensures |r| == |ds|
  {
    ds[i := (ds[i] - {t1}) + {t2}][j := (ds[j] - {t2}) + {t1}]
  }

  /**
   * A legal trade moves `tile1` into district `idx2` and `tile2` into
   * district `idx1`, keeps both their sizes and leaves every other district
   * as it was.
   */
  lemma ApplyTradeMoves(votes: Votes, ds: seq<District>, e: Trade)
    requires ValidPartition(ds, votes) && IsLegalTrade(ds, e)
    ensures var r := ApplyTrade(ds, e.idx1, e.tile1, e.idx2, e.tile2);
      && e.tile1 !in r[e.idx1] && e.tile2 in r[e.idx1]
      && e.tile2 !in r[e.idx2] && e.tile1 in r[e.idx2]
      && |r[e.idx1]| == |ds[e.idx1]| && |r[e.idx2]| == |ds[e.idx2]|
      && forall k :: 0 <= k < |ds| && k != e.idx1 && k != e.idx2 ==> r[k] == ds[k]
  {
    var i, j := e.idx1, e.idx2;
    assert e.tile2 !in ds[i] && e.tile1 !in ds[j] by {
      assert ds[i] !! ds[j];
    }
    assert (ds[i] - {e.tile1}) + {e.tile2} == (ds[i] + {e.tile2}) - {e.tile1};
    assert (ds[j] - {e.tile2}) + {e.tile1} == (ds[j] + {e.tile1}) - {e.tile2};
  }

  /** A legal trade keeps the districts contiguous, disjoint and covering the board. */
  lemma ApplyTradeKeepsPartition(votes: Votes, ds: seq<District>, e: Trade)
    requires ValidPartition(ds, votes) && IsLegalTrade(ds, e)
    ensures ValidPartition(ApplyTrade(ds, e.idx1, e.tile1, e.idx2, e.tile2), votes)
  {
    var i, j, t1, t2 := e.idx1, e.idx2, e.tile1, e.tile2;
    var r := ApplyTrade(ds, i, t1, j, t2);
    AllowedTradeKeepsContiguity(ds[i], ds[j], t1, t2);
    assert ds[i] !! ds[j];
    forall k | 0 <= k < |r| ensures Connected(r[k]) {
    }
    forall k, l | 0 <= k < l < |r| ensures r[k] !! r[l] {
      if k != i && k != j {
        DisjointPair(ds, k, i);
        DisjointPair(ds, k, j);
      }
      if l != i && l != j {
        DisjointPair(ds, l, i);
        DisjointPair(ds, l, j);
      }
    }
    forall t ensures t in Union(r) <==> t in Union(ds) {
      UnionMember(r, t);
      UnionMember(ds, t);
      if t in Union(ds) {
        var k :| 0 <= k < |ds| && t in ds[k];
        if k == i && t == t1 { assert t in r[j]; }
        else if k == j && t == t2 { assert t in r[i]; }
        else { assert t in r[k]; }
      }
      if t in Union(r) {
        var k :| 0 <= k < |r| && t in r[k];
        if k == i && t == t2 { assert t in ds[j]; }
        else if k == j && t == t1 { assert t in ds[i]; }
        else if k == i || k == j { assert t in ds[k]; }
        else { assert t in ds[k]; }
      }
    }
  }

  lemma DisjointPair(ds: seq<District>, k: nat, l: nat)
    requires forall m, n :: 0 <= m < n < |ds| ==> ds[m] !! ds[n]
    requires k < |ds| && l < |ds| && k != l
    ensures ds[k] !! ds[l]
  {
    if k > l { assert ds[l] !! ds[k]; }
  }

  /** A trade whose districts were both left alone is legal before it exactly when after it. */
  lemma UntouchedTradeStable(ds: seq<District>, i: nat, t1: Tile, j: nat, t2: Tile, e: Trade)
    requires i < |ds| && j < |ds| && Untouched(e, {i, j})
    ensures IsLegalTrade(ds, e) <==> IsLegalTrade(ApplyTrade(ds, i, t1, j, t2), e)
  {
  }

  /**
   * Keeping the old trades of the untouched pairs and recomputing those of
   * the touched pairs yields the full trade list of the new districts.
   */
  lemma IncrementalUpdateExact(ds: seq<District>, i: nat, t1: Tile, j: nat, t2: Tile,
                               ts: seq<Trade>, ts': seq<Trade>)
    requires i < |ds| && j < |ds|
    requires TradesExact(ds, ts) && NoDuplicates(ts')
    requires forall e :: e in ts' <==>
      ((e in ts && Untouched(e, {i, j})) || (IsLegalTrade(ApplyTrade(ds, i, t1, j, t2), e) && !Untouched(e, {i, j})))
    ensures TradesExact(ApplyTrade(ds, i, t1, j, t2), ts')
  {
    forall e ensures e in ts' <==> IsLegalTrade(ApplyTrade(ds, i, t1, j, t2), e) {
      if Untouched(e, {i, j}) {
        UntouchedTradeStable(ds, i, t1, j, t2, e);
      }
    }
  }

  /**
   * The 1 x 5 board split into `{(0,0),(0,1)}`, `{(0,2),(0,3)}` and
   * `{(0,4)}` is a valid partition, yet the one-tile district at index 2
   * borders the district at index 1: `_compute_possible_trades` as written
   * reaches the empty `reduce` of `FindAllowedTradesAsWritten` for the pair
   * (1, 2) and raises while the configuration is being built.
   */
  lemma EmptyReduceAtConstruction()
    ensures var ds: seq<District> := [{(0, 0), (0, 1)}, {(0, 2), (0, 3)}, {(0, 4)}];
      && ValidPartition(ds, [[0, 0, 0, 0, 0]])
      && IsLegalTrade(ds, Trade(1, 2, (0, 2), (0, 4)))
      && ReducesEmpty(ds[1], ds[2])
  {
    var ds: seq<District> := [{(0, 0), (0, 1)}, {(0, 2), (0, 3)}, {(0, 4)}];
    forall k | 0 <= k < |ds| ensures Connected(ds[k]) {
      if k == 0 {
        PairConnected((0, 0), (0, 1));
      } else if k == 1 {
        PairConnected((0, 2), (0, 3));
      } else {
        SmallConnected(ds[k]);
      }
    }
    forall k, l | 0 <= k < l < |ds| ensures ds[k] !! ds[l] {
      assert ds[0] !! ds[1] && ds[0] !! ds[2] && ds[1] !! ds[2];
    }
    RowOfFiveCovered(ds);
    SingleTileNeighborCounterexample();
  }

  /** The three districts together cover the 1 x 5 board. */
  lemma RowOfFiveCovered(ds: seq<District>)
    requires ds == [{(0, 0), (0, 1)}, {(0, 2), (0, 3)}, {(0, 4)}]
    ensures Union(ds) == GridTiles(1, 5)
  {
    var a, b, c := ds[0], ds[1], ds[2];
    UnionAppend([], a);
    assert [] + [a] == [a];
    UnionAppend([a], b);
    assert [a] + [b] == [a, b];
    UnionAppend([a, b], c);
    assert [a, b] + [c] == ds;
    assert Union(ds) == a + b + c;
    forall t ensures t in GridTiles(1, 5) <==> t in Union(ds) {
    }
  }

  // ---------------------------------------------------------------------------
  // Votes and wins
  // ---------------------------------------------------------------------------

  /** The vote of one tile of the board, 0 for a tile off the board. */
  function CellVote(votes: Votes, t: Tile): int {
    if 0 <= t.0 < |votes| && 0 <= t.1 < |votes[t.0]| then votes[t.0][t.1] else 0
  }

  /** `_num_one_votes`: the votes of the tiles of `tiles` lying on the board, summed. */
  function VoteCount(votes: Votes, tiles: set<Tile>): int {
    RowsSum(votes, tiles, |votes|)
  }

  function RowsSum(votes: Votes, tiles: set<Tile>, n: nat): int
    requires n <= |votes|
  {
    if n == 0 then 0 else RowsSum(votes, tiles, n - 1) + RowSum(votes, tiles, n - 1, |votes[n - 1]|)
  }

  function RowSum(votes: Votes, tiles: set<Tile>, i: nat, m: nat): int
    requires i < |votes| && m <= |votes[i]|
  {
    if m == 0 then 0 else RowSum(votes, tiles, i, m - 1) + (if (i, m - 1) in tiles then votes[i][m - 1] else 0)
  }

  /** No tiles, no votes. */
  lemma {:induction false} VoteCountEmpty(votes: Votes)
    ensures VoteCount(votes, {}) == 0
  {
    RowsSumEmpty(votes, |votes|);
  }

  lemma {:induction false} RowsSumEmpty(votes: Votes, n: nat)
    requires n <= |votes|
    ensures RowsSum(votes, {}, n) == 0
  {
    if n > 0 {
      RowsSumEmpty(votes, n - 1);
      RowSumEmpty(votes, n - 1, |votes[n - 1]|);
    }
  }

  lemma {:induction false} RowSumEmpty(votes: Votes, i: nat, m: nat)
    requires i < |votes| && m <= |votes[i]|
    ensures RowSum(votes, {}, i, m) == 0
  {
    if m > 0 {
      RowSumEmpty(votes, i, m - 1);
    }
  }

  /** Adding a tile adds its vote: the count is the sum over the tiles. */
  lemma {:induction false} VoteCountAdd(votes: Votes, tiles: set<Tile>, t: Tile)
    requires t !in tiles
    ensures VoteCount(votes, tiles + {t}) == VoteCount(votes, tiles) + CellVote(votes, t)
  {
    RowsSumAdd(votes, tiles, t, |votes|);
  }

  lemma {:induction false} RowsSumAdd(votes: Votes, tiles: set<Tile>, t: Tile, n: nat)
    requires t !in tiles && n <= |votes|
    ensures RowsSum(votes, tiles + {t}, n) ==
      RowsSum(votes, tiles, n) + (if 0 <= t.0 < n then CellVote(votes, t) else 0)
  {
    if n > 0 {
      RowsSumAdd(votes, tiles, t, n - 1);
      RowSumAdd(votes, tiles, t, n - 1, |votes[n - 1]|);
    }
  }

  lemma {:induction false} RowSumAdd(votes: Votes, tiles: set<Tile>, t: Tile, i: nat, m: nat)
    requires t !in tiles && i < |votes| && m <= |votes[i]|
    ensures RowSum(votes, tiles + {t}, i, m) ==
      RowSum(votes, tiles, i, m) + (if t.0 == i && 0 <= t.1 < m then votes[i][t.1] else 0)
  {
    if m > 0 {
      RowSumAdd(votes, tiles, t, i, m - 1);
    }
  }

  /** A district is won or tied by party 1: at least half its tiles, rounded up, vote 1. */
  predicate WinsOrTies(votes: Votes, d: District) {
    VoteCount(votes, d) >= (|d| + 1) / 2
  }

  function Win(votes: Votes, d: District): nat {
    if WinsOrTies(votes, d) then 1 else 0
  }

  /** `num_districts_one_win_or_tie`: how many districts party 1 wins or ties. */
  function NumWins(votes: Votes, ds: seq<District>): (r: nat)
    ensures r <= |ds|
  {
    if |ds| == 0 then 0 else NumWins(votes, ds[..|ds| - 1]) + Win(votes, ds[|ds| - 1])
  }

  /** The indices of the districts won or tied by party 1. */
  ghost function WinningIndices(votes: Votes, ds: seq<District>): set<nat> {
    set k: nat | k < |ds| && WinsOrTies(votes, ds[k])
  }

  /** The count is the number of indices of districts won or tied. */
  lemma {:induction false} NumWinsCounts(votes: Votes, ds: seq<District>)
    ensures NumWins(votes, ds) == |WinningIndices(votes, ds)|
  {
    if |ds| > 0 {
      var n := |ds| - 1;
      NumWinsCounts(votes, ds[..n]);
      WinningIndicesStep(votes, ds);
    }
  }

  /** The last district adds its own index, or nothing, to the winning indices. */
  lemma WinningIndicesStep(votes: Votes, ds: seq<District>)
    requires |ds| > 0
    ensures var n := |ds| - 1;
      WinningIndices(votes, ds) ==
      WinningIndices(votes, ds[..n]) + if WinsOrTies(votes, ds[n]) then {n} else {}
  {
    var n := |ds| - 1;
    var a, b := WinningIndices(votes, ds[..n]), WinningIndices(votes, ds);
    forall k: nat ensures k in b <==> k in a || (k == n && WinsOrTies(votes, ds[n])) {
      if k < n {
        assert ds[..n][k] == ds[k];
      }
    }
  }

  /** Replacing one district changes the count by that district's own win or loss only. */
  lemma {:induction false} NumWinsUpdate(votes: Votes, ds: seq<District>, i: nat, d: District)
    requires i < |ds|
    ensures NumWins(votes, ds[i := d]) == NumWins(votes, ds) - Win(votes, ds[i]) + Win(votes, d)
  {
    var n := |ds| - 1;
    if i < n {
      assert ds[i := d][..n] == ds[..n][i := d];
      NumWinsUpdate(votes, ds[..n], i, d);
    } else {
      assert ds[i := d][..n] == ds[..n];
    }
  }

  /** The number of the two districts `d1`, `d2` that party 1 wins or ties. */
  function PairWins(votes: Votes, d1: District, d2: District): nat {
    Win(votes, d1) + Win(votes, d2)
  }

  /**
   * `_get_trade_probability` on the two districts of the trade: `lowerProb`
   * when the trade lowers the number of these two districts won or tied by
   * party 1, and 1 otherwise.
   */
  function ClassicTradeProbability(votes: Votes, lowerProb: real, d1: District, t1: Tile,
                                   d2: District, t2: Tile): real
  {
    var winsBefore := PairWins(votes, d1, d2);
    var winsAfter := PairWins(votes, (d1 - {t1}) + {t2}, (d2 - {t2}) + {t1});
    if winsAfter < winsBefore then lowerProb else 1.0
  }

  /**
   * Counting the two traded districts alone decides as the win count of the
   * whole configuration would: the probability is `lowerProb` exactly when
   * the trade lowers the number of districts won or tied.
   */
  lemma TradeProbabilityGlobal(votes: Votes, lowerProb: real, ds: seq<District>,
                               i: nat, t1: Tile, j: nat, t2: Tile)
    requires i < |ds| && j < |ds|
    ensures i != j ==>
      ClassicTradeProbability(votes, lowerProb, ds[i], t1, ds[j], t2) ==
      if NumWins(votes, ApplyTrade(ds, i, t1, j, t2)) < NumWins(votes, ds) then lowerProb else 1.0
  {
    if i != j {
      var d1, d2 := (ds[i] - {t1}) + {t2}, (ds[j] - {t2}) + {t1};
      NumWinsUpdate(votes, ds, i, d1);
      NumWinsUpdate(votes, ds[i := d1], j, d2);
    }
  }

  /**
   * The probability `iterate` accepts the trade `e` with: `lowerProb` when
   * making it lowers the number of districts won or tied by party 1, and 1
   * otherwise.
   */
  function AcceptProbability(votes: Votes, lowerProb: real, ds: seq<District>, e: Trade): real
    requires e.idx1 < |ds| && e.idx2 < |ds|
  {
    if NumWins(votes, ApplyTrade(ds, e.idx1, e.tile1, e.idx2, e.tile2)) < NumWins(votes, ds) then lowerProb else 1.0
  }

  datatype Outcome = Exhausted | Rejected | Accepted

  /**
   * A configuration of districts over the board. `districts` is replaced
   * after every accepted trade and `possibleTrades` always lists exactly the
   * legal trades of the current districts.
   */
  class Configuration {
    const votes: Votes
    const lowerProb: real
    var districts: seq<District>
    var possibleTrades: seq<Trade>

    ghost predicate Valid()
      reads this
    {
      |districts| > 0 && ValidPartition(districts, votes) && TradesExact(districts, possibleTrades)
    }

    constructor (ds: seq<District>, votes: Votes, lowerProb: real)
      requires |ds| > 0 && ValidPartition(ds, votes)
      ensures Valid()
      ensures this.districts == ds && this.votes == votes && this.lowerProb == lowerProb
    {
      this.votes := votes;
      this.lowerProb := lowerProb;
      districts := ds;
      new;
      ComputePossibleTrades();
    }

    /** `__init__`: the assertions of `_validate_districts` raise on an invalid partition. */
    static method Create(ds: seq<District>, votes: Votes, lowerProb: real) returns (r: Option<Configuration>)
      ensures r.Some? <==> |ds| > 0 && ValidPartition(ds, votes)
      ensures r.Some? ==> fresh(r.value) && r.value.Valid()
      ensures r.Some? ==> r.value.districts == ds && r.value.votes == votes && r.value.lowerProb == lowerProb
    {
      var ok := ValidateDistricts(ds, votes);
      if !ok {
        return None;
      }
      var c := new Configuration(ds, votes, lowerProb);
      r := Some(c);
    }

    /** `_compute_possible_trades`: the trades of every pair of districts. */
    method ComputePossibleTrades()
      modifies this`possibleTrades
      ensures TradesExact(districts, possibleTrades)
    {
      var all := Indices(|districts|);
      possibleTrades := CollectTrades(districts, all);
      forall e | IsLegalTrade(districts, e) ensures !Untouched(e, all) {
        assert e.idx1 in all;
      }
    }

    /**
     * `_update_possible_trades`: the old trades between untouched districts
     * are kept as they were and the trades of every pair touching `updated`
     * are recomputed from the current districts.
     */
    method UpdatePossibleTrades(updated: set<nat>)
      modifies this`possibleTrades
      ensures forall e :: e in possibleTrades <==>
        (e in old(possibleTrades) && Untouched(e, updated)) ||
        (IsLegalTrade(districts, e) && !Untouched(e, updated))
      ensures NoDuplicates(old(possibleTrades)) ==> NoDuplicates(possibleTrades)
    {
      var kept := KeepUntouched(possibleTrades, updated);
      var recomputed := CollectTrades(districts, updated);
      if NoDuplicates(possibleTrades) {
        NoDuplicatesConcat(kept, recomputed);
      }
      possibleTrades := kept + recomputed;
    }

    /**
     * `_make_trade`: district i gives t1 and takes t2, district j gives t2
     * and takes t1, then the trades touching i or j are recomputed. An exact
     * trade list stays exact.
     */
    method MakeTrade(i: nat, t1: Tile, j: nat, t2: Tile)
      requires i < |districts| && j < |districts|
      modifies this`districts, this`possibleTrades
      ensures districts == ApplyTrade(old(districts), i, t1, j, t2)
      ensures forall e :: e in possibleTrades <==>
        (e in old(possibleTrades) && Untouched(e, {i, j})) ||
        (IsLegalTrade(districts, e) && !Untouched(e, {i, j}))
      ensures old(TradesExact(districts, possibleTrades)) ==> TradesExact(districts, possibleTrades)
    {
      ghost var ds, ts := districts, possibleTrades;
      var newDist1 := (districts[i] - {t1}) + {t2};
      var newDist2 := (districts[j] - {t2}) + {t1};
      districts := districts[i := newDist1];
      districts := districts[j := newDist2];
      UpdatePossibleTrades({i, j});
      if TradesExact(ds, ts) {
        IncrementalUpdateExact(ds, i, t1, j, t2, ts, possibleTrades);
      }
    }

    /** `_get_trade_probability` of `ClassicConfiguration`. */
    function TradeProbability(i: nat, t1: Tile, j: nat, t2: Tile): (p: real)
      reads this
      requires i < |districts| && j < |districts|
      ensures i != j ==>
        p == if NumWins(votes, ApplyTrade(districts, i, t1, j, t2)) < NumWins(votes, districts) then lowerProb else 1.0
    {
      TradeProbabilityGlobal(votes, lowerProb, districts, i, t1, j, t2);
      ClassicTradeProbability(votes, lowerProb, districts[i], t1, districts[j], t2)
    }

    /**
     * `iterate`: pick the trade at `choice` (the draw of `random.choice`)
     * and make it when `draw` (the draw of `random.random`) is at most its
     * probability. With no trade left `random.choice` raises: `Exhausted`.
     */
    method Iterate(choice: nat, draw: real) returns (outcome: Outcome)
      requires Valid()
      modifies this`districts, this`possibleTrades
      ensures Valid()
      ensures outcome == Exhausted <==> old(possibleTrades) == []
      ensures outcome != Accepted ==> districts == old(districts) && possibleTrades == old(possibleTrades)
      ensures outcome != Exhausted ==>
        var e := old(possibleTrades)[choice % |old(possibleTrades)|];
        && IsLegalTrade(old(districts), e)
        && (outcome == Accepted <==> draw <= AcceptProbability(votes, lowerProb, old(districts), e))
        && (outcome == Accepted ==> districts == ApplyTrade(old(districts), e.idx1, e.tile1, e.idx2, e.tile2))
    {
      if |possibleTrades| == 0 {
        return Exhausted;
      }
      var e := possibleTrades[choice % |possibleTrades|];
      assert IsLegalTrade(districts, e);
      var prob := TradeProbability(e.idx1, e.tile1, e.idx2, e.tile2);
      if draw <= prob {
        ApplyTradeKeepsPartition(votes, districts, e);
        MakeTrade(e.idx1, e.tile1, e.idx2, e.tile2);
        outcome := Accepted;
      } else {
        outcome := Rejected;
      }
    }
  }
}
