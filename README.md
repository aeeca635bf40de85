# Winning districtings and buildable words, modelled in Dafny

This project models two small search programs and proves what they compute.

**Redistricting** (`redistricting/find_winning_districting.py`). A board of
cells holds one vote count per cell. A *district* is a set of `(row, column)`
tiles under 4-neighbour adjacency. A *configuration* is a list of districts
that partitions the board. The program keeps a list of *trades*: one-for-one
tile swaps between two districts that leave both contiguous. It runs a Monte
Carlo chain over configurations. Each step picks a trade at random and
accepts it with probability 1, or with `lower_prob` when it lowers the number
of districts won or tied by party 1. The chain remembers the best
configuration seen so far.

**Buildable words** (`scrabble/longest_buildable_word.py`). Words are filed by
length. A word is *buildable* when it can be grown one letter at a time, at
the front or at the back, from a word of the smallest length, through words
of the dictionary. `find_buildable_words` keeps the buildable words of each
length. `get_build_sequence` walks back down from one word to the smallest
length.

Files:

- `wrappers.dfy`: `Option` and `Result`.
- `tiles.dfy` (module `Tiles`): adjacency and the reference notion of contiguity.
  - `Connected(s)` holds when every subset of `s` closed under taking neighbours inside `s` is empty or all of `s`.
  - A connected component is `IsComponent`.
- `district.dfy` (module `Districts`): the `District` methods. Each flood fill is proved against `Connected`.
- `configuration.dfy` (module `Configurations`):
  - partitions, trades and vote counting;
  - the acceptance rule;
  - class `Configuration`, which merges `BaseConfiguration` and `ClassicConfiguration` and holds the district list and the trade list as mutable fields.
- `search.dfy` (module `Search`): `search_configurations`.
- `buildable.dfy` (module `BuildableWords`): `find_buildable_words` and `get_build_sequence`.

Randomness becomes inputs. The search takes `choice(n)` and `draw(n)` for iteration `n`:

- `random.choice` picks trade `choice(n) % |trades|`;
- the trade is accepted when `draw(n) <= probability`.

Where the code and its description differ, the model follows the code, with two exceptions, both listed under "## Findings" and modelled both as written and corrected:

- the trade filter that raises TypeError (first row) is used corrected by the configuration layer and the search (see "## Left out");
- the progress test that raises ZeroDivisionError (second row) is used corrected by the search, as `Search.ProgressDue` with the interval `Search.ProgressInterval`.

Otherwise:

- `random.choice` on an empty trade list raises. The search then ends with `Err(NoTradeLeft)`, and the last configuration has no legal trade.
- `_validate_districts` on an empty district list fails in `reduce`. The model rejects it.
- A KeyError in `get_build_sequence` needs an actual lookup. It is raised only when the level above the missing length still holds words. That outcome is `None`.

## Model

| member | source | states |
|---|---|---|
| Tiles.HasNeighborIn | redistricting/find_winning_districting.py:131-142 | true exactly when some tile of the set is a 4-neighbour of the tile |
| Tiles.NeighborsIn | redistricting/find_winning_districting.py:144-152 | the result is exactly the tiles of the set adjacent to the tile |
| Tiles.SmallConnected | redistricting/find_winning_districting.py:35-36 | a set of at most one tile is contiguous |
| Tiles.UnionMember | redistricting/find_winning_districting.py:198-201 | a tile is in the `reduce` union of a list of tile sets exactly when some set of the list holds it |
| Tiles.HubConnects | redistricting/find_winning_districting.py:116-123 | a tile adjacent to every component of a set joins the set and the tile into one contiguous set |
| Districts.Expand | redistricting/find_winning_districting.py:42-45 | the new tiles are exactly the remaining tiles adjacent to some queued tile |
| Districts.FloodFill | redistricting/find_winning_districting.py:38-48 | the collected and remaining tiles partition the district; the collected tiles are the connected component of the start tile |
| Districts.FloodStep | redistricting/find_winning_districting.py:41-48 | one round of the flood keeps the partition into collected, queued and remaining tiles and the two flood invariants, and shrinks the unvisited tiles |
| Districts.IsContiguous | redistricting/find_winning_districting.py:34-50 | returns true exactly when the district is connected (at most one tile included) |
| Districts.GetContiguousSubdistricts | redistricting/find_winning_districting.py:52-87 | empty list for the empty district; otherwise pairwise-disjoint connected components whose union is the district; `[self]` when the district is already contiguous |
| Districts.DecompositionStep | redistricting/find_winning_districting.py:79-85 | appending the component just filled keeps the list a decomposition of the district minus the remaining tiles |
| Districts.FindBorder | redistricting/find_winning_districting.py:89-95 | a subset of self: exactly the tiles of self with a 4-neighbour in the other district |
| Districts.FindBorderPairs | redistricting/find_winning_districting.py:97-106 | exactly the pairs (a, b) with a in self, b in other and a, b adjacent |
| Districts.AllowedTradeKeepsContiguity | redistricting/find_winning_districting.py:108-114 | a trade the filter admits takes a tile of self and a different tile of other, and leaves both districts contiguous |
| Districts.BorderingAllComponents | redistricting/find_winning_districting.py:119-123 | bordering every listed sub-district is the same as bordering every component of the other district minus the traded tile |
| Districts.TradeCandidates | redistricting/find_winning_districting.py:117-123 | the candidates lie in self; a candidate whose removal keeps the grown district contiguous is exactly an allowed trade for this tile of other |
| Districts.AppendContiguousTrades | redistricting/find_winning_districting.py:124-128 | appends exactly the candidates whose removal keeps the grown district contiguous, with no duplicates |
| Districts.FindAllowedTrades | redistricting/find_winning_districting.py:108-129 | the trades are exactly the allowed trades, without duplicates; each takes a tile of self, gives a different tile of other, and leaves self contiguous |
| Districts.AllowedTradesKeepContiguity | redistricting/find_winning_districting.py:108-129 | every trade of a list of allowed trades has the four contiguity and membership facts |
| Districts.FindAllowedTradesAsWritten | redistricting/find_winning_districting.py:119-123 | raises exactly when the other district is a single tile bordering self; otherwise yields exactly the allowed trades |
| Districts.SingleTileNeighborCounterexample | redistricting/find_winning_districting.py:119-123 | self = {(0,2),(0,3)}, other = {(0,4)}: the written code raises, yet trading (0,2) for (0,4) is allowed |
| Configurations.GridTiles | redistricting/find_winning_districting.py:202-204 | definition of the board's tiles: exactly the cells (i, j) with 0 <= i < rows and 0 <= j < columns; the coverage it checks is proved in `ValidateDistricts` and kept by `ApplyTradeKeepsPartition` |
| Configurations.ValidateDistricts | redistricting/find_winning_districting.py:191-204 | true exactly when the list is non-empty, every district is contiguous, the districts are pairwise disjoint and their union is the whole board |
| Configurations.AppendPairTrades | redistricting/find_winning_districting.py:210-213 | appends exactly the allowed trades of the pair (i, j), tagged with the pair, without duplicates |
| Configurations.CollectTrades | redistricting/find_winning_districting.py:238-244 | exactly the legal trades whose pair of districts meets the updated indices, without duplicates |
| Configurations.KeepUntouched | redistricting/find_winning_districting.py:233-237 | exactly the listed trades that touch no updated district; no duplicates when the input has none |
| Configurations.EmptyReduceAtConstruction | redistricting/find_winning_districting.py:206-213 | the 1 x 5 board split into {(0,0),(0,1)}, {(0,2),(0,3)}, {(0,4)} is a valid partition with a legal trade, yet the pair (1, 2) hits the empty `reduce`, so the written constructor raises |
| Configurations.ApplyTradeMoves | redistricting/find_winning_districting.py:215-221 | tile 1 moves to district 2 and tile 2 to district 1; both sizes are kept; every other district is unchanged |
| Configurations.ApplyTradeKeepsPartition | redistricting/find_winning_districting.py:215-221 | a legal trade keeps the districts contiguous, pairwise disjoint and covering the board |
| Configurations.UntouchedTradeStable | redistricting/find_winning_districting.py:225-237 | a trade not touching the two traded districts is legal after the trade exactly when it was legal before |
| Configurations.IncrementalUpdateExact | redistricting/find_winning_districting.py:225-244 | keeping the untouched trades and recomputing the touched pairs gives exactly the legal trades of the new districts |
| Configurations.VoteCountEmpty | redistricting/find_winning_districting.py:246-248 | no tiles hold no votes |
| Configurations.VoteCountAdd | redistricting/find_winning_districting.py:246-248 | adding a tile adds exactly that cell's votes |
| Configurations.NumWins | redistricting/find_winning_districting.py:186-189 | the count lies between 0 and the number of districts |
| Configurations.NumWinsCounts | redistricting/find_winning_districting.py:186-189 | the count is the number of districts whose votes reach (size + 1) / 2 |
| Configurations.WinningIndicesStep | redistricting/find_winning_districting.py:186-189 | adding a district to the list adds its index to the winning indices exactly when party 1 wins or ties it |
| Configurations.NumWinsUpdate | redistricting/find_winning_districting.py:186-189 | replacing one district changes the count by that district's own win or loss only |
| Configurations.TradeProbabilityGlobal | redistricting/find_winning_districting.py:261-288 | the two-district probability is `lower_prob` exactly when the trade lowers the win count of the whole configuration, and 1 otherwise |
| Configurations.Configuration.constructor | redistricting/find_winning_districting.py:162-167 | from a valid partition: the districts are stored and the trade list is exactly the legal trades |
| Configurations.Configuration.Create | redistricting/find_winning_districting.py:162-167 | a configuration exists exactly when validation passes |
| Configurations.Configuration.ComputePossibleTrades | redistricting/find_winning_districting.py:206-213 | the trade list becomes exactly the legal trades of the districts, without duplicates |
| Configurations.Configuration.UpdatePossibleTrades | redistricting/find_winning_districting.py:225-244 | untouched entries are exactly the prior ones; pairs meeting the updated indices are recomputed from the current districts |
| Configurations.Configuration.MakeTrade | redistricting/find_winning_districting.py:215-223 | the districts become the traded ones; the trade list is updated for the two indices and stays exact |
| Configurations.Configuration.TradeProbability | redistricting/find_winning_districting.py:261-288 | `lower_prob` exactly when the trade lowers the number of districts won or tied, 1 otherwise |
| Configurations.Configuration.Iterate | redistricting/find_winning_districting.py:172-184 | an empty trade list is reported; otherwise the trade at `choice % |trades|` is legal, is accepted exactly when the draw is at most its probability, and only then applied; a step not accepted leaves both the districts and the trade list unchanged; the configuration stays valid |
| Search.MaxWinsIsMaximum | redistricting/find_winning_districting.py:299-309 | the best count bounds every configuration of the trace and is reached by the kept configuration, which is one of the trace |
| Search.MaxWinsMonotone | redistricting/find_winning_districting.py:306-309 | the best count never decreases along the trace |
| Search.ChainStaysValid | redistricting/find_winning_districting.py:301-304 | every configuration of the chain is a valid partition with as many districts as the first |
| Search.StepKeepsValid | redistricting/find_winning_districting.py:304 | one step of the chain keeps the partition valid and the number of districts |
| Search.Advance | redistricting/find_winning_districting.py:172-184 | raises exactly when no legal trade is left, and then nothing changes; otherwise a `Move` on the trade list held, with these draws |
| Search.MoveIsStep | redistricting/find_winning_districting.py:179-184 | an iteration that found trades had a legal trade and is one step of the chain |
| Search.MovesHadTrades | redistricting/find_winning_districting.py:301-304 | every iteration recorded in the trace found a legal trade |
| Search.RunChain | redistricting/find_winning_districting.py:299-317 | the loop keeps the trace, its moves and draws, the best count and configuration and the progress lines; it ends with no legal trade left, after `max_iter` iterations, or once the target is reached |
| Search.ChainIteration | redistricting/find_winning_districting.py:302-317 | one iteration below the target: either no legal trade is left and nothing changes, or a move with that iteration's draws is recorded, keeping the trace, its moves and draws, the best count and the progress lines |
| Search.RecordIteration | redistricting/find_winning_districting.py:306-317 | after a move the trace grows by the new configuration and the best count, best configuration and progress lines stay those of the trace |
| Search.SearchOutcome | redistricting/find_winning_districting.py:299-319 | the state the loop keeps gives a chain of legal steps of valid partitions in which every iteration found a trade, with the maximum count and the first configuration reaching it |
| Search.ProgressDueAsWritten | redistricting/find_winning_districting.py:311-313 | the written progress test raises exactly when `max_iter` is below 100 |
| Search.ProgressDivisionByZero | redistricting/find_winning_districting.py:311-313 | with `max_iter` = 50 the first progress test raises |
| Search.ProgressInterval | redistricting/find_winning_districting.py:312 | the corrected interval is at least 1 and at most `max_iter` |
| Search.ProgressDueCorrected | redistricting/find_winning_districting.py:311-317 | the corrected test agrees with the written one where that one does not raise, and reports at least once per run |
| Search.SearchConfigurations | redistricting/find_winning_districting.py:290-319 | invalid districts are rejected exactly when validation fails; the trace is a chain of legal steps of valid partitions; the result is the maximum count of the trace and the first configuration reaching it, never below the initial count; iteration k (from 1) proposed the trade at `choice(k) % |trades|` of an exact trade list, accepted it exactly when `draw(k)` is at most `AcceptProbability` with `lower_prob`, and applied it exactly when accepted; every iteration run found a legal trade; `Err(NoTradeLeft)` exactly when the run stopped early, before the target, on a configuration without legal trades; otherwise it ran `max_iter` iterations or stopped once the count reached the target |
| BuildableWords.DropLast | scrabble/longest_buildable_word.py:35 | one letter shorter; the empty word stays empty, as the slice `word[:-1]` leaves it |
| BuildableWords.DropFirst | scrabble/longest_buildable_word.py:36 | one letter shorter; the empty word stays empty, as the slice `word[1:]` leaves it |
| BuildableWords.DropRestores | scrabble/longest_buildable_word.py:35-36 | adding the dropped last or first letter back to the shortened word gives the word again |
| BuildableWords.MinKey | scrabble/longest_buildable_word.py:29 | a key of the dictionary no larger than any key |
| BuildableWords.MaxKey | scrabble/longest_buildable_word.py:30 | a key of the dictionary no smaller than any key |
| BuildableWords.ExtendLevel | scrabble/longest_buildable_word.py:34-37 | definition of one level: exactly the words that drop their last or first letter to a word of the level below; what the levels mean is proved in `LevelsAreBuildable` |
| BuildableWords.FillLevel | scrabble/longest_buildable_word.py:33-37 | the level filled is exactly the words of that length extending the level below |
| BuildableWords.FindBuildableWords | scrabble/longest_buildable_word.py:20-41 | empty input raises; otherwise, as `BuildResult` spells out: keys a contiguous range from the smallest length; the smallest level all its words; each further level exactly the words extending the level below and not empty; stops before the first empty level; every kept word drops a letter to a kept word; kept words are exactly the buildable words |
| BuildableWords.LevelAdded | scrabble/longest_buildable_word.py:32-37 | a non-empty new level extends the built levels by one length |
| BuildableWords.BuildFinished | scrabble/longest_buildable_word.py:38-41 | the levels built when the loop ends are the promised result |
| BuildableWords.LevelsAreBuildable | scrabble/longest_buildable_word.py:20-41 | a word is kept at a length exactly when it is buildable at that length |
| BuildableWords.NextLevelMembers | scrabble/longest_buildable_word.py:53-57 | a word is in the next level exactly when it is a word of that length and drops out of a word of the level above |
| BuildableWords.LookUpLevel | scrabble/longest_buildable_word.py:52-57 | raises exactly when the level above is non-empty and the length is missing; otherwise the next level |
| BuildableWords.GetBuildSequence | scrabble/longest_buildable_word.py:43-59 | fails exactly on an empty dictionary or a real KeyError; otherwise `len(word) - min_length + 1` levels starting with `{word}`, each the next level of the one above, with words `k` letters shorter at position `k`; for a kept word of a down-closed dictionary every level is non-empty and inside the dictionary |
| BuildableWords.LevelMembers | scrabble/longest_buildable_word.py:51-57 | a word is at position k of the sequence exactly when it is a word of length `len(word) - k` obtained from a word at position k - 1 by dropping its last or first letter |
| BuildableWords.LevelLengths | scrabble/longest_buildable_word.py:51-58 | the words at position k are k letters shorter than the word |
| BuildableWords.MissingLookup | scrabble/longest_buildable_word.py:54 | looking up a missing length under a non-empty level is the KeyError case |
| BuildableWords.NoFailure | scrabble/longest_buildable_word.py:51-58 | a walk that reached the smallest length met no KeyError |
| BuildableWords.GoodLevel | scrabble/longest_buildable_word.py:51-58 | from a word of a down-closed dictionary the next level is non-empty and inside the dictionary |

## Left out

- Configurations.Configuration.Create, Configurations.Configuration.Iterate, Search.SearchConfigurations: these build and update the trade list with the corrected `Districts.FindAllowedTrades` (first row of "## Findings"). The source raises TypeError instead, during construction (lines 206-213) or in `_update_possible_trades` after a trade (lines 238-244), whenever a one-tile district borders a district of lower index; `Configurations.EmptyReduceAtConstruction` gives such a valid partition. The model's run never ends with that error.
- The default arguments `lower_prob = 0.1` and `max_iter = 10000` are not modelled; callers of `Search.SearchConfigurations` pass both.
- Randomness: `random.choice` and `random.random` are the inputs `choice` and `draw`. Trades are picked by index modulo the list length.
- `copy.deepcopy`: districts are values, so the best configuration is kept as the value of its district list.
- Aliasing: `BaseConfiguration` stores the caller's list and mutates it. The model keeps its own sequence, so the caller's list is not updated.
- Printing: a progress line becomes a record `(iteration, current wins, best wins)`. It follows the corrected progress test (see Findings).
- numpy: the board is a list of rows, and the number of columns is read from the first row. A vote outside the board reads as 0. Negative-index wrap-around is not modelled; valid partitions never hold such tiles.
- The probability is a `real`. Floating-point rounding is not modelled. `np.ceil(n / 2.)` is the integer `(n + 1) / 2`.
- Python `assert` statements vanish under `python -O`. `_validate_districts` is modelled with its asserts active.
- Iteration order of Python sets: the model fixes what the trade list, the build levels and the border sets contain, not their order. `get_build_sequence` returns lists; they are modelled as sets here.
- `BuildableWords.Lookup` reads a missing length as no words, as the `defaultdict(set)` from `load_words` does. The key that `defaultdict` inserts on such a read is not modelled; this affects only `all_words`, never the result.
- Classes other than `ClassicConfiguration`, and `configuration_kwargs` other than `lower_prob`, are not modelled.
- `District.__init__`, `__contains__`, `__len__` and `return_tiles` are set construction, membership, size and copy; District values are sets.
- `load_words`, and the `__main__` blocks of both files: file I/O, argument parsing and output.
- `redistricting/classic_problem.py` and `redistricting/express_problem.py` are driver scripts and are not part of this model.
- `deadly_board_game/find_best_pos.py` is floating-point probability tables and is not part of this model.

## Findings

| source | as written | input that shows it | evidently intended | confidence | as-written member | corrected member |
|---|---|---|---|---|---|---|
| redistricting/find_winning_districting.py:119-123 | `reduce` over the borders with each sub-district, with no initial value, raises TypeError when the other district minus the traded tile has no sub-districts | self = {(0,2),(0,3)}, other = {(0,4)}: (0,4) borders self, removing it leaves nothing, and `reduce` gets an empty list | the intersection of no borders is every tile, so every tile of self whose removal keeps the grown district contiguous is a candidate; trading (0,2) for (0,4) keeps both districts contiguous | not executed | Districts.FindAllowedTradesAsWritten, Districts.SingleTileNeighborCounterexample, Configurations.EmptyReduceAtConstruction | Districts.FindAllowedTrades, Districts.AllowedTradeKeepsContiguity |
| redistricting/find_winning_districting.py:311-313 | `message_at = int(max_iter / 100)` is 0 for `max_iter < 100`, and `iter_num % message_at` raises ZeroDivisionError when `vrb` is set | `max_iter = 50`, `vrb = True`: the first iteration divides by zero | report every `max(1, max_iter / 100)` iterations | not executed | Search.ProgressDueAsWritten, Search.ProgressDivisionByZero | Search.ProgressDue, Search.ProgressDueCorrected |
