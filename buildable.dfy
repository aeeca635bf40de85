/**
 * The longest word that can be built from valid words one letter at a time.
 *
 * The dictionary maps a word length to the set of words filed under it, read
 * the way the `defaultdict(set)` of the loader reads: a missing length holds
 * no words. A word is buildable at the smallest length when it is a word
 * there, and at a larger length when it is a word there and dropping its last
 * or its first letter gives a word buildable one length down.
 */
module BuildableWords {
  import opened Wrappers

  type Dictionary = map<nat, set<string>>

  /** `d[n]` of a `defaultdict(set)`: the words of length `n`, none when the key is missing. */
  function Lookup(d: Dictionary, n: int): set<string> {
    if n >= 0 && n in d then d[n] else {}
  }

  /** `word[:-1]`: the word without its last letter (the empty word stays empty). */
  function DropLast(w: string): (r: string)
    ensures |w| > 0 ==> |r| == |w| - 1
    ensures |w| == 0 ==> r == []
  {
    if |w| == 0 then [] else w[..|w| - 1]
  }

  /** `word[1:]`: the word without its first letter (the empty word stays empty). */
  function DropFirst(w: string): (r: string)
    ensures |w| > 0 ==> |r| == |w| - 1
    ensures |w| == 0 ==> r == []
  {
    if |w| == 0 then [] else w[1..]
  }

  /** Putting the dropped letter back gives the word again: building undoes dropping. */
  lemma DropRestores(w: string)
    ensures |w| > 0 ==> DropLast(w) + [w[|w| - 1]] == w
    ensures |w| > 0 ==> [w[0]] + DropFirst(w) == w
  {
  }

  /** A set of naturals holding `x` has a least element (descending from `x`). */
  lemma {:induction false} LeastExists(s: set<nat>, x: nat)
    requires x in s
    ensures exists m :: m in s && forall y :: y in s ==> m <= y
    decreases x
  {
    if y :| y in s && y < x {
      LeastExists(s, y);
    } else {
      assert forall y :: y in s ==> x <= y;
    }
  }

  /** A non-empty finite set of naturals has a greatest element. */
  lemma {:induction false} GreatestExists(s: set<nat>, x: nat)
    requires x in s
    ensures exists m :: m in s && forall y :: y in s ==> y <= m
    decreases |s|
  {
    if y :| y in s && y > x {
      var rest := s - {x};
      assert y in rest;
      GreatestExists(rest, y);
      var m :| m in rest && forall z :: z in rest ==> z <= m;
      forall z | z in s ensures z <= m {
        if z != x {
          assert z in rest;
        } else {
          assert y <= m;
        }
      }
    } else {
      assert forall y :: y in s ==> y <= x;
    }
  }

  /** `min(d.iterkeys())` of a non-empty dictionary. */
  function MinKey(d: Dictionary): (lo: nat)
    requires d != map[]
    ensures lo in d && forall n :: n in d ==> lo <= n
  {
    var n :| n in d;
    LeastExists(d.Keys, n);
    var x :| x in d.Keys && forall y :: y in d.Keys ==> x <= y;
    x
  }

  /** `max(d.iterkeys())` of a non-empty dictionary. */
  function MaxKey(d: Dictionary): (hi: nat)
    requires d != map[]
    ensures hi in d && forall n :: n in d ==> n <= hi
  {
    var n :| n in d;
    GreatestExists(d.Keys, n);
    var x :| x in d.Keys && forall y :: y in d.Keys ==> y <= x;
    x
  }

  /** The words of `words` that drop a last or a first letter to a word of `prev`. */
  function ExtendLevel(words: set<string>, prev: set<string>): (r: set<string>)
    ensures forall w :: w in r <==> w in words && (DropLast(w) in prev || DropFirst(w) in prev)
  {
    set w | w in words && (DropLast(w) in prev || DropFirst(w) in prev)
  }

  /** The reference notion: `w` can be built up to length `n` from the words of length `lo`. */
  ghost predicate Buildable(allWords: Dictionary, lo: nat, n: nat, w: string)
    decreases n
  {
    && lo <= n
    && w in Lookup(allWords, n)
    && (n == lo || Buildable(allWords, lo, n - 1, DropLast(w)) || Buildable(allWords, lo, n - 1, DropFirst(w)))
  }

  /** Word `w` of length `n` drops its last or its first letter to a word one length down in `bw`. */
  ghost predicate DropsToLevelBelow(bw: Dictionary, n: nat, w: string) {
    n >= 1 && n - 1 in bw && (DropLast(w) in bw[n - 1] || DropFirst(w) in bw[n - 1])
  }

  /** Every word above the smallest length drops a letter to a word one length down. */
  ghost predicate DownClosed(bw: Dictionary, lo: nat) {
    forall n: nat, w {:trigger DropsToLevelBelow(bw, n, w)} ::
      n in bw && lo < n && w in bw[n] ==> DropsToLevelBelow(bw, n, w)
  }

  /** Level `n` of `bw` is exactly the words of length `n` extending level `n - 1`, and not empty. */
  ghost predicate Extends(allWords: Dictionary, bw: Dictionary, n: nat) {
    n >= 1 && n in bw && n - 1 in bw && bw[n] == ExtendLevel(Lookup(allWords, n), bw[n - 1]) && bw[n] != {}
  }

  /**
   * `find_buildable_words`: a level per length from the smallest one up,
   * each level the words extending the level below, stopping before the
   * first length that would be left empty. `min` on an empty dictionary
   * raises: `None`.
   */
  method FindBuildableWords(allWords: Dictionary) returns (r: Option<Dictionary>)
    ensures r.None? <==> allWords == map[]
    ensures r.Some? ==> allWords != map[] && BuildResult(allWords, r.value)
  {
    if allWords == map[] {
      return None;
    }
    var lo := MinKey(allWords);
    var hi := MaxKey(allWords);
    var bw := map[lo := allWords[lo]];
    var top := lo;
    var n := lo + 1;
    while n <= hi
      invariant lo < n <= hi + 1 && top == n - 1
      invariant LevelsBuilt(allWords, bw, lo, top)
    {
      var level := FillLevel(Lookup(allWords, n), bw[n - 1]);
      ghost var before := bw;
      bw := bw[n := level];
      if |bw[n]| == 0 {
        bw := bw - {n};
        assert bw == before;
        break;
      }
      LevelAdded(allWords, before, lo, top, level);
      top := n;
      n := n + 1;
    }
    BuildFinished(allWords, bw, lo, top);
    r := Some(bw);
  }

  /**
   * The inner loop of `find_buildable_words`: the words of `words` that drop
   * their last or their first letter to a word of `prev`.
   */
  method FillLevel(words: set<string>, prev: set<string>) returns (level: set<string>)
    ensures level == ExtendLevel(words, prev)
  {
    level := {};
    var todo := words;
    while todo != {}
      invariant todo <= words
      invariant level == ExtendLevel(words - todo, prev)
      decreases |todo|
    {
      var word :| word in todo;
      if DropLast(word) in prev || DropFirst(word) in prev {
        level := level + {word};
      }
      todo := todo - {word};
    }
    assert words - todo == words;
  }

  /** The levels from `lo` up to `top` are built as `find_buildable_words` builds them. */
  ghost predicate LevelsBuilt(allWords: Dictionary, bw: Dictionary, lo: nat, top: nat) {
    && lo <= top && lo in bw && top in bw
    && (forall m :: m in bw <==> lo <= m <= top)
    && lo in allWords && bw[lo] == allWords[lo]
    && (forall m: nat :: lo < m <= top ==> Extends(allWords, bw, m))
  }

  /** A non-empty next level extends the built levels by one length. */
  lemma LevelAdded(allWords: Dictionary, bw: Dictionary, lo: nat, top: nat, level: set<string>)
    requires LevelsBuilt(allWords, bw, lo, top)
    requires level == ExtendLevel(Lookup(allWords, top + 1), bw[top]) && level != {}
    ensures LevelsBuilt(allWords, bw[top + 1 := level], lo, top + 1)
  {
    var bw' := bw[top + 1 := level];
    forall m: nat | lo < m <= top + 1
      ensures Extends(allWords, bw', m)
    {
      if m <= top {
        assert Extends(allWords, bw, m);
        assert bw'[m] == bw[m] && bw'[m - 1] == bw[m - 1];
      }
    }
  }

  /**
   * What `find_buildable_words` returns: one level per length from the
   * smallest one up with no gap, the smallest level all words of that
   * length, each further level exactly the words extending the level below
   * and never empty, and the last level the one after which the next would
   * be empty (or the largest length). Its levels then hold exactly the
   * buildable words.
   */
  ghost predicate BuildResult(allWords: Dictionary, bw: Dictionary)
    requires allWords != map[]
  {
    var lo, hi := MinKey(allWords), MaxKey(allWords);
    && bw != map[]
    && MinKey(bw) == lo && MaxKey(bw) <= hi
    && (forall n :: n in bw <==> lo <= n <= MaxKey(bw))
    && bw[lo] == allWords[lo]
    && (forall n: nat :: lo < n <= MaxKey(bw) ==> Extends(allWords, bw, n))
    && (MaxKey(bw) < hi ==> ExtendLevel(Lookup(allWords, MaxKey(bw) + 1), bw[MaxKey(bw)]) == {})
    && DownClosed(bw, lo)
    && (forall n, w :: Buildable(allWords, lo, n, w) <==> n in bw && w in bw[n])
  }

  /** When the levels stop growing, they are the result `find_buildable_words` promises. */
  lemma BuildFinished(allWords: Dictionary, bw: Dictionary, lo: nat, top: nat)
    requires allWords != map[] && lo == MinKey(allWords) && lo <= top <= MaxKey(allWords)
    requires LevelsBuilt(allWords, bw, lo, top)
    requires top < MaxKey(allWords) ==> ExtendLevel(Lookup(allWords, top + 1), bw[top]) == {}
    ensures BuildResult(allWords, bw)
  {
    BuiltKeys(allWords, bw, lo, top);
    BuiltIsDownClosed(allWords, bw, lo, top);
    LevelsAreBuildable(allWords, bw, lo, top);
  }

  lemma BuiltKeys(allWords: Dictionary, bw: Dictionary, lo: nat, top: nat)
    requires LevelsBuilt(allWords, bw, lo, top)
    ensures bw != map[] && MinKey(bw) == lo && MaxKey(bw) == top
  {
    var a, b := MinKey(bw), MaxKey(bw);
    assert lo <= a && b <= top;
  }

  lemma BuiltIsDownClosed(allWords: Dictionary, bw: Dictionary, lo: nat, top: nat)
    requires LevelsBuilt(allWords, bw, lo, top)
    ensures DownClosed(bw, lo)
  {
    forall n: nat, w | n in bw && lo < n && w in bw[n]
      ensures DropsToLevelBelow(bw, n, w)
    {
      assert Extends(allWords, bw, n);
      assert w in ExtendLevel(Lookup(allWords, n), bw[n - 1]);
    }
  }

  /**
   * Levels built as `find_buildable_words` builds them hold exactly the
   * buildable words.
   */
  lemma LevelsAreBuildable(allWords: Dictionary, bw: Dictionary, lo: nat, top: nat)
    requires allWords != map[] && lo == MinKey(allWords) && lo <= top <= MaxKey(allWords)
    requires LevelsBuilt(allWords, bw, lo, top)
    requires top < MaxKey(allWords) ==> ExtendLevel(Lookup(allWords, top + 1), bw[top]) == {}
    ensures forall n, w :: Buildable(allWords, lo, n, w) <==> n in bw && w in bw[n]
  {
    forall n: nat ensures forall w :: Buildable(allWords, lo, n, w) <==> n in bw && w in bw[n] {
      BuildableAt(allWords, bw, lo, top, n);
    }
  }

  lemma {:induction false} BuildableAt(allWords: Dictionary, bw: Dictionary, lo: nat, top: nat, n: nat)
    requires allWords != map[] && lo == MinKey(allWords) && lo <= top <= MaxKey(allWords)
    requires LevelsBuilt(allWords, bw, lo, top)
    requires top < MaxKey(allWords) ==> ExtendLevel(Lookup(allWords, top + 1), bw[top]) == {}
    ensures forall w :: Buildable(allWords, lo, n, w) <==> n in bw && w in bw[n]
    decreases n
  {
    if n > lo {
      BuildableAt(allWords, bw, lo, top, n - 1);
      if n > MaxKey(allWords) {
        assert Lookup(allWords, n) == {};
      }
      forall w ensures Buildable(allWords, lo, n, w) <==> n in bw && w in bw[n] {
        if n <= top {
          assert Extends(allWords, bw, n);
        } else if n == top + 1 && n <= MaxKey(allWords) {
          assert w !in ExtendLevel(Lookup(allWords, top + 1), bw[top]);
        }
      }
    }
  }

  /**
   * The next level of a build sequence: the words of `level` obtained from a
   * word of `prev` by dropping its last or its first letter.
   */
  function NextLevel(prev: set<string>, level: set<string>): set<string> {
    (set p | p in prev && DropLast(p) in level :: DropLast(p)) +
    (set p | p in prev && DropFirst(p) in level :: DropFirst(p))
  }

  /** The words of the next level are exactly the words of `level` one letter shy of a word of `prev`. */
  lemma NextLevelMembers(prev: set<string>, level: set<string>, x: string)
    ensures x in NextLevel(prev, level) <==>
      (x in level && exists p :: p in prev && (x == DropLast(p) || x == DropFirst(p)))
  {
  }

  /**
   * What one word of the level above contributes to the next level: the two
   * tests of the inner loop body, dropping the last and the first letter.
   */
  function Contribution(p: string, level: set<string>): set<string> {
    (if DropLast(p) in level then {DropLast(p)} else {}) + (if DropFirst(p) in level then {DropFirst(p)} else {})
  }

  lemma NextLevelAdd(done: set<string>, p: string, level: set<string>)
    ensures NextLevel(done + {p}, level) == NextLevel(done, level) + Contribution(p, level)
  {
  }

  /** One step of the inner loop of `get_build_sequence`. */
  lemma LevelGrows(prev: set<string>, todo: set<string>, p: string, level: set<string>,
                   before: set<string>, after: set<string>)
    requires p in todo && todo <= prev
    requires before == NextLevel(prev - todo, level)
    requires after == before + Contribution(p, level)
    ensures after == NextLevel(prev - (todo - {p}), level)
  {
    assert prev - (todo - {p}) == (prev - todo) + {p};
    NextLevelAdd(prev - todo, p, level);
  }

  /**
   * The first `m` levels of the build sequence of `word`: `{word}`, then each
   * level the next level of the one before, looked up at one length less.
   * A missing length reads as no words.
   */
  ghost function Levels(word: string, bw: Dictionary, m: nat): (r: seq<set<string>>)
    requires m > 0
    ensures |r| == m && r[0] == {word}
    decreases m
  {
    if m == 1 then [{word}]
    else
      var prev := Levels(word, bw, m - 1);
      prev + [NextLevel(prev[m - 2], Lookup(bw, |word| - (m - 1)))]
  }

  /** Level `k` of the build sequence of `word`. */
  ghost function Level(word: string, bw: Dictionary, k: nat): set<string> {
    Levels(word, bw, k + 1)[k]
  }

  /** A longer prefix of the build sequence agrees with a shorter one. */
  lemma {:induction false} LevelsPrefix(word: string, bw: Dictionary, m: nat, k: nat)
    requires k < m
    ensures Levels(word, bw, m)[k] == Level(word, bw, k)
    decreases m
  {
    if m > k + 1 {
      LevelsPrefix(word, bw, m - 1, k);
      assert Levels(word, bw, m)[k] == Levels(word, bw, m - 1)[k];
    }
  }

  /**
   * A word is at position `k > 0` of the build sequence exactly when it is a
   * word of length `|word| - k` and drops out of a word at position `k - 1`
   * by losing its last or its first letter.
   */
  lemma LevelMembers(word: string, bw: Dictionary, m: nat, k: nat, x: string)
    requires 0 < k < m
    ensures x in Levels(word, bw, m)[k] <==>
      (x in Lookup(bw, |word| - k) &&
       exists p :: p in Levels(word, bw, m)[k - 1] && (x == DropLast(p) || x == DropFirst(p)))
  {
    LevelsPrefix(word, bw, m, k);
    LevelsPrefix(word, bw, m, k - 1);
    LevelsPrefix(word, bw, k + 1, k - 1);
    NextLevelMembers(Level(word, bw, k - 1), Lookup(bw, |word| - k), x);
  }

  /** The words of level `k` are `k` letters shorter than `word`. */
  lemma {:induction false} LevelLengths(word: string, bw: Dictionary, m: nat)
    requires 0 < m <= |word| + 1
    ensures forall k, x :: 0 <= k < m && x in Levels(word, bw, m)[k] ==> |x| == |word| - k
    decreases m
  {
    if m > 1 {
      LevelLengths(word, bw, m - 1);
      var prev := Levels(word, bw, m - 1);
      assert Levels(word, bw, m) == prev + [NextLevel(prev[m - 2], Lookup(bw, |word| - (m - 1)))];
      forall k, x | 0 <= k < m && x in Levels(word, bw, m)[k]
        ensures |x| == |word| - k
      {
        if k < m - 1 {
          assert Levels(word, bw, m)[k] == prev[k];
        } else {
          var p :| p in prev[m - 2] && (x == DropLast(p) || x == DropFirst(p));
          assert |p| == |word| - (m - 2);
        }
      }
    }
  }

  /**
   * `buildable_words[length]` raises KeyError: walking down from `word`,
   * some length is missing from `bw` while the level above it still holds
   * a word to look up.
   */
  ghost predicate LookupFails(word: string, bw: Dictionary)
    requires bw != map[]
  {
    exists k: nat :: k < |word| - MinKey(bw) && (|word| - 1 - k) !in bw && Level(word, bw, k) != {}
  }

  /** Level `level` is a non-empty set of words filed under length `n` in `bw`. */
  ghost predicate Inside(bw: Dictionary, n: int, level: set<string>) {
    n in bw && level != {} && level <= bw[n]
  }

  /**
   * The inner loop of `get_build_sequence`: the words of length `key` one
   * letter shorter than a word of `prev`. Looking up the first word of a
   * non-empty `prev` at a missing length raises KeyError: `None`.
   */
  method LookUpLevel(prev: set<string>, bw: Dictionary, key: nat) returns (r: Option<set<string>>)
    ensures r.None? <==> prev != {} && key !in bw
    ensures r.Some? ==> r.value == NextLevel(prev, Lookup(bw, key))
  {
    var newWords := {};
    var todo := prev;
    while todo != {}
      invariant todo <= prev
      invariant todo != prev ==> key in bw
      invariant newWords == NextLevel(prev - todo, Lookup(bw, key))
      decreases |todo|
    {
      var prevWord :| prevWord in todo;
      if key !in bw {
        return None;
      }
      LevelGrows(prev, todo, prevWord, bw[key], newWords, newWords + Contribution(prevWord, bw[key]));
      newWords := newWords + Contribution(prevWord, bw[key]);
      todo := todo - {prevWord};
    }
    assert prev - todo == prev;
    r := Some(newWords);
  }

  /**
   * `get_build_sequence`: `[word]`, then for every length from `|word| - 1`
   * down to the smallest one the words of that length obtained from the
   * level above by dropping a last or a first letter.
   */
  method GetBuildSequence(word: string, bw: Dictionary) returns (r: Option<seq<set<string>>>)
    ensures r.None? <==> bw == map[] || LookupFails(word, bw)
    ensures r.Some? ==>
      var s, lo := r.value, MinKey(bw);
      && |s| == 1 + (if |word| > lo then |word| - lo else 0)
      && s == Levels(word, bw, |s|)
      && (forall k, x :: 0 <= k < |s| && x in s[k] ==> |x| == |word| - k)
    ensures bw != map[] && DownClosed(bw, MinKey(bw)) && |word| in bw && word in bw[|word|] ==>
      r.Some? && forall k :: 0 <= k < |r.value| ==> Inside(bw, |word| - k, r.value[k])
  {
    if bw == map[] {
      return None;
    }
    var lo := MinKey(bw);
    var s := [{word}];
    var n: int := |word| - 1;
    ghost var good := DownClosed(bw, lo) && |word| in bw && word in bw[|word|];
    while n >= lo
      invariant n <= |word| - 1 && (n + 1 >= lo || n == |word| - 1)
      invariant |s| == |word| - n
      invariant Walked(word, bw, s, good)
      decreases n
    {
      var key: nat := n;
      WalkKeyPresent(word, bw, lo, s, key, good);
      var next := LookUpLevel(s[|s| - 1], bw, key);
      if next.None? {
        MissingLookup(word, bw, s);
        return None;
      }
      WalkStep(word, bw, lo, s, key, next.value, good);
      s := s + [next.value];
      n := n - 1;
    }
    NoFailure(word, bw, s);
    LevelLengths(word, bw, |s|);
    r := Some(s);
  }

  /**
   * The walk so far: `s` is the start of the build sequence, every length
   * looked up below a non-empty level is present, and, from a word of a
   * down-closed `bw`, every level is non-empty and inside `bw`.
   */
  ghost predicate Walked(word: string, bw: Dictionary, s: seq<set<string>>, good: bool) {
    && 0 < |s|
    && s == Levels(word, bw, |s|)
    && (forall k :: 0 <= k < |s| - 1 ==> (|word| - 1 - k) in bw || s[k] == {})
    && (good ==> forall k :: 0 <= k < |s| ==> Inside(bw, |word| - k, s[k]))
  }

  /** From a word of a down-closed `bw`, the walk never meets a missing length. */
  lemma WalkKeyPresent(word: string, bw: Dictionary, lo: nat, s: seq<set<string>>, key: nat, good: bool)
    requires Walked(word, bw, s, good) && key == |word| - |s| && lo <= key
    requires good ==> DownClosed(bw, lo)
    ensures good ==> key in bw
  {
    if good {
      assert Inside(bw, key + 1, s[|s| - 1]);
      var p :| p in s[|s| - 1];
      assert DropsToLevelBelow(bw, key + 1, p);
    }
  }

  /** One round of the outer loop of `get_build_sequence` extends the walk. */
  lemma WalkStep(word: string, bw: Dictionary, lo: nat, s: seq<set<string>>, key: nat, newWords: set<string>, good: bool)
    requires Walked(word, bw, s, good) && key == |word| - |s| && lo <= key
    requires good ==> DownClosed(bw, lo)
    requires s[|s| - 1] != {} ==> key in bw
    requires newWords == NextLevel(s[|s| - 1], Lookup(bw, key))
    ensures Walked(word, bw, s + [newWords], good)
  {
    if good {
      assert Inside(bw, key + 1, s[|s| - 1]);
      GoodLevel(bw, lo, s[|s| - 1], key, newWords);
      WalkInside(word, bw, s, newWords);
    }
    WalkLookedUp(word, bw, s, newWords);
  }

  /** A lookup at a missing length after a non-empty level is a KeyError. */
  lemma MissingLookup(word: string, bw: Dictionary, s: seq<set<string>>)
    requires bw != map[] && 0 < |s| <= |word| - MinKey(bw)
    requires s == Levels(word, bw, |s|) && s[|s| - 1] != {} && (|word| - |s|) !in bw
    ensures LookupFails(word, bw)
  {
    var k: nat := |s| - 1;
    assert Level(word, bw, k) != {};
  }

  /** Appending a level keeps every looked-up length present or its level empty. */
  lemma WalkLookedUp(word: string, bw: Dictionary, s: seq<set<string>>, newWords: set<string>)
    requires 0 < |s|
    requires forall k :: 0 <= k < |s| - 1 ==> (|word| - 1 - k) in bw || s[k] == {}
    requires s[|s| - 1] != {} ==> |word| - |s| in bw
    ensures forall k :: 0 <= k < |s| ==> (|word| - 1 - k) in bw || (s + [newWords])[k] == {}
  {
    var s' := s + [newWords];
    forall k | 0 <= k < |s|
      ensures (|word| - 1 - k) in bw || s'[k] == {}
    {
      assert s'[k] == s[k];
    }
  }

  /** Appending a level inside `bw` keeps every level inside `bw`. */
  lemma WalkInside(word: string, bw: Dictionary, s: seq<set<string>>, newWords: set<string>)
    requires forall k :: 0 <= k < |s| ==> Inside(bw, |word| - k, s[k])
    requires Inside(bw, |word| - |s|, newWords)
    ensures forall k :: 0 <= k < |s| + 1 ==> Inside(bw, |word| - k, (s + [newWords])[k])
  {
    var s' := s + [newWords];
    forall k | 0 <= k < |s'|
      ensures Inside(bw, |word| - k, s'[k])
    {
      if k < |s| {
        assert s'[k] == s[k];
      }
    }
  }

  /** A walk that reached the smallest length never looked up a missing length. */
  lemma NoFailure(word: string, bw: Dictionary, s: seq<set<string>>)
    requires bw != map[] && |s| == 1 + (if |word| > MinKey(bw) then |word| - MinKey(bw) else 0)
    requires s == Levels(word, bw, |s|)
    requires forall k :: 0 <= k < |s| - 1 ==> (|word| - 1 - k) in bw || s[k] == {}
    ensures !LookupFails(word, bw)
  {
    forall k: nat | k < |word| - MinKey(bw) && (|word| - 1 - k) !in bw
      ensures Level(word, bw, k) == {}
    {
      LevelsPrefix(word, bw, |s|, k);
      assert s[k] == {};
    }
  }

  /** From a word of a down-closed dictionary, the next level is non-empty and inside it. */
  lemma GoodLevel(bw: Dictionary, lo: nat, prev: set<string>, key: nat, newWords: set<string>)
    requires DownClosed(bw, lo) && lo <= key
    requires Inside(bw, key + 1, prev)
    requires newWords == NextLevel(prev, Lookup(bw, key))
    ensures Inside(bw, key, newWords)
  {
    var p :| p in prev;
    assert key + 1 in bw && p in bw[key + 1];
    assert DropsToLevelBelow(bw, key + 1, p);
    if DropLast(p) in bw[key] {
      assert DropLast(p) in newWords;
    } else {
      assert DropFirst(p) in newWords;
    }
  }
}
