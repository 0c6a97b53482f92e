/**
  The tile pool of best_match: the dictionary `tiles` of available tiles and the
  dictionary `discarded` of used ones, each mapping a file name to its colour
  signature.

  Python 2 does not fix the order in which a dictionary enumerates its items, so a
  dictionary is modelled as the sequence of its items in enumeration order; every
  statement about ties ("the first minimum wins") is relative to that order.
*/
module Pool {
  import opened Wrappers
  import opened Colour
  import opened Distance

  /** A tile's file name. */
  type Key = string

  /** One dictionary item: a tile's file name and its colour signature. */
  datatype Entry = Entry(key: Key, colour: Rgb)

  /** The two dictionaries, `tiles` (available) and `discarded` (used). */
  datatype PoolState = PoolState(tiles: seq<Entry>, discarded: seq<Entry>)

  function KeySet(s: seq<Entry>): set<Key>
  {
    set i | 0 <= i < |s| :: s[i].key
  }

  predicate DistinctKeys(s: seq<Entry>)
  {
    forall i, j :: 0 <= i < j < |s| ==> s[i].key != s[j].key
  }

  /** The full tile set: every tile the pool knows, available or used. */
  function All(p: PoolState): multiset<Entry>
  {
    multiset(p.tiles) + multiset(p.discarded)
  }

  /** The pool invariant: across both dictionaries every file name occurs once. */
  predicate WellFormed(p: PoolState)
  {
    DistinctKeys(p.tiles + p.discarded)
  }

  /** The same invariant on the full tile set, which does not depend on the order of the
      items or on which dictionary holds them: no item occurs twice and no two items
      share a file name. */
  predicate UniqueKeys(m: multiset<Entry>)
  {
    (forall e :: e in m ==> m[e] <= 1) &&
    (forall e1, e2 :: e1 in m && e2 in m && e1.key == e2.key ==> e1 == e2)
  }

  lemma RepeatedEntry(s: seq<Entry>, i: nat, j: nat)
    requires i < j < |s| && s[i] == s[j]
    ensures multiset(s)[s[i]] >= 2
  {
    assert s == s[..j] + s[j..];
    assert s[i] in s[..j];
    assert s[j] in s[j..];
  }

  lemma {:induction false} TwoOccurrences(s: seq<Entry>, e: Entry)
    requires multiset(s)[e] >= 2
    ensures exists i, j :: 0 <= i < j < |s| && s[i] == e && s[j] == e
  {
    var n := |s|;
    var t := s[..n - 1];
    assert s == t + [s[n - 1]];
    if s[n - 1] == e {
      assert e in multiset(t);
      var i :| 0 <= i < |t| && t[i] == e;
      assert s[i] == e;
    } else {
      TwoOccurrences(t, e);
      var i, j :| 0 <= i < j < |t| && t[i] == e && t[j] == e;
      assert s[i] == e && s[j] == e;
    }
  }

  /** Distinct file names in a sequence of items is UniqueKeys of its multiset. */
  lemma DistinctUnique(s: seq<Entry>)
    ensures DistinctKeys(s) <==> UniqueKeys(multiset(s))
  {
    var m := multiset(s);
    if DistinctKeys(s) {
      forall e | e in m ensures m[e] <= 1 {
        if m[e] >= 2 {
          TwoOccurrences(s, e);
        }
      }
      forall e1, e2 | e1 in m && e2 in m && e1.key == e2.key ensures e1 == e2 {
        var i :| 0 <= i < |s| && s[i] == e1;
        var j :| 0 <= j < |s| && s[j] == e2;
        assert i == j;
      }
    }
    if UniqueKeys(m) {
      forall i, j | 0 <= i < j < |s| ensures s[i].key != s[j].key {
        if s[i].key == s[j].key {
          assert s[i] in m && s[j] in m;
          RepeatedEntry(s, i, j);
        }
      }
    }
  }

  lemma WellFormedUnique(p: PoolState)
    ensures WellFormed(p) <==> UniqueKeys(All(p))
  {
    DistinctUnique(p.tiles + p.discarded);
    assert multiset(p.tiles + p.discarded) == All(p);
  }

  /** The invariant makes each dictionary free of duplicate keys and the two disjoint. */
  lemma WellFormedParts(p: PoolState)
    requires WellFormed(p)
    ensures DistinctKeys(p.tiles) && DistinctKeys(p.discarded)
    ensures KeySet(p.tiles) !! KeySet(p.discarded)
  {
    var s, n := p.tiles + p.discarded, |p.tiles|;
    forall i, j | 0 <= i < j < n ensures p.tiles[i].key != p.tiles[j].key {
      assert s[i] == p.tiles[i] && s[j] == p.tiles[j];
    }
    forall i, j | 0 <= i < j < |p.discarded| ensures p.discarded[i].key != p.discarded[j].key {
      assert s[n + i] == p.discarded[i] && s[n + j] == p.discarded[j];
    }
    forall k | k in KeySet(p.tiles) ensures k !in KeySet(p.discarded) {
      var i :| 0 <= i < n && p.tiles[i].key == k;
      forall j | 0 <= j < |p.discarded| ensures p.discarded[j].key != k {
        assert s[i] == p.tiles[i] && s[n + j] == p.discarded[j];
      }
    }
  }

  lemma KeyInTail(s: seq<Entry>, k: Key)
    requires k in KeySet(s) && s[0].key != k
    ensures k in KeySet(s[1..])
  {
    var i :| 0 <= i < |s| && s[i].key == k;
    assert s[1..][i - 1].key == k;
  }

  /** The position of file name k: the first item that has it. */
  function IndexOf(s: seq<Entry>, k: Key): (i: nat)
    requires k in KeySet(s)
    ensures i < |s| && s[i].key == k
    ensures forall j :: 0 <= j < i ==> s[j].key != k
  {
    if s[0].key == k then 0 else KeyInTail(s, k); 1 + IndexOf(s[1..], k)
  }

  /** `tiles[k]`: the colour stored under file name k. */
  function ColourOf(s: seq<Entry>, k: Key): Rgb
    requires k in KeySet(s)
  {
    s[IndexOf(s, k)].colour
  }

  /** The caller's withdrawal of a match: `discarded.update({k: tiles[k]})`, then
      `del tiles[k]`; the other items keep their order. */
  function Withdrawn(p: PoolState, k: Key): PoolState
    requires k in KeySet(p.tiles)
  {
    var i := IndexOf(p.tiles, k);
    PoolState(p.tiles[..i] + p.tiles[i + 1..], p.discarded + [p.tiles[i]])
  }

  /** Replenishment: `tiles.update(discarded)` (the keys are disjoint, so every item of
      discarded is appended) and `discarded = {}`. */
  function Replenished(p: PoolState): PoolState
  {
    PoolState(p.tiles + p.discarded, [])
  }

  /** Withdrawing a match moves exactly its item from tiles to discarded: the pool
      invariant and the full tile set are kept. */
  lemma WithdrawMoves(p: PoolState, k: Key)
    requires WellFormed(p) && k in KeySet(p.tiles)
    ensures var q := Withdrawn(p, k);
      WellFormed(q) && All(q) == All(p) &&
      KeySet(q.tiles) == KeySet(p.tiles) - {k} &&
      KeySet(q.discarded) == KeySet(p.discarded) + {k} &&
      Entry(k, ColourOf(p.tiles, k)) in q.discarded
  {
    WithdrawKeepsAll(p, k);
    WellFormedParts(p);
    WithdrawTilesKeys(p, k);
    WithdrawDiscardedKeys(p, k);
    WellFormedUnique(p);
    WellFormedUnique(Withdrawn(p, k));
  }

  lemma WithdrawKeepsAll(p: PoolState, k: Key)
    requires k in KeySet(p.tiles)
    ensures All(Withdrawn(p, k)) == All(p)
  {
    var i := IndexOf(p.tiles, k);
    var t := p.tiles;
    var before, item, after := t[..i], [t[i]], t[i + 1..];
    assert t == before + item + after;
    assert multiset(t) == multiset(before) + multiset(item) + multiset(after);
    assert multiset(before + after) == multiset(before) + multiset(after);
    assert multiset(p.discarded + item) == multiset(p.discarded) + multiset(item);
  }

  lemma WithdrawTilesKeys(p: PoolState, k: Key)
    requires DistinctKeys(p.tiles) && k in KeySet(p.tiles)
    ensures KeySet(Withdrawn(p, k).tiles) == KeySet(p.tiles) - {k}
  {
    var q := Withdrawn(p, k);
    var i := IndexOf(p.tiles, k);
    var t := p.tiles;
    forall j | 0 <= j < |q.tiles| ensures q.tiles[j].key != k && q.tiles[j].key in KeySet(t) {
      if j < i {
        assert q.tiles[j] == t[j];
      } else {
        assert q.tiles[j] == t[j + 1];
      }
    }
    forall k' | k' in KeySet(t) - {k} ensures k' in KeySet(q.tiles) {
      var j :| 0 <= j < |t| && t[j].key == k';
      if j < i {
        assert q.tiles[j] == t[j];
      } else {
        assert q.tiles[j - 1] == t[j];
      }
    }
  }

  lemma WithdrawDiscardedKeys(p: PoolState, k: Key)
    requires k in KeySet(p.tiles)
    ensures KeySet(Withdrawn(p, k).discarded) == KeySet(p.discarded) + {k}
    ensures Entry(k, ColourOf(p.tiles, k)) in Withdrawn(p, k).discarded
  {
    var q := Withdrawn(p, k);
    var i := IndexOf(p.tiles, k);
    assert q.discarded[|p.discarded|] == p.tiles[i];
    forall k' | k' in KeySet(q.discarded) ensures k' in KeySet(p.discarded) + {k} {
      var j :| 0 <= j < |q.discarded| && q.discarded[j].key == k';
      if j < |p.discarded| {
        assert p.discarded[j] == q.discarded[j];
      }
    }
    forall k' | k' in KeySet(p.discarded) ensures k' in KeySet(q.discarded) {
      var j :| 0 <= j < |p.discarded| && p.discarded[j].key == k';
      assert q.discarded[j] == p.discarded[j];
    }
  }

  /** Replenishing makes every tile available again and empties discarded; the pool
      invariant and the full tile set are kept. */
  lemma ReplenishMerges(p: PoolState)
    requires WellFormed(p)
    ensures var q := Replenished(p);
      WellFormed(q) && All(q) == All(p) &&
      KeySet(q.tiles) == KeySet(p.tiles) + KeySet(p.discarded) && q.discarded == []
  {
    var q := Replenished(p);
    var n := |p.tiles|;
    assert q.tiles + q.discarded == p.tiles + p.discarded;
    forall k | k in KeySet(q.tiles) ensures k in KeySet(p.tiles) + KeySet(p.discarded) {
      var j :| 0 <= j < |q.tiles| && q.tiles[j].key == k;
      if j < n {
        assert p.tiles[j] == q.tiles[j];
      } else {
        assert p.discarded[j - n] == q.tiles[j];
      }
    }
    forall k | k in KeySet(p.tiles) + KeySet(p.discarded) ensures k in KeySet(q.tiles) {
      if k in KeySet(p.tiles) {
        var j :| 0 <= j < n && p.tiles[j].key == k;
        assert q.tiles[j] == p.tiles[j];
      } else {
        var j :| 0 <= j < |p.discarded| && p.discarded[j].key == k;
        assert q.tiles[n + j] == p.discarded[j];
      }
    }
  }

  /** A used tile comes back: after a withdrawal and a replenishment it is available
      again and discarded is empty. */
  lemma WithdrawThenReplenish(p: PoolState, k: Key)
    requires WellFormed(p) && k in KeySet(p.tiles)
    ensures var q := Replenished(Withdrawn(p, k));
      k in KeySet(q.tiles) && q.discarded == [] && All(q) == All(p) && WellFormed(q)
  {
    WithdrawMoves(p, k);
    ReplenishMerges(Withdrawn(p, k));
  }

  // ---------------------------------------------------------------------------
  // The scan of best_match

  /** The loop state of a scan: `err` (as a squared distance) and `match`. */
  datatype Best = Best(err: nat, tile: Option<Key>)

  /** `err = 1e9`, `match = None`. */
  const Start := Best(InitialErrSq, None)

  function Score(val: Rgb, e: Entry): nat
  {
    SqDist(val, e.colour)
  }

  /** One iteration: `if score < err: err = score; match = k`. */
  function Step(b: Best, val: Rgb, e: Entry): Best
  {
    if Score(val, e) < b.err then Best(Score(val, e), Some(e.key)) else b
  }

  /** The loop `for k, v in tiles.items()` run from the state b. */
  function Scan(s: seq<Entry>, val: Rgb, b: Best): Best
    decreases |s|, 1
  {
    if |s| == 0 then b else ScanLast(s, val, b)
  }

  /** The loop over a non-empty s: over all but the last item, then the last iteration. */
  function ScanLast(s: seq<Entry>, val: Rgb, b: Best): Best
    requires |s| > 0
    decreases |s|, 0
  {
    Step(Scan(s[..|s| - 1], val, b), val, s[|s| - 1])
  }

  lemma ScanPrefix(s: seq<Entry>, i: nat, val: Rgb, b: Best)
    requires i < |s|
    ensures Scan(s[..i + 1], val, b) == Step(Scan(s[..i], val, b), val, s[i])
  {
    assert s[..i + 1][..i] == s[..i];
  }

  /** j is the first position holding a minimum distance to val. */
  predicate IsFirstMin(s: seq<Entry>, val: Rgb, j: int)
  {
    0 <= j < |s| &&
    (forall i :: 0 <= i < |s| ==> Score(val, s[j]) <= Score(val, s[i])) &&
    (forall i :: 0 <= i < j ==> Score(val, s[j]) < Score(val, s[i]))
  }

  /** Some item of s scores strictly below the err of b. */
  predicate Improves(s: seq<Entry>, val: Rgb, b: Best)
  {
    exists i :: 0 <= i < |s| && Score(val, s[i]) < b.err
  }

  /** What a scan of s from b ends with: an err no greater than b's and no greater than
      any item's distance; b itself unless some item is strictly better; and otherwise the
      first item of minimum distance. */
  ghost predicate ScanOutcome(s: seq<Entry>, val: Rgb, b: Best, r: Best)
  {
    r.err <= b.err &&
    (forall i :: 0 <= i < |s| ==> r.err <= Score(val, s[i])) &&
    (!Improves(s, val, b) ==> r == b) &&
    (Improves(s, val, b) ==> exists j :: IsFirstMin(s, val, j) && Score(val, s[j]) < b.err &&
                                         r == Best(Score(val, s[j]), Some(s[j].key)))
  }

  /** A scan keeps its start unless some item is strictly better, and otherwise ends on
      the first item of minimum distance: the strict `<` gives ties to the earliest. */
  lemma {:induction false} ScanFindsFirstMin(s: seq<Entry>, val: Rgb, b: Best)
    ensures ScanOutcome(s, val, b, Scan(s, val, b))
  {
    if s != [] {
      var n := |s|;
      var t := s[..n - 1];
      ScanFindsFirstMin(t, val, b);
      assert s == t + [s[n - 1]];
      ScanOutcomeSnoc(t, s[n - 1], val, b, Scan(t, val, b));
    }
  }

  /** One more iteration of the loop keeps ScanOutcome. */
  lemma ScanOutcomeSnoc(t: seq<Entry>, e: Entry, val: Rgb, b: Best, r: Best)
    requires ScanOutcome(t, val, b, r)
    ensures ScanOutcome(t + [e], val, b, Step(r, val, e))
  {
    if Score(val, e) < r.err {
      SnocNewMin(t, e, val, b, r);
    } else {
      SnocKeeps(t, e, val, b, r);
    }
  }

  /** An item strictly better than the err so far becomes the match. */
  lemma SnocNewMin(t: seq<Entry>, e: Entry, val: Rgb, b: Best, r: Best)
    requires ScanOutcome(t, val, b, r) && Score(val, e) < r.err
    ensures ScanOutcome(t + [e], val, b, Best(Score(val, e), Some(e.key)))
  {
    var s, n := t + [e], |t| + 1;
    assert forall i :: 0 <= i < n - 1 ==> s[i] == t[i];
    assert s[n - 1] == e;
    assert IsFirstMin(s, val, n - 1);
  }

  /** An item no better than the err so far changes nothing. */
  lemma SnocKeeps(t: seq<Entry>, e: Entry, val: Rgb, b: Best, r: Best)
    requires ScanOutcome(t, val, b, r) && r.err <= Score(val, e)
    ensures ScanOutcome(t + [e], val, b, r)
  {
    var s, n := t + [e], |t| + 1;
    assert forall i :: 0 <= i < n - 1 ==> s[i] == t[i];
    assert s[n - 1] == e;
    if Improves(t, val, b) {
      var j :| IsFirstMin(t, val, j) && Score(val, t[j]) < b.err && r == Best(Score(val, t[j]), Some(t[j].key));
      assert IsFirstMin(s, val, j);
    } else {
      assert !Improves(s, val, b);
    }
  }

  lemma {:induction false} ScanAppend(a: seq<Entry>, c: seq<Entry>, val: Rgb, b: Best)
    ensures Scan(a + c, val, b) == Scan(c, val, Scan(a, val, b))
  {
    if c == [] {
      assert a + c == a;
    } else {
      var n := |c|;
      ScanAppend(a, c[..n - 1], val, b);
      assert (a + c)[..|a + c| - 1] == a + c[..n - 1];
    }
  }

  /** The rescan after replenishment does not reset err and match, yet it ends where a
      fresh scan of the merged pool would. */
  lemma RescanIsFreshScan(t: seq<Entry>, d: seq<Entry>, val: Rgb)
    ensures Scan(t + d, val, Scan(t, val, Start)) == Scan(t + d, val, Start)
  {
    var first := Scan(t, val, Start);
    ScanFindsFirstMin(t, val, Start);
    ScanFindsFirstMin(t, val, first);
    assert Scan(t, val, first) == first;
    ScanAppend(t, d, val, first);
    ScanAppend(t, d, val, Start);
  }

  /** The match of a scan from Start names an item of the scanned sequence. */
  lemma ScanMatchIn(s: seq<Entry>, val: Rgb, b: Best)
    requires b.tile.Some? ==> b.tile.value in KeySet(s)
    ensures var r := Scan(s, val, b); r.tile.Some? ==> r.tile.value in KeySet(s)
  {
    ScanFindsFirstMin(s, val, b);
  }

  // ---------------------------------------------------------------------------
  // best_match

  /** The test `match == None or err > threshold`. */
  predicate Trips(b: Best, threshold: int)
  {
    b.tile.None? || Exceeds(b.err, threshold)
  }

  /** An item the code can accept: it beats the initial err and is within threshold. */
  predicate Usable(val: Rgb, e: Entry, threshold: int)
  {
    Score(val, e) < InitialErrSq && !Exceeds(Score(val, e), threshold)
  }

  predicate HasUsable(s: seq<Entry>, val: Rgb, threshold: int)
  {
    exists i :: 0 <= i < |s| && Usable(val, s[i], threshold)
  }

  /** A scan from Start trips exactly when no item of s is usable. */
  lemma ScanTripsIff(s: seq<Entry>, val: Rgb, threshold: int)
    ensures Trips(Scan(s, val, Start), threshold) <==> !HasUsable(s, val, threshold)
  {
    var r := Scan(s, val, Start);
    ScanFindsFirstMin(s, val, Start);
    if HasUsable(s, val, threshold) {
      var i :| 0 <= i < |s| && Usable(val, s[i], threshold);
      assert Improves(s, val, Start);
      assert r.err <= Score(val, s[i]);
    }
  }

  /** The outcome of best_match: the match (None where the code calls exit()), whether the
      threshold tripped, and the pool afterwards. */
  datatype Selection = Selection(winner: Option<Key>, tripped: bool, pool: PoolState)

  /** best_match(val), on the pool p and the given threshold. */
  function Select(p: PoolState, val: Rgb, threshold: int): Selection
  {
    var first := Scan(p.tiles, val, Start);
    if !Trips(first, threshold) then
      Selection(first.tile, false, p)
    else
      var q := Replenished(p);
      var second := Scan(q.tiles, val, first);
      if Trips(second, threshold) then Selection(None, true, q) else Selection(second.tile, true, q)
  }

  /** A returned match names an available tile of the pool after the call. */
  lemma SelectWinnerIn(p: PoolState, val: Rgb, threshold: int)
    ensures var sel := Select(p, val, threshold);
      sel.winner.Some? ==> sel.winner.value in KeySet(sel.pool.tiles)
  {
    var first := Scan(p.tiles, val, Start);
    ScanMatchIn(p.tiles, val, Start);
    ReplenishedKeys(p);
    ScanMatchIn(Replenished(p).tiles, val, first);
  }

  lemma ReplenishedKeys(p: PoolState)
    ensures KeySet(p.tiles) <= KeySet(Replenished(p).tiles)
  {
    var q := Replenished(p);
    forall k | k in KeySet(p.tiles) ensures k in KeySet(q.tiles) {
      var i :| 0 <= i < |p.tiles| && p.tiles[i].key == k;
      assert q.tiles[i] == p.tiles[i];
    }
  }

  /** The threshold trips exactly when no available tile is usable; without a trip both
      dictionaries are untouched, with one the pool is replenished. */
  lemma SelectTripsIff(p: PoolState, val: Rgb, threshold: int)
    ensures var sel := Select(p, val, threshold);
      (sel.tripped <==> !HasUsable(p.tiles, val, threshold)) &&
      (!sel.tripped ==> sel.pool == p) &&
      (sel.tripped ==> sel.pool == Replenished(p))
  {
    ScanTripsIff(p.tiles, val, threshold);
  }

  /** best_match fails (the code's exit()) exactly when no tile of tiles and discarded
      together is usable. */
  lemma SelectSucceedsIff(p: PoolState, val: Rgb, threshold: int)
    ensures Select(p, val, threshold).winner.Some? <==> HasUsable(p.tiles + p.discarded, val, threshold)
  {
    var m := p.tiles + p.discarded;
    ScanTripsIff(p.tiles, val, threshold);
    ScanTripsIff(m, val, threshold);
    RescanIsFreshScan(p.tiles, p.discarded, val);
    if HasUsable(p.tiles, val, threshold) {
      var i :| 0 <= i < |p.tiles| && Usable(val, p.tiles[i], threshold);
      assert m[i] == p.tiles[i];
    }
  }

  /** A returned match is the first item of minimum distance among the available tiles
      after the call, and is within threshold. */
  lemma SelectIsFirstMin(p: PoolState, val: Rgb, threshold: int)
    ensures var sel := Select(p, val, threshold);
      sel.winner.Some? ==>
        exists j :: IsFirstMin(sel.pool.tiles, val, j) && sel.pool.tiles[j].key == sel.winner.value &&
                    Usable(val, sel.pool.tiles[j], threshold)
  {
    var sel := Select(p, val, threshold);
    var s := sel.pool.tiles;
    if sel.winner.Some? {
      SelectTripsIff(p, val, threshold);
      if sel.tripped {
        RescanIsFreshScan(p.tiles, p.discarded, val);
      }
      var r := Scan(s, val, Start);
      assert sel.winner == r.tile && !Trips(r, threshold);
      ScanFindsFirstMin(s, val, Start);
      var j :| IsFirstMin(s, val, j) && Score(val, s[j]) < Start.err &&
               r == Best(Score(val, s[j]), Some(s[j].key));
      assert Usable(val, s[j], threshold);
    }
  }

  /** best_match keeps the full tile set, whatever the pool. */
  lemma SelectKeepsAll(p: PoolState, val: Rgb, threshold: int)
    ensures All(Select(p, val, threshold).pool) == All(p)
  {
  }

  /** A returned match is the file name of a tile of the full tile set that is usable. */
  lemma SelectUsable(p: PoolState, val: Rgb, threshold: int)
    ensures var sel := Select(p, val, threshold);
      sel.winner.Some? ==>
        exists e :: e in All(p) && e.key == sel.winner.value && Usable(val, e, threshold)
  {
    var sel := Select(p, val, threshold);
    if sel.winner.Some? {
      SelectIsFirstMin(p, val, threshold);
      SelectKeepsAll(p, val, threshold);
      var s := sel.pool.tiles;
      var j :| IsFirstMin(s, val, j) && s[j].key == sel.winner.value && Usable(val, s[j], threshold);
      assert s[j] in multiset(s);
      assert s[j] in All(sel.pool);
    }
  }

  /** best_match keeps the pool invariant and the full tile set. */
  lemma SelectKeepsPool(p: PoolState, val: Rgb, threshold: int)
    requires WellFormed(p)
    ensures var q := Select(p, val, threshold).pool; WellFormed(q) && All(q) == All(p)
  {
    ReplenishMerges(p);
  }

  /** When every colour is an 8-bit triple, the initial err never decides anything: a
      scan from Start finds no match only on an empty sequence. */
  lemma ScanNoneIffEmpty(s: seq<Entry>, val: Rgb)
    requires InRange(val) && ColoursInRange(s)
    ensures Scan(s, val, Start).tile.None? <==> s == []
  {
    ScanFindsFirstMin(s, val, Start);
    if s != [] {
      SqDistBound(val, s[0].colour);
      assert Improves(s, val, Start);
    }
  }

  /** Every colour of s is an 8-bit triple, as every output of rank_image on an RGB image is. */
  predicate ColoursInRange(s: seq<Entry>)
  {
    forall i :: 0 <= i < |s| ==> InRange(s[i].colour)
  }

  /** With 8-bit colours the initial err never decides anything: best_match fails exactly
      when tiles and discarded together are empty or every tile is farther than threshold. */
  lemma SelectFailsIff(p: PoolState, val: Rgb, threshold: int)
    requires InRange(val) && ColoursInRange(p.tiles + p.discarded)
    ensures Select(p, val, threshold).winner.None? <==>
      forall i :: 0 <= i < |p.tiles + p.discarded| ==> Exceeds(Score(val, (p.tiles + p.discarded)[i]), threshold)
  {
    var m := p.tiles + p.discarded;
    SelectSucceedsIff(p, val, threshold);
    forall i | 0 <= i < |m| && !Exceeds(Score(val, m[i]), threshold)
      ensures Usable(val, m[i], threshold)
    {
      SqDistBound(val, m[i].colour);
    }
  }

  /** The global dictionaries `tiles` and `discarded` and the global `threshold`, as
      one object; best_match and the withdrawal are its mutating methods. */
  class TilePool {
    var tiles: seq<Entry>
    var discarded: seq<Entry>
    const threshold: int

    function State(): PoolState
      reads this
    {
      PoolState(tiles, discarded)
    }

    ghost predicate Valid()
      reads this
    {
      WellFormed(State())
    }

    /** The pool once every tile's signature is in `tiles`: the items of a directory,
        whose file names are distinct. */
    constructor (entries: seq<Entry>, threshold: int)
      requires DistinctKeys(entries)
      ensures Valid()
      ensures tiles == entries && discarded == [] && this.threshold == threshold
    {
      tiles := entries;
      discarded := [];
      this.threshold := threshold;
    }

    /** One `for k, v in tiles.items()` loop, starting from err and match in start. */
    method ScanTiles(val: Rgb, start: Best) returns (best: Best)
      ensures best == Scan(tiles, val, start)
    {
      best := start;
      for i := 0 to |tiles|
        invariant best == Scan(tiles[..i], val, start)
      {
        ScanPrefix(tiles, i, val, start);
        var score := SqDist(val, tiles[i].colour);
        if score < best.err {
          best := Best(score, Some(tiles[i].key));
        }
      }
      assert tiles[..|tiles|] == tiles;
    }

    /** best_match(val); a None result stands for the code's exit(). */
    method BestMatch(val: Rgb) returns (winner: Option<Key>, tripped: bool)
      requires Valid()
      modifies this
      ensures Valid() && All(State()) == All(old(State()))
      ensures Selection(winner, tripped, State()) == Select(old(State()), val, threshold)
      ensures !tripped ==> tiles == old(tiles) && discarded == old(discarded)
      ensures tripped ==> tiles == old(tiles) + old(discarded) && discarded == []
      ensures winner.Some? <==> HasUsable(old(tiles) + old(discarded), val, threshold)
      ensures winner.Some? ==>
        exists j :: IsFirstMin(tiles, val, j) && tiles[j].key == winner.value &&
                    Usable(val, tiles[j], threshold)
    {
      ghost var p := State();
      var best := ScanTiles(val, Start);
      tripped := false;
      if best.tile.None? || Exceeds(best.err, threshold) {
        tripped := true;
        tiles := tiles + discarded;
        discarded := [];
        best := ScanTiles(val, best);
      }
      if best.tile.None? || Exceeds(best.err, threshold) {
        winner := None;
      } else {
        winner := best.tile;
      }
      SelectTripsIff(p, val, threshold);
      SelectSucceedsIff(p, val, threshold);
      SelectIsFirstMin(p, val, threshold);
      SelectKeepsPool(p, val, threshold);
    }

    /** `discarded.update({k: tiles[k]})` followed by `del tiles[k]`. */
    method Withdraw(k: Key)
      requires Valid() && k in KeySet(tiles)
      modifies this
      ensures Valid() && All(State()) == All(old(State()))
      ensures State() == Withdrawn(old(State()), k)
      ensures KeySet(tiles) == old(KeySet(tiles)) - {k}
      ensures Entry(k, old(ColourOf(tiles, k))) in discarded
    {
      ghost var p := State();
      var i := IndexOf(tiles, k);
      discarded := discarded + [tiles[i]];
      tiles := tiles[..i] + tiles[i + 1..];
      assert State() == Withdrawn(p, k);
      WithdrawMoves(p, k);
    }
  }
}
