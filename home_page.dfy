// frontend/src/components/HomePage.jsx: four tiles, each showing one of
// fifteen motivation phrases by index. The indexes are drawn at random
// without repetition; clicking a tile draws a phrase not on screen and
// swaps it in when the fade-out timer fires. Math.random becomes an
// arbitrary choice among the candidates. The badge uses
// Badge.Bell.FromStorage, Fetched(mirror := true), Reload and ClearShown.

module HomePage {
  import opened Common

  /** MOTIVATION_PHRASES.length. */
  const PhraseCount: nat := 15

  /** The tiles the page starts with: `getRandomIndexes(4)`. */
  const TileCount: nat := 4

  /** `[0, n).filter(i => !avoid.includes(i))`, in ascending order. */
  function Unlisted(n: nat, avoid: seq<nat>): (r: seq<nat>)
    ensures forall x: nat :: x in r <==> x < n && x !in avoid
    ensures forall i :: 0 <= i < |r| ==> r[i] < n
    ensures NoDup(r)
    ensures |r| <= n
  {
    if n == 0 then []
    else
      var init := Unlisted(n - 1, avoid);
      if n - 1 in avoid then init
      else
        assert forall i :: 0 <= i < |init| ==> init[i] < n - 1;
        init + [n - 1]
  }

  /** Nothing avoided: every index below n. */
  lemma {:induction false} UnlistedNothing(n: nat)
    ensures |Unlisted(n, [])| == n
  {
    if n > 0 {
      UnlistedNothing(n - 1);
    }
  }

  /** Only which indexes are avoided matters, not how they are listed. */
  lemma {:induction false} UnlistedSameMembers(n: nat, a: seq<nat>, b: seq<nat>)
    requires forall x :: x in a <==> x in b
    ensures Unlisted(n, a) == Unlisted(n, b)
  {
    if n > 0 {
      UnlistedSameMembers(n - 1, a, b);
    }
  }

  /** Where entry j of `DropIndex(s, idx)` came from in `s`. */
  function Origin(idx: nat, j: nat): nat
  {
    if j < idx then j else j + 1
  }

  lemma DropIndexOrigin(s: seq<nat>, idx: nat, j: nat)
    requires idx < |s| && j < |s| - 1
    ensures Origin(idx, j) < |s| && Origin(idx, j) != idx
    ensures DropIndex(s, idx)[j] == s[Origin(idx, j)]
  {
  }

  /** splice(idx, 1) on a list without repetitions removes exactly that element ... */
  lemma DropIndexMembers(s: seq<nat>, idx: nat)
    requires NoDup(s) && idx < |s|
    ensures forall x :: x in DropIndex(s, idx) <==> x in s && x != s[idx]
  {
    var r := DropIndex(s, idx);
    forall x | x in s && x != s[idx] ensures x in r {
      var j :| 0 <= j < |s| && s[j] == x;
      DropIndexKeeps(s, idx, j);
    }
    forall x | x in r ensures x in s && x != s[idx] {
      var j :| 0 <= j < |r| && r[j] == x;
      DropIndexOrigin(s, idx, j);
      var o := Origin(idx, j);
      if o < idx {
        assert s[o] != s[idx];
      } else {
        assert s[idx] != s[o];
      }
    }
  }

  /** Every other position of `s` survives the removal. */
  lemma DropIndexKeeps(s: seq<nat>, idx: nat, j: nat)
    requires idx < |s| && j < |s| && j != idx
    ensures s[j] in DropIndex(s, idx)
  {
    var r := DropIndex(s, idx);
    if j < idx {
      assert r[j] == s[j];
    } else {
      assert r[j - 1] == s[j];
    }
  }

  /** ... and repeats nothing. */
  lemma DropIndexNoDup(s: seq<nat>, idx: nat)
    requires NoDup(s) && idx < |s|
    ensures NoDup(DropIndex(s, idx))
  {
    var r := DropIndex(s, idx);
    forall i, j | 0 <= i < j < |r| ensures r[i] != r[j] {
      DropIndexOrigin(s, idx, i);
      DropIndexOrigin(s, idx, j);
    }
  }

  /**
   * getRandomIndexes: while indexes are wanted and any are left, one of the
   * remaining candidates is picked and taken out of them.
   */
  method GetRandomIndexes(count: nat, exclude: seq<nat>) returns (result: seq<nat>)
    ensures NoDup(result)
    ensures forall x: nat :: x in result ==> x < PhraseCount && x !in exclude
    ensures |result| == if count < |Unlisted(PhraseCount, exclude)| then count else |Unlisted(PhraseCount, exclude)|
    ensures count >= |Unlisted(PhraseCount, exclude)| ==>
      forall x: nat :: x in result <==> x < PhraseCount && x !in exclude
  {
    var candidates := Unlisted(PhraseCount, exclude);
    var available := candidates;
    result := [];
    while |result| < count && |available| > 0
      invariant NoDup(result) && NoDup(available)
      invariant forall x :: x in result ==> x !in available
      invariant forall x :: x in candidates <==> x in result || x in available
      invariant |result| + |available| == |candidates|
      invariant |result| <= count
      decreases |available|
    {
      var idx :| 0 <= idx < |available|;
      var picked := available[idx];
      assert picked !in result;
      DropIndexMembers(available, idx);
      DropIndexNoDup(available, idx);
      result := result + [picked];
      available := DropIndex(available, idx);
    }
  }

  /** The tiles' indexes after the timer for `tile` fires: only that entry changes. */
  function SetAt<T>(s: seq<T>, tile: nat, v: T): (r: seq<T>)
    ensures |r| == |s|
    ensures forall i :: 0 <= i < |s| && i != tile ==> r[i] == s[i]
    ensures tile < |s| ==> r[tile] == v
  {
    if tile < |s| then s[tile := v] else s
  }

  /**
   * handleTileClick's candidates: every index not used by another tile and
   * not the tile's own (`phraseIndexes[tileIdx]`, undefined past the end).
   */
  function Candidates(p: seq<nat>, tile: nat): seq<nat>
  {
    Unlisted(PhraseCount, DropIndex(p, tile) + (if tile < |p| then [p[tile]] else []))
  }

  /** The candidates are exactly the phrases not on screen. */
  lemma CandidatesNotShown(p: seq<nat>, tile: nat)
    ensures Candidates(p, tile) == Unlisted(PhraseCount, p)
    ensures forall x: nat :: x in Candidates(p, tile) <==> x < PhraseCount && x !in p
  {
    var avoid := DropIndex(p, tile) + (if tile < |p| then [p[tile]] else []);
    forall x ensures x in avoid <==> x in p {
      if tile < |p| {
        var r := DropIndex(p, tile);
        if x in p {
          var j :| 0 <= j < |p| && p[j] == x;
          if j < tile { assert r[j] == x; } else if j > tile { assert r[j - 1] == x; }
        }
        if x in r {
          var j :| 0 <= j < |r| && r[j] == x;
          DropIndexOrigin(p, tile, j);
        }
      }
    }
    UnlistedSameMembers(PhraseCount, avoid, p);
  }

  /** Distinct phrase indexes, four tiles, as the page keeps them. */
  predicate TilesOk(p: seq<nat>)
  {
    |p| == TileCount && NoDup(p) && forall i :: 0 <= i < |p| ==> p[i] < PhraseCount
  }

  /**
   * A click applied to the indexes on screen keeps them distinct and shows
   * a new phrase on the clicked tile; four tiles never use up fifteen
   * phrases, so a candidate always exists.
   */
  lemma ClickKeepsDistinct(p: seq<nat>, tile: nat, k: nat)
    requires TilesOk(p) && tile < |p|
    requires k < |Candidates(p, tile)|
    ensures var q := SetAt(p, tile, Candidates(p, tile)[k]);
      TilesOk(q) && q[tile] !in p
  {
    CandidatesNotShown(p, tile);
    var v := Candidates(p, tile)[k];
    assert v in Candidates(p, tile);
    var q := SetAt(p, tile, v);
    forall i, j | 0 <= i < j < |q| ensures q[i] != q[j] {
      if i == tile { assert q[j] == p[j] && p[j] in p; }
      else if j == tile { assert q[i] == p[i] && p[i] in p; }
    }
  }

  /** With at most four phrases on screen at least eleven remain to choose from. */
  lemma CandidateExists(p: seq<nat>, tile: nat)
    requires TilesOk(p)
    ensures |Candidates(p, tile)| >= PhraseCount - TileCount
  {
    CandidatesNotShown(p, tile);
    UnlistedCount(PhraseCount, p);
  }

  /** At most |avoid| of the first n indexes are avoided. */
  lemma {:induction false} UnlistedCount(n: nat, avoid: seq<nat>)
    requires NoDup(avoid)
    ensures |Unlisted(n, avoid)| + |avoid| >= n
  {
    if n > 0 {
      if n - 1 in avoid {
        var j :| 0 <= j < |avoid| && avoid[j] == n - 1;
        var rest := DropIndex(avoid, j);
        DropIndexMembers(avoid, j);
        DropIndexNoDup(avoid, j);
        UnlistedCount(n - 1, rest);
        UnlistedSameBelow(n - 1, avoid, rest);
      } else {
        UnlistedCount(n - 1, avoid);
      }
    }
  }

  /** Below n, avoiding a list or the list without an element that is at least n is the same. */
  lemma {:induction false} UnlistedSameBelow(n: nat, a: seq<nat>, b: seq<nat>)
    requires forall x :: x < n ==> (x in a <==> x in b)
    ensures Unlisted(n, a) == Unlisted(n, b)
  {
    if n > 0 {
      UnlistedSameBelow(n - 1, a, b);
    }
  }

  /** The initial state of phraseIndexes: `getRandomIndexes(4)` gives four distinct phrases. */
  method InitialIndexes() returns (p: seq<nat>)
    ensures TilesOk(p)
  {
    var none: seq<nat> := [];
    p := GetRandomIndexes(TileCount, none);
    UnlistedNothing(PhraseCount);
    assert |p| == TileCount;
    assert forall i :: 0 <= i < |p| ==> p[i] in p;
  }

  class Home {
    var phraseIndexes: seq<nat>
    var fadeStates: seq<bool>
    var activeTile: Option<nat>
    /** The fade-out timers set and not yet fired, as (tile, new index), oldest first. */
    var scheduled: seq<(nat, nat)>

    constructor ()
      ensures TilesOk(phraseIndexes)
      ensures fadeStates == [false, false, false, false] && activeTile.None? && scheduled == []
    {
      var p := InitialIndexes();
      phraseIndexes := p;
      fadeStates := [false, false, false, false];
      activeTile := None;
      scheduled := [];
    }

    /**
     * handleTileClick: when some phrase is not on screen, one of them is
     * chosen, the tile becomes active and fades out, and a timer is set to
     * swap the phrase in; otherwise nothing changes.
     */
    method TileClick(tile: nat) returns (chosen: Option<nat>)
      modifies this
      ensures chosen.None? <==> Candidates(old(phraseIndexes), tile) == []
      ensures chosen.None? ==> unchanged(this)
      ensures chosen.Some? ==>
        && chosen.value in Candidates(old(phraseIndexes), tile)
        && chosen.value < PhraseCount && chosen.value !in old(phraseIndexes)
        && phraseIndexes == old(phraseIndexes)
        && activeTile == Some(tile)
        && fadeStates == SetAt(old(fadeStates), tile, true)
        && scheduled == old(scheduled) + [(tile, chosen.value)]
    {
      var available := Candidates(phraseIndexes, tile);
      if available == [] {
        return None;
      }
      CandidatesNotShown(phraseIndexes, tile);
      var k :| 0 <= k < |available|;
      chosen := Some(available[k]);
      activeTile := Some(tile);
      fadeStates := SetAt(fadeStates, tile, true);
      scheduled := scheduled + [(tile, available[k])];
    }

    /** The oldest timer fires: its tile shows the chosen phrase and fades back in. */
    method TimerFires()
      requires scheduled != []
      modifies this
      ensures phraseIndexes == SetAt(old(phraseIndexes), old(scheduled)[0].0, old(scheduled)[0].1)
      ensures fadeStates == SetAt(old(fadeStates), old(scheduled)[0].0, false)
      ensures activeTile == old(activeTile) && scheduled == old(scheduled)[1..]
    {
      var (tile, idx) := scheduled[0];
      phraseIndexes := SetAt(phraseIndexes, tile, idx);
      fadeStates := SetAt(fadeStates, tile, false);
      scheduled := scheduled[1..];
    }
  }

  // ---------------------------------------------------------------------
  // Two clicks within the fade-out time draw from the same screen.

  /**
   * As written: both clicks choose among the phrases on screen before
   * either timer fired, so the second cannot avoid the first one's choice.
   */
  function OverlappingClicks(p: seq<nat>, t1: nat, k1: nat, t2: nat, k2: nat): seq<nat>
    requires k1 < |Candidates(p, t1)| && k2 < |Candidates(p, t2)|
  {
    SetAt(SetAt(p, t1, Candidates(p, t1)[k1]), t2, Candidates(p, t2)[k2])
  }

  /** The indexes below n come first among those below m. */
  lemma {:induction false} UnlistedPrefix(n: nat, m: nat, avoid: seq<nat>)
    requires n <= m
    ensures Unlisted(n, avoid) <= Unlisted(m, avoid)
  {
    if n < m {
      UnlistedPrefix(n, m - 1, avoid);
      var u := Unlisted(m - 1, avoid);
      if m - 1 !in avoid {
        assert Unlisted(m, avoid) == u + [m - 1];
        PrefixSnoc(Unlisted(n, avoid), u, m - 1);
      }
    }
  }

  lemma PrefixSnoc(a: seq<nat>, b: seq<nat>, x: nat)
    requires a <= b
    ensures a <= b + [x]
  {
    assert (b + [x])[..|a|] == b[..|a|];
  }

  /** Phrase 4 is the first one not on the screen [0, 1, 2, 3]. */
  lemma FirstUnshown(p: seq<nat>)
    requires p == [0, 1, 2, 3]
    ensures Unlisted(PhraseCount, p) != [] && Unlisted(PhraseCount, p)[0] == 4
  {
    assert Unlisted(0, p) == [];
    assert Unlisted(1, p) == [];
    assert Unlisted(2, p) == [];
    assert Unlisted(3, p) == [];
    assert Unlisted(4, p) == [];
    assert Unlisted(5, p) == [4];
    UnlistedPrefix(5, PhraseCount, p);
  }

  /** Tiles 0 and 1 of [0, 1, 2, 3] both clicked, both draws picking phrase 4: it shows twice. */
  lemma OverlappingClicksRepeat(p: seq<nat>)
    requires p == [0, 1, 2, 3]
    ensures TilesOk(p)
    ensures Candidates(p, 0)[0] == 4 && Candidates(p, 1)[0] == 4
    ensures OverlappingClicks(p, 0, 0, 1, 0) == [4, 4, 2, 3]
    ensures !NoDup(OverlappingClicks(p, 0, 0, 1, 0))
  {
    CandidatesNotShown(p, 0);
    CandidatesNotShown(p, 1);
    FirstUnshown(p);
    var q := OverlappingClicks(p, 0, 0, 1, 0);
    assert q == [4, 4, 2, 3];
    assert q[0] == q[1];
  }

  /**
   * Corrected: the second click chooses among the phrases on screen once
   * the first choice is in place; any two clicks keep the tiles distinct.
   */
  function SequentialClicks(p: seq<nat>, t1: nat, k1: nat, t2: nat, k2: nat): seq<nat>
    requires k1 < |Candidates(p, t1)|
    requires k2 < |Candidates(SetAt(p, t1, Candidates(p, t1)[k1]), t2)|
  {
    var q := SetAt(p, t1, Candidates(p, t1)[k1]);
    SetAt(q, t2, Candidates(q, t2)[k2])
  }

  lemma SequentialClicksDistinct(p: seq<nat>, t1: nat, k1: nat, t2: nat, k2: nat)
    requires TilesOk(p) && t1 < |p| && t2 < |p|
    requires k1 < |Candidates(p, t1)|
    requires k2 < |Candidates(SetAt(p, t1, Candidates(p, t1)[k1]), t2)|
    ensures TilesOk(SequentialClicks(p, t1, k1, t2, k2))
  {
    ClickKeepsDistinct(p, t1, k1);
    var q := SetAt(p, t1, Candidates(p, t1)[k1]);
    ClickKeepsDistinct(q, t2, k2);
  }
}
