/**
 * The ranked high-score list (models/game_state.py, `HighScore` and
 * `HighScores`). Python's `list.sort(key=score, reverse=True)` is a stable
 * sort: entries with equal scores keep their relative order. It is modelled
 * by `SortDesc`, an insertion sort that places each later entry after the
 * earlier entries it ties with.
 */
module Scores {

  /** How many entries the list keeps. */
  const MaxEntries: nat := 10

  /** The player label `add_score` uses when none is given. */
  const DefaultPlayer: string := "Player"

  /** One entry; `date` is the formatted timestamp, supplied by the caller. */
  datatype HighScore = HighScore(score: int, date: string, player: string)

  /** Non-increasing by score. */
  predicate SortedDesc(s: seq<HighScore>) {
    forall i, j :: 0 <= i < j < |s| ==> s[i].score >= s[j].score
  }

  /** The entries of `s` whose score is `k`, in their order in `s`. */
  function WithScore(s: seq<HighScore>, k: int): seq<HighScore>
  {
    if s == [] then [] else (if s[0].score == k then [s[0]] else []) + WithScore(s[1..], k)
  }

  lemma {:induction false} WithScoreAppend(a: seq<HighScore>, b: seq<HighScore>, k: int)
    ensures WithScore(a + b, k) == WithScore(a, k) + WithScore(b, k)
  {
    if a != [] {
      assert (a + b)[1..] == a[1..] + b;
      WithScoreAppend(a[1..], b, k);
    } else {
      assert a + b == b;
    }
  }

  /** The length of the leading run of `s` whose entries score at least `k`. */
  function LeadAtLeast(s: seq<HighScore>, k: int): (r: nat)
    ensures r <= |s|
  {
    if s == [] || s[0].score < k then 0 else 1 + LeadAtLeast(s[1..], k)
  }

  /**
   * Inserts `e` into `t`, after every leading entry that scores at least
   * as much as `e`.
   */
  function InsertDesc(t: seq<HighScore>, e: HighScore): (r: seq<HighScore>)
    ensures |r| == |t| + 1
  {
    if t == [] then [e]
    else if t[0].score >= e.score then [t[0]] + InsertDesc(t[1..], e)
    else [e] + t
  }

  /**
   * The leading run is exactly the entries scoring at least `k`; in a
   * sorted list every later entry scores less.
   */
  lemma {:induction false} LeadAtLeastSplits(t: seq<HighScore>, k: int)
    ensures forall i :: 0 <= i < LeadAtLeast(t, k) ==> t[i].score >= k
    ensures SortedDesc(t) ==> forall i :: LeadAtLeast(t, k) <= i < |t| ==> t[i].score < k
  {
    if t != [] && t[0].score >= k {
      var rest := t[1..];
      LeadAtLeastSplits(rest, k);
      var q := LeadAtLeast(rest, k);
      forall i | 0 <= i < q + 1 ensures t[i].score >= k {
        if i > 0 { assert t[i] == rest[i - 1]; }
      }
      if SortedDesc(t) {
        assert SortedDesc(rest);
        forall i | q + 1 <= i < |t| ensures t[i].score < k {
          assert t[i] == rest[i - 1];
        }
      }
    } else if t != [] && SortedDesc(t) {
      assert forall i :: 0 <= i < |t| ==> t[i].score <= t[0].score;
    }
  }

  /**
   * The inserted entry lands at index p, the end of the leading run of
   * entries scoring at least as much: after all its ties, before the first
   * lower score.
   */
  lemma {:induction false} InsertDescSplits(t: seq<HighScore>, e: HighScore)
    ensures InsertDesc(t, e) == t[..LeadAtLeast(t, e.score)] + [e] + t[LeadAtLeast(t, e.score)..]
  {
    if t != [] && t[0].score >= e.score {
      var rest := t[1..];
      InsertDescSplits(rest, e);
      var q := LeadAtLeast(rest, e.score);
      assert LeadAtLeast(t, e.score) == q + 1;
      assert InsertDesc(t, e) == [t[0]] + InsertDesc(rest, e);
      assert t[..q + 1] == [t[0]] + rest[..q];
      assert t[q + 1..] == rest[q..];
    } else {
      assert LeadAtLeast(t, e.score) == 0;
    }
  }

  /** Insertion keeps a sorted list sorted. */
  lemma InsertDescSorted(t: seq<HighScore>, e: HighScore)
    requires SortedDesc(t)
    ensures SortedDesc(InsertDesc(t, e))
  {
    InsertDescSplits(t, e);
    LeadAtLeastSplits(t, e.score);
    var p := LeadAtLeast(t, e.score);
    var r := InsertDesc(t, e);
    assert forall i :: 0 <= i < p ==> r[i] == t[i];
    assert r[p] == e;
    assert forall i :: p < i < |r| ==> r[i] == t[i - 1];
  }

  lemma WithScoreCons(x: HighScore, s: seq<HighScore>, k: int)
    ensures WithScore([x] + s, k) == (if x.score == k then [x] else []) + WithScore(s, k)
  {
    assert ([x] + s)[1..] == s;
  }

  /** Inserting keeps every score group in order, the new entry last. */
  lemma {:induction false} InsertDescStable(t: seq<HighScore>, e: HighScore, k: int)
    requires SortedDesc(t)
    ensures WithScore(InsertDesc(t, e), k) == WithScore(t, k) + WithScore([e], k)
  {
    WithScoreCons(e, [], k);
    assert [e] + [] == [e];
    if t == [] {
    } else if t[0].score >= e.score {
      var rest := t[1..];
      assert t == [t[0]] + rest;
      assert SortedDesc(rest);
      InsertDescStable(rest, e, k);
      WithScoreCons(t[0], InsertDesc(rest, e), k);
      WithScoreCons(t[0], rest, k);
    } else {
      WithScoreCons(e, t, k);
      if k == e.score {
        WithScoreNone(t, k);
      }
    }
  }

  lemma {:induction false} WithScoreNone(s: seq<HighScore>, k: int)
    requires forall i :: 0 <= i < |s| ==> s[i].score < k
    ensures WithScore(s, k) == []
  {
    if s != [] {
      WithScoreNone(s[1..], k);
    }
  }

  /** The stable descending sort that `add_score` applies. */
  function SortDesc(s: seq<HighScore>): (r: seq<HighScore>)
    ensures |r| == |s|
  {
    if s == [] then [] else InsertDesc(SortDesc(s[..|s| - 1]), s[|s| - 1])
  }

  /** The sort's result is in non-increasing order. */
  lemma {:induction false} SortDescSorted(s: seq<HighScore>)
    ensures SortedDesc(SortDesc(s))
  {
    if s != [] {
      SortDescSorted(s[..|s| - 1]);
      InsertDescSorted(SortDesc(s[..|s| - 1]), s[|s| - 1]);
    }
  }

  /** Insertion adds exactly the new entry. */
  lemma {:induction false} InsertDescPermutes(t: seq<HighScore>, e: HighScore)
    ensures multiset(InsertDesc(t, e)) == multiset(t) + multiset{e}
  {
    if t != [] && t[0].score >= e.score {
      InsertDescPermutes(t[1..], e);
      assert t == [t[0]] + t[1..];
    }
  }

  /** The sort is a permutation of its input. */
  lemma {:induction false} SortDescPermutes(s: seq<HighScore>)
    ensures multiset(SortDesc(s)) == multiset(s)
  {
    if s != [] {
      var init, last := s[..|s| - 1], s[|s| - 1];
      assert s == init + [last];
      calc {
        multiset(SortDesc(s));
        multiset(InsertDesc(SortDesc(init), last));
        { InsertDescPermutes(SortDesc(init), last); }
        multiset(SortDesc(init)) + multiset{last};
        { SortDescPermutes(init); }
        multiset(init) + multiset{last};
        multiset(init + [last]);
      }
    }
  }

  /** The sort is stable: each score group keeps its original order. */
  lemma {:induction false} SortDescStable(s: seq<HighScore>, k: int)
    ensures WithScore(SortDesc(s), k) == WithScore(s, k)
  {
    if s != [] {
      var init, last := s[..|s| - 1], s[|s| - 1];
      SortDescStable(init, k);
      SortDescSorted(init);
      InsertDescStable(SortDesc(init), last, k);
      assert s == init + [last];
      WithScoreAppend(init, [last], k);
    }
  }

  /** Sorting an already sorted list changes nothing. */
  lemma {:induction false} SortDescOfSorted(s: seq<HighScore>)
    requires SortedDesc(s)
    ensures SortDesc(s) == s
  {
    if s != [] {
      var init, last := s[..|s| - 1], s[|s| - 1];
      assert SortedDesc(init);
      SortDescOfSorted(init);
      InsertDescAtEnd(init, last);
      assert s == init + [last];
    }
  }

  /** An entry scoring no more than every entry of `t` goes last. */
  lemma {:induction false} InsertDescAtEnd(t: seq<HighScore>, e: HighScore)
    requires forall i :: 0 <= i < |t| ==> t[i].score >= e.score
    ensures InsertDesc(t, e) == t + [e]
  {
    if t != [] {
      InsertDescAtEnd(t[1..], e);
      assert t == [t[0]] + t[1..];
    }
  }

  /** The first `MaxEntries` entries. */
  function Top(s: seq<HighScore>): (r: seq<HighScore>)
    ensures |r| == if |s| < MaxEntries then |s| else MaxEntries
    ensures r == s[..|r|]
  {
    if |s| <= MaxEntries then s else s[..MaxEntries]
  }

  /**
   * The list `add_score` leaves: the old entries and the new one, sorted
   * stably by descending score and cut to the best ten.
   */
  function WithEntry(scores: seq<HighScore>, e: HighScore): (r: seq<HighScore>)
    ensures SortedDesc(r)
    ensures |r| == if |scores| + 1 < MaxEntries then |scores| + 1 else MaxEntries
  {
    var sorted := SortDesc(scores + [e]);
    SortDescSorted(scores + [e]);
    var kept := Top(sorted);
    assert forall i :: 0 <= i < |kept| ==> kept[i] == sorted[i];
    kept
  }

  /**
   * `add_score` keeps a top ten: its result is the front of an ordering
   * of the old entries and the new one, and no entry behind the cut
   * scores more than a kept one.
   */
  lemma WithEntryKeepsBest(scores: seq<HighScore>, e: HighScore)
    ensures var ranked := SortDesc(scores + [e]);
      var kept := WithEntry(scores, e);
      multiset(ranked) == multiset(scores + [e]) &&
      kept == ranked[..|kept|] &&
      forall i, j :: 0 <= i < |kept| <= j < |ranked| ==> kept[i].score >= ranked[j].score
  {
    SortDescPermutes(scores + [e]);
    SortDescSorted(scores + [e]);
  }

  /**
   * On a sorted list, `add_score` places the new entry after every entry
   * that scores at least as much, and keeps it exactly when fewer than ten
   * old entries score at least as much.
   */
  lemma AddToSorted(scores: seq<HighScore>, e: HighScore)
    requires SortedDesc(scores)
    ensures var p := LeadAtLeast(scores, e.score);
      WithEntry(scores, e) == Top(scores[..p] + [e] + scores[p..]) &&
      (p < MaxEntries <==> p < |WithEntry(scores, e)| && WithEntry(scores, e)[p] == e)
  {
    assert (scores + [e])[..|scores|] == scores;
    SortDescOfSorted(scores);
    InsertDescSplits(scores, e);
  }

  /**
   * After the stable sort, the entries tied with a new entry are the old
   * ties in their old order followed by the new entry.
   */
  lemma NewEntryAfterTies(scores: seq<HighScore>, e: HighScore)
    ensures WithScore(SortDesc(scores + [e]), e.score) == WithScore(scores, e.score) + [e]
  {
    var all := scores + [e];
    SortDescStable(all, e.score);
    WithScoreAppend(scores, [e], e.score);
    assert WithScore([e], e.score) == [e] by {
      assert [e][1..] == [];
    }
  }

  /** Below the cap, `add_score` keeps each score group in order, new entry last. */
  lemma AddScoreTiesAfterOld(scores: seq<HighScore>, e: HighScore)
    requires |scores| < MaxEntries
    ensures WithScore(WithEntry(scores, e), e.score) == WithScore(scores, e.score) + [e]
  {
    var sorted := SortDesc(scores + [e]);
    assert WithEntry(scores, e) == sorted;
    NewEntryAfterTies(scores, e);
  }

  lemma {:induction false} LeadAtLeastAll(t: seq<HighScore>, k: int)
    requires forall i :: 0 <= i < |t| ==> t[i].score >= k
    ensures LeadAtLeast(t, k) == |t|
  {
    if t != [] {
      LeadAtLeastAll(t[1..], k);
    }
  }

  /** Below the cap, an entry scoring no more than any held one goes last. */
  lemma AddLowestGoesLast(s: seq<HighScore>, e: HighScore)
    requires SortedDesc(s) && |s| < MaxEntries
    requires forall i :: 0 <= i < |s| ==> s[i].score >= e.score
    ensures WithEntry(s, e) == s + [e]
  {
    AddToSorted(s, e);
    LeadAtLeastAll(s, e.score);
    assert s[..|s|] + [e] + s[|s|..] == s + [e];
  }

  /** Below the cap, an entry scoring more than every held one goes first. */
  lemma AddBestGoesFirst(s: seq<HighScore>, e: HighScore)
    requires SortedDesc(s) && |s| < MaxEntries
    requires forall i :: 0 <= i < |s| ==> s[i].score < e.score
    ensures WithEntry(s, e) == [e] + s
  {
    AddToSorted(s, e);
    assert s == [] || LeadAtLeast(s, e.score) == 0;
    assert s[..0] + [e] + s[0..] == [e] + s;
  }

  /** The high-score collection, whose list `add_score` replaces. */
  class HighScores {
    var scores: seq<HighScore>

    /** A collection holding `loaded`, as read back from storage. */
    constructor (loaded: seq<HighScore>)
      ensures scores == loaded
    {
      scores := loaded;
    }

    /** Appends a new entry, sorts stably descending and keeps the top ten. */
    method AddScore(score: int, date: string, player: string)
      modifies this
      ensures scores == WithEntry(old(scores), HighScore(score, date, player))
      ensures SortedDesc(scores)
      ensures |scores| == if |old(scores)| + 1 < MaxEntries then |old(scores)| + 1 else MaxEntries
    {
      var entry := HighScore(score, date, player);
      scores := scores + [entry];
      scores := SortDesc(scores);
      scores := scores[..if |scores| < MaxEntries then |scores| else MaxEntries];
    }

    /** The highest score held, or 0 when there is none. */
    function GetHighScore(): (r: int)
      reads this
      ensures scores == [] ==> r == 0
      ensures scores != [] ==> r == scores[0].score
      ensures SortedDesc(scores) ==> forall i :: 0 <= i < |scores| ==> scores[i].score <= r
    {
      if scores != [] then scores[0].score else 0
    }
  }
}
