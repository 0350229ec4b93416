/** The persisted leaderboard: reading it, recording an entry (sort, keep
    the best 50), and the per-tier top ten view. */
module Leaderboard {
  import opened QuizConfig
  import opened Ranking

  /** What the storage slot holds: nothing yet, text that does not parse,
      or a parsed board. */
  datatype Storage = Missing | Unreadable | Stored(board: seq<Entry>)

  /** Entries kept in storage after each write. */
  const Capacity: nat := 50

  /** Entries shown per tier. */
  const TopCount: nat := 10

  function Min(a: int, b: int): (m: int) {
    if a <= b then a else b
  }

  /** `getLeaderboard`: the stored board, or nothing when the slot is empty
      or does not parse. */
  function GetLeaderboard(st: Storage): (b: seq<Entry>)
    ensures !st.Stored? ==> b == []
    ensures st.Stored? ==> b == st.board
  {
    if st.Stored? then st.board else []
  }

  /** In a sorted board, every entry of a prefix ranks before every entry
      left out of it. */
  lemma PrefixOutranksRest(s: seq<Entry>, n: nat)
    requires Sorted(s) && n <= |s|
    ensures forall x, y :: x in multiset(s) - multiset(s[..n]) && y in s[..n] ==> RanksBefore(y, x)
  {
    assert s == s[..n] + s[n..];
    assert multiset(s) == multiset(s[..n]) + multiset(s[n..]);
    forall x, y | x in multiset(s) - multiset(s[..n]) && y in s[..n]
      ensures RanksBefore(y, x)
    {
      assert x in multiset(s[n..]);
      var j :| n <= j < |s| && s[j] == x;
      var i :| 0 <= i < n && s[i] == y;
    }
  }

  /** `saveToLeaderboard`: appends `e`, sorts the whole board and stores its
      first `Capacity` entries. The result is the best `Capacity` entries of
      the old board plus `e`: sorted, drawn from them, and ranked no lower
      than anything dropped. */
  function SaveToLeaderboard(st: Storage, e: Entry): (r: Storage)
    ensures r.Stored?
    ensures |r.board| == Min(Capacity, |GetLeaderboard(st)| + 1)
    ensures Sorted(r.board)
    ensures multiset(r.board) <= multiset(GetLeaderboard(st) + [e])
    ensures |GetLeaderboard(st)| < Capacity ==> multiset(r.board) == multiset(GetLeaderboard(st) + [e])
    ensures forall x, y :: x in multiset(GetLeaderboard(st) + [e]) - multiset(r.board) && y in r.board
              ==> RanksBefore(y, x)
  {
    var sorted := Sort(GetLeaderboard(st) + [e]);
    var n := Min(Capacity, |sorted|);
    PrefixOutranksRest(sorted, n);
    assert sorted == sorted[..n] + sorted[n..];
    assert n == |sorted| ==> sorted[..n] == sorted;
    Stored(sorted[..n])
  }

  /** Entries of tier `d`, in board order, each as often as on the board. */
  function FilterTier(s: seq<Entry>, d: Difficulty): (r: seq<Entry>)
    ensures forall i :: 0 <= i < |r| ==> r[i].difficulty == d
    ensures forall x :: x in r ==> x in s
    ensures forall x :: x in s && x.difficulty == d ==> x in r
    ensures |r| <= |s|
  {
    if |s| == 0 then []
    else if s[0].difficulty == d then [s[0]] + FilterTier(s[1..], d)
    else FilterTier(s[1..], d)
  }

  /** The filter keeps every entry of the tier as often as it occurs on the
      board, and no other entry. */
  lemma {:induction false} FilterTierCounts(s: seq<Entry>, d: Difficulty)
    ensures forall x :: multiset(FilterTier(s, d))[x] == (if x.difficulty == d then multiset(s)[x] else 0)
  {
    if |s| > 0 {
      FilterTierCounts(s[1..], d);
      assert s == [s[0]] + s[1..];
    }
  }

  /** `a` occurs in `b` in order, possibly with gaps. */
  predicate IsSubsequence(a: seq<Entry>, b: seq<Entry>)
    decreases |b|
  {
    || |a| == 0
    || (|b| > 0 && ((a[0] == b[0] && IsSubsequence(a[1..], b[1..])) || IsSubsequence(a, b[1..])))
  }

  lemma {:induction false} FilterIsSubsequence(s: seq<Entry>, d: Difficulty)
    ensures IsSubsequence(FilterTier(s, d), s)
  {
    if |s| > 0 {
      FilterIsSubsequence(s[1..], d);
      if s[0].difficulty == d {
        assert FilterTier(s, d)[1..] == FilterTier(s[1..], d);
      }
    }
  }

  lemma {:induction false} PrefixIsSubsequence(a: seq<Entry>, b: seq<Entry>, n: nat)
    requires IsSubsequence(a, b) && n <= |a|
    ensures IsSubsequence(a[..n], b)
    decreases |b|
  {
    if n > 0 {
      if a[0] == b[0] && IsSubsequence(a[1..], b[1..]) {
        PrefixIsSubsequence(a[1..], b[1..], n - 1);
        assert a[..n][1..] == a[1..][..n - 1];
      } else {
        PrefixIsSubsequence(a, b[1..], n);
      }
    }
  }

  lemma {:induction false} FilterKeepsOrder(s: seq<Entry>, d: Difficulty)
    requires Sorted(s)
    ensures Sorted(FilterTier(s, d))
  {
    if |s| > 0 {
      FilterKeepsOrder(s[1..], d);
      if s[0].difficulty == d {
        var rest := FilterTier(s[1..], d);
        forall k | 0 <= k < |rest|
          ensures RanksBefore(s[0], rest[k])
        {
          assert rest[k] in rest;
          var j :| 0 <= j < |s[1..]| && s[1..][j] == rest[k];
          assert s[j + 1] == rest[k];
        }
      }
    }
  }

  /** `getTopByDifficulty`: the first `TopCount` entries of tier `d` in
      board order; nothing when storage is missing or unreadable. */
  function TopByDifficulty(st: Storage, d: Difficulty): (r: seq<Entry>)
    ensures |r| <= TopCount
    ensures forall i :: 0 <= i < |r| ==> r[i].difficulty == d
    ensures r <= FilterTier(GetLeaderboard(st), d)
    ensures |r| == Min(TopCount, |FilterTier(GetLeaderboard(st), d)|)
    ensures IsSubsequence(r, GetLeaderboard(st))
    ensures Sorted(GetLeaderboard(st)) ==> Sorted(r)
    ensures !st.Stored? ==> r == []
  {
    var tier := FilterTier(GetLeaderboard(st), d);
    var r := tier[..Min(TopCount, |tier|)];
    FilterIsSubsequence(GetLeaderboard(st), d);
    PrefixIsSubsequence(tier, GetLeaderboard(st), |r|);
    assert Sorted(GetLeaderboard(st)) ==> Sorted(tier) by {
      if Sorted(GetLeaderboard(st)) {
        FilterKeepsOrder(GetLeaderboard(st), d);
      }
    }
    r
  }

  /** Whatever the storage held, the view read back after a write is sorted. */
  lemma ViewAfterSaveIsSorted(st: Storage, e: Entry, d: Difficulty)
    ensures Sorted(TopByDifficulty(SaveToLeaderboard(st, e), d))
  {
  }

  /** In a sorted board, an entry that every other entry fails to rank
      before stands first. */
  lemma StrictLeaderIsHead(s: seq<Entry>, e: Entry)
    requires Sorted(s) && e in s
    requires forall x :: x in s && x != e ==> !RanksBefore(x, e)
    ensures s[0] == e
  {
    var j :| 0 <= j < |s| && s[j] == e;
    assert j == 0 || RanksBefore(s[0], s[j]);
  }

  /** An entry that outranks every stored entry strictly (a higher
      percentage, or the same one at a later date) heads the board and its
      tier's view after it is recorded. */
  lemma NewLeaderIsFirst(st: Storage, e: Entry)
    requires forall x :: x in GetLeaderboard(st) ==> !RanksBefore(x, e)
    ensures SaveToLeaderboard(st, e).board[0] == e
    ensures TopByDifficulty(SaveToLeaderboard(st, e), e.difficulty)[0] == e
  {
    var all := GetLeaderboard(st) + [e];
    var sorted := Sort(all);
    assert all[|all| - 1] == e;
    assert e in multiset(sorted);
    forall x | x in sorted && x != e
      ensures !RanksBefore(x, e)
    {
      assert x in multiset(all);
      assert x in GetLeaderboard(st);
    }
    StrictLeaderIsHead(sorted, e);
    var board := SaveToLeaderboard(st, e).board;
    assert board[0] == e;
    assert FilterTier(board, e.difficulty)[0] == e;
  }
}
