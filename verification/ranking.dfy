/** Leaderboard entries and the ranking the board is kept in: higher
    percentage first, and on equal percentage the later date first. */
module Ranking {
  import opened QuizConfig

  /** One finished quiz. `date` is the entry's time in milliseconds, as
      `new Date(date).getTime()` reads it back. */
  datatype Entry = Entry(username: string, score: int, total: int, percentage: int, difficulty: Difficulty, date: int)

  /** The sort comparator `b.percentage - a.percentage || dateB - dateA`
      is at most zero: `a` may be placed before `b`. */
  predicate RanksBefore(a: Entry, b: Entry) {
    a.percentage > b.percentage || (a.percentage == b.percentage && a.date >= b.date)
  }

  /** Every entry may stand before every later one. */
  predicate Sorted(s: seq<Entry>) {
    forall i, j :: 0 <= i < j < |s| ==> RanksBefore(s[i], s[j])
  }

  /** Any two entries are comparable, and the relation is transitive: the
      comparator is a total preorder, so sorting by it is well defined. */
  lemma RanksBeforeIsTotalPreorder(a: Entry, b: Entry, c: Entry)
    ensures RanksBefore(a, b) || RanksBefore(b, a)
    ensures RanksBefore(a, b) && RanksBefore(b, c) ==> RanksBefore(a, c)
  {
  }

  /** Inserts `x` into a sorted board in front of the first entry it may
      precede, so it stays behind nothing it ties with that came later. */
  function Insert(x: Entry, s: seq<Entry>): (r: seq<Entry>)
    requires Sorted(s)
    ensures Sorted(r)
    ensures multiset(r) == multiset(s) + multiset{x}
    ensures |r| == |s| + 1
  {
    if |s| == 0 || RanksBefore(x, s[0]) then
      [x] + s
    else
      var rest := Insert(x, s[1..]);
      assert s == [s[0]] + s[1..];
      assert forall k :: 0 <= k < |rest| ==> RanksBefore(s[0], rest[k]) by {
        forall k | 0 <= k < |rest|
          ensures RanksBefore(s[0], rest[k])
        {
          assert rest[k] in multiset(rest);
          if rest[k] != x {
            assert rest[k] in multiset(s[1..]);
            var j :| 1 <= j < |s| && s[j] == rest[k];
          }
        }
      }
      [s[0]] + rest
  }

  /** A stable insertion sort: the result is sorted and is a permutation of
      the input. Earlier entries are inserted last and in front of their
      ties, so tied entries keep their input order (`SortIsStable`), as
      `Array.prototype.sort` does. */
  function Sort(s: seq<Entry>): (r: seq<Entry>)
    ensures Sorted(r)
    ensures multiset(r) == multiset(s)
    ensures |r| == |s|
  {
    if |s| == 0 then []
    else
      assert s == [s[0]] + s[1..];
      Insert(s[0], Sort(s[1..]))
  }

  /** A board that is already sorted is left as it is. */
  lemma {:induction false} SortSortedIsIdentity(s: seq<Entry>)
    requires Sorted(s)
    ensures Sort(s) == s
  {
    if |s| > 0 {
      SortSortedIsIdentity(s[1..]);
    }
  }

  /** Neither entry ranks strictly before the other: the comparator gives 0. */
  predicate Tied(a: Entry, b: Entry) {
    a.percentage == b.percentage && a.date == b.date
  }

  /** The entries of `s` that tie with `k`, in their order in `s`. */
  function TiesOf(s: seq<Entry>, k: Entry): (r: seq<Entry>)
    ensures forall i :: 0 <= i < |r| ==> Tied(r[i], k)
  {
    if |s| == 0 then []
    else (if Tied(s[0], k) then [s[0]] else []) + TiesOf(s[1..], k)
  }

  /** Every tie is taken from the sequence, no more often than it occurs. */
  lemma {:induction false} TiesOfDrawnFrom(s: seq<Entry>, k: Entry)
    ensures multiset(TiesOf(s, k)) <= multiset(s)
  {
    if |s| > 0 {
      TiesOfDrawnFrom(s[1..], k);
      assert s == [s[0]] + s[1..];
    }
  }

  /** The ties of a sequence with a given head. */
  lemma TiesOfCons(e: Entry, t: seq<Entry>, k: Entry)
    ensures TiesOf([e] + t, k) == (if Tied(e, k) then [e] else []) + TiesOf(t, k)
  {
    assert ([e] + t)[1..] == t;
  }

  /** Inserting places the new entry in front of every entry it ties with
      and leaves their order alone. */
  lemma {:induction false} InsertKeepsTies(x: Entry, s: seq<Entry>, k: Entry)
    requires Sorted(s)
    ensures TiesOf(Insert(x, s), k) == (if Tied(x, k) then [x] else []) + TiesOf(s, k)
  {
    if |s| == 0 || RanksBefore(x, s[0]) {
      assert Insert(x, s) == [x] + s;
      TiesOfCons(x, s, k);
    } else {
      var rest := Insert(x, s[1..]);
      assert Insert(x, s) == [s[0]] + rest;
      TiesOfCons(s[0], rest, k);
      InsertKeepsTies(x, s[1..], k);
      assert s == [s[0]] + s[1..];
      TiesOfCons(s[0], s[1..], k);
      assert !(Tied(x, k) && Tied(s[0], k));
    }
  }

  /** Sorting keeps the input order of every group of tied entries. */
  lemma {:induction false} SortIsStable(s: seq<Entry>, k: Entry)
    ensures TiesOf(Sort(s), k) == TiesOf(s, k)
  {
    if |s| > 0 {
      SortIsStable(s[1..], k);
      InsertKeepsTies(s[0], Sort(s[1..]), k);
    }
  }
}
