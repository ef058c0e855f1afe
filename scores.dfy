/** The in-memory leaderboard (MemoryScoreService.cs): a list of score
    entries with append, clear and a "top N" query that orders by points,
    then by time, both descending. */
module Scores {

  /** One finished game: who, how many points and when (an integer
      timestamp, larger is later). */
  datatype ScoreEntry = ScoreEntry(id: int, name: string, points: int, whenUtc: int)

  /** `a` is listed strictly before `b`: more points, or as many points and
      a later time. */
  predicate Outranks(a: ScoreEntry, b: ScoreEntry)
  {
    a.points > b.points || (a.points == b.points && a.whenUtc > b.whenUtc)
  }

  /** In leaderboard order: no entry outranks one listed before it. */
  predicate Ranked(s: seq<ScoreEntry>)
  {
    forall i, j :: 0 <= i < j < |s| ==> !Outranks(s[j], s[i])
  }

  /** The entries of `s` with `points` and `whenUtc` equal to `p` and `w`,
      in their order in `s`. A sort is stable when it keeps these lists. */
  function Tied(s: seq<ScoreEntry>, p: int, w: int): seq<ScoreEntry>
  {
    if s == [] then []
    else (if s[0].points == p && s[0].whenUtc == w then [s[0]] else []) + Tied(s[1..], p, w)
  }

  lemma {:induction false} TiedSplit(a: seq<ScoreEntry>, b: seq<ScoreEntry>, p: int, w: int)
    ensures Tied(a + b, p, w) == Tied(a, p, w) + Tied(b, p, w)
  {
    if a != [] {
      assert (a + b)[0] == a[0];
      assert (a + b)[1..] == a[1..] + b;
      TiedSplit(a[1..], b, p, w);
      var head := if a[0].points == p && a[0].whenUtc == w then [a[0]] else [];
      assert Tied(a + b, p, w) == head + (Tied(a[1..], p, w) + Tied(b, p, w));
    } else {
      assert a + b == b;
    }
  }

  /** Put `e` into the ordered list `s` after every entry that `e` does not
      outrank, so that it follows the entries it ties with. */
  function Insert(e: ScoreEntry, s: seq<ScoreEntry>): (t: seq<ScoreEntry>)
    ensures |t| == |s| + 1
  {
    if s == [] then [e]
    else if Outranks(e, s[0]) then [e] + s
    else [s[0]] + Insert(e, s[1..])
  }

  /** The stable sort of OrderByDescending(Points).ThenByDescending(WhenUtc),
      as an insertion sort over the list in its stored order. */
  function RankSort(s: seq<ScoreEntry>): (r: seq<ScoreEntry>)
    ensures |r| == |s|
  {
    if s == [] then [] else Insert(s[|s| - 1], RankSort(s[..|s| - 1]))
  }

  /** Inserting adds exactly `e`. */
  lemma {:induction false} InsertCount(e: ScoreEntry, s: seq<ScoreEntry>)
    ensures multiset(Insert(e, s)) == multiset(s) + multiset{e}
    ensures |Insert(e, s)| == |s| + 1
  {
    if s != [] {
      assert s == [s[0]] + s[1..];
      if !Outranks(e, s[0]) {
        InsertCount(e, s[1..]);
      }
    }
  }

  /** No entry of `s` outranks `x`. */
  predicate Below(s: seq<ScoreEntry>, x: ScoreEntry)
  {
    forall i :: 0 <= i < |s| ==> !Outranks(s[i], x)
  }

  /** An ordered list stays ordered with an entry in front that none of
      its entries outranks. */
  lemma RankedCons(x: ScoreEntry, u: seq<ScoreEntry>)
    requires Ranked(u) && Below(u, x)
    ensures Ranked([x] + u)
  {
    var t := [x] + u;
    forall i, j | 0 <= i < j < |t|
      ensures !Outranks(t[j], t[i])
    {
      assert t[j] == u[j - 1];
      if i > 0 {
        assert t[i] == u[i - 1];
      }
    }
  }

  /** Inserting an entry that does not outrank `x` into a list whose
      entries do not outrank `x` gives such a list again. */
  lemma {:induction false} InsertBelow(e: ScoreEntry, s: seq<ScoreEntry>, x: ScoreEntry)
    requires Below(s, x) && !Outranks(e, x)
    ensures Below(Insert(e, s), x)
  {
    if s != [] && !Outranks(e, s[0]) {
      InsertBelow(e, s[1..], x);
      var u := Insert(e, s[1..]);
      assert Insert(e, s) == [s[0]] + u;
      forall i | 0 <= i < |u| + 1
        ensures !Outranks(([s[0]] + u)[i], x)
      {
        if i > 0 {
          assert ([s[0]] + u)[i] == u[i - 1];
        }
      }
    }
  }

  /** Inserting into an ordered list keeps it ordered. */
  lemma {:induction false} InsertRanked(e: ScoreEntry, s: seq<ScoreEntry>)
    requires Ranked(s)
    ensures Ranked(Insert(e, s))
  {
    if s == [] {
    } else if Outranks(e, s[0]) {
      assert Below(s, e) by {
        forall i | 0 <= i < |s|
          ensures !Outranks(s[i], e)
        {
          if i > 0 {
            assert !Outranks(s[i], s[0]);
          }
        }
      }
      RankedCons(e, s);
    } else {
      assert Ranked(s[1..]);
      assert Below(s[1..], s[0]) by {
        forall i | 0 <= i < |s| - 1
          ensures !Outranks(s[1..][i], s[0])
        {
          assert s[1..][i] == s[i + 1];
        }
      }
      InsertRanked(e, s[1..]);
      InsertBelow(e, s[1..], s[0]);
      RankedCons(s[0], Insert(e, s[1..]));
    }
  }

  /** The tie list of a list with `x` in front. */
  lemma TiedCons(x: ScoreEntry, t: seq<ScoreEntry>, p: int, w: int)
    ensures Tied([x] + t, p, w) == (if x.points == p && x.whenUtc == w then [x] else []) + Tied(t, p, w)
  {
    assert ([x] + t)[0] == x;
    assert ([x] + t)[1..] == t;
  }

  /** Inserting `e` appends it to its own tie list and leaves every other
      tie list as it was. */
  lemma {:induction false} InsertTied(e: ScoreEntry, s: seq<ScoreEntry>, p: int, w: int)
    requires Ranked(s)
    ensures Tied(Insert(e, s), p, w) ==
      Tied(s, p, w) + (if e.points == p && e.whenUtc == w then [e] else [])
  {
    if s == [] {
      TiedCons(e, [], p, w);
    } else if Outranks(e, s[0]) {
      if e.points == p && e.whenUtc == w {
        NoneTied(e, s);
      }
      TiedCons(e, s, p, w);
    } else {
      assert Ranked(s[1..]);
      InsertTied(e, s[1..], p, w);
      TiedCons(s[0], Insert(e, s[1..]), p, w);
      TiedCons(s[0], s[1..], p, w);
      assert [s[0]] + s[1..] == s;
    }
  }

  /** When `e` outranks the head of an ordered list, it outranks every
      entry, so none of them ties with it. */
  lemma {:induction false} NoneTied(e: ScoreEntry, s: seq<ScoreEntry>)
    requires Ranked(s) && s != [] && Outranks(e, s[0])
    ensures Tied(s, e.points, e.whenUtc) == []
  {
    if |s| > 1 {
      assert Ranked(s[1..]);
      assert !Outranks(s[1], s[0]);
      NoneTied(e, s[1..]);
    }
  }

  /** The sort orders the list and keeps every entry. */
  lemma {:induction false} RankSortSpec(s: seq<ScoreEntry>)
    ensures Ranked(RankSort(s))
    ensures multiset(RankSort(s)) == multiset(s)
    ensures |RankSort(s)| == |s|
  {
    if s != [] {
      var init := s[..|s| - 1];
      var last := s[|s| - 1];
      RankSortSpec(init);
      InsertRanked(last, RankSort(init));
      InsertCount(last, RankSort(init));
      assert s == init + [last];
    }
  }

  /** The sort is stable: entries that tie on both keys keep their stored
      order. */
  lemma {:induction false} RankSortStable(s: seq<ScoreEntry>, p: int, w: int)
    ensures Tied(RankSort(s), p, w) == Tied(s, p, w)
  {
    if s != [] {
      var init := s[..|s| - 1];
      var last := s[|s| - 1];
      assert s == init + [last];
      RankSortStable(init, p, w);
      RankSortSpec(init);
      InsertTied(last, RankSort(init), p, w);
      TiedSnoc(init, last, p, w);
    }
  }

  /** The tie list of a list with `x` at the end. */
  lemma TiedSnoc(t: seq<ScoreEntry>, x: ScoreEntry, p: int, w: int)
    ensures Tied(t + [x], p, w) == Tied(t, p, w) + (if x.points == p && x.whenUtc == w then [x] else [])
  {
    TiedSplit(t, [x], p, w);
    TiedCons(x, [], p, w);
    assert [x] + [] == [x];
  }

  /** A prefix of a list has a prefix of each tie list. */
  lemma TiedPrefix(s: seq<ScoreEntry>, n: nat, p: int, w: int)
    requires n <= |s|
    ensures Tied(s[..n], p, w) <= Tied(s, p, w)
  {
    assert s == s[..n] + s[n..];
    TiedSplit(s[..n], s[n..], p, w);
  }

  /** The first `n` entries of the sorted list are ordered, are drawn from
      `s`, leave out no entry that outranks one of them, and keep each tie
      list's order. */
  lemma TopSpec(s: seq<ScoreEntry>, n: nat)
    requires n <= |s|
    ensures Ranked(RankSort(s)[..n])
    ensures multiset(RankSort(s)[..n]) <= multiset(s)
    ensures forall e, t :: e in multiset(s) - multiset(RankSort(s)[..n]) && t in RankSort(s)[..n] ==> !Outranks(e, t)
    ensures forall p, w :: Tied(RankSort(s)[..n], p, w) <= Tied(s, p, w)
  {
    var sorted := RankSort(s);
    RankSortSpec(s);
    PrefixBest(sorted, n);
    forall p, w
      ensures Tied(sorted[..n], p, w) <= Tied(s, p, w)
    {
      TiedPrefix(sorted, n, p, w);
      RankSortStable(s, p, w);
    }
  }

  /** A prefix of an ordered list is ordered, is drawn from the list, and no
      entry left out outranks one it keeps. */
  lemma PrefixBest(r: seq<ScoreEntry>, n: nat)
    requires Ranked(r) && n <= |r|
    ensures Ranked(r[..n])
    ensures multiset(r[..n]) <= multiset(r)
    ensures forall e, t :: e in multiset(r) - multiset(r[..n]) && t in r[..n] ==> !Outranks(e, t)
  {
    assert r == r[..n] + r[n..];
    assert multiset(r) == multiset(r[..n]) + multiset(r[n..]);
    forall e, t | e in multiset(r) - multiset(r[..n]) && t in r[..n]
      ensures !Outranks(e, t)
    {
      assert e in r[n..];
      var j :| n <= j < |r| && r[j] == e;
      var i :| 0 <= i < n && r[i] == t;
    }
  }

  class MemoryScoreService {
    /** The stored entries, oldest first. */
    var scores: seq<ScoreEntry>

    constructor ()
      ensures scores == []
    {
      scores := [];
    }

    /** The first `take` entries in leaderboard order (none when `take` is
        not positive, all of them when it exceeds the count). The result is
        ordered, is drawn from the store, leaves out no entry that outranks
        one it lists, and keeps the stored order among exact ties. */
    function GetTop(take: int := 10): (top: seq<ScoreEntry>)
      reads this
      ensures |top| == if take <= 0 then 0 else if take < |scores| then take else |scores|
      ensures Ranked(top)
      ensures multiset(top) <= multiset(scores)
      ensures forall e, t :: e in multiset(scores) - multiset(top) && t in top ==> !Outranks(e, t)
      ensures forall p, w :: Tied(top, p, w) <= Tied(scores, p, w)
    {
      var n := if take <= 0 then 0 else if take < |scores| then take else |scores|;
      TopSpec(scores, n);
      RankSort(scores)[..n]
    }

    /** Append one entry at the end. */
    method Add(entry: ScoreEntry)
      modifies this
      ensures scores == old(scores) + [entry]
    {
      scores := scores + [entry];
    }

    /** Remove every entry; any query afterwards returns nothing. */
    method Clear()
      modifies this
      ensures scores == []
      ensures forall take :: GetTop(take) == []
    {
      scores := [];
    }
  }
}
