// The high-score list: entries are kept in the browser's storage under one
// key; saving appends the new entry, sorts by score, highest first, with a
// stable sort, and keeps the first 50.
module Scores {

  datatype Score = Score(name: string, score: int, date: string)

  /** How many entries the list keeps. */
  const MaxEntries: nat := 50

  /** What the storage key holds: nothing, text that does not read as a list (an empty string or
      unparsable JSON), or a list of entries. */
  datatype Slot = Missing | Unreadable | Holds(entries: seq<Score>)

  /** Highest score first. */
  predicate SortedDesc(s: seq<Score>)
  {
    forall i, j :: 0 <= i < j < |s| ==> s[i].score >= s[j].score
  }

  /** The list a read yields: the stored entries, or the empty list when there are none to read. */
  function Entries(slot: Slot): (r: seq<Score>)
    ensures slot.Holds? ==> r == slot.entries
    ensures !slot.Holds? ==> r == []
  {
    match slot
    case Holds(entries) => entries
    case _ => []
  }

  /** How many leading entries of `s` score at least `e.score`; a stable sort puts `e` after them. */
  function TiesFirst(s: seq<Score>, e: Score): (k: nat)
    ensures k <= |s|
    ensures forall i :: 0 <= i < k ==> s[i].score >= e.score
    ensures k < |s| ==> s[k].score < e.score
  {
    if s == [] || s[0].score < e.score then 0 else 1 + TiesFirst(s[1..], e)
  }

  /** Puts `e` into a list sorted highest first, behind every entry that scores at least as much. */
  function InsertByScore(s: seq<Score>, e: Score): (r: seq<Score>)
    ensures |r| == |s| + 1
    ensures multiset(r) == multiset(s) + multiset{e}
    ensures SortedDesc(s) ==> SortedDesc(r)
  {
    if s == [] then [e]
    else if s[0].score >= e.score then
      assert s == [s[0]] + s[1..];
      var rest := InsertByScore(s[1..], e);
      InsertedFrom(s[1..], e, rest);
      ConsSorted(s[0], rest);
      [s[0]] + rest
    else
      ConsSorted(e, s);
      [e] + s
  }

  /** Every entry of a list with the multiset of `s` plus `e` is `e` or an entry of `s`. */
  lemma InsertedFrom(s: seq<Score>, e: Score, r: seq<Score>)
    requires multiset(r) == multiset(s) + multiset{e}
    ensures forall x :: x in r ==> x in s || x == e
  {
    forall x | x in r
      ensures x in s || x == e
    {
      assert x in multiset(r);
    }
  }

  /** A sorted list stays sorted behind an entry that scores at least as much as each of its entries. */
  lemma ConsSorted(h: Score, t: seq<Score>)
    ensures SortedDesc(t) && (forall x :: x in t ==> h.score >= x.score) ==> SortedDesc([h] + t)
    ensures SortedDesc(t) && t != [] && h.score >= t[0].score ==> SortedDesc([h] + t)
  {
  }

  /** The sort by score, highest first, of `Array.prototype.sort` with comparator b.score - a.score,
      as an insertion sort: each entry goes behind the earlier ones that score at least as much.
      It is stable (SortStable) and leaves a sorted list as it is (SortedIdentity). */
  function SortDesc(s: seq<Score>): (r: seq<Score>)
    ensures |r| == |s|
    ensures multiset(r) == multiset(s)
    ensures SortedDesc(r)
  {
    if s == [] then []
    else
      assert s == s[..|s| - 1] + [s[|s| - 1]];
      InsertByScore(SortDesc(s[..|s| - 1]), s[|s| - 1])
  }

  /** An entry scoring no more than any entry of a list goes to its end. */
  lemma {:induction false} InsertAtEnd(s: seq<Score>, e: Score)
    requires forall x :: x in s ==> x.score >= e.score
    ensures InsertByScore(s, e) == s + [e]
  {
    if s != [] {
      InsertAtEnd(s[1..], e);
      assert s == [s[0]] + s[1..];
    }
  }

  /** A list already sorted highest first is left exactly as it is: the sort moves no tied entries. */
  lemma {:induction false} SortedIdentity(s: seq<Score>)
    requires SortedDesc(s)
    ensures SortDesc(s) == s
  {
    if s != [] {
      var init, last := s[..|s| - 1], s[|s| - 1];
      SortedInit(s);
      SortedIdentity(init);
      InsertAtEnd(init, last);
      assert SortDesc(s) == InsertByScore(SortDesc(init), last);
      assert init + [last] == s;
    }
  }

  /** Dropping the last entry of a sorted list leaves it sorted, and the last entry scores least. */
  lemma SortedInit(s: seq<Score>)
    requires SortedDesc(s) && s != []
    ensures SortedDesc(s[..|s| - 1])
    ensures forall x :: x in s[..|s| - 1] ==> x.score >= s[|s| - 1].score
  {
    forall x | x in s[..|s| - 1]
      ensures x.score >= s[|s| - 1].score
    {
      var i :| 0 <= i < |s| - 1 && s[..|s| - 1][i] == x;
    }
  }

  /** The entries of `s` that score exactly `v`, in their order in `s`. */
  function WithScore(s: seq<Score>, v: int): (r: seq<Score>)
    ensures |r| <= |s|
    ensures forall x :: x in r ==> x in s && x.score == v
  {
    if s == [] then []
    else if s[0].score == v then [s[0]] + WithScore(s[1..], v)
    else WithScore(s[1..], v)
  }

  lemma {:induction false} WithScoreAppend(a: seq<Score>, b: seq<Score>, v: int)
    ensures WithScore(a + b, v) == WithScore(a, v) + WithScore(b, v)
  {
    if a != [] {
      WithScoreAppend(a[1..], b, v);
      assert (a + b)[1..] == a[1..] + b;
    } else {
      assert a + b == b;
    }
  }

  lemma {:induction false} WithScoreNone(s: seq<Score>, v: int)
    requires forall i :: 0 <= i < |s| ==> s[i].score < v
    ensures WithScore(s, v) == []
  {
    if s != [] {
      WithScoreNone(s[1..], v);
    }
  }

  /** Inserting into a sorted list puts `e` behind every entry of the same score. */
  lemma {:induction false} InsertWithScore(s: seq<Score>, e: Score, v: int)
    requires SortedDesc(s)
    ensures WithScore(InsertByScore(s, e), v) == WithScore(s, v) + (if e.score == v then [e] else [])
  {
    if s == [] {
    } else if s[0].score >= e.score {
      assert SortedDesc(s[1..]);
      InsertWithScore(s[1..], e, v);
      var rest := InsertByScore(s[1..], e);
      assert InsertByScore(s, e) == [s[0]] + rest;
      assert ([s[0]] + rest)[1..] == rest;
    } else {
      assert InsertByScore(s, e) == [e] + s;
      assert ([e] + s)[1..] == s;
      if e.score == v {
        WithScoreNone(s, v);
      }
    }
  }

  /** The sort is stable: for every score, the entries with that score come out in their input order. */
  lemma {:induction false} SortStable(s: seq<Score>, v: int)
    ensures WithScore(SortDesc(s), v) == WithScore(s, v)
  {
    if s != [] {
      var init, last := s[..|s| - 1], s[|s| - 1];
      assert init + [last] == s;
      assert SortDesc(s) == InsertByScore(SortDesc(init), last);
      SortStable(init, v);
      InsertWithScore(SortDesc(init), last, v);
      WithScoreAppend(init, [last], v);
    }
  }

  function Take(s: seq<Score>, n: nat): (r: seq<Score>)
    ensures |r| == if |s| < n then |s| else n
    ensures r == s[..|r|]
  {
    if |s| <= n then s else s[..n]
  }

  /** The list `saveScore` stores: the first 50 of the read list plus the new entry, sorted. */
  function Ranked(read: seq<Score>, e: Score): (r: seq<Score>)
    ensures |r| == if |read| + 1 < MaxEntries then |read| + 1 else MaxEntries
    ensures SortedDesc(r)
    ensures multiset(r) <= multiset(read) + multiset{e}
    ensures |read| < MaxEntries ==> e in r
  {
    var all := SortDesc(read + [e]);
    var r := Take(all, MaxEntries);
    assert SortedDesc(all);
    assert multiset(all) == multiset(r) + multiset(all[|r|..]) by {
      assert all == r + all[|r|..];
    }
    assert |read| < MaxEntries ==> e in r by {
      if |read| < MaxEntries {
        assert r == all;
        assert e in multiset(all);
      }
    }
    r
  }

  /** Insertion puts `e` right behind the leading entries that score at least as much as it. */
  lemma {:induction false} InsertSplits(s: seq<Score>, e: Score)
    ensures InsertByScore(s, e) == s[..TiesFirst(s, e)] + [e] + s[TiesFirst(s, e)..]
  {
    if s != [] && s[0].score >= e.score {
      InsertSplits(s[1..], e);
      ConsSplit(s[0], s[1..], TiesFirst(s[1..], e), e, InsertByScore(s[1..], e));
      assert [s[0]] + s[1..] == s;
    }
  }

  lemma ConsSplit(h: Score, t: seq<Score>, k: nat, e: Score, r: seq<Score>)
    requires k <= |t| && r == t[..k] + [e] + t[k..]
    ensures [h] + r == ([h] + t)[..k + 1] + [e] + ([h] + t)[k + 1..]
  {
  }

  /** On a sorted list insertion splits where the stable sort says: every entry scoring at least as
      much as `e` stays in front of it, every entry scoring less goes behind it. */
  lemma InsertStable(s: seq<Score>, e: Score)
    requires SortedDesc(s)
    ensures var k := TiesFirst(s, e);
            && InsertByScore(s, e) == s[..k] + [e] + s[k..]
            && forall i :: k <= i < |s| ==> s[i].score < e.score
  {
    InsertSplits(s, e);
  }

  /** Saving places the new entry behind every existing entry that scores at least as much: among equal
      scores the older entries keep their places ahead of the new one. */
  lemma SaveKeepsOlderTiesAhead(read: seq<Score>, e: Score)
    ensures var sorted := SortDesc(read);
            var k := TiesFirst(sorted, e);
            && Ranked(read, e) == Take(sorted[..k] + [e] + sorted[k..], MaxEntries)
            && forall x :: x in read && x.score >= e.score ==> x in sorted[..k]
  {
    var sorted := SortDesc(read);
    var k := TiesFirst(sorted, e);
    assert (read + [e])[..|read + [e]| - 1] == read;
    InsertStable(sorted, e);
    forall x | x in read && x.score >= e.score
      ensures x in sorted[..k]
    {
      assert x in multiset(sorted);
      var i :| 0 <= i < |sorted| && sorted[i] == x;
      assert i < k;
      assert sorted[..k][i] == x;
    }
  }

  /** The storage key of the list, abstracted from the browser's storage. */
  class ScoreStore {
    var slot: Slot

    constructor (initial: Slot)
      ensures slot == initial
    {
      slot := initial;
    }

    /** `readScores`: the stored list, or the empty list when nothing readable is stored. */
    method ReadScores() returns (r: seq<Score>)
      ensures slot.Holds? ==> r == slot.entries
      ensures !slot.Holds? ==> r == []
    {
      match slot
      case Holds(entries) => r := entries;
      case _ => r := [];
    }

    /** `saveScore`: read, append, sort highest first, store the first 50. */
    method SaveScore(newScore: Score)
      modifies this
      ensures slot == Holds(Ranked(Entries(old(slot)), newScore))
    {
      var arr := ReadScores();
      arr := arr + [newScore];
      arr := SortDesc(arr);
      slot := Holds(Take(arr, MaxEntries));
    }

    /** `clearScores`: removes the key, so the next read yields the empty list. */
    method ClearScores()
      modifies this
      ensures slot == Missing
      ensures Entries(slot) == []
    {
      slot := Missing;
    }
  }
}
