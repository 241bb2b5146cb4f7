/** The ordering of the grouped entries: descending by the largest
    vs-day-open percentage in each group's window, with a stable sort. */
module Ranking {
  import opened Ticks
  import opened Grouping

  /** A `Math.max` value: the maximum of no numbers is minus infinity. */
  datatype Level = NegInfinity | Finite(v: real)

  /** Strictly lower. */
  predicate Below(a: Level, b: Level)
  {
    match a
    case NegInfinity => b.Finite?
    case Finite(x) => b.Finite? && x < b.v
  }

  /** `Math.max(...ts.map(m => m.pct_vs_day_open))`. */
  function MaxPct(ts: seq<Tick>): Level
  {
    if ts == [] then NegInfinity
    else
      var head := ts[0].pctVsDayOpen;
      match MaxPct(ts[1..])
      case NegInfinity => Finite(head)
      case Finite(m) => if head >= m then Finite(head) else Finite(m)
  }

  /** The score is an upper bound of the window's percentages that one of
      them attains; only the empty list scores minus infinity. */
  lemma {:induction false} MaxPctSpec(ts: seq<Tick>)
    ensures MaxPct(ts) == NegInfinity <==> ts == []
    ensures forall i :: 0 <= i < |ts| ==> !Below(MaxPct(ts), Finite(ts[i].pctVsDayOpen))
    ensures ts != [] ==> exists i :: 0 <= i < |ts| && MaxPct(ts) == Finite(ts[i].pctVsDayOpen)
  {
    if ts != [] {
      MaxPctSpec(ts[1..]);
      assert forall i :: 1 <= i < |ts| ==> ts[i] == ts[1..][i - 1];
      if ts[1..] != [] {
        var i :| 0 <= i < |ts[1..]| && MaxPct(ts[1..]) == Finite(ts[1..][i].pctVsDayOpen);
        assert ts[i + 1] == ts[1..][i];
      }
    }
  }

  /** The sort key of one entry. */
  function Score(g: Group): Level
  {
    MaxPct(g.ticks)
  }

  /** Non-increasing score. */
  ghost predicate Ranked(s: seq<Group>)
  {
    forall i, j :: 0 <= i < j < |s| ==> !Below(Score(s[i]), Score(s[j]))
  }

  /** Insert `g` into a ranked list after every entry scoring at least as
      high: stepping from the right, `g` passes only strictly lower entries. */
  function Insert(s: seq<Group>, g: Group): seq<Group>
  {
    if s == [] || !Below(Score(s[|s| - 1]), Score(g)) then s + [g]
    else Insert(s[..|s| - 1], g) + [s[|s| - 1]]
  }

  /** A stable sort by descending score: insertion sort, left to right. */
  function SortByScore(s: seq<Group>): seq<Group>
  {
    if s == [] then [] else Insert(SortByScore(s[..|s| - 1]), s[|s| - 1])
  }

  /** The entries of one score, in order. */
  function WithScore(s: seq<Group>, k: Level): seq<Group>
  {
    if s == [] then []
    else WithScore(s[..|s| - 1], k) + (if Score(s[|s| - 1]) == k then [s[|s| - 1]] else [])
  }

  lemma {:induction false} InsertPermutes(s: seq<Group>, g: Group)
    ensures multiset(Insert(s, g)) == multiset(s) + multiset{g}
  {
    if s != [] && Below(Score(s[|s| - 1]), Score(g)) {
      InsertPermutes(s[..|s| - 1], g);
      assert s == s[..|s| - 1] + [s[|s| - 1]];
    }
  }

  lemma {:induction false} InsertRanked(s: seq<Group>, g: Group)
    requires Ranked(s)
    ensures Ranked(Insert(s, g))
  {
    if s != [] && Below(Score(s[|s| - 1]), Score(g)) {
      var init, last := s[..|s| - 1], s[|s| - 1];
      InsertRanked(init, g);
      InsertPermutes(init, g);
      var r := Insert(init, g);
      forall x | x in r ensures !Below(Score(x), Score(last)) {
        assert x in multiset(r);
        if x != g {
          assert x in multiset(init);
          var i :| 0 <= i < |init| && init[i] == x;
          assert s[i] == x;
        }
      }
      forall i, j | 0 <= i < j < |r + [last]|
        ensures !Below(Score((r + [last])[i]), Score((r + [last])[j]))
      {
        if j == |r| {
          assert (r + [last])[i] == r[i] && r[i] in r;
        } else {
          assert (r + [last])[i] == r[i] && (r + [last])[j] == r[j];
        }
      }
    }
  }

  /** Inserting keeps the entries of every score in their order, with `g`
      behind those of its own score. */
  lemma {:induction false} InsertKeepsTies(s: seq<Group>, g: Group, k: Level)
    ensures WithScore(Insert(s, g), k) == WithScore(s, k) + (if Score(g) == k then [g] else [])
  {
    if s == [] || !Below(Score(s[|s| - 1]), Score(g)) {
      assert Insert(s, g) == s + [g];
      WithScoreSnoc(s, g, k);
    } else {
      var init, last := s[..|s| - 1], s[|s| - 1];
      InsertKeepsTies(init, g, k);
      assert Insert(s, g) == Insert(init, g) + [last];
      WithScoreSnoc(Insert(init, g), last, k);
      WithScoreSnoc(init, last, k);
      assert s == init + [last];
    }
  }

  lemma WithScoreSnoc(s: seq<Group>, g: Group, k: Level)
    ensures WithScore(s + [g], k) == WithScore(s, k) + (if Score(g) == k then [g] else [])
  {
    assert (s + [g])[..|s|] == s;
  }

  /** The sorted entries are a permutation of the input. */
  lemma {:induction false} SortPermutes(s: seq<Group>)
    ensures multiset(SortByScore(s)) == multiset(s)
  {
    if s != [] {
      var init, last := s[..|s| - 1], s[|s| - 1];
      SortPermutes(init);
      InsertPermutes(SortByScore(init), last);
      assert SortByScore(s) == Insert(SortByScore(init), last);
      assert multiset(s) == multiset(init) + multiset{last} by {
        assert s == init + [last];
      }
    }
  }

  /** The sorted entries have non-increasing scores. */
  lemma {:induction false} SortRanked(s: seq<Group>)
    ensures Ranked(SortByScore(s))
  {
    if s != [] {
      SortRanked(s[..|s| - 1]);
      InsertRanked(SortByScore(s[..|s| - 1]), s[|s| - 1]);
    }
  }

  /** Stability: entries of equal score keep their input order. */
  lemma {:induction false} SortStable(s: seq<Group>, k: Level)
    ensures WithScore(SortByScore(s), k) == WithScore(s, k)
  {
    if s != [] {
      SortStable(s[..|s| - 1], k);
      InsertKeepsTies(SortByScore(s[..|s| - 1]), s[|s| - 1], k);
    }
  }

  /** `entries.sort((a, b) => max(b) - max(a))` on the entries array, as a
      stable insertion sort. */
  method SortInPlace(a: array<Group>)
    modifies a
    ensures a[..] == SortByScore(old(a[..]))
  {
    ghost var input := a[..];
    var i := 0;
    while i < a.Length
      invariant 0 <= i <= a.Length
      invariant a[..i] == SortByScore(input[..i])
      invariant a[i..] == input[i..]
    {
      assert input[..i + 1][..i] == input[..i] && input[i] == a[i];
      InsertAt(a, i);
      i := i + 1;
    }
    assert a[..] == a[..a.Length] && input == input[..a.Length];
  }

  /** One pass of the sort: move `a[i]` left past the strictly lower-scoring
      entries before it. */
  method InsertAt(a: array<Group>, i: nat)
    requires i < a.Length
    modifies a
    ensures a[..i + 1] == Insert(old(a[..i]), old(a[i]))
    ensures a[i + 1..] == old(a[i + 1..])
  {
    var x := a[i];
    ghost var sorted := a[..i];
    var j := i;
    while j > 0 && Below(Score(a[j - 1]), Score(x))
      invariant 0 <= j <= i
      invariant forall k :: 0 <= k < j ==> a[k] == sorted[k]
      invariant forall k :: j < k <= i ==> a[k] == sorted[k - 1]
      invariant forall k :: i < k < a.Length ==> a[k] == old(a[k])
      invariant forall k :: j <= k < i ==> Below(Score(sorted[k]), Score(x))
    {
      a[j] := a[j - 1];
      j := j - 1;
    }
    a[j] := x;
    Placed(a[..], sorted, i, j, x);
  }

  /** The cells after the inner pass spell out the insertion of `x`. */
  lemma Placed(cells: seq<Group>, sorted: seq<Group>, i: nat, j: nat, x: Group)
    requires j <= i == |sorted| < |cells|
    requires forall k :: 0 <= k < j ==> cells[k] == sorted[k]
    requires cells[j] == x
    requires forall k :: j < k <= i ==> cells[k] == sorted[k - 1]
    requires j == 0 || !Below(Score(sorted[j - 1]), Score(x))
    requires forall k :: j <= k < i ==> Below(Score(sorted[k]), Score(x))
    ensures cells[..i + 1] == Insert(sorted, x)
  {
    InsertSplit(sorted, j, x);
    var r := sorted[..j] + [x] + sorted[j..];
    forall k | 0 <= k <= i ensures cells[k] == r[k] {
      if k > j {
        assert r[k] == sorted[j..][k - j - 1];
      }
    }
  }

  /** Where the inner pass stops, `x` goes: after an entry scoring at least
      as high (or at the front), before entries all strictly lower. */
  lemma {:induction false} InsertSplit(s: seq<Group>, j: nat, x: Group)
    requires j <= |s|
    requires j == 0 || !Below(Score(s[j - 1]), Score(x))
    requires forall k :: j <= k < |s| ==> Below(Score(s[k]), Score(x))
    ensures Insert(s, x) == s[..j] + [x] + s[j..]
    decreases |s|
  {
    if j < |s| {
      var init, last := s[..|s| - 1], s[|s| - 1];
      assert Below(Score(last), Score(x));
      InsertSplit(init, j, x);
      assert init[..j] == s[..j];
      assert init[j..] + [last] == s[j..];
    } else {
      assert s[..j] == s;
    }
  }
}
