/** The rendered view: the grouped entries of the current message list,
    sorted for display. */
module Dashboard {
  import opened Ticks
  import opened Grouping
  import opened Ranking

  /** `Object.entries(grouped).sort(...)`: build the grouped dictionary,
      list its entries in key order into a fresh array, sort that array. */
  method RankedEntries(messages: seq<Tick>) returns (rows: seq<Group>)
    ensures rows == SortByScore(Grouped(messages))
  {
    var keys, acc := GroupBySymbol(messages);
    FirstSeenSpec(messages);
    var entries := Entries(keys, acc);
    assert entries == Grouped(messages);
    var a := new Group[|entries|](i requires 0 <= i < |entries| => entries[i]);
    assert a[..] == entries;
    SortInPlace(a);
    rows := a[..];
  }

  /** The rank order: the view is a permutation of the entries, by
      non-increasing top percentage, entries with equal tops kept in
      first-seen order. */
  lemma RankedViewOrder(messages: seq<Tick>)
    ensures multiset(SortByScore(Grouped(messages))) == multiset(Grouped(messages))
    ensures Ranked(SortByScore(Grouped(messages)))
    ensures forall k :: WithScore(SortByScore(Grouped(messages)), k) == WithScore(Grouped(messages), k)
  {
    var entries := Grouped(messages);
    SortPermutes(entries);
    SortRanked(entries);
    forall k ensures WithScore(SortByScore(entries), k) == WithScore(entries, k) {
      SortStable(entries, k);
    }
  }

  /** The row groups of the view: exactly one per symbol of the list, none
      for an absent symbol, each that symbol's window of one to five ticks. */
  lemma RankedViewGroups(messages: seq<Tick>)
    ensures forall i :: 0 <= i < |SortByScore(Grouped(messages))| ==>
      var g := SortByScore(Grouped(messages))[i];
      g.symbol in Symbols(messages) && g.ticks == Window(messages, g.symbol) && 1 <= |g.ticks| <= ROWS_PER_GROUP
    ensures forall s :: s in Symbols(messages) ==>
      exists i :: 0 <= i < |SortByScore(Grouped(messages))| && SortByScore(Grouped(messages))[i].symbol == s
    ensures forall i, j :: 0 <= i < j < |SortByScore(Grouped(messages))| ==>
      SortByScore(Grouped(messages))[i].symbol != SortByScore(Grouped(messages))[j].symbol
  {
    var entries := Grouped(messages);
    var view := SortByScore(entries);
    GroupedSpec(messages);
    SortPermutes(entries);
    MembersKept(entries, view);
    SymbolsCovered(entries, view, Symbols(messages));
    DistinctSymbolsKept(entries, view);
  }

  /** Every entry of a permutation is an entry of the original. */
  lemma MembersKept(entries: seq<Group>, view: seq<Group>)
    requires multiset(view) == multiset(entries)
    ensures forall i :: 0 <= i < |view| ==> view[i] in entries
  {
    forall i | 0 <= i < |view|
      ensures view[i] in entries
    {
      assert view[i] in multiset(view);
    }
  }

  /** A permutation still has an entry for every symbol the original covers. */
  lemma SymbolsCovered(entries: seq<Group>, view: seq<Group>, symbols: set<string>)
    requires multiset(view) == multiset(entries)
    requires forall s :: s in symbols ==> exists i :: 0 <= i < |entries| && entries[i].symbol == s
    ensures forall s :: s in symbols ==> exists i :: 0 <= i < |view| && view[i].symbol == s
  {
    forall s | s in symbols
      ensures exists i :: 0 <= i < |view| && view[i].symbol == s
    {
      var e :| 0 <= e < |entries| && entries[e].symbol == s;
      assert entries[e] in multiset(view);
      var i :| 0 <= i < |view| && view[i] == entries[e];
    }
  }

  /** A permutation of entries with pairwise different symbols again has
      pairwise different symbols. */
  lemma DistinctSymbolsKept(entries: seq<Group>, view: seq<Group>)
    requires multiset(view) == multiset(entries)
    requires forall i, j :: 0 <= i < j < |entries| ==> entries[i].symbol != entries[j].symbol
    ensures forall i, j :: 0 <= i < j < |view| ==> view[i].symbol != view[j].symbol
  {
    assert Distinct(entries) by {
      forall i, j | 0 <= i < j < |entries| ensures entries[i] != entries[j] {
        assert entries[i].symbol != entries[j].symbol;
      }
    }
    forall i, j | 0 <= i < j < |view|
      ensures view[i].symbol != view[j].symbol
    {
      if view[i].symbol == view[j].symbol {
        assert view[i] in multiset(entries) && view[j] in multiset(entries);
        var p :| 0 <= p < |entries| && entries[p] == view[i];
        var q :| 0 <= q < |entries| && entries[q] == view[j];
        assert p == q;
        CountAtLeastTwo(view, i, j);
        CountDistinct(entries, view[i]);
        assert false;
      }
    }
  }

  lemma CountAtLeastTwo<T>(s: seq<T>, i: nat, j: nat)
    requires i < j < |s| && s[i] == s[j]
    ensures multiset(s)[s[i]] >= 2
  {
    assert s == s[..j] + [s[j]] + s[j + 1..];
    assert s[..j][i] == s[i];
    assert s[i] in multiset(s[..j]);
  }

  lemma {:induction false} CountDistinct<T>(s: seq<T>, x: T)
    requires Distinct(s)
    ensures multiset(s)[x] <= 1
  {
    if s != [] {
      var init := s[..|s| - 1];
      assert s == init + [s[|s| - 1]];
      CountDistinct(init, x);
      if x == s[|s| - 1] {
        assert x !in init;
      }
    }
  }
}
