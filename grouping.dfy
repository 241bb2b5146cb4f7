/** The per-symbol grouping of the message list: one left-to-right pass that
    keeps, for each symbol, the first five ticks it meets. */
module Grouping {
  import opened Basics
  import opened Ticks

  /** How many ticks of one symbol are kept (and shown). */
  const ROWS_PER_GROUP: nat := 5

  /** One `[symbol, msgs]` entry of the grouped dictionary. */
  datatype Group = Group(symbol: string, ticks: seq<Tick>)

  /** The symbols occurring in a list. */
  function Symbols(buf: seq<Tick>): set<string>
  {
    set i | 0 <= i < |buf| :: buf[i].symbol
  }

  /** The ticks of one symbol, in list order. */
  function OfSymbol(buf: seq<Tick>, sym: string): seq<Tick>
  {
    if buf == [] then []
    else
      var last := buf[|buf| - 1];
      OfSymbol(buf[..|buf| - 1], sym) + (if last.symbol == sym then [last] else [])
  }

  /** The window of a symbol: its first `ROWS_PER_GROUP` ticks in list order. */
  function Window(buf: seq<Tick>, sym: string): seq<Tick>
  {
    var all := OfSymbol(buf, sym);
    all[..Min(ROWS_PER_GROUP, |all|)]
  }

  /** The symbols of a list in order of first occurrence, each once: the
      insertion order of the grouped dictionary's keys. */
  function FirstSeen(buf: seq<Tick>): seq<string>
  {
    if buf == [] then []
    else
      var keys := FirstSeen(buf[..|buf| - 1]);
      var sym := buf[|buf| - 1].symbol;
      if sym in keys then keys else keys + [sym]
  }

  predicate Distinct<T(==)>(s: seq<T>)
  {
    forall i, j :: 0 <= i < j < |s| ==> s[i] != s[j]
  }

  lemma SymbolsSnoc(buf: seq<Tick>, t: Tick)
    ensures Symbols(buf + [t]) == Symbols(buf) + {t.symbol}
  {
    var b := buf + [t];
    forall s | s in Symbols(b) ensures s in Symbols(buf) + {t.symbol} {
      var i :| 0 <= i < |b| && b[i].symbol == s;
      if i < |buf| { assert buf[i] == b[i]; }
    }
    forall s | s in Symbols(buf) ensures s in Symbols(b) {
      var i :| 0 <= i < |buf| && buf[i].symbol == s;
      assert b[i] == buf[i];
    }
    assert b[|buf|] == t;
  }

  /** The grouped dictionary as the screen lists it with `Object.entries`:
      one entry per symbol, in first-seen order, holding that symbol's window. */
  function Grouped(buf: seq<Tick>): (r: seq<Group>)
    ensures |r| == |FirstSeen(buf)|
    ensures forall i :: 0 <= i < |r| ==> r[i] == Group(FirstSeen(buf)[i], Window(buf, FirstSeen(buf)[i]))
  {
    var keys := FirstSeen(buf);
    seq(|keys|, i requires 0 <= i < |keys| => Group(keys[i], Window(buf, keys[i])))
  }

  /** The dictionary (`acc`) and its key insertion order, as entries. */
  function Entries(keys: seq<string>, acc: map<string, seq<Tick>>): (r: seq<Group>)
    requires forall k :: 0 <= k < |keys| ==> keys[k] in acc
    ensures |r| == |keys|
    ensures forall i :: 0 <= i < |r| ==> r[i].symbol == keys[i] && r[i].ticks == acc[keys[i]]
  {
    seq(|keys|, i requires 0 <= i < |keys| => Group(keys[i], acc[keys[i]]))
  }

  /** The `messages.reduce` pass: for each message, create its symbol's list
      on first sight, then push the message while that list is shorter than
      `ROWS_PER_GROUP`. `keys` records the order in which keys were created. */
  method GroupBySymbol(messages: seq<Tick>) returns (keys: seq<string>, acc: map<string, seq<Tick>>)
    ensures keys == FirstSeen(messages)
    ensures acc.Keys == Symbols(messages)
    ensures forall s :: s in acc ==> acc[s] == Window(messages, s)
  {
    keys, acc := [], map[];
    var i := 0;
    assert messages[..0] == [];
    while i < |messages|
      invariant 0 <= i <= |messages|
      invariant GroupsOf(messages[..i], keys, acc)
    {
      var msg := messages[i];
      ghost var before, keysBefore := acc, keys;
      PushedSpec(messages, i, keys, acc);
      if msg.symbol !in acc {
        acc := acc[msg.symbol := []];
        keys := keys + [msg.symbol];
      }
      if |acc[msg.symbol]| < ROWS_PER_GROUP {
        acc := acc[msg.symbol := acc[msg.symbol] + [msg]];
      }
      assert acc == Pushed(before, msg);
      assert keys == PushedKeys(keysBefore, before, msg);
      i := i + 1;
    }
    assert messages[..i] == messages;
  }

  /** The dictionary `acc` and its key order `keys` are the grouping of `seen`. */
  ghost predicate GroupsOf(seen: seq<Tick>, keys: seq<string>, acc: map<string, seq<Tick>>)
  {
    && keys == FirstSeen(seen)
    && acc.Keys == Symbols(seen)
    && forall s :: s in acc ==> acc[s] == Window(seen, s)
  }

  /** The dictionary after one step of the reduce. */
  function Pushed(acc: map<string, seq<Tick>>, msg: Tick): map<string, seq<Tick>>
  {
    var created := if msg.symbol in acc then acc else acc[msg.symbol := []];
    if |created[msg.symbol]| < ROWS_PER_GROUP then created[msg.symbol := created[msg.symbol] + [msg]]
    else created
  }

  /** The key order after one step of the reduce. */
  function PushedKeys(keys: seq<string>, acc: map<string, seq<Tick>>, msg: Tick): seq<string>
  {
    if msg.symbol in acc then keys else keys + [msg.symbol]
  }

  /** One step of the reduce, on message `i`, keeps the dictionary and its
      key order the grouping of the part of the list seen so far. */
  lemma PushedSpec(messages: seq<Tick>, i: nat, keys: seq<string>, acc: map<string, seq<Tick>>)
    requires i < |messages|
    requires GroupsOf(messages[..i], keys, acc)
    ensures GroupsOf(messages[..i + 1], PushedKeys(keys, acc, messages[i]), Pushed(acc, messages[i]))
  {
    var seen, msg := messages[..i], messages[i];
    assert messages[..i + 1] == seen + [msg];
    FirstSeenSnoc(seen, msg);
    PushedWindows(seen, msg, acc);
  }

  lemma PushedWindows(seen: seq<Tick>, msg: Tick, acc: map<string, seq<Tick>>)
    requires acc.Keys == Symbols(seen)
    requires forall s :: s in acc ==> acc[s] == Window(seen, s)
    ensures Pushed(acc, msg).Keys == Symbols(seen + [msg])
    ensures forall s :: s in Pushed(acc, msg) ==> Pushed(acc, msg)[s] == Window(seen + [msg], s)
  {
    SymbolsSnoc(seen, msg);
    var after := Pushed(acc, msg);
    forall s | s in after
      ensures after[s] == Window(seen + [msg], s)
    {
      WindowSnoc(seen, msg, s);
    }
  }

  /** How one more message changes a window: only its own symbol's, and only
      while that window is not yet full. */
  lemma WindowSnoc(buf: seq<Tick>, t: Tick, s: string)
    ensures s != t.symbol ==> Window(buf + [t], s) == Window(buf, s)
    ensures s == t.symbol && |Window(buf, s)| < ROWS_PER_GROUP ==> Window(buf + [t], s) == Window(buf, s) + [t]
    ensures s == t.symbol && |Window(buf, s)| >= ROWS_PER_GROUP ==> Window(buf + [t], s) == Window(buf, s)
    ensures s !in Symbols(buf) ==> Window(buf, s) == []
  {
    var b := buf + [t];
    assert b[..|b| - 1] == buf;
    assert OfSymbol(b, s) == OfSymbol(buf, s) + (if t.symbol == s then [t] else []);
    OfSymbolSpec(buf, s);
  }

  lemma FirstSeenSnoc(buf: seq<Tick>, t: Tick)
    ensures FirstSeen(buf + [t]) == if t.symbol in Symbols(buf) then FirstSeen(buf) else FirstSeen(buf) + [t.symbol]
  {
    var b := buf + [t];
    assert b[..|b| - 1] == buf;
    FirstSeenSpec(buf);
  }

  /** The key order lists exactly the symbols of the list, each once. */
  lemma {:induction false} FirstSeenSpec(buf: seq<Tick>)
    ensures forall s :: s in FirstSeen(buf) <==> s in Symbols(buf)
    ensures Distinct(FirstSeen(buf))
  {
    if buf != [] {
      var init := buf[..|buf| - 1];
      var last := buf[|buf| - 1];
      FirstSeenSpec(init);
      assert buf == init + [last];
      SymbolsSnoc(init, last);
    }
  }

  /** A symbol's ticks all carry that symbol and come from the list; there
      are some exactly when the symbol occurs. */
  lemma {:induction false} OfSymbolSpec(buf: seq<Tick>, sym: string)
    ensures forall t :: t in OfSymbol(buf, sym) ==> t.symbol == sym && t in buf
    ensures OfSymbol(buf, sym) == [] <==> sym !in Symbols(buf)
    ensures |OfSymbol(buf, sym)| <= |buf|
  {
    if buf != [] {
      var init := buf[..|buf| - 1];
      var last := buf[|buf| - 1];
      OfSymbolSpec(init, sym);
      assert buf == init + [last];
      SymbolsSnoc(init, last);
    }
  }

  /** Taking a symbol's ticks commutes with concatenation: the relative
      order of the list is kept. */
  lemma {:induction false} OfSymbolConcat(a: seq<Tick>, b: seq<Tick>, sym: string)
    ensures OfSymbol(a + b, sym) == OfSymbol(a, sym) + OfSymbol(b, sym)
  {
    if b == [] {
      assert a + b == a;
    } else {
      var init := b[..|b| - 1];
      var last := b[|b| - 1];
      OfSymbolConcat(a, init, sym);
      assert (a + b)[..|a + b| - 1] == a + init;
      assert (a + b)[|a + b| - 1] == last;
    }
  }

  /** What a group holds: ticks of its own symbol only, taken from the list,
      at most `ROWS_PER_GROUP` of them and at least one when the symbol
      occurs; they are the first `min(5, count)` of the symbol's ticks in
      list order. */
  lemma WindowSpec(buf: seq<Tick>, sym: string)
    ensures forall t :: t in Window(buf, sym) ==> t.symbol == sym && t in buf
    ensures |Window(buf, sym)| == Min(ROWS_PER_GROUP, |OfSymbol(buf, sym)|)
    ensures Window(buf, sym) <= OfSymbol(buf, sym)
    ensures sym in Symbols(buf) <==> 1 <= |Window(buf, sym)| <= ROWS_PER_GROUP
    ensures sym !in Symbols(buf) <==> Window(buf, sym) == []
  {
    OfSymbolSpec(buf, sym);
  }

  /** The list is newest first, so a group shows the most recent ticks of
      its symbol: older ticks after a list's own can only fill a window that
      the newer part left short, and never displace a newer tick. */
  lemma NewestWin(newer: seq<Tick>, older: seq<Tick>, sym: string)
    ensures Window(newer, sym) <= Window(newer + older, sym)
    ensures |OfSymbol(newer, sym)| >= ROWS_PER_GROUP ==> Window(newer + older, sym) == Window(newer, sym)
  {
    OfSymbolConcat(newer, older, sym);
  }

  /** `a` first occurs in the list before `b` does. */
  ghost predicate SeenBefore(buf: seq<Tick>, a: string, b: string)
  {
    exists k :: 0 <= k < |buf| && buf[k].symbol == a && b !in Symbols(buf[..k + 1])
  }

  lemma SymbolsPrefix(buf: seq<Tick>, k: nat)
    requires k <= |buf|
    ensures Symbols(buf[..k]) <= Symbols(buf)
  {
    forall s | s in Symbols(buf[..k]) ensures s in Symbols(buf) {
      var i :| 0 <= i < k && buf[..k][i].symbol == s;
      assert buf[i].symbol == s;
    }
  }

  /** The key order is the order of first occurrence. */
  lemma {:induction false} FirstSeenOrder(buf: seq<Tick>)
    ensures forall i, j :: 0 <= i < j < |FirstSeen(buf)| ==> SeenBefore(buf, FirstSeen(buf)[i], FirstSeen(buf)[j])
  {
    if buf != [] {
      var init := buf[..|buf| - 1];
      var last := buf[|buf| - 1];
      var keys := FirstSeen(init);
      FirstSeenOrder(init);
      FirstSeenSpec(init);
      assert buf == init + [last];
      forall i, j | 0 <= i < j < |FirstSeen(buf)|
        ensures SeenBefore(buf, FirstSeen(buf)[i], FirstSeen(buf)[j])
      {
        var a, b := FirstSeen(buf)[i], FirstSeen(buf)[j];
        if j < |keys| {
          assert a == keys[i] && b == keys[j];
          assert SeenBefore(init, a, b);
          var k :| 0 <= k < |init| && init[k].symbol == a && b !in Symbols(init[..k + 1]);
          assert buf[k] == init[k] && buf[..k + 1] == init[..k + 1];
        } else {
          assert b == last.symbol && b !in Symbols(init) && a == keys[i];
          assert a in Symbols(init);
          var k :| 0 <= k < |init| && init[k].symbol == a;
          SymbolsPrefix(init, k + 1);
          assert buf[k] == init[k] && buf[..k + 1] == init[..k + 1];
        }
      }
    }
  }

  /** The grouped entries: every symbol of the list has exactly one entry,
      no entry belongs to an absent symbol, entries appear in first-seen
      order, and each entry holds its symbol's window. */
  lemma GroupedSpec(buf: seq<Tick>)
    ensures forall i :: 0 <= i < |Grouped(buf)| ==>
      && Grouped(buf)[i].symbol in Symbols(buf)
      && Grouped(buf)[i].ticks == Window(buf, Grouped(buf)[i].symbol)
      && 1 <= |Grouped(buf)[i].ticks| <= ROWS_PER_GROUP
    ensures forall s :: s in Symbols(buf) ==> exists i :: 0 <= i < |Grouped(buf)| && Grouped(buf)[i].symbol == s
    ensures forall i, j :: 0 <= i < j < |Grouped(buf)| ==> Grouped(buf)[i].symbol != Grouped(buf)[j].symbol
    ensures forall i, j :: 0 <= i < j < |Grouped(buf)| ==> SeenBefore(buf, Grouped(buf)[i].symbol, Grouped(buf)[j].symbol)
  {
    var keys := FirstSeen(buf);
    var g := Grouped(buf);
    FirstSeenSpec(buf);
    FirstSeenOrder(buf);
    forall i | 0 <= i < |g|
      ensures g[i].symbol in Symbols(buf) && 1 <= |g[i].ticks| <= ROWS_PER_GROUP
    {
      assert keys[i] in keys;
      WindowSpec(buf, keys[i]);
    }
    forall s | s in Symbols(buf)
      ensures exists i :: 0 <= i < |g| && g[i].symbol == s
    {
      assert s in keys;
      var i :| 0 <= i < |keys| && keys[i] == s;
      assert g[i].symbol == s;
    }
  }
}
