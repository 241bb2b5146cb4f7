/** The bounded, newest-first message list and its one persisted snapshot. */
module TickBuffer {
  import opened Basics
  import opened Ticks
  import opened Classify

  /** The cap on retained messages. */
  const MAX_ENTRIES: nat := 200

  /** `[data, ...prev].slice(0, MAX_ENTRIES)`: prepend, then cut to the cap. */
  function Append(t: Tick, prev: seq<Tick>): (r: seq<Tick>)
    ensures |r| == Min(MAX_ENTRIES, |prev| + 1)
    ensures r[0] == t
    ensures r[1..] <= prev
  {
    ([t] + prev)[..Min(MAX_ENTRIES, |prev| + 1)]
  }

  /** What the storage key can hold, as `JSON.parse` sees it: the text of a
      serialized list, the empty string, or text that does not parse. */
  datatype Stored = Serialized(ticks: seq<Tick>) | EmptyText | Malformed

  datatype LoadError = SyntaxError

  /** The initial state read on mount: a missing or empty key gives `[]`; a
      serialized list seeds the buffer verbatim (no cap is applied); a
      corrupt one makes `JSON.parse` throw, which is not caught. */
  function Restore(saved: Option<Stored>): (r: Result<seq<Tick>, LoadError>)
    ensures r.Err? <==> saved == Some(Malformed)
    ensures saved == None || saved == Some(EmptyText) ==> r == Ok([])
    ensures forall b :: saved == Some(Serialized(b)) ==> r == Ok(b)
  {
    match saved
    case None => Ok([])
    case Some(EmptyText) => Ok([])
    case Some(Serialized(b)) => Ok(b)
    case Some(Malformed) => Err(SyntaxError)
  }

  /** The screen's message state together with its storage key. */
  class Feed {
    var messages: seq<Tick>
    var store: Option<Stored>

    /** Reloading the page would restore exactly the in-memory list. */
    ghost predicate Valid()
      reads this
    {
      Restore(store) == Ok(messages)
    }

    constructor (saved: Option<Stored>)
      requires Restore(saved).Ok?
      ensures Valid()
      ensures store == saved && messages == Restore(saved).value
    {
      store := saved;
      messages := Restore(saved).value;
    }

    /** The `onmessage` handler. A payload that does not parse throws before
        anything else happens and changes nothing. Otherwise the quote is
        stamped, the alert cue is chosen, the stamped tick is prepended and
        the list cut to the cap, and the new list is written to storage. */
    method Receive(payload: Payload, now: int, soundsEnabled: bool) returns (cue: Cue)
      requires Valid()
      modifies this
      ensures Valid()
      ensures payload.Unparsable? ==>
        cue == Silent && messages == old(messages) && store == old(store)
      ensures payload.Parsed? ==>
        && cue == CueFor(soundsEnabled, payload.quote.pctVsLastClose)
        && messages == Append(Stamp(payload.quote, now), old(messages))
        && store == Some(Serialized(messages))
    {
      match payload
      case Unparsable =>
        cue := Silent;
      case Parsed(q) =>
        var data := Stamp(q, now);
        cue := CueFor(soundsEnabled, data.pctVsLastClose);
        var newList := Append(data, messages);
        store := Some(Serialized(newList));
        messages := newList;
    }

    /** `clearMessages`: empty the list and remove the storage key. The new
        state does not depend on the old one, so clearing again changes
        nothing. */
    method Clear()
      modifies this
      ensures Valid()
      ensures messages == [] && store == None
    {
      messages := [];
      store := None;
    }

    /** The handler run over a whole session of frames, in arrival order:
        the list ends as `Ingest` of the arrivals and each frame yields the
        cue its own payload calls for. */
    method ReceiveAll(arrivals: seq<Arrival>, soundsEnabled: bool) returns (cues: seq<Cue>)
      requires Valid()
      modifies this
      ensures Valid()
      ensures messages == Ingest(old(messages), arrivals)
      ensures Accepted(arrivals) == [] ==> store == old(store)
      ensures Accepted(arrivals) != [] ==> store == Some(Serialized(messages))
      ensures |cues| == |arrivals|
      ensures forall i :: 0 <= i < |arrivals| ==> cues[i] == CueOf(arrivals[i], soundsEnabled)
    {
      cues := [];
      var i := 0;
      while i < |arrivals|
        invariant 0 <= i <= |arrivals|
        invariant Valid()
        invariant messages == Ingest(old(messages), arrivals[..i])
        invariant Accepted(arrivals[..i]) == [] ==> store == old(store)
        invariant Accepted(arrivals[..i]) != [] ==> store == Some(Serialized(messages))
        invariant |cues| == i
        invariant forall k :: 0 <= k < i ==> cues[k] == CueOf(arrivals[k], soundsEnabled)
      {
        assert arrivals[..i + 1][..i] == arrivals[..i];
        var cue := Receive(arrivals[i].payload, arrivals[i].at, soundsEnabled);
        cues := cues + [cue];
        i := i + 1;
      }
      assert arrivals[..i] == arrivals;
    }
  }

  /** The cue one frame produces on arrival. */
  function CueOf(a: Arrival, soundsEnabled: bool): Cue
  {
    match a.payload
    case Parsed(q) => CueFor(soundsEnabled, q.pctVsLastClose)
    case Unparsable => Silent
  }

  /** Mounting the screen: a corrupt snapshot makes the mount fail. */
  method Mount(saved: Option<Stored>) returns (r: Result<Feed, LoadError>)
    ensures r.Err? <==> saved == Some(Malformed)
    ensures r.Ok? ==> fresh(r.value) && r.value.Valid() && r.value.store == saved
    ensures r.Ok? ==> r.value.messages == Restore(saved).value
  {
    match Restore(saved)
    case Err(e) =>
      r := Err(e);
    case Ok(_) =>
      var feed := new Feed(saved);
      r := Ok(feed);
  }

  /** One frame as it reaches the handler, with the clock reading at that moment. */
  datatype Arrival = Arrival(payload: Payload, at: int)

  /** The ticks that the arrivals add, oldest first: the parsable ones, stamped. */
  function Accepted(arrivals: seq<Arrival>): seq<Tick>
  {
    if arrivals == [] then []
    else
      var last := arrivals[|arrivals| - 1];
      Accepted(arrivals[..|arrivals| - 1]) +
        (match last.payload
         case Parsed(q) => [Stamp(q, last.at)]
         case Unparsable => [])
  }

  /** The message list after the handler has seen every arrival in order. */
  function Ingest(prev: seq<Tick>, arrivals: seq<Arrival>): seq<Tick>
  {
    if arrivals == [] then prev
    else
      var last := arrivals[|arrivals| - 1];
      var before := Ingest(prev, arrivals[..|arrivals| - 1]);
      match last.payload
      case Parsed(q) => Append(Stamp(q, last.at), before)
      case Unparsable => before
  }

  function Reverse<T>(s: seq<T>): (r: seq<T>)
    ensures |r| == |s|
    ensures forall i :: 0 <= i < |s| ==> r[i] == s[|s| - 1 - i]
  {
    if s == [] then [] else [s[|s| - 1]] + Reverse(s[..|s| - 1])
  }

  /** Prepending to an already truncated list and truncating again is the
      same as truncating once. */
  lemma AppendTruncated(t: Tick, s: seq<Tick>)
    ensures Append(t, s[..Min(MAX_ENTRIES, |s|)]) == ([t] + s)[..Min(MAX_ENTRIES, |s| + 1)]
  {
    var m := Min(MAX_ENTRIES, |s|);
    var n := Min(MAX_ENTRIES, |s| + 1);
    assert Min(MAX_ENTRIES, m + 1) == n;
    forall k | 0 <= k < n
      ensures Append(t, s[..m])[k] == ([t] + s)[..n][k]
    {
      if k > 0 {
        assert Append(t, s[..m])[k] == ([t] + s[..m])[k] == s[k - 1];
      }
    }
  }

  /** Bounded retention over a whole session: the list is the accepted
      ticks, newest first, followed by what was there before, cut to the cap
      once any tick was accepted; garbage frames contribute nothing. */
  lemma {:induction false} IngestKeepsNewest(prev: seq<Tick>, arrivals: seq<Arrival>)
    ensures Ingest(prev, arrivals) ==
      (Reverse(Accepted(arrivals)) + prev)[..RetainedCount(|Accepted(arrivals)|, |prev|)]
  {
    if arrivals == [] {
      assert Reverse(Accepted(arrivals)) + prev == prev;
    } else {
      var init := arrivals[..|arrivals| - 1];
      var last := arrivals[|arrivals| - 1];
      IngestKeepsNewest(prev, init);
      match last.payload
      case Unparsable =>
        assert Accepted(arrivals) == Accepted(init);
        assert Ingest(prev, arrivals) == Ingest(prev, init);
      case Parsed(q) =>
        var t := Stamp(q, last.at);
        assert Accepted(arrivals) == Accepted(init) + [t];
        assert Ingest(prev, arrivals) == Append(t, Ingest(prev, init));
        var A := Accepted(init);
        ReverseSnoc(A, t);
        RetainStep(t, Reverse(A) + prev, |A|, prev);
    }
  }

  /** One accepted tick moves the retained window forward by one; `R` is
      the accepted ticks so far (`a` of them), newest first, then `prev`. */
  lemma RetainStep(t: Tick, R: seq<Tick>, a: nat, prev: seq<Tick>)
    requires |R| == a + |prev|
    requires a == 0 ==> R == prev
    ensures Append(t, R[..RetainedCount(a, |prev|)]) == ([t] + R)[..RetainedCount(a + 1, |prev|)]
  {
    if a == 0 {
      assert R[..|prev|] == prev;
    } else {
      AppendTruncated(t, R);
    }
  }

  lemma ReverseSnoc<T>(s: seq<T>, x: T)
    ensures Reverse(s + [x]) == [x] + Reverse(s)
  {
    assert (s + [x])[..|s|] == s;
  }

  /** How many ticks are retained: the previous list is kept whole until the
      first tick is accepted, and from then on the cap applies. */
  function RetainedCount(accepted: nat, previous: nat): nat
  {
    if accepted == 0 then previous else Min(MAX_ENTRIES, accepted + previous)
  }

  /** From an empty buffer: after N accepted ticks the list holds min(N, 200)
      of them and starts with the most recent one. */
  lemma SessionFromEmpty(arrivals: seq<Arrival>)
    ensures |Ingest([], arrivals)| == Min(MAX_ENTRIES, |Accepted(arrivals)|)
    ensures Accepted(arrivals) != [] ==>
      Ingest([], arrivals)[0] == Accepted(arrivals)[|Accepted(arrivals)| - 1]
    ensures |Ingest([], arrivals)| <= MAX_ENTRIES
  {
    IngestKeepsNewest([], arrivals);
    assert Reverse(Accepted(arrivals)) + [] == Reverse(Accepted(arrivals));
  }
}
