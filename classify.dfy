/** The pure decisions the screen makes per tick: the alert cue on arrival,
    and the recency, highlight and colour of each rendered row. */
module Classify {
  import opened Ticks

  /** A row stays "recent" for one minute after it was received. */
  const RECENT_WINDOW_MS: int := 60 * 1000

  predicate IsRecent(now: int, t: Tick)
  {
    now - t.updated < RECENT_WINDOW_MS
  }

  /** The colour class of a percentage column. */
  datatype Tone = Success | Destructive | Muted

  /** Sign to colour, used for both the vs-day-open and the vs-last-close column. */
  function ToneOf(pct: real): (r: Tone)
    ensures r == Success <==> pct > 0.0
    ensures r == Destructive <==> pct < 0.0
    ensures r == Muted <==> pct == 0.0
  {
    if pct > 0.0 then Success else if pct < 0.0 then Destructive else Muted
  }

  /** The extra card emphasis of a row. */
  datatype Highlight = PositiveFlash | NegativeFlash | NoFlash

  function HighlightOf(now: int, t: Tick): (r: Highlight)
    ensures r == PositiveFlash <==> IsRecent(now, t) && t.pctVsLastClose > 0.0
    ensures r == NegativeFlash <==> IsRecent(now, t) && t.pctVsLastClose < 0.0
    ensures r == NoFlash <==> !IsRecent(now, t) || t.pctVsLastClose == 0.0
  {
    var isRecent := IsRecent(now, t);
    var isPositive := t.pctVsLastClose > 0.0;
    var isNegative := t.pctVsLastClose < 0.0;
    if isRecent && isPositive then PositiveFlash
    else if isRecent && isNegative then NegativeFlash
    else NoFlash
  }

  /** The audio cue played when a tick arrives; one value, so never both. */
  datatype Cue = Silent | Ding | Dong

  function CueFor(soundsEnabled: bool, pctVsLastClose: real): (r: Cue)
    ensures !soundsEnabled ==> r == Silent
    ensures soundsEnabled ==> (r == Ding <==> pctVsLastClose > 0.0)
    ensures soundsEnabled ==> (r == Dong <==> pctVsLastClose < 0.0)
    ensures soundsEnabled ==> (r == Silent <==> pctVsLastClose == 0.0)
  {
    if soundsEnabled then
      if pctVsLastClose > 0.0 then Ding
      else if pctVsLastClose < 0.0 then Dong
      else Silent
    else Silent
  }

  /** The alert and the vs-last-close column apply one sign rule: with
      sound on, the cue is Ding, Dong or silence exactly when that column
      is green, red or grey. */
  lemma CueMatchesTone(soundsEnabled: bool, pct: real)
    requires soundsEnabled
    ensures CueFor(soundsEnabled, pct) == Ding <==> ToneOf(pct) == Success
    ensures CueFor(soundsEnabled, pct) == Dong <==> ToneOf(pct) == Destructive
    ensures CueFor(soundsEnabled, pct) == Silent <==> ToneOf(pct) == Muted
  {
  }

  /** The highlight is the vs-last-close colour, shown only while the row is recent. */
  lemma HighlightMatchesTone(now: int, t: Tick)
    ensures HighlightOf(now, t) == PositiveFlash <==> IsRecent(now, t) && ToneOf(t.pctVsLastClose) == Success
    ensures HighlightOf(now, t) == NegativeFlash <==> IsRecent(now, t) && ToneOf(t.pctVsLastClose) == Destructive
    ensures !IsRecent(now, t) ==> HighlightOf(now, t) == NoFlash
  {
  }

  /** A tick is recent at the moment it is stamped, and once it has
      stopped being recent it never flashes again as the clock moves on. */
  lemma RecencyExpires(q: Quote, received: int, now: int, later: int)
    requires now <= later
    ensures IsRecent(received, Stamp(q, received))
    ensures !IsRecent(now, Stamp(q, received)) ==> HighlightOf(later, Stamp(q, received)) == NoFlash
  {
  }
}
