/** The feed's message format and the receive stamp. */
module Ticks {

  /** One decoded feed message: the fields the screen reads. */
  datatype Quote = Quote(
    symbol: string,
    time: string,
    price: real,
    dayOpen: real,
    pctVsDayOpen: real,
    pctVsLastClose: real,
    direction: string)

  /** A quote stamped on arrival with its local receive time `_updated`,
      in milliseconds since the epoch. */
  datatype Tick = Tick(
    symbol: string,
    time: string,
    price: real,
    dayOpen: real,
    pctVsDayOpen: real,
    pctVsLastClose: real,
    direction: string,
    updated: int)

  /** What `JSON.parse` makes of one inbound frame: a quote, or a throw. */
  datatype Payload = Parsed(quote: Quote) | Unparsable

  /** `data._updated = Date.now()`: the stamp overwrites any `_updated`
      the payload itself carried and leaves every other field alone. */
  function Stamp(q: Quote, now: int): (t: Tick)
    ensures t.updated == now
    ensures t.symbol == q.symbol && t.time == q.time && t.price == q.price
    ensures t.dayOpen == q.dayOpen && t.direction == q.direction
    ensures t.pctVsDayOpen == q.pctVsDayOpen && t.pctVsLastClose == q.pctVsLastClose
  {
    Tick(q.symbol, q.time, q.price, q.dayOpen, q.pctVsDayOpen, q.pctVsLastClose, q.direction, now)
  }
}
