/** The session engine of the market clock view model: on each tick it reads
    every configured market's local wall clock at one shared instant and
    publishes, per market and in order, its position on the 24-hour bar and
    whether the market is open. */
module MarketClock {
  import opened Wrappers
  import opened Formatting
  import opened MarketTypes

  const TotalSecondsInDay: int := 86400

  /** An absolute instant, as `Date()` returns it. */
  type Instant = int

  /** The hour, minute and second components of an instant in some zone. */
  datatype LocalTime = LocalTime(hour: Hour, minute: Minute, second: Second)

  /** The Foundation services the engine calls: `TimeZone(identifier:)`,
      `TimeZone.current` and `Calendar.dateComponents` in a given zone. */
  datatype Foundation = Foundation(
    zoneNamed: string -> Option<Zone>,
    currentZone: Zone,
    dateComponents: (Zone, Instant) -> LocalTime)

  /** The fixed list of markets the view model shows. */
  function Markets(): (ms: seq<MarketConfig>)
    ensures |ms| == 3
  {
    [ MarketConfig("London (LSE)", "London", "Europe/London", 8, 0, 16, 30),
      MarketConfig("New York (NYSE/NASDAQ)", "New York", "America/New_York", 9, 30, 16, 0),
      MarketConfig("Sydney (ASX)", "Sydney", "Australia/Sydney", 10, 0, 16, 0) ]
  }

  /** No configured session crosses local midnight. */
  lemma MarketsSessionsWithinDay()
    ensures forall i :: 0 <= i < |Markets()| ==> Markets()[i].SessionWithinDay()
  {
  }

  /** Seconds since local midnight; distinct readings give distinct counts. */
  function SecondsSinceMidnight(t: LocalTime): (s: int)
    ensures 0 <= s < TotalSecondsInDay
    ensures s / 3600 == t.hour && s % 3600 / 60 == t.minute && s % 60 == t.second
  {
    t.hour * 3600 + t.minute * 60 + t.second
  }

  /** A count of seconds as a fraction of the day. */
  function Progress(seconds: int): (p: real)
    ensures p * TotalSecondsInDay as real == seconds as real
  {
    seconds as real / TotalSecondsInDay as real
  }

  /** Dividing by the length of the day keeps the order of seconds, both ways. */
  lemma ProgressOrder(a: int, b: int)
    ensures a <= b <==> Progress(a) <= Progress(b)
    ensures a < b <==> Progress(a) < Progress(b)
  {
  }

  /** A count of seconds within one day is a fraction in [0, 1). */
  lemma ProgressInDay(seconds: int)
    requires 0 <= seconds < TotalSecondsInDay
    ensures 0.0 <= Progress(seconds) < 1.0
  {
    ProgressOrder(0, seconds);
    ProgressOrder(seconds, TotalSecondsInDay);
  }

  /** The day's progress peaks one second before midnight at 86399/86400,
      and is exactly one half at noon. */
  lemma DayProgressExtremes(t: LocalTime)
    ensures Progress(SecondsSinceMidnight(t)) <= Progress(SecondsSinceMidnight(LocalTime(23, 59, 59)))
    ensures Progress(SecondsSinceMidnight(LocalTime(23, 59, 59))) == 86399.0 / 86400.0
    ensures Progress(SecondsSinceMidnight(LocalTime(12, 0, 0))) == 0.5
  {
    ProgressOrder(SecondsSinceMidnight(t), 86399);
  }

  /** The session test: the opening second is inside, the closing second is not. */
  predicate InSession(config: MarketConfig, seconds: int)
    ensures InSession(config, seconds)
        <==> Progress(config.OpenSeconds()) <= Progress(seconds) < Progress(config.CloseSeconds())
  {
    ProgressOrder(config.OpenSeconds(), seconds);
    ProgressOrder(seconds, config.CloseSeconds());
    seconds >= config.OpenSeconds() && seconds < config.CloseSeconds()
  }

  /** The status label for an open or closed market. */
  function StatusText(isOpen: bool): (text: string)
    ensures |text| > 0
  {
    if isOpen then "MARKET OPEN" else "MARKET CLOSED"
  }

  /** The label tells an open market from a closed one. */
  lemma StatusTextDistinct(a: bool, b: bool)
    ensures StatusText(a) == StatusText(b) <==> a == b
  {
    assert StatusText(true)[7] != StatusText(false)[7];
  }

  /** The state of one market at a local reading `t` of its clock. The
      three lemmas after it say what the state means. */
  function MarketStateAt(config: MarketConfig, t: LocalTime): (r: MarketState)
    ensures r.config == config
  {
    var currentSeconds := SecondsSinceMidnight(t);
    var openSeconds := config.OpenSeconds();
    var closeSeconds := config.CloseSeconds();
    var isOpen := InSession(config, currentSeconds);
    MarketState(
      config := config,
      localTimeString := FormatHHMMSS(t.hour, t.minute, t.second),
      statusText := StatusText(isOpen),
      isOpen := isOpen,
      currentDayProgress := Progress(currentSeconds),
      openProgress := Progress(openSeconds),
      closeProgress := Progress(closeSeconds),
      openTimeDisplay := FormatHHMM(config.openHour, config.openMinute),
      closeTimeDisplay := FormatHHMM(config.closeHour, config.closeMinute))
  }

  /** The session test: open from the opening second inclusive to the
      closing second exclusive, equivalently from the opening to the closing
      position on the bar; the label follows the flag. */
  lemma MarketStateAtSession(config: MarketConfig, t: LocalTime)
    ensures MarketStateAt(config, t).isOpen
        <==> config.OpenSeconds() <= SecondsSinceMidnight(t) < config.CloseSeconds()
    ensures var r := MarketStateAt(config, t);
            r.isOpen <==> r.openProgress <= r.currentDayProgress < r.closeProgress
    ensures var r := MarketStateAt(config, t); r.statusText == StatusText(r.isOpen)
  {
    var current, open, close := SecondsSinceMidnight(t), config.OpenSeconds(), config.CloseSeconds();
    ProgressOrder(open, current);
    ProgressOrder(current, close);
  }

  /** The three positions are the seconds over 86400, each in [0, 1), so on
      the bar; a same-day session closes to the right of where it opens. */
  lemma MarketStateAtOnBar(config: MarketConfig, t: LocalTime)
    ensures var r := MarketStateAt(config, t);
            0.0 <= r.currentDayProgress < 1.0 && 0.0 <= r.openProgress < 1.0 && 0.0 <= r.closeProgress < 1.0
    ensures MarketStateAt(config, t).OnBar()
    ensures config.SessionWithinDay() ==> MarketStateAt(config, t).openProgress < MarketStateAt(config, t).closeProgress
    ensures var r := MarketStateAt(config, t);
            r.currentDayProgress * 86400.0 == SecondsSinceMidnight(t) as real
            && r.openProgress * 86400.0 == config.OpenSeconds() as real
            && r.closeProgress * 86400.0 == config.CloseSeconds() as real
  {
    var current, open, close := SecondsSinceMidnight(t), config.OpenSeconds(), config.CloseSeconds();
    ProgressInDay(current);
    ProgressInDay(open);
    ProgressInDay(close);
    ProgressOrder(open, close);
  }

  /** The local time text reads back as the clock reading, and the opening
      and closing texts read back as the trading hours. */
  lemma MarketStateAtDisplays(config: MarketConfig, t: LocalTime)
    ensures var r := MarketStateAt(config, t);
            IsHHMMSS(r.localTimeString) && ParseHHMMSS(r.localTimeString) == (t.hour, t.minute, t.second)
    ensures var r := MarketStateAt(config, t);
            IsHHMM(r.openTimeDisplay) && ParseHHMM(r.openTimeDisplay) == (config.openHour, config.openMinute)
    ensures var r := MarketStateAt(config, t);
            IsHHMM(r.closeTimeDisplay) && ParseHHMM(r.closeTimeDisplay) == (config.closeHour, config.closeMinute)
  {
  }

  /** London opens at 08:00:00 sharp, is still open at 16:29:59, is closed
      at 16:30:00 and was closed one second before opening. */
  lemma LondonBoundaries()
    ensures MarketStateAt(Markets()[0], LocalTime(8, 0, 0)).isOpen
    ensures MarketStateAt(Markets()[0], LocalTime(16, 29, 59)).isOpen
    ensures !MarketStateAt(Markets()[0], LocalTime(16, 30, 0)).isOpen
    ensures !MarketStateAt(Markets()[0], LocalTime(7, 59, 59)).isOpen
  {
  }

  /** The state of `config` at instant `now`, its clock read in the market's zone. */
  function MarketStateNow(config: MarketConfig, now: Instant, host: Foundation): (r: MarketState)
    ensures r.config == config
  {
    MarketStateAt(config, host.dateComponents(config.TimeZone(host.zoneNamed, host.currentZone), now))
  }

  /** An identifier Foundation does not know still yields a state, read in
      the current zone; a known one is read in the zone it names. */
  lemma MarketStateNowZone(config: MarketConfig, now: Instant, host: Foundation)
    ensures host.zoneNamed(config.timeZoneID).None? ==>
              MarketStateNow(config, now, host) == MarketStateAt(config, host.dateComponents(host.currentZone, now))
    ensures host.zoneNamed(config.timeZoneID).Some? ==>
              MarketStateNow(config, now, host)
              == MarketStateAt(config, host.dateComponents(host.zoneNamed(config.timeZoneID).value, now))
  {
  }

  /** The per-market step of one tick at `now`, as a function value. */
  function StateAtInstant(now: Instant, host: Foundation): (f: MarketConfig -> MarketState)
    ensures forall c :: f(c).config == c
  {
    c => MarketStateNow(c, now, host)
  }

  /** `f` applied to each element of `cs`, in order, as a loop that
      appends one result per element builds it. */
  function MapInOrder<C, S>(cs: seq<C>, f: C -> S): (r: seq<S>)
    ensures |r| == |cs|
  {
    if cs == [] then [] else MapInOrder(cs[..|cs| - 1], f) + [f(cs[|cs| - 1])]
  }

  /** Element `i` of the mapped list is `f` of element `i`. */
  lemma {:induction false} MapInOrderAt<C, S>(cs: seq<C>, f: C -> S, i: nat)
    requires i < |cs|
    ensures MapInOrder(cs, f)[i] == f(cs[i])
  {
    var front := cs[..|cs| - 1];
    if i < |cs| - 1 {
      MapInOrderAt(front, f, i);
      assert front[i] == cs[i];
    }
  }

  /** Mapping one more element appends its image. */
  lemma MapInOrderExtend<C, S>(cs: seq<C>, f: C -> S, i: nat)
    requires i < |cs|
    ensures MapInOrder(cs[..i + 1], f) == MapInOrder(cs[..i], f) + [f(cs[i])]
  {
    assert cs[..i + 1][..i] == cs[..i];
  }

  /** The list published for one tick: every market's state at the one
      shared instant `now`, in the order of `markets`. */
  function Snapshot(markets: seq<MarketConfig>, now: Instant, host: Foundation): (r: seq<MarketState>)
    ensures |r| == |markets|
  {
    MapInOrder(markets, StateAtInstant(now, host))
  }

  /** One more iteration of the tick's loop: reading market `i`'s clock in
      its zone and appending its state extends the snapshot by one market. */
  lemma SnapshotExtend(markets: seq<MarketConfig>, i: nat, now: Instant, host: Foundation)
    requires i < |markets|
    ensures Snapshot(markets[..i + 1], now, host)
         == Snapshot(markets[..i], now, host)
            + [MarketStateAt(markets[i], host.dateComponents(markets[i].TimeZone(host.zoneNamed, host.currentZone), now))]
  {
    MapInOrderExtend(markets, StateAtInstant(now, host), i);
  }

  /** State `i` of the snapshot is market `i`'s state at the shared instant,
      carrying market `i`'s configuration. */
  lemma SnapshotAt(markets: seq<MarketConfig>, i: nat, now: Instant, host: Foundation)
    requires i < |markets|
    ensures Snapshot(markets, now, host)[i] == MarketStateNow(markets[i], now, host)
    ensures Snapshot(markets, now, host)[i].config == markets[i]
  {
    MapInOrderAt(markets, StateAtInstant(now, host), i);
  }

  /** A market's state does not depend on the markets around it: the same
      configuration at the same instant yields the same state wherever it sits. */
  lemma SnapshotIndependent(ms1: seq<MarketConfig>, i: nat, ms2: seq<MarketConfig>, j: nat,
                            now: Instant, host: Foundation)
    requires i < |ms1| && j < |ms2| && ms1[i] == ms2[j]
    ensures Snapshot(ms1, now, host)[i] == Snapshot(ms2, now, host)[j]
  {
    SnapshotAt(ms1, i, now, host);
    SnapshotAt(ms2, j, now, host);
  }

  class MarketClockViewModel {
    /** The published list the view observes. */
    var marketStates: seq<MarketState>
    const markets: seq<MarketConfig>

    /** Builds the view model and publishes the first tick at `now`. The
        once-a-second timer that calls `UpdateTimes` afterwards is external. */
    constructor (now: Instant, host: Foundation)
      ensures markets == Markets()
      ensures marketStates == Snapshot(markets, now, host)
    {
      markets := Markets();
      marketStates := [];
      new;
      UpdateTimes(now, host);
    }

    /** Reads every market's clock at the single instant `now` and replaces
        the published list with one state per market, in order. */
    method UpdateTimes(now: Instant, host: Foundation)
      modifies this
      ensures marketStates == Snapshot(markets, now, host)
    {
      var newStates: seq<MarketState> := [];
      for i := 0 to |markets|
        invariant newStates == Snapshot(markets[..i], now, host)
      {
        var market := markets[i];
        var zone := market.TimeZone(host.zoneNamed, host.currentZone);
        var components := host.dateComponents(zone, now);
        var state := MarketStateAt(market, components);
        SnapshotExtend(markets, i, now, host);
        newStates := newStates + [state];
      }
      assert markets[..|markets|] == markets;
      marketStates := newStates;
    }
  }
}
