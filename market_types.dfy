/** The value types of the market clock: a market's static configuration and
    the state the engine builds for it on each tick. */
module MarketTypes {
  import opened Wrappers

  /** A local 24-hour wall-clock field. */
  type Hour = h: int | 0 <= h < 24
  type Minute = m: int | 0 <= m < 60
  type Second = s: int | 0 <= s < 60

  /** A Foundation time zone, known only by its identifier. */
  datatype Zone = Zone(identifier: string)

  /** One market's static configuration: display names, its IANA time zone
      identifier and its trading hours in local 24-hour time. The record's
      UUID, emoji flag and accent colour are not modelled. */
  datatype MarketConfig = MarketConfig(
    name: string,
    regionName: string,
    timeZoneID: string,
    openHour: Hour,
    openMinute: Minute,
    closeHour: Hour,
    closeMinute: Minute)
  {
    /** The time zone the market's clock is read in: the zone named by
        `timeZoneID` when Foundation knows it, otherwise the current zone.
        `zoneNamed` stands for `TimeZone(identifier:)`, `currentZone` for
        `TimeZone.current`. */
    function TimeZone(zoneNamed: string -> Option<Zone>, currentZone: Zone): (z: Zone)
      ensures zoneNamed(timeZoneID).Some? ==> z == zoneNamed(timeZoneID).value
      ensures zoneNamed(timeZoneID).None? ==> z == currentZone
    {
      zoneNamed(timeZoneID).GetOr(currentZone)
    }

    /** Seconds from local midnight to the opening bell. */
    function OpenSeconds(): (s: int)
      ensures 0 <= s < 86400 && s % 60 == 0
      ensures s / 3600 == openHour && s % 3600 / 60 == openMinute
    {
      openHour * 3600 + openMinute * 60
    }

    /** Seconds from local midnight to the closing bell. */
    function CloseSeconds(): (s: int)
      ensures 0 <= s < 86400 && s % 60 == 0
      ensures s / 3600 == closeHour && s % 3600 / 60 == closeMinute
    {
      closeHour * 3600 + closeMinute * 60
    }

    /** The session opens and closes on the same local day: the opening
        time comes strictly before the closing time on the 24-hour clock. */
    predicate SessionWithinDay()
      ensures SessionWithinDay()
          <==> openHour < closeHour || (openHour == closeHour && openMinute < closeMinute)
    {
      OpenSeconds() < CloseSeconds()
    }
  }

  /** What the engine publishes for one market on one tick. */
  datatype MarketState = MarketState(
    config: MarketConfig,
    localTimeString: string,
    statusText: string,
    isOpen: bool,
    currentDayProgress: real,
    openProgress: real,
    closeProgress: real,
    openTimeDisplay: string,
    closeTimeDisplay: string)
  {
    /** The three positions on the 24-hour bar lie between 0.0 and 1.0. */
    predicate OnBar() {
      0.0 <= currentDayProgress <= 1.0 && 0.0 <= openProgress <= 1.0 && 0.0 <= closeProgress <= 1.0
    }
  }
}
