/**
 * modules_library: the five modules that can be selected by name, with their
 * update rates in milliseconds, and what their builds return.
 */
module Registry {
  import opened Wrappers
  import opened Palette
  import BinaryClock
  import NumClock
  import Scheduler

  datatype Kind = Clear | NumTime | NumTimeSeconds | BinaryTime | BinaryTimeSeconds

  /** A library entry: its update rate in milliseconds and the build it runs. */
  datatype Entry = Entry(rate: int, kind: Kind)

  const OneSecond: int := 1000

  /** The clear module, which start-up always runs first. */
  const ClearEntry: Entry := Entry(0, Clear)

  /** modules_library.get(name). */
  function Lookup(name: string): (r: Option<Entry>)
    ensures r.Some? <==> name in {"clear", "num_time", "num_time_s", "binary_time", "binary_time_s"}
    ensures r.Some? ==> (r.value.rate <= 0 <==> r.value.kind == Clear)
    ensures r.Some? ==> r.value.rate in {0, OneSecond, 60 * OneSecond}
    ensures name == "clear" ==> r == Some(ClearEntry)
  {
    if name == "clear" then Some(ClearEntry)
    else if name == "num_time" then Some(Entry(60 * OneSecond, NumTime))
    else if name == "num_time_s" then Some(Entry(OneSecond, NumTimeSeconds))
    else if name == "binary_time" then Some(Entry(60 * OneSecond, BinaryTime))
    else if name == "binary_time_s" then Some(Entry(OneSecond, BinaryTimeSeconds))
    else None
  }

  /**
   * Runs an entry's build at the given time of day. The clear module's build
   * sends its own command and returns None; the clock modules return their
   * faces, the "_s" variants in second mode.
   */
  method Build(e: Entry, hour: Hour, minute: Sixty, second: Sixty) returns (m: Scheduler.Module)
    ensures m.rate == e.rate
    ensures m.result.None? <==> e.kind == Clear
    ensures e.kind == NumTime ==> NumClock.IsNumFace(m.result.value, hour, minute, second, false)
    ensures e.kind == NumTimeSeconds ==> NumClock.IsNumFace(m.result.value, hour, minute, second, true)
    ensures e.kind == BinaryTime ==> BinaryClock.IsBinaryFace(m.result.value, hour, minute, second, false)
    ensures e.kind == BinaryTimeSeconds ==> BinaryClock.IsBinaryFace(m.result.value, hour, minute, second, true)
  {
    var result: Option<map<string, string>>;
    match e.kind {
      case Clear =>
        result := None;
      case NumTime =>
        var keys := NumClock.NumTime(hour, minute, second, false);
        result := Some(keys);
      case NumTimeSeconds =>
        var keys := NumClock.NumTime(hour, minute, second, true);
        result := Some(keys);
      case BinaryTime =>
        var keys := BinaryClock.BinaryTime(hour, minute, second, false);
        result := Some(keys);
      case BinaryTimeSeconds =>
        var keys := BinaryClock.BinaryTime(hour, minute, second, true);
        result := Some(keys);
    }
    m := Scheduler.Module(e.rate, result);
  }
}
