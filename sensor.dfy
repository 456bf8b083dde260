/**
 * The calibrated sensor entity: it holds a calibration table, reads the
 * state of a raw sensor from the host's state machine, interpolates it,
 * and writes an updated table back to its configuration entry.
 */
module Sensor {
  import opened Wrappers
  import opened Points
  import opened Interpolation

  /** The entry-data key under which the serialised table is stored. */
  const CalibrationKey := "calibration"

  /** Host states that mean the raw sensor has no reading. */
  const Unknown := "unknown"
  const Unavailable := "unavailable"

  /**
   * The sensor's calibration table: either still the placeholder the
   * constructor installs (the two-character string "[]", whose characters
   * cannot be unpacked into points), or a list of points.
   */
  datatype Table = Uninitialised | Installed(points: seq<Point>)

  /** The calibrated value of reading r under the sensor's table, or the exception raised. */
  function Evaluate(table: Table, r: real): Result<real, Exception> {
    match table
    case Uninitialised => Err(ValueError)
    case Installed(points) => Interpolated(points, r)
  }

  /** Entry data with the "calibration" key set to `encoded` and every other key kept. */
  function WithCalibration(data: map<string, string>, encoded: string): (r: map<string, string>)
    ensures r.Keys == data.Keys + {CalibrationKey}
    ensures r[CalibrationKey] == encoded
    ensures forall k :: k in data && k != CalibrationKey ==> k in r && r[k] == data[k]
  {
    data[CalibrationKey := encoded]
  }

  /** The raw sensor has no usable reading: it is missing, unknown, unavailable or not a number. */
  predicate NoReading(states: map<string, string>, id: string, parse: string -> Option<real>) {
    id !in states || states[id] == Unknown || states[id] == Unavailable || parse(states[id]).None?
  }

  /** The host's configuration entry of the sensor; the host replaces its data wholesale. */
  class ConfigEntry {
    var data: map<string, string>

    constructor (data: map<string, string>)
      ensures this.data == data
    {
      this.data := data;
    }
  }

  class CalibratedSensor {
    const rawSensorId: string
    const entry: ConfigEntry
    var table: Table

    /** As written: the calibration argument is ignored and the placeholder is installed. */
    constructor (entry: ConfigEntry, rawSensorId: string, calibration: seq<Point>)
      ensures this.entry == entry && this.rawSensorId == rawSensorId
      ensures table == Uninitialised
    {
      this.entry := entry;
      this.rawSensorId := rawSensorId;
      table := Uninitialised;
    }

    /** As evidently intended: the calibration argument becomes the table. */
    constructor Installing(entry: ConfigEntry, rawSensorId: string, calibration: seq<Point>)
      ensures this.entry == entry && this.rawSensorId == rawSensorId
      ensures table == Installed(calibration)
    {
      this.entry := entry;
      this.rawSensorId := rawSensorId;
      table := Installed(calibration);
    }

    /**
     * The sensor's state: no value when the raw sensor has no usable
     * reading, otherwise the interpolated reading (or the exception the
     * interpolation raises).
     */
    function State(states: map<string, string>, parse: string -> Option<real>): (res: Result<Option<real>, Exception>)
      reads this
      ensures res == Ok(None) <==> NoReading(states, rawSensorId, parse)
      ensures !NoReading(states, rawSensorId, parse) ==>
                var v := parse(states[rawSensorId]).value;
                match Evaluate(table, v)
                case Ok(y) => res == Ok(Some(y))
                case Err(e) => res == Err(e)
    {
      if rawSensorId !in states then Ok(None)
      else
        var raw := states[rawSensorId];
        if raw == Unknown || raw == Unavailable then Ok(None)
        else
          match parse(raw)
          case None => Ok(None)
          case Some(v) =>
            match Evaluate(table, v)
            case Ok(y) => Ok(Some(y))
            case Err(e) => Err(e)
    }

    /**
     * Sorts the table and walks its segments in order, interpolating on the
     * first one that holds the reading.
     */
    method Interpolate(rawValue: real) returns (res: Result<real, Exception>)
      ensures res == Evaluate(table, rawValue)
    {
      if table.Uninitialised? {
        return Err(ValueError);
      }
      var points := table.points;
      if |points| < 2 {
        return Ok(rawValue);
      }
      var sorted := SortByRaw(points);
      assert Evaluate(table, rawValue) == OnSorted(sorted, rawValue);
      for i := 0 to |sorted| - 1
        invariant forall j :: 0 <= j < i ==> !Covers(sorted, j, rawValue)
      {
        var x1, x2 := sorted[i].0, sorted[i + 1].0;
        if x1 <= rawValue <= x2 {
          OnSortedSegment(sorted, i, rawValue);
          if x2 - x1 == 0.0 {
            return Err(ZeroDivisionError);
          }
          return Ok(Lerp(sorted[i], sorted[i + 1], rawValue));
        }
      }
      OnSortedUncovered(sorted, rawValue);
      return Ok(rawValue);
    }

    /**
     * Installs a new table and stores its serialised form under the
     * "calibration" key of the entry's data, leaving every other key as it was.
     */
    method UpdateCalibration(calibration: seq<Point>, serialise: seq<Point> -> string)
      modifies this, entry
      ensures table == Installed(calibration)
      ensures entry.data == WithCalibration(old(entry.data), serialise(calibration))
    {
      table := Installed(calibration);
      var updated := WithCalibration(entry.data, serialise(calibration));
      entry.data := updated;
    }
  }

  /**
   * Until the table is updated, a sensor built by the constructor as
   * written raises on every usable reading, whatever table it was given.
   */
  lemma PlaceholderRaises(sensor: CalibratedSensor, states: map<string, string>, parse: string -> Option<real>)
    requires sensor.table == Uninitialised
    requires !NoReading(states, sensor.rawSensorId, parse)
    ensures sensor.State(states, parse) == Err(ValueError)
  {
  }

  /** The three-point table [[0,1],[2,20],[3,40]]. */
  const Example: seq<Point> := [(0.0, 1.0), (2.0, 20.0), (3.0, 40.0)]

  /** The example table is already sorted by raw value. */
  lemma ExampleSorted()
    ensures SortByRaw(Example) == Example
  {
    var last := [(3.0, 40.0)];
    assert last[1..] == [];
    assert SortByRaw(last) == last;
    var two := [(2.0, 20.0), (3.0, 40.0)];
    assert two[1..] == last;
    assert SortByRaw(two) == Insert((2.0, 20.0), last);
    assert SortByRaw(two) == two;
    assert Example[1..] == two;
    assert SortByRaw(Example) == Insert((0.0, 1.0), two);
  }

  /** On the example table a reading inside the raw span is interpolated. */
  lemma ExampleInside()
    ensures Evaluate(Installed(Example), 1.0) == Ok(10.5)
  {
    ExampleSorted();
    assert Evaluate(Installed(Example), 1.0) == OnSorted(Example, 1.0);
    assert Covers(Example, 0, 1.0);
    OnSortedSegment(Example, 0, 1.0);
    assert Lerp(Example[0], Example[1], 1.0) == 1.0 + 1.0 * 19.0 / 2.0;
  }

  /** On the example table readings outside the raw span come back unchanged: no clamping. */
  lemma ExampleOutside()
    ensures Evaluate(Installed(Example), -5.0) == Ok(-5.0)
    ensures Evaluate(Installed(Example), 10.0) == Ok(10.0)
  {
    assert !InRawRange(Example, -5.0) by {
      assert forall p :: p in Example ==> p.0 >= 0.0;
    }
    assert !InRawRange(Example, 10.0) by {
      assert forall p :: p in Example ==> p.0 <= 3.0;
    }
    IdentityFallback(Example, -5.0);
    IdentityFallback(Example, 10.0);
  }

  /**
   * A sensor holding the example table, as the corrected constructor
   * installs it, reports 10.5 for a raw state that parses as 1.
   */
  lemma InstalledExampleReads(sensor: CalibratedSensor, states: map<string, string>, parse: string -> Option<real>)
    requires sensor.table == Installed(Example)
    requires !NoReading(states, sensor.rawSensorId, parse)
    requires parse(states[sensor.rawSensorId]) == Some(1.0)
    ensures sensor.State(states, parse) == Ok(Some(10.5))
  {
    ExampleInside();
  }

  /** A one-point table is the identity, and the placeholder raises. */
  lemma ExampleFallbacks()
    ensures Evaluate(Installed([(0.0, 1.0)]), 5.0) == Ok(5.0)
    ensures Evaluate(Uninitialised, 1.0) == Err(ValueError)
  {
  }
}
