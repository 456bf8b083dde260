# SmartVan.io calibrated sensor: a Dafny model

This project models the calibration transform of the SmartVan.io Home
Assistant integration. It also proves properties of that model. The
transform is the `SmartVanCalibratedSensor` entity in
`custom_components/smartvanio/sensor.py`.

The entity reads the state of a raw resistive sensor from the host. It
converts the reading into a calibrated value (for example a tank level)
using a table of `(raw, calibrated)` points:

- The points are sorted by raw value. The sort is stable, as Python's
  `sorted` is.
- The first segment `[x1, x2]` that holds the reading is chosen.
- The result is `y1 + (r - x1) * (y2 - y1) / (x2 - x1)` on that segment.
- With fewer than two points, or a reading outside every segment, the
  reading comes back unchanged.
- The code does no clamping and no rounding. A reading below or above the
  table's raw span is returned as it is: `ExampleOutside` proves -5 ↦ -5
  and 10 ↦ 10 on the table `[[0,1],[2,20],[3,40]]`. Only one method,
  linear, exists, and nothing selects a method.
- If the first segment holding the reading has zero width, Python raises
  `ZeroDivisionError`. The model returns that as an explicit error.
- Updating the calibration installs the new table. It also rewrites the
  `"calibration"` key of the configuration entry's data.

Modules:

- `Wrappers` (`wrappers.dfy`): `Option` and `Result`.
- `Points` (`points.dfy`): calibration points and the stable sort by raw
  value, `SortByRaw`. It is proved sorted, a permutation and stable. With
  distinct raw values, its result does not depend on the input order.
- `Interpolation` (`interpolation.dfy`): the transform as a function,
  `Interpolated`, and the lemmas about it.
- `Sensor` (`sensor.dfy`): the entity as a class.
  - It holds the table (`table`), the raw sensor id and its configuration
    entry.
  - `Interpolate` is the source's loop over the sorted segments, proved
    equal to the functional transform.
  - `State` is the guarded state property.
  - `UpdateCalibration` changes the table and the entry's data.

Host collaborators are inputs:

- The host state machine is a `map<string, string>` from entity id to
  state string.
- Python's `float()` is a parser parameter `string -> Option<real>`.
- `json.dumps` is a serialiser parameter `seq<Point> -> string`.
- The configuration entry is a `ConfigEntry` object whose `data` the
  update replaces.

Numbers are `real`.

## Model

| member | source | states |
|---|---|---|
| `Interpolation.Lerp` | custom_components/smartvanio/sensor.py:221 | definition without a contract of its own: the segment formula `y1 + (r - x1) * (y2 - y1) / (x2 - x1)`, defined only for a segment of non-zero width; its properties are `LerpAtEnds`, `LerpBetween` and `LerpMonotone` |
| `Interpolation.Interpolated` | custom_components/smartvanio/sensor.py:211-223 | definition without a contract of its own: the reading itself for a table of fewer than two points, otherwise the transform on the table sorted by raw value; its properties are the `Interpolation` lemmas below, and `Sensor.CalibratedSensor.Interpolate` is proved equal to it |
| `Interpolation.OnSorted` | custom_components/smartvanio/sensor.py:217-223 | definition without a contract of its own: on a sorted table, the reading itself when no segment holds it, the division-by-zero error when the first segment holding it has zero width, and that segment's formula otherwise |
| `Sensor.Evaluate` | custom_components/smartvanio/sensor.py:213-218 | definition without a contract of its own: the unpacking `ValueError` for the placeholder table that line 178 stores, and the transform of the points for an installed table |
| `Sensor.NoReading` | custom_components/smartvanio/sensor.py:196-203 | definition without a contract of its own: the raw entity is missing, its state is `"unknown"` or `"unavailable"`, or its state does not parse as a number; `Sensor.CalibratedSensor.State` returns no value exactly when it holds |
| `Points.SortByRaw` | custom_components/smartvanio/sensor.py:216 | the sorted table has the table's length, is in non-decreasing raw order, and is a permutation (same multiset) of the table |
| `Points.SortIsStable` | custom_components/smartvanio/sensor.py:216 | for every raw value, the points carrying it appear in the sorted table in the same order as in the table (Python's sort is stable) |
| `Points.SortIgnoresOrder` | custom_components/smartvanio/sensor.py:216 | two tables holding the same points with distinct raw values sort to the same sequence |
| `Interpolation.FirstCovering` | custom_components/smartvanio/sensor.py:217-220 | returns the index of a segment `[s[i], s[i+1]]` that holds the reading, and no earlier segment holds it; returns none exactly when no segment holds it |
| `Interpolation.IdentityFallback` | custom_components/smartvanio/sensor.py:213-223 | with fewer than two points, or a reading outside the table's raw span, the result is the reading itself (no clamping); inside the span of a two-or-more-point table some segment is used |
| `Interpolation.ExactAtPoints` | custom_components/smartvanio/sensor.py:216-221 | with distinct raw values, the result at a calibration point's raw value is exactly its calibrated value |
| `Interpolation.WithinFirstSegment` | custom_components/smartvanio/sensor.py:217-221 | inside the raw span, when no exception is raised, the result lies between the calibrated values of the first sorted segment holding the reading, and so between two calibrated values of the table |
| `Interpolation.ZeroDivisionExactly` | custom_components/smartvanio/sensor.py:217-221 | division by zero is raised exactly when the reading is the smallest raw value of the table and at least two points carry it |
| `Interpolation.DistinctNeverRaises` | custom_components/smartvanio/sensor.py:221 | with distinct raw values the transform never raises |
| `Interpolation.OrderIndependent` | custom_components/smartvanio/sensor.py:216 | with distinct raw values, reordering the stored points does not change the result for any reading |
| `Interpolation.Monotone` | custom_components/smartvanio/sensor.py:217-221 | with distinct raw values and calibrated values that grow with raw values, the result is non-decreasing in the reading on the table's raw span |
| `Interpolation.LerpAtEnds` | custom_components/smartvanio/sensor.py:221 | the segment formula gives `y1` at `x1` and `y2` at `x2` |
| `Interpolation.LerpBetween` | custom_components/smartvanio/sensor.py:221 | for a reading inside a segment of positive width, the formula stays between `y1` and `y2` |
| `Interpolation.LerpMonotone` | custom_components/smartvanio/sensor.py:221 | on a segment with `x1 < x2` and `y1 <= y2`, the formula is non-decreasing in the reading |
| `Sensor.CalibratedSensor.Interpolate` | custom_components/smartvanio/sensor.py:211-223 | the loop over sorted segments returns exactly the functional transform of the sensor's current table: the reading for a short table or an uncovered reading, the first covering segment's formula, or the division-by-zero error; the placeholder table raises the unpacking `ValueError` |
| `Sensor.CalibratedSensor.State` | custom_components/smartvanio/sensor.py:193-205 | no value exactly when the raw entity is missing, its state is `"unknown"` or `"unavailable"`, or it does not parse as a number; otherwise the interpolated parsed reading, or the exception the interpolation raises |
| `Sensor.WithCalibration` | custom_components/smartvanio/sensor.py:230 | the new entry data has the old keys plus `"calibration"`, maps `"calibration"` to the serialised table, and keeps every other key's value |
| `Sensor.CalibratedSensor.UpdateCalibration` | custom_components/smartvanio/sensor.py:225-231 | the sensor's table becomes the given points, and the entry's data becomes the old data with only `"calibration"` replaced by the serialised points |
| `Sensor.CalibratedSensor.constructor` | custom_components/smartvanio/sensor.py:170-178 | as written: the calibration argument is ignored and the table is the uninitialised placeholder |
| `Sensor.CalibratedSensor.Installing` | custom_components/smartvanio/sensor.py:170-178 | as evidently intended: the calibration argument becomes the table |
| `Sensor.PlaceholderRaises` | custom_components/smartvanio/sensor.py:178 | a sensor still holding the placeholder raises `ValueError` for every usable reading |
| `Sensor.InstalledExampleReads` | custom_components/smartvanio/sensor.py:193-221 | a sensor holding `[[0,1],[2,20],[3,40]]` reports 10.5 for a state that parses as 1 |
| `Sensor.ExampleInside` | custom_components/smartvanio/sensor.py:217-221 | on `[[0,1],[2,20],[3,40]]` the reading 1 interpolates to 10.5 |
| `Sensor.ExampleOutside` | custom_components/smartvanio/sensor.py:223 | on `[[0,1],[2,20],[3,40]]` the readings -5 and 10 come back unchanged |
| `Sensor.ExampleFallbacks` | custom_components/smartvanio/sensor.py:213-214 | a one-point table returns the reading 5 unchanged; the placeholder raises |

## Findings

| source | as written | input that shows it | evidently intended | confidence | as-written member | corrected member |
|---|---|---|---|---|---|---|
| custom_components/smartvanio/sensor.py:178 | the constructor ignores its `calibration_data` argument and stores the string `"[]"`; `_interpolate` then sorts its two characters and fails to unpack `'['` into `(x1, y1)` | a sensor set up with `[[0,1],[2,20],[3,40]]` and a raw state `"1"`: `state` raises `ValueError` instead of returning 10.5 | `self._calibration_data = calibration_data` | high; not executed | `Sensor.CalibratedSensor.constructor` with `Sensor.PlaceholderRaises` | `Sensor.CalibratedSensor.Installing` with `Sensor.InstalledExampleReads` |

## Left out

- `EsphomeSensor` and `EsphomeTextSensor` (sensor.py:97-164): ESPHome attribute plumbing. It is float finiteness checks, `accuracy_decimals` formatting and date parsing in foreign libraries.
- `async_setup_entry` (sensor.py:38-82): host entity registration and `json.loads` of the stored table.
- `json.dumps` (sensor.py:230): a serialiser parameter. No encoding is modelled.
- `async_schedule_update_ha_state` (sensor.py:233): a host notification with no effect on the modelled state.
- `name`, `unit_of_measurement` and the device-info attributes (sensor.py:179-191, 207-209): constant host metadata.
- The `print` calls in `__init__` (sensor.py:172-173) and in `name` (sensor.py:190): console output with no effect on the modelled state.
- Host calls are not modelled themselves. `hass.states.get` is a map lookup. `config_entries.async_update_entry` is replacing the entry object's data. `async`/`await` scheduling is not modelled.
- Floating point: readings and table entries are `real`. Float rounding in the formula is not modelled. Neither are the non-finite values `float()` accepts (`"nan"`, `"inf"`): the parser returns only reals.
- The entry's data values are modelled as strings. Only the `"calibration"` key's value matters here.
- Tables passed to the calibration update are modelled as lists of pairs. Other shapes are not modelled. With two or more entries Python raises on them: `ValueError` at the unpacking (sensor.py:218-219), or `TypeError` at the sort key (sensor.py:216) or at the comparison (sensor.py:220). With fewer than two entries it returns the reading (sensor.py:213-214).
- `custom_components/smartvanio/config_flow.py` (setup and options forms, discovery, device-info fetching) is not part of this model. Neither is `const.py` (constants only).
