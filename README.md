# astropepites session-planning core, in Dafny

This project models the deterministic core of the astropepites Streamlit
application (`app.py`), an observing planner for amateur astrophotographers:

- **Horizon mask** (`Horizon`): `get_horizon_limit`, the minimum altitude
  visible at an azimuth. It reads one of eight direction sliders (Nord … NW,
  integers 0..90, default 15) through the sector index
  `int(((az + 22.5) % 360) // 45)`. When a two-column (azimuth, altitude)
  table was imported, `numpy.interp` over that table is used instead.
- **Visibility** (`Visibility`): the strict test `alt > limit(az)`. A
  catalog object (a class whose annotation keys the step sets in place)
  gets `visible_now` and its rise and set instants. The loop appends each
  annotated object, in order, to the filtered list.
- **Field of view and mosaic rule** (`Optics`): `calculate_fov`
  (`sensor / focal * 180 / pi`, the small-angle form), applied to the
  sensor width and height at the same focal length. The mosaic warning
  fires when the target's size in arcminutes exceeds 1.5 frame widths.

Numbers are Dafny `real`. Python's float `%` by 360 is written
`x - 360 * floor(x / 360)`, `//` is `Floor`, and `int()` of the
non-negative quotient is its floor. `Pi` is the exact value of the double
`numpy.pi`. The general lemmas use only that it is positive; the worked
example for the database rig needs its value. A target's
altitude/azimuth comes from a `transform` function parameter, which stands
for the astropy coordinate transform. Instants are reals in hours.

The model follows the code as written, including where it is simpler than
a planner of this kind might be expected to be:
- The field of view is the small-angle form, not `2 * atan(s / 2f)`.
- An imported table is clamped beyond its end rows, not wrapped at 360.
- An empty table makes `numpy.interp` raise (`MaskError.EmptyTable`).
  There is no fall-back to 15 degrees.
- Rise and set are placeholders: rise is `now` and set is `now + 12 h`.
  There is no interpolation of crossings.
- A mosaic is only flagged. No panel count is computed.

`numpy.interp` is modelled as a scan for the first table segment whose right
end lies beyond the query. numpy searches tables of more than four rows by
bisection (smaller ones by a linear scan), does not check its inputs and
documents them as sorted. For non-decreasing azimuths every search finds the
same segment, so the model agrees with numpy on every table numpy supports.

## Model

| member | source | states |
|---|---|---|
| Horizon.DefaultMask | app.py:70 | the untouched sliders: eight values, all 15, within 0..90, no table |
| Horizon.TurnMod | app.py:74 | Python's `% 360` lands in [0, 360) and differs from its argument by a whole number of turns |
| Horizon.TurnModUnique | app.py:74 | the only value in [0, 360) that differs from x by whole turns is x % 360 |
| Horizon.SectorIndex | app.py:74 | the sector index is in 0..7 for every real azimuth, so the slider lookup never goes out of bounds |
| Horizon.SectorOwnsInterval | app.py:74 | sector i owns [45i - 22.5, 45i + 22.5) shifted by any whole number of turns, lower boundary included |
| Horizon.SectorContainsAzimuth | app.py:74 | the sector found for az is the one whose interval (shifted by the turn count) contains az |
| Horizon.SectorPeriodic | app.py:74 | the sector index is unchanged by adding 360k for every integer k |
| Horizon.SectorExamples | app.py:70-74 | 100 -> Est (2), 22.5 -> NE (1), 337.5 -> Nord (0), 0 and -22.5 -> Nord, -90 -> Ouest (6), 450 -> Est |
| Horizon.Interp | app.py:73 | `np.interp` fails exactly on an empty table |
| Horizon.InterpBounded | app.py:73 | on any non-empty table, at any azimuth, the result lies between the smallest and largest table altitude |
| Horizon.InterpClamped | app.py:73 | left of the first row the first altitude, at or right of the last row the last altitude (no wrap) |
| Horizon.InterpOnSegment | app.py:73 | inside a non-decreasing table, the result is the straight line through the two rows enclosing the query |
| Horizon.InterpAtSample | app.py:73 | at a table azimuth of a strictly increasing table, the result is that row's altitude |
| Horizon.Limit | app.py:71-75 | fails exactly when an empty table is loaded; without a table, the result is one of the eight slider values and lies in [0, 90] |
| Horizon.LimitPeriodic | app.py:74-75 | the slider mask satisfies limit(az + 360k) == limit(az) for every integer k |
| Horizon.LimitOnSector | app.py:70-75 | over sector i's interval, the slider mask answers slider i's value |
| Horizon.LimitFromTable | app.py:72-73 | a loaded table overrides the sliders (any other slider values give the same limit), and the limit stays within the table's altitudes |
| Horizon.DefaultMaskLimit | app.py:70-75 | default sliders give 15 degrees at every azimuth |
| Horizon.EastSliderExample | app.py:70-75 | sliders 15,15,20,30,15,15,20,15 give 20 at azimuth 100 |
| Visibility.VisibleNow | app.py:137 | fails exactly when the mask lookup fails; otherwise true iff the altitude is strictly above the limit at the azimuth |
| Visibility.OnMaskNotVisible | app.py:137 | a target exactly on the mask, or below it, is not visible |
| Visibility.SliderVisibility | app.py:137 | with sliders only: above 90 always visible, at or below 0 never, and visibility is periodic in azimuth |
| Visibility.DefaultMaskExample | app.py:137 | all sliders 15: altitude 20 in the East is visible, altitude 15 is not |
| Visibility.CatalogObject.constructor | app.py:135 | a catalog entry starts with no annotation keys |
| Visibility.CatalogObject.Annotate | app.py:137-140 | sets visible_now, rise = now, set = now + 12 h; when the lookup raises, sets nothing |
| Visibility.PlaceholderWindow | app.py:137-140 | an annotated object has rise <= now <= set, and a visible one is above its limit |
| Visibility.AnnotateAll | app.py:135-141 | every object is annotated at its transformed position and appended in order (filtered == objects); on a failing lookup nothing is set or appended |
| Optics.Fov | app.py:110-112 | fails exactly at zero focal length; otherwise fov * pi * focal == 180 * sensor (degrees of a sensor/focal radian angle) |
| Optics.FovIncreasingInSensor | app.py:110-112 | for a positive focal length, strictly increasing in the sensor size |
| Optics.FovDecreasingInFocal | app.py:110-112 | for a positive sensor size, strictly decreasing in the focal length |
| Optics.FovLinearInSensor | app.py:110-112 | linear in the sensor size |
| Optics.Frame | app.py:168-179 | width and height use the same focal length, and the mosaic verdict is `size > fov_width * 60 * 1.5` |
| Optics.FrameWidthAtLeastHeight | app.py:171-172 | a sensor at least as wide as it is high gives a field at least as wide as it is high |
| Optics.MosaicMonotone | app.py:179 | a wider field, or a smaller target, never turns a target that fits into one needing a mosaic |
| Optics.MosaicIgnoresHeight | app.py:179 | only the sensor width decides the verdict |
| Optics.MosaicMonotoneInFocal | app.py:110-179 | a longer focal length can make a fitting target need a mosaic, never the reverse |
| Optics.DefaultRigFrame | app.py:100-179 | the database rig (340 mm, 13.2 x 8.8 mm) gives about 2.22 x 1.48 degrees; targets up to 200 arcminutes fit, from 201 they need a mosaic |

## Left out

- Streamlit widgets, sidebar layout and the polar compass plot (app.py:63-70, 77-88, 143-180): user interface only. The sliders' range and the eight directions are kept, as `ValidMask`.
- Reading the uploaded CSV (`pd.read_csv`, app.py:66-68): file parsing. A file with fewer than two columns would make `iloc[:,1]` raise; the model takes the table as (azimuth, altitude) rows.
- The astropy coordinate transform (app.py:135-136) and the 12-hour altitude sampling for the chart (app.py:150-153): a foreign library. Positions are the `transform` parameter; a malformed coordinate string, which would make astropy raise, is not modelled.
- The lines shown for commit 0018cfc do not include the loop header or any filter around app.py:135-141. `AnnotateAll` runs over the objects that reach app.py:135, starting from an empty filtered list.
- Visibility.AnnotateAll: its `err` result models the `ValueError` of an empty table as an exception that leaves the loop uncaught. The lines shown for commit 0018cfc include no handler; if the enclosing code caught it per object, the loop would go on, and still nothing would be set or appended, but no error would come back.
- Horizon.Interp: agrees with numpy only on tables with non-decreasing azimuths (numpy's documented input). On an unsorted table of more than four rows numpy's bisection can pick another segment than the model's scan; the model's result then still lies within the table's altitudes.
- Formatting rise/set as local-time `%H:%M` strings (app.py:139-140): the model keeps the instants.
- The NASA image (app.py:116-130) and OpenWeather (app.py:182-192) requests: network I/O.
- The CSV export with rounding (app.py:194-198), secrets and geolocation defaults (app.py:49-56): I/O and configuration.
- The placeholder definitions at app.py:62 and app.py:104: later definitions in the same module replace them.
- Floating-point rounding. Over the reals the sector index is always in 0..7. In IEEE doubles, an azimuth just below -22.5 makes `% 360` round to 360.0, which would index past the sliders. Astropy azimuths lie in [0, 360), so this input does not arise.
- `numpy.interp`'s NaN handling and its `left`/`right`/`period` arguments (unused by the application).
