# Weather dashboard: verified model of the forecast grouping and favorites logic

The weather dashboard is a browser app. It fetches current conditions and a
multi-day forecast for a place and shows them. Almost all of it is network, map,
chart and page glue. This project models the three pieces of `app.js` that are
plain logic:

- **Forecast day-grouping** (`groupForecastToDays`), module `Forecast` in
  `forecast.dfy`. It collapses the raw forecast list (samples every 3 hours)
  into at most six day summaries. Each summary has the UTC calendar day, the
  mean temperature, and the icon and description of the sample closest to
  local noon.
  - The method `GroupForecastToDays` runs the source's single pass. That pass
    appends each sample to its day's bucket. The dictionary it builds is
    modelled as a map plus the sequence of its keys in insertion order; the
    source depends on `Object.keys` keeping that order. Then the method
    summarises the buckets of the first six days.
  - The method is proved equal to the specification function `DaySummaries`.
  - `DaySummaries` is built from `Keys`, the distinct date keys in order of
    first appearance, and `Bucket`, the samples of one key in input order.
    The lemmas below are proved about these functions.
- **Favorites** (`isFavorite`, `toggleFavorite`), module `Favorites` in
  `favorites.dfy`.
  - The class `FavoritesStore` holds the list as a sequence field.
    `ToggleFavorite` reassigns that field.
  - The new list is given by the pure function `Toggled`, whose contract is
    the flip of membership. The lemmas about `Toggled` cover what a toggle
    keeps, toggling twice, and that names stay unique.
- **`capitalize`**, module `TextFormat` in `capitalize.dfy`. It upper-cases
  every word character that starts a word, as the regular expression `\b\w`
  matches. Word characters are `[A-Za-z0-9_]`.

A sample is `Sample(dt, hour, temp, icon, desc)`:

- `dt` is the timestamp in seconds.
- `hour` is the sample's local hour of day (0 to 23). It is given data, because
  the source takes it from the viewer's time zone.
- `temp` is a `real`.
- `icon` and `desc` come from the sample's first weather condition.

The grouping key is `DateKey(dt) = dt / 86400`. Dafny's division rounds down
for a positive divisor, so this is the UTC day that contains the timestamp.
That is the day the source's `toISOString().slice(0,10)` names, counted in
days since the epoch instead of as a `YYYY-MM-DD` string.

## Model

| member | source | states |
|---|---|---|
| Forecast.DateKey | weather-dashboard/app.js:151 | the key of a timestamp is the UTC day containing it: `day*86400 <= dt < (day+1)*86400` |
| Forecast.Keys | weather-dashboard/app.js:149-154 | the dictionary's key order: every key once (no duplicates), and exactly the keys that occur in the input |
| Forecast.Bucket | weather-dashboard/app.js:150-152 | a bucket holds only samples of its own day and is no longer than the input |
| Forecast.GroupForecastToDays | weather-dashboard/app.js:148-161 | the loop that pushes each sample onto its day's bucket, followed by the slice to six days and the per-day map, returns exactly `DaySummaries(list)` |
| Forecast.KeysCount | weather-dashboard/app.js:150-154 | the number of keys equals the number of distinct UTC days in the input |
| Forecast.KeysOfPrefix | weather-dashboard/app.js:150-153 | the keys after reading a prefix of the input are a prefix of the final keys, so new days are only ever appended |
| Forecast.KeysInFirstAppearanceOrder | weather-dashboard/app.js:150-154 | keys are ordered by first appearance, not by date: wherever the q-th key occurs, every earlier key (p < q) has already occurred at an earlier position |
| Forecast.BucketNonEmptyIffKey | weather-dashboard/app.js:150-152 | a day's bucket is non-empty exactly when the day is one of the keys |
| Forecast.BucketCount | weather-dashboard/app.js:150-152 | each sample lands in its own day's bucket with its full multiplicity, and in no other bucket |
| Forecast.BucketAppend | weather-dashboard/app.js:150-152 | bucketing distributes over concatenation, so each bucket keeps the input order |
| Forecast.BucketsPartition | weather-dashboard/app.js:150-152 | the bucket sizes over all keys add up to the input length, so the buckets partition the input |
| Forecast.SumTempsBounds | weather-dashboard/app.js:156-157 | the `reduce` sum of a bucket's temperatures lies between its size times any lower bound and its size times any upper bound of those temperatures |
| Forecast.AvgTemp | weather-dashboard/app.js:156-157 | the average (sum divided by count) of a non-empty bucket lies between its coldest and its warmest temperature, so a one-sample bucket averages to that sample's temperature |
| Forecast.Midday | weather-dashboard/app.js:158 | the `reduce` seeded with the first sample returns a sample of the bucket whose hour is no farther from 12 than any other sample's |
| Forecast.MiddayIsEarliestClosest | weather-dashboard/app.js:158 | the reduce, seeded with the first sample and with a strict `<`, returns a sample of the bucket whose hour is closest to 12, and the earliest such sample among ties |
| Forecast.DaySummaries | weather-dashboard/app.js:154-160 | the `slice(0,6).map(...)` gives `min(number of keys, 6)` entries; entry i is for the i-th key in first-appearance order, and its bucket is non-empty |
| Forecast.SummaryCount | weather-dashboard/app.js:154 | the result has `min(number of distinct UTC days, 6)` entries, and none for an empty forecast |
| Forecast.SummaryEntry | weather-dashboard/app.js:154-159 | entry i is for the i-th day to appear; its bucket is non-empty; its average is the bucket's temperature sum divided by its size; its icon and description are those of the bucket's earliest sample closest to noon |
| Favorites.HasName | weather-dashboard/app.js:164 | `isFavorite`'s scan is true exactly when some entry has that name |
| Favorites.WithoutName | weather-dashboard/app.js:177 | the filter leaves no entry with that name, and only entries of the original list |
| Favorites.WithoutNameCount | weather-dashboard/app.js:177 | the filter removes every entry with that name and keeps every other entry with its multiplicity |
| Favorites.WithoutNameAppend | weather-dashboard/app.js:177 | the filter distributes over concatenation, so the kept entries stay in their original relative order |
| Favorites.WithoutAbsentName | weather-dashboard/app.js:177 | filtering out a name that no entry has leaves the list unchanged |
| Favorites.Toggled | weather-dashboard/app.js:176-178 | the list a toggle produces; `isFavorite(obj.name)` on it is the negation of its value on the old list |
| Favorites.ToggleKeepsOtherNames | weather-dashboard/app.js:176-178 | a toggle does not change whether any other name is a favorite |
| Favorites.ToggleTwiceRestores | weather-dashboard/app.js:176-178 | toggling an entry whose name is absent twice gives back the original list |
| Favorites.TogglePreservesUniqueNames | weather-dashboard/app.js:176-178 | if names are unique before a toggle they are unique after it, because `obj` is appended only when its name is absent |
| Favorites.FavoritesStore.IsFavorite | weather-dashboard/app.js:164 | `isFavorite(name)` is true exactly when some entry of the store's list has that name |
| Favorites.FavoritesStore.constructor | weather-dashboard/app.js:22 | the store starts from the saved list |
| Favorites.FavoritesStore.ToggleFavorite | weather-dashboard/app.js:176-178 | the new list is `Toggled(old list, obj)`: all entries with the name removed if one was present, otherwise `obj` appended; membership of the name flips; other names keep their membership; unique names stay unique |
| TextFormat.ToUpper | weather-dashboard/app.js:185 | upper-casing a word character changes only `a`-`z`, each to the same letter in `A`-`Z`, and keeps it a word character |
| TextFormat.Capitalize | weather-dashboard/app.js:185 | the result has the input's length; character i is upper-cased exactly when it is a word character at a word boundary (at the start, or after a non-word character); all others are unchanged |
| TextFormat.CapitalizeIdempotent | weather-dashboard/app.js:185 | capitalising twice is the same as capitalising once |

## Left out

- Forecast.DateKey: the key is the UTC day number. The source's key is a
  `YYYY-MM-DD` string from `toISOString()`. The two are equivalent only for
  years 0000 to 9999. Outside those years, the source's 10-character slice
  ("+010000-01") names a month rather than a day. Beyond ±8.64e15 ms the
  source throws. The model does not cover either case.
- Forecast.AvgTemp: temperatures are `real`. The model does not cover IEEE
  floating-point rounding in the sum and the division, or `Math.round` in the
  renderers.
- Forecast.GroupForecastToDays: the model takes the sample list itself and
  well-formed samples. In the source, a response without a `list` field, or
  any sample without `dt`, throws. A sample without `main` throws only if its
  day is among the first six, the only days whose temperatures are read. A
  sample whose `main` has no `temp` does not throw: the sum becomes `NaN`, and so does that day's average (only
  for the first six days, the only ones averaged). A sample without
  `weather[0]` throws only if it is its day's representative sample. None of
  these malformed inputs is modelled.
- The local hour of a sample comes from `Date.getHours` in the viewer's time
  zone. It is a field of `Sample`; time-zone conversion is not modelled.
- Favorites.FavoritesStore.ToggleFavorite: the list is a sequence value. The
  source mutates the array in place with `push` and replaces it with the result
  of `filter`. Nothing else holds a reference to that array, so the difference
  is not observable.
- Persistence of the favorites, unit and theme to `localStorage`, and the
  redraw after a toggle (`saveFavorites`, `renderFavorites`, the button label):
  these are side effects with nothing to state.
- Rendering and event wiring (`showSuggestions`, `renderCurrent`,
  `renderDetails`, `renderForecast`, `drawChart`, the theme and unit toggles,
  `init`): page updates only.
- Network requests (`fetchJSON`, `geocode`, `fetchCurrent`, `fetchForecast`,
  `loadWeather`): I/O against the weather service.
- The Leaflet map, Chart.js, `debounce`, timers and geolocation callbacks:
  foreign libraries and asynchronous timing.
- `service-worker.js`: static asset caching through the browser's cache API,
  which is I/O only.
- TextFormat.Capitalize: characters are Unicode scalar values. JavaScript
  strings are UTF-16 code units. Only ASCII characters are word characters for
  `\w`, so the two agree on the result.
