# wind-js-server time grid, resolvers and harvester

A Dafny model of the core of `app.js` in wind-js-server. The server
harvests 6-hourly GFS wind snapshots from NOAA into a `json-data` store and
serves them over HTTP. The model covers four parts:

- **Time grid** (`time_grid.dfy`, module `TimeGrid`): `roundHours` rounds an
  hour down to its 6-hour bucket. From it come the stamp `YYYYMMDDHH` of an
  instant and the upstream directory `YYYYMMDD/HH/atmos`.
- **Snapshot store** (`snapshot_store.dfy`, `SnapshotStore.JsonStore`): the
  set of stamps whose `json-data/<stamp>.json` exists. `checkPath` on a
  JSON file, and a failed `sendFile`, are both membership tests (`Has`).
  The converter writing a file is `Write`.
- **Resolvers** (`resolver.dfy`, module `Resolver`):
  - `/wind/latest` (`SendLatest`) walks back from now.
  - `/wind/nearest` (`SendNearest`) walks back from the requested time
    within `searchLimit` days, then switches to the forward phase through
    the `searchForwards` flag.
  - Each method is a loop. `SendNearest` is proved equal to the
    specification function `Nearest`. Lemmas characterise `Nearest`
    through an independent reference: the candidate instants and the first
    one whose stamp is present.
- **Harvester** (`harvester.dfy`, module `Harvester`):
  - `GetGribData` is the `runQuery` walk, proved equal to `HarvestWalk`.
  - `ConvertGribToJson` makes the backfill decision.
  - `Run` chains harvests through backfills and ends with the store that
    `Harvest` specifies.

Instants are whole UTC hours since 1970-01-01T00:00Z. An instant `t` falls
on day `t / 24` at hour `t % 24`, and belongs to bucket `t / 6`. A stamp is
the value `Stamp(day, hour)`, with the hour rounded down to 0, 6, 12 or 18.
`TimeGrid.Text` spells a stamp as the server does. The date part is the
day number zero-padded to eight digits, which stands in for the calendar
date `YYYYMMDD`. Both are injective, so the store can be keyed by stamp
values: `KeyIsText` and `KeyInjective` connect the two forms.

Upstream replies are a parameter `upstream: Stamp -> Reply`, meaning a
transport error or a status code for the request of that stamp. Whether
`grib2json` succeeds on a download is a parameter `converts: Stamp -> bool`.
The current time is a parameter `now`.

## Model

| member | source | states |
|---|---|---|
| TimeGrid.RoundHours | app.js:244-249 | a label is produced exactly when the interval is positive; otherwise the result is undefined |
| TimeGrid.FloorToMultiple | app.js:246 | the result is a multiple of the interval, at most the hours and more than hours minus the interval |
| TimeGrid.RoundHoursMeaning | app.js:244-249 | for a positive interval the label reads back as floor(hours/interval)·interval; that value is a multiple, is at most the hours and more than hours minus the interval, and a label below 10 is two characters |
| TimeGrid.HourLabelShape | app.js:247 | a label is all digits and at least two long, exactly two below 100, starts with '0' below 10, and reads back as its value |
| TimeGrid.DigitsRoundTrip | app.js:247 | the decimal text of a number reads back as the number |
| TimeGrid.PadStartParse | app.js:84 | padding digit text on the left with zeros, as `padStart(2, '0')` does, leaves its value unchanged |
| TimeGrid.BucketLabelCycles | app.js:49 | an instant's rounded hour is 6·(bucket mod 4), and its label is one of "00", "06", "12", "18" |
| TimeGrid.KeyIsText | app.js:83-84 | the stamp text built at lines 49/141/222 and the padded one built at line 84 are the same, and both spell the instant's stamp value |
| TimeGrid.SameStampIffSameBucket | app.js:141 | two instants have the same stamp if and only if they lie in the same 6-hour bucket |
| TimeGrid.UrlStampParts | app.js:141-142 | a stamp is ten characters; its slices 0-8 and 8-10 are the date and the hour label, they put back together give the stamp, and the urlstamp is date/label/atmos |
| TimeGrid.KeyInjective | app.js:141 | equal stamp texts come from instants with the same stamp value and the same bucket |
| SnapshotStore.JsonStore.Write | app.js:204-209 | writing a snapshot adds exactly its stamp to the store, and the stamp is then present |
| Resolver.SendLatest | app.js:48-61 | the instants looked up are now, now−6h, now−12h, … in order; every one before the last is absent; the answer is the last one's stamp, which is present, and no present stamp at or before now is in a later bucket |
| Resolver.EffectiveLimit | app.js:66 | a missing, non-numeric or zero limit becomes 1; any other limit is kept; the result is never 0 |
| Resolver.Nearest | app.js:97-101 | a missing or invalid time fails with "Invalid timeIso" and looks nothing up |
| Resolver.FirstPresent | app.js:87-93 | the index of the first candidate whose stamp is present: every earlier one is absent and that one is present, or no candidate is present |
| Resolver.BackwardPhase | app.js:69-95 | from the k-th backward candidate on, the walk looks up T−6k, T−6(k+1), …, up to 4·limit candidates; it answers the first stamp present, or else continues with the forward phase after all of them |
| Resolver.ForwardPhase | app.js:69-95 | from the k-th forward candidate on, the walk looks up T+6k, T+6(k+1), …, up to 4·limit candidates; it answers the first stamp present, or else fails after all of them |
| Resolver.ForwardPhaseChecksNothing | app.js:72-79 | as written, the forward phase starts at T+24·limit h, fails with "No data within searchLimit" and looks nothing up |
| Resolver.NearestAsWritten | app.js:64-102 | for limit ≥ 1 the answer is the first present stamp among the 4·limit instants T, T−6h, …, looked up in that order, or failure after all of them; a negative limit fails without any lookup |
| Resolver.NearestNeverLater | app.js:72-79 | no instant after T is looked up; an answer is present, is the stamp of the last instant looked up, and lies fewer than 4·limit buckets back from T's bucket and not after it |
| Resolver.NearestIsLatestInWindow | app.js:69-94 | if any stamp is present in the 4·limit buckets ending at T's, the query succeeds with a bucket no earlier than it: the latest such bucket |
| Resolver.AsWrittenMissesLaterStamp | app.js:75-76 | with limit 1 and only the stamp 6 h after T present, the code as written fails, while the forward phase started from T finds that stamp |
| Resolver.NearestIntended | app.js:75-76 | with the forward phase started at T, a missing or invalid time still fails with "Invalid timeIso" |
| Resolver.NearestIntendedAnswer | app.js:75-76 | with the forward phase started at T, the answer is the first present stamp among T, T−6h, … (4·limit of them), else among T, T+6h, … (as many), else failure |
| Resolver.IntendedFindsWithinLimit | app.js:75-76 | with the forward phase started at T, any stamp fewer than 4·limit buckets before or after T's bucket makes the query succeed with a present stamp inside that window |
| Resolver.SendNearest | app.js:64-102 | the loop with the searchForwards flag returns exactly the answer and the lookups that Nearest specifies |
| Harvester.BeyondHorizonIsDaysDiff | app.js:136-139 | the stop test "more than 30 whole days before now", on day differences truncated toward zero, holds exactly when the candidate is at least 31·24 hours before now |
| Harvester.HarvestWalk | app.js:134-191 | a download is for an instant no later than where the walk started and not beyond the horizon |
| Harvester.WalkShape | app.js:134-191 | the walk requests t, t−6h, … in order, never one beyond the horizon; every request before the last got an error or a non-200 reply; it ends unresolved only past the horizon, otherwise on a 200, as "already have" exactly when that stamp is in the store, and with a download of that stamp otherwise |
| Harvester.WalkStampsDistinct | app.js:161-170 | a walk never requests the same stamp twice |
| Harvester.WalkMonotone | app.js:171-188 | a larger store asks the same requests, and changes the outcome only by turning a download of a stamp it already holds into "already have" |
| Harvester.Harvest | app.js:211-229 | a harvest chain never removes a stamp from the store |
| Harvester.HarvestAddsFetched | app.js:118-121 | when the first walk of a chain downloads a stamp and it converts, that stamp is in the store afterwards |
| Harvester.HarvestBackfills | app.js:220-227 | after a converted download at `at`, the stamp 6 hours earlier is in the store afterwards whenever it is within the horizon, gets a 200 upstream and converts: it was already present, or the next `run` fetches it |
| Harvester.HarvestAddsOnlyConverted | app.js:211-229 | every stamp a chain adds was absent before, is the stamp of an instant after the horizon and no later than the start, got a 200 upstream and converted |
| Harvester.HarvestIdempotent | app.js:171-188 | harvesting again with the same upstream and converter adds nothing |
| Harvester.GetGribData | app.js:131-195 | the loop makes exactly the requests, and ends with exactly the outcome, that HarvestWalk specifies; the store is only read |
| Harvester.ConvertGribToJson | app.js:197-233 | a conversion error changes nothing and ends the chain; a success adds exactly the stamp and continues at at−6h exactly when that stamp is absent |
| Harvester.Run | app.js:117-123 | the store ends as Harvest specifies and only grows |

## Findings

| source | as written | input that shows it | evidently intended | confidence | as-written member | corrected member |
|---|---|---|---|---|---|---|
| app.js:75-76 | the forward phase restarts at T + 24·limit hours, where the exhaustion test at line 72 already holds, so it looks nothing up | limit 1 with only the stamp 6 h after T present: "No data within searchLimit" | the comment at line 75 says the forward phase starts from the initial time, so stamps up to 24·limit hours after T are searched | not executed; the code is certain, the intent rests on the comment | Resolver.AsWrittenMissesLaterStamp | Resolver.IntendedFindsWithinLimit |

`Resolver.Nearest` and `Resolver.SendNearest` keep the behaviour as written,
since that is what the server answers. `Resolver.NearestIntended` is the
same walk with the forward phase restarted at T. Nothing else in the model
depends on either.

## Left out

- Express routing, the CORS whitelist, `app.listen`, the `/wind` and `/wind/alive` greetings, and `res.setHeader`/`res.sendFile` as HTTP plumbing. A `sendFile` error reads as "stamp absent", and the file content sent is not modelled.
- The `request` call to NOAA: its query string (file name, levels, variables, bounding box), response piping and file streams. Only the reply each stamp gets is modelled, as the `upstream` parameter.
- `child_process.exec` of `grib2json` and of `rm grib-data/*`. These are foreign processes; conversion success is the `converts` parameter, and only which stamps have a JSON file is modelled.
- `setInterval` scheduling, the start-up `run`, and any overlap between concurrent runs. These involve timers and concurrency; `Run` models one chain alone.
- Q promises. The promise that is never resolved when the horizon is hit is modelled as the `Unresolved` outcome, after which `run` does nothing.
- moment.js calendar formatting: `YYYYMMDD` is abstracted as the day number zero-padded to eight digits. `TimeGrid.UrlStampParts` and `TimeGrid.KeyInjective` require an instant no earlier than 1970-01-01T00:00Z (`0 <= t`) and a day below 10^8.
- The working directory. The resolvers look files up under the script's directory (app.js:50, app.js:85), while the harvester's dedup check (app.js:172), the converter's output (app.js:205) and the backfill check (app.js:224) use `json-data/` relative to the process's working directory. The model has one store for both, so it assumes the server is started from the script's directory; started elsewhere, harvested files would not be visible to `/wind/latest` and `/wind/nearest`.
- Sub-hour precision: instants are whole hours, so the minutes of `timeIso` and of the clock are not modelled. Hour differences, truncated by moment.js, are then exact.
- The clock is read once, as `now`. The source reads `moment.utc()` again at each harvest step.
- Parsing of `timeIso` and `searchLimit`: a time that is missing or invalid, and a limit that is missing or non-numeric, arrive as `None`.
- The `mkdir` side effect of `checkPath`, the `grib-data` download files, and console logging.
- Resolver.SendLatest: requires that some stamp at or before now is present. The source has no bound and recurses forever on an empty store, which the model does not capture.
- TimeGrid.RoundHours: models integer hours and intervals only; fractional hours are not modelled.
