# Discord-bot dashboard: the computational core

This project models, in Dafny, the parts of the dashboard that compute
values rather than move them around. On the server (`server.js`):

- the `/api/stats` aggregation of analytics rows into counters and day buckets;
- the `time_left_seconds` countdown of auto-delete channels;
- the in-memory changelog and its view counter;
- the map store, where a map's id is its stored file name without the
  extension.

On the client (`public/app.js`):

- the timeline normaliser that turns a stats response into chart points;
- `formatTime`;
- the colour helpers `hexToRgba`, `rgbToHex`, `rgbToCmyk`, `rgbToHsv` and
  `rgbToHsl`.

Modules:

| file | module | models |
|---|---|---|
| `optional.dfy` | `Optional` | `Option` |
| `js_number.dfy` | `JsNumber` | `parseInt` (with and without radix 16) and `Number.prototype.toString(radix)` for integers |
| `stats.dfy` | `Stats` | the `/api/stats` loop, reference counts read off the rows, and the counters as evidently intended |
| `auto_delete.dfy` | `AutoDelete` | `time_left_seconds` |
| `changelog.dfy` | `Changelog` | the 120-cell listing and `POST /api/changelog/:index/view` |
| `map_files.dfy` | `MapFiles` | POSIX `path.extname`/`path.basename`, the `.map` upload filter, the stored name, the id lookup, the `/api/maps` listing |
| `timeline.dfy` | `Timeline` | the chart-point normaliser of `loadAnalytics`, success and failure paths |
| `duration.dfy` | `Duration` | `formatTime` |
| `hex.dfy` | `Hex` | `rgbToHex`, `hexToRgba` |
| `color_space.dfy` | `ColorSpace` | `rgbToCmyk`, `rgbToHsv`, `rgbToHsl` |

How JavaScript values are represented:

- A JavaScript object used as a counter table is a `map<string, int>`.
  `Get` reads a missing key as 0, as `x[k] || 0` does.
- Calendar days are integer day numbers, and minute points are minute
  offsets from midnight.
- Clock readings (`new Date()`) are parameters.
- Colour channels are bytes (0..255). The colour maths uses exact reals,
  and `Math.round(x)` is `floor(x + 1/2)`.
- Storage listings, query results and request segments are plain
  sequences and strings. Nothing in the model performs I/O.

Two behaviours of the code are worth knowing before reading the model:

- Hue can be reported as 360, because the code rounds after scaling, for
  example for `rgb(255, 0, 1)` (`ColorSpace.HueCanBe360`).
- The top-level stats counters count each row twice (see Findings). The
  model keeps the code's behaviour and also proves the intended version.

## Model

| member | source | states |
|---|---|---|
| Stats.Zeroed | server.js:91-98 | a fresh counter table has exactly the five known counters, all at 0 |
| Stats.Tally | server.js:104-127 | what one row does to the top-level counters: its type becomes a key; a non-member counter rises by 2; `member_count` becomes `max(previous + 1, payload)`; every other counter is unchanged |
| Stats.Record | server.js:119-127 | what one row does to its day bucket: the date stays; a non-member counter rises by 1; `member_count` becomes the larger of itself and the payload; every other counter is unchanged |
| Stats.Bump | server.js:104 | `m[k] = (m[k] \|\| 0) + 1` adds the key if missing, raises it by one and leaves every other counter alone |
| Stats.IndexOfDay | server.js:107-117 | the day map lookup finds a bucket with that date, or reports that no bucket has it |
| Stats.DayBuckets | server.js:100-131 | in the response `Aggregate` builds by folding every row in order (`Fold`), every day bucket counts exactly that day's rows: its keys are the five known counters plus the types seen that day; `member_count` is the day's largest payload (at least 0); every other counter is the number of that day's rows of that type |
| Stats.TopLevelCounters | server.js:102-127 | in the response `Aggregate` builds, as written, each top-level counter other than `member_count` ends at twice the number of rows of its type; `member_count` follows `max(previous + 1, payload)` row by row; unknown event types become keys |
| Stats.OneBucketPerDay | server.js:101-117 | the timeline has one bucket per distinct day of the rows (as many buckets as days) in the order of each day's first row |
| Stats.SortedTimeline | server.js:86-87 | rows ordered by time give buckets in strictly ascending date order |
| Stats.DayMaxIsMaximum | server.js:119-122 | a bucket's `member_count` is at least every payload of that day and equals one of them unless it is 0 |
| Stats.MemberTotalClosedForm | server.js:104-123 | as written, the top-level `member_count` is at least the number of `member_count` rows and at least each payload plus the number of such rows after it, and equals one of these bounds |
| Stats.MemberTotalAtLeastPayloads | server.js:123 | the top-level `member_count` is never below any payload |
| Stats.IntendedCountsOnce | server.js:119-126 | with each row counted once, every counter other than `member_count` equals its number of rows, and `member_count` is the largest payload |
| Stats.MaxPayloadIsMaximum | server.js:123 | the intended `member_count` is the largest payload, floored at 0 |
| Stats.IntendedMatchesDays | server.js:119-126 | with each row counted once, the top-level counter of a type and its day buckets both count the same rows |
| Stats.DoubleCountWitness | server.js:104 | one `wipe_created` row is reported as 2 as written, and 1 when counted once |
| Stats.MemberCountWitness | server.js:104 | two `member_count` rows with payload 5 give 6 as written, and 5 when counted once |
| AutoDelete.TimeLeftSeconds | server.js:158 | the countdown is 0 exactly when less than a second is left; otherwise it is the number of whole seconds left |
| AutoDelete.TimeLeft | server.js:158 | a row has a countdown exactly when its deadline is a valid date, and the countdown is `TimeLeftSeconds` of that deadline |
| AutoDelete.WithTimeLeft | server.js:155-159 | every row is kept, in order and unchanged, and gets its own countdown (`TimeLeft`), present exactly when its deadline is valid |
| AutoDelete.Ticks | server.js:158 | one second later the countdown is one lower, and stays at 0 once it reaches 0 |
| AutoDelete.Monotone | server.js:158 | a later clock reading never shows more time left |
| AutoDelete.DeadlineOrder | server.js:158 | a later deadline never shows less time left |
| AutoDelete.SortedCountdowns | server.js:150-159 | rows ordered by `delete_at` come out ordered by `time_left_seconds` |
| Changelog.Listing | server.js:542-544 | the listing has 120 cells; cell `i` holds entry `i` exactly when the store has one |
| Changelog.View | server.js:555-562 | a segment that parses to an existing index raises that entry's views by one, reports the new count and changes nothing else; NaN, negative or past-the-end is 404 and leaves the store unchanged |
| Changelog.ViewThenList | server.js:545-562 | after a view, the next listing shows the reported count at that index and the same cells elsewhere |
| Changelog.ViewByNumber | server.js:555-560 | a request whose segment is the decimal form of `i` addresses entry `i`, or is 404 when there is none |
| Changelog.ViewsCountRequests | server.js:555-562 | after any run of view requests, each entry has gained one view per request that named it, and nothing else about it has changed |
| JsNumber.DigitPrefix | server.js:555 | `parseInt` (`JsNumber.ParseInt`) reads the longest run of digits of the radix, which is a prefix of its input |
| JsNumber.ParseSignedDecimal | server.js:555 | `parseInt` (`JsNumber.ParseInt`) of an optional minus sign followed by decimal digits is the signed number they denote |
| JsNumber.IntToString | server.js:314 | `n.toString(radix)` is a non-empty string of lower-case digits, with a leading minus sign exactly when `n` is negative |
| JsNumber.NatDigitsValue | public/app.js:1102 | the digits `toString(radix)` writes denote the number |
| JsNumber.DecimalRoundTrip | server.js:370 | `parseInt(String(n))` is `n` for every integer |
| MapFiles.ExtName | server.js:362 | `path.extname` is a suffix of the last path component that is empty or a dot followed by characters that are neither dots nor slashes; it is empty exactly when that component is `..` or has no dot after its first character |
| MapFiles.IdAndExtension | server.js:362-363 | the map id (`FileId`, `path.basename(name, ext)`) followed by the extension is the whole last path component |
| MapFiles.AcceptedExtensions | server.js:22-28 | the upload filter (`AcceptsUpload`) accepts exactly the names whose extension is `.map` in any letter case |
| MapFiles.StoredNameHasId | server.js:299-303 | an upload stored under the name `StoredName` (`<id><ext>`) or the path `StoragePath` (`maps/<id><ext>`) with a fresh id with no dot or slash has that id, both by stored name and by storage path |
| MapFiles.UploadKeepsExtension | server.js:23 | an accepted upload is stored with its original extension, which the filter would accept again |
| MapFiles.Find | server.js:397-401 | the lookup returns the first listed file whose id is the requested one, and 404 exactly when no listed file has it |
| MapFiles.UploadIsFound | server.js:397-404 | a listed file named `<id><ext>` is found by its id, at its position or at an earlier file with the same id |
| MapFiles.DownloadName | server.js:368 | the offered name is the uploader's file name when stored and non-empty, otherwise the stored name (`\|\|` also replaces an empty name) |
| MapFiles.Describe | server.js:361-372 | a listing entry's storage path is the file name; its id followed by the extension is the name's last component; its original name is `DownloadName`; its size is `parseInt` of a non-empty `fileSize`, else the numeric `size`, else 0 |
| MapFiles.ListedIdsAreFound | server.js:361-401 | every id the listing shows is found by the download and delete lookup, at that entry or at an earlier one with the same id |
| MapFiles.Catalogue | server.js:361-373 | the listing describes every file, in listing order |
| MapFiles.SizeFromNumber | server.js:370 | a file with only a numeric size is listed with exactly that size |
| Timeline.ZeroCounters | public/app.js:115-121 | a gap day has the four chart series at 0 |
| Timeline.Totals | public/app.js:103-106 | the one-day chart's last point reads the four series from the response, missing ones as 0 |
| Timeline.MinuteCount | public/app.js:90 | the number of minutes is at least 1 and otherwise the whole minutes since midnight |
| Timeline.MinuteWindow | public/app.js:91-106 | the one-day chart has one point per minute from 0 to the count; all are zero except the last, which carries the totals when there are any |
| Timeline.ByDate | public/app.js:111 | the lookup finds a bucket of that date, the last one when several have it, and nothing exactly when no bucket has that date |
| Timeline.DayWindow | public/app.js:108-123 | the multi-day chart has one point per day from the window start to today; each point has the server's counters for that day, or zeros |
| Timeline.Normalize | public/app.js:84-124 | a one-day window has one point per elapsed minute plus one (at least two); any other window has one point per day, none for zero or fewer days |
| Timeline.FailureLooksEmpty | public/app.js:130-163 | a failed request draws exactly what an empty response draws: the same window with every counter 0 |
| Timeline.DaysCoverWindow | public/app.js:108-113 | the days shown are strictly ascending, lie within the window and cover it |
| Timeline.DayLookup | public/app.js:111-121 | for a server response, the counters shown for a day count that day's rows of each type |
| Timeline.DaysShowRows | public/app.js:108-123 | fed with the server's response as written, every day of the window shows, for each chart series, the number of that day's rows of that type |
| Timeline.MinutesShowTotals | public/app.js:101-106 | with rows counted once, the one-day chart is flat at 0 and ends at each series' row count |
| Timeline.MinutesShowDoubledTotals | public/app.js:101-106 | with the counters as the server computes them, the one-day chart ends at twice each series' row count |
| Duration.JsRem | public/app.js:22-23 | JavaScript `%` takes the sign of the dividend, stays below the divisor in size, and differs from the dividend by a multiple of the divisor (the truncating remainder) |
| Duration.FormatTime | public/app.js:20-32 | `formatTime` prints one to three parts, the last one seconds; a negative input prints only its seconds |
| Duration.FormatTimeMeaning | public/app.js:20-32 | for a non-negative input the parts add up to it; minutes and seconds are below 60; hours are printed exactly from 3600 seconds and minutes exactly from 60 |
| Duration.FormatTotal | public/app.js:20-32 | `formatTime` inverts the sum on canonical parts, so every non-negative duration has exactly one printed form |
| Duration.Render | public/app.js:25-31 | the printed text is empty exactly when there are no parts; otherwise it ends with the last part's unit letter and holds `\|parts\| - 1` spaces |
| Duration.RenderTwo | public/app.js:25-31 | two parts print as each part's amount and letter, joined by a single space |
| Duration.RenderThree | public/app.js:25-31 | three parts print as each part's amount and letter, joined by single spaces |
| Duration.Text | public/app.js:25-31 | the printed text ends with the seconds letter |
| Duration.NegativeInput | public/app.js:21-23 | a negative input prints JavaScript's signed remainder modulo 60, followed by the seconds letter |
| Duration.UnderAMinute | public/app.js:29-30 | less than a minute prints as the bare number of seconds |
| Duration.Example | public/app.js:20-32 | 3725 seconds are 1 hour, 2 minutes, 5 seconds |
| Duration.ExampleText | public/app.js:20-32 | 3725 seconds print as `1ч 2м 5с` |
| Hex.PadStart2 | public/app.js:1102 | padding to two keeps a longer string and puts zeros in front of a shorter one |
| Hex.RgbToHex | public/app.js:1101-1104 | `rgbToHex` writes `#` and six lower-case hex digits, two per channel, each pair denoting its channel |
| Hex.RemoveFirst | public/app.js:54 | `replace('#', '')` removes only the first `#`: the result is the text before it followed by the text after it, and nothing changes when there is none |
| Hex.DoubleEach | public/app.js:55 | the short form is expanded by writing each digit twice |
| Hex.ToInt32 | public/app.js:57-59 | the shift operators first wrap the number into the signed 32-bit range |
| Hex.HexToRgba | public/app.js:53-61 | the decoded channels are bytes and the alpha is passed through |
| Hex.HexRoundTrip | public/app.js:53-61 | decoding a colour written by `rgbToHex` gives back its channels |
| Hex.ShortFormExpands | public/app.js:55 | a 3-digit colour decodes as its 6-digit form with each digit doubled |
| Hex.ShortFormChannels | public/app.js:54-60 | each channel of a 3-digit colour, with hex digits in either letter case, is 17 times its digit |
| Hex.UnparsableIsBlack | public/app.js:56-60 | a colour whose text after `#` is not three characters long and does not start with a hex digit, white space, `+` or `-` decodes as black (NaN becomes 0) |
| Hex.UnpackBytes | public/app.js:57-59 | the shifts and masks take the three bytes of a packed colour apart again |
| Hex.RedHex | public/app.js:1101-1104 | pure red is written `#ff0000` |
| ColorSpace.Round | public/app.js:1110 | `Math.round` lands within one half of its argument |
| ColorSpace.Sextant | public/app.js:1123-1128 | the hue before scaling lies in [0, 6) |
| ColorSpace.RgbToCmyk | public/app.js:1106-1115 | every CMYK component is between 0 and 100 |
| ColorSpace.RgbToHsv | public/app.js:1117-1132 | hue is between 0 and 360; saturation and value are between 0 and 100 |
| ColorSpace.RgbToHsl | public/app.js:1134-1149 | hue is between 0 and 360; saturation and lightness are between 0 and 100 |
| ColorSpace.CmykExact | public/app.js:1106-1115 | CMYK in integers: black (largest channel 0) is `k = 100`; otherwise each ink is `100 * (max - channel) / max` and `k` is `100 * (255 - max) / 255`, rounded |
| ColorSpace.HsvExact | public/app.js:1117-1132 | HSV in integers: `v` is `100 * max / 255`, `s` is `100 * (max - min) / max` (0 for black), and a grey has hue 0 |
| ColorSpace.HslExact | public/app.js:1134-1149 | HSL in integers: `l` is `100 * (max + min) / 510`; `s` divides `100 * (max - min)` by `510 - max - min` above half lightness and by `max + min` otherwise |
| ColorSpace.SextantDegrees | public/app.js:1123-1131 | the real-valued hue rounds to the integer formula of the branch of the largest channel, red first |
| ColorSpace.LargestChannelNoInk | public/app.js:1110-1112 | the ink of the largest channel is 0, black included |
| ColorSpace.KeyFromLargestChannel | public/app.js:1108-1113 | `k` is 100 exactly when the largest channel is at most 1, and 0 exactly when it is at least 254 |
| ColorSpace.KeyPlusValue | public/app.js:1108-1131 | `k` of CMYK and `v` of HSV always add up to 100 |
| ColorSpace.Grey | public/app.js:1106-1149 | a grey has hue and saturation 0 in HSV and HSL and needs only black ink |
| ColorSpace.SharedHue | public/app.js:1117-1149 | HSV and HSL report the same hue |
| ColorSpace.TiesAgree | public/app.js:1123-1127 | when two channels tie for the maximum, either branch of the hue switch gives the same value |
| ColorSpace.HueCanBe360 | public/app.js:1131 | `rgb(255, 0, 1)` has hue 360 in both HSV and HSL |
| ColorSpace.Examples | public/app.js:1106-1149 | pure red is HSV (0, 100, 100) and CMYK (0, 100, 100, 0); pure green is HSL (120, 100, 50); black is CMYK (0, 0, 0, 100) |

## Left out

- Express routing, Supabase queries and storage, Discord, multer buffering and the DOM are left out: they are I/O. Query results, storage listings, request segments and clock readings are parameters.
- The `days` query parameter and the cutoff date of `/api/stats` are left out: the rows the query returns are a parameter.
- Time zones and `Date` parsing are left out. The server's day of a row (the UTC date of `created_at`) and the client's day of a point are both integer day numbers, and minute points are offsets from midnight.
- Timeline.DayWindow: assumes both `new Date()` readings of the window fall in the same millisecond. If `start` is read later than `today`, the loop `d <= today` drops the last day. Daylight-saving shifts are not modelled either.
- Event types named `timeline`, `total` or `date` would overwrite response or bucket fields of the same name. The model keeps counters and those fields apart.
- Stats.Tally: a row's `event_data.count` is a whole number or absent. Any other JSON value is not modelled: a non-numeric string makes `Math.max` give NaN, the next row's `|| 0` resets it, and a NaN left at the end is sent as `null`. Event types that name inherited object properties (`constructor`, `toString`) are not modelled either: `stats[type] || 0` reads the inherited value and turns the counter into a string. Stats.Record has the same two gaps for the day buckets.
- Hex.HexToRgba: string lengths and `split('')` count Unicode characters, while JavaScript counts UTF-16 code units. A colour with a character outside the Basic Multilingual Plane can take the other branch: JavaScript sees `"#a\u{1F600}"` as three units long and doubles them, so its blue is 170, while the model gives 10.
- Floating point: the colour maths uses exact reals, so IEEE rounding of the intermediate quotients is not modelled. `parseInt` results above 2^53 lose no precision in the model.
- Channel values outside 0..255 and non-integer channels are not modelled: the colour helpers receive canvas bytes.
- MapFiles.ToLower: lower-cases ASCII letters only. Other characters cannot make an extension equal `.map`.
- MapFiles.Describe: `uploaded_at` is left out, because it comes from the clock or storage metadata. The listing's `limit: 100` and its sort order are properties of the storage query, and the listing is a parameter.
- MapFiles.SizeText: a numeric `size` is written with `IntToString`, JavaScript's `String(n)` for integers. Exponent notation for very large numbers is not modelled.
- MapFiles.UploadIsFound: assumes the listing holds the upload under its bare name `<id><ext>`. The upload route stores it at `maps/<id><ext>` (server.js:303), while the list, download and delete routes list the bucket root (`list('')`). Whether the storage listing shows the upload, and under which name, depends on the storage service and is not modelled.
- The download and delete routes are modelled through their shared lookup `MapFiles.Find`. Downloading the bytes and deleting the object are storage I/O.
- The changelog's seeded entries are data, not behaviour, so the store is a parameter. Error replies (500) are not modelled.
- `formatFileSize`, `generateDemoData`, the demo chart, the random generator and the stats cards are left out: they are outside the core.

## Findings

| source | as written | input that shows it | evidently intended | confidence | as-written member | corrected member |
|---|---|---|---|---|---|---|
| server.js:104, 119-127 | every row first raises the top-level counter of its type by 1. Then a `member_count` row takes the maximum with its payload, and any other row adds 1 again. So each top-level count is doubled, and `member_count` counts rows on top of payloads. | one `wipe_created` row is reported as `wipe_created: 2`; two `member_count` rows with payload 5 give `member_count: 6` | each row counted once, as in the day buckets: a count per type and the largest `member_count` payload | high; not executed | Stats.DoubleCountWitness | Stats.IntendedCountsOnce |

`Stats.TopLevelCounters` and `Stats.MemberCountWitness` state the as-written behaviour in general and for the second input. `Stats.AggregateIntended` is the corrected response, and the one-day chart is proved against it (`Timeline.MinutesShowTotals`). The multi-day chart reads only the day buckets, which are the same in both (`Timeline.DaysShowRows` is stated for the response as written). `Timeline.MinutesShowDoubledTotals` shows what the one-day chart draws from the counters as written.
