# ping-checker, modelled in Dafny

ping-checker probes a network target on a fixed cadence and stores every probe result as a
time-stamped sample. It serves `GET /api/v1/results?start=&end=`, which returns the samples of a
time range downsampled into buckets: one row per (bucket, network type), with the mean packet
loss and the mean known latency. A small web client fetches that map and pivots it into two
chart data sets, latency and packet loss, with one series per network type.

This project models:

- **The results endpoint** (`server.dfy`, module `Server`), from `server/index.ts`:
  - defaulting of `start` and `end`;
  - the tier table that chooses the `$dateTrunc` unit and bin size;
  - `$dateTrunc` for fixed-length units;
  - the `$match` / `$group` / `$sort` / `$project` pipeline over an in-memory sequence of samples;
  - the final `_.groupBy` on `createdAt`.
- **The client stores**, from `client/stores/`:
  - the application-wide loading indicator (`loading.dfy`, class `Loading.LoadingStore`);
  - the common store part (`base.dfy`, class `Base.BaseStore` and the URL and header helpers);
  - the results store (`ping.dfy`, class `Ping.PingStore`): the query string, the fetch state
    transitions and the two chart getters.
- **The chart pivot** (`charts.dfy`, module `Charts`). It states what the getters compute, as
  functions over the bucket map. It also holds the getters' loops as methods proved equal to
  that specification.

Supporting modules:

- `wrappers.dfy`: `Option`.
- `ordering.dfy`: strict total orders, and sorting with duplicates removed.
- `seqs.dfy`: filter, sum, first-seen order and group-by on sequences.
- `text.dfy`: string order by character code, and decimal printing and parsing of integers.

Modelling choices:

- **The client's pieces:**
  - Inheritance (`PingStore extends Base`) becomes composition: a `PingStore` holds its `BaseStore`.
  - The `LoadingStore` singleton is a reference every `BaseStore` shares.
- **The response object** is a sequence of (key, rows) entries with distinct keys, the type
  `Charts.Results`. `Object.keys(...).sort()` is a sort by `Text.Before` with duplicates removed.
- **Environment inputs are parameters:**
  - the `VITE_API_BASE_URL` value;
  - the stored tokens;
  - the current time;
  - the network `fetch`, as `respond`;
  - the date label format, as `format`.
- **Loading getters without contracts.** `Loading.LoadingStore.Loading` is the `loading` getter
  (`client/stores/loading.ts:36-39`) and `Base.BaseStore.Loading` is the base store's
  (`client/stores/base.ts:67-69`). Both are predicates with no contract of their own. The
  methods' contracts state their value.
- **The getters' failure.** A bucket with no rows makes a getter throw, at `result[0]`. The
  model says `None` there.
- **Tier selection.** The width comes from a fixed table of tiers on the span
  (`server/index.ts:33-94`); no point-count parameter is read (`server/index.ts:21-22`).

## Model

| member | source | states |
|---|---|---|
| Server.DefaultRange | server/index.ts:22-28 | truthy bounds are kept; a falsy `end` (missing or 0) becomes `now`; a falsy `start` gives a range that ends at the (possibly defaulted) end and starts 10800 s (three hours) before it |
| Server.SelectTrunc | server/index.ts:33-94 | every tier yields a bin size of at least 1 |
| Server.SelectTruncSymmetric | server/index.ts:34-94 | swapping `start` and `end` selects the same unit and bin size whenever the month difference keeps its magnitude: only the span and the magnitude of the month difference are read |
| Server.FixedTiers | server/index.ts:34-94 | the six fixed tiers, each as an if-and-only-if with its inclusive span bounds 3600, 10800, 21600, 86400, 259200 and 518400 s; beyond six days and six years, (year, 1) |
| Server.CalendarTiers | server/index.ts:70-94 | beyond six days, (day, 1), (month, 1), (month, 2) or (year, 1) is chosen exactly when the month difference is within 1 month, 3 years, 6 years or above 6 years |
| Server.NoStartSelectsTwentySecondBins | server/index.ts:22-45 | a request without a usable `start` spans three hours and gets (second, 20) bins |
| Server.SelectTruncMonotone | server/index.ts:34-94 | a wider span and a larger calendar difference never select a finer unit or, in the same unit, smaller bins |
| Server.FixedWidthMonotone | server/index.ts:34-69 | up to six days the widths are fixed-length and never shrink as the span grows |
| Server.TableWidths | server/index.ts:34-69 | the fixed-unit widths the table chooses are exactly 2 s, 20 s, 2 min, 20 min, 2 h, 6 h or 1 day |
| Server.TableWidthsDivideDay | server/index.ts:34-75 | each of those widths divides a day |
| Server.FixedTruncate | server/index.ts:112-113 | the bin start is at most the sample time and less than one width below it, a whole number of widths from 2000-01-01T00:00Z, and a whole second |
| Server.FixedTruncateUnique | server/index.ts:112-113 | the bin start is the only reference-aligned instant within one width below the time |
| Server.TableBinsEpochAligned | server/index.ts:112-113 | for the widths the table chooses, bins are multiples of the width from the unix epoch too |
| Server.Match | server/index.ts:101-107 | keeps exactly the samples with `start*1000 <= createdAt <= end*1000`, both ends inclusive, with their multiplicities |
| Server.KeyBeforeIsStrictTotal | server/index.ts:125-129 | sorting on `_id` (truncated date, then network type) is a strict total order |
| Server.GroupIds | server/index.ts:110-116 | the group ids are exactly the (bucket, network type) pairs of some matched sample, in ascending `_id` order |
| Server.MembersNonEmpty | server/index.ts:109-116 | no group is empty |
| Server.Mean | server/index.ts:117-122 | the mean of `count` values multiplied by `count` is their total |
| Server.KnownEmptyIff | server/index.ts:120-122 | no latency is known exactly when every member's latency is null |
| Server.MeanLoss | server/index.ts:117-119 | `packetLoss` is the mean over all members |
| Server.MeanLatency | server/index.ts:120-122 | `latency` is the mean over the members with a known latency, null exactly when all are null |
| Server.Summarise | server/index.ts:117-122 | a group carries its id and summarises its members |
| Server.PacketLossBounds | server/index.ts:117-119 | if every member's loss lies in [lo, hi], so does the mean |
| Server.SummariseExample | server/index.ts:117-122 | losses 0, 10, 20 and latencies 10, null, 30 average to 10 and 20 |
| Server.GroupStage | server/index.ts:109-129 | one group per id, in id order, each summarising exactly the matched samples with that id |
| Server.Aggregate | server/index.ts:100-146 | one row per id present among the in-range samples, in id order; `createdAt` is the truncated milliseconds divided by 1000; the network type and means are the group's |
| Server.Project | server/index.ts:130-145 | one `$project` row per group; that `createdAt` is the truncated milliseconds over 1000 and the type and means are the group's is the contract of `Server.Aggregate`, and the resulting order that of `Server.AggregateSorted` |
| Server.IdWholeSeconds | server/index.ts:112-116 | when every bucket start is a whole second, so is every group id |
| Server.AggregateSorted | server/index.ts:125-145 | rows come out in ascending `createdAt`; with whole-second bucket starts, strictly ascending by (`createdAt`, network type) |
| Server.SummarisePermutation | server/index.ts:117-122 | a group's statistics do not depend on the order of its members |
| Server.GroupIdsSameElements | server/index.ts:110-129 | the ids depend only on which samples are present |
| Server.MembersPermutation | server/index.ts:110-116 | reordering the samples reorders each group's members and nothing else |
| Server.GroupStageOrderIndependent | server/index.ts:109-129 | grouping and sorting give the same groups for any order of the matched samples |
| Server.AggregateOrderIndependent | server/index.ts:100-146 | the endpoint's rows do not depend on the order in which the collection yields samples |
| Server.GroupBy | server/index.ts:148 | a key is present exactly when some row has that `createdAt`, and its bucket is those rows in their original order |
| Server.GroupByKeys | server/index.ts:148 | the keys are exactly the printed `createdAt` values, and no bucket is empty |
| Server.BucketSharesCreatedAt | server/index.ts:148 | all rows of a bucket have the same `createdAt` |
| Server.Get | server/index.ts:21-152 | every bucket of the response is non-empty and each of its rows prints to the bucket's key |
| Charts.Lookup | client/stores/ping.ts:63 | the rows found are the entry of that key |
| Charts.LookupEntry | client/stores/ping.ts:62-63 | with distinct keys, each property's key finds that property's rows |
| Charts.SortedKeys | client/stores/ping.ts:62 | the sorted keys are exactly the response's keys, one per property |
| Charts.SortedKeysAscending | client/stores/ping.ts:62 | the keys are in ascending string order (lexicographic, not numeric) and none repeats |
| Charts.TypesOfMembers | client/stores/ping.ts:65 | a type occurs among a bucket's types exactly when some row of the bucket has it |
| Charts.Buckets | client/stores/ping.ts:62-63 | one bucket per property; every bucket of the response is visited, and only buckets of the response |
| Charts.LookedUp | client/stores/ping.ts:62-63 | looking up each key once visits every bucket of the response and no other |
| Charts.AllTypesMembers | client/stores/ping.ts:62-69 | a type is seen while walking the buckets exactly when some bucket has it |
| Charts.RowOf | client/stores/ping.ts:70-76 | the data row of one bucket; what it holds (the label, each type's last-row value, and the label overridden by a type named "createdAt") is the contract of `Charts.RowOfCells` |
| Charts.Reduce | client/stores/ping.ts:72-75 | the object has exactly the bucket's types, each mapped to the picked value of the last row of that type |
| Charts.ReduceStep | client/stores/ping.ts:72-75 | writing one more row over the object keeps the last-row-wins rule |
| Charts.Rows | client/stores/ping.ts:62-76 | one data row per bucket |
| Charts.RowsAt | client/stores/ping.ts:70-76 | data row `i` is built from bucket `i` |
| Charts.ChartFailsIff | client/stores/ping.ts:62-71 | the getters fail exactly when some bucket of the response is empty |
| Charts.ChartKeys | client/stores/ping.ts:62-69 | `keys` has no duplicates and is exactly the set of network types in the response |
| Charts.RowOfCells | client/stores/ping.ts:70-76 | a data row has the label and the bucket's types; each type has the value of its last row; the label holds unless a type is itself named "createdAt" |
| Charts.ChartRowCells | client/stores/ping.ts:62-76 | there is one data row per key, and row `i` holds the cells of the bucket of the `i`-th sorted key |
| Charts.ChartsAgree | client/stores/ping.ts:57-117 | for one response both charts succeed or fail together, with identical `keys` and the same number of rows |
| Charts.CollectTypes | client/stores/ping.ts:65-69 | the inner loop extends `keys` to the first-seen order of everything seen so far |
| Charts.PivotBuckets | client/stores/ping.ts:59-77 | the getter loop computes the chart of the buckets: first-seen network types and one row per bucket, or failure at an empty bucket |
| Charts.Pivot | client/stores/ping.ts:57-86 | a getter equals the chart specification of the response |
| Charts.PivotStep | client/stores/ping.ts:62-77 | one loop pass extends the series and the rows by that bucket's share |
| Ping.QueryParams | client/stores/ping.ts:33-40 | `start` is present, with its decimal value, exactly when truthy, and likewise `end`; `start` comes first; nothing else appears, and each at most once (the length is the number of truthy bounds) |
| Ping.ResultsUrl | client/stores/ping.ts:31-42 | the URL is the bare results endpoint exactly when both bounds are falsy |
| Ping.SplitWhole | client/stores/ping.ts:41 | a string without the separator is a single piece |
| Ping.SplitConcat | client/stores/ping.ts:41 | a separator after a piece without one ends that piece |
| Ping.SplitJoin | client/stores/ping.ts:41 | splitting pieces joined by a separator none contains gives the pieces back |
| Ping.Serialize | client/stores/ping.ts:34-41 | `params.toString()`: the pairs as `name=value` joined by `&`; that the server's parser reads the client's pairs back from it is the contract of `Ping.ParseSerialize` |
| Ping.ParsePairPlain | client/stores/ping.ts:41 | `name=value` parses back to the pair when neither holds `&` or `=` |
| Ping.ParseSerialize | client/stores/ping.ts:41 | parsing the serialized parameters gives the parameter list back |
| Ping.QueryParamsPlain | client/stores/ping.ts:33-40 | the client's names and values contain no `&` or `=` |
| Ping.IntStringPlain | client/stores/ping.ts:36-39 | a bound's decimal form holds only digits and a minus sign |
| Ping.Param | server/index.ts:22 | the first pair of that name decides: its value when that is an integer literal, else missing; no pair of that name reads as missing; a value found is one given under that name |
| Ping.ParamsAgree | client/stores/ping.ts:33-40 | from the client's parameters the server reads exactly the truthy bounds, and nothing for falsy ones |
| Ping.ClientServerAgree | client/stores/ping.ts:33-42 | the server, parsing the query string the client serializes, works on the same range as with the client's own bounds |
| Ping.PingStore.constructor | client/stores/ping.ts:17-22 | a new store is idle with an empty bucket map |
| Ping.PingStore.BeginFetch | client/stores/ping.ts:29-42 | the state becomes running, the loading flag is set, results are untouched, and the URL is the results URL |
| Ping.PingStore.CompleteFetch | client/stores/ping.ts:43-54 | an ok reply replaces the results with its `results` (none when the body has none) and ends in done; anything else keeps them and ends in error; the loading flag ends cleared and the lock is untouched |
| Ping.PingStore.Fetch | client/stores/ping.ts:25-55 | the whole fetch: through `BeginFetch` (running), then done with the reply's results, or error with the results unchanged; the loading flag ends cleared and the lock is untouched |
| Ping.PingStore.LatencyData | client/stores/ping.ts:57-86 | the latency chart is the chart specification with each row's latency; without a bucket map it fails |
| Ping.PingStore.PacketLossData | client/stores/ping.ts:88-117 | the packet loss chart is the chart specification with each row's packet loss; without a bucket map it fails |
| Base.BaseStore.constructor | client/stores/base.ts:14-16 | a new store starts idle |
| Base.BaseStore.SetState | client/stores/base.ts:21-26 | the state becomes `s` and the loading flag becomes `s == Running`; the lock is untouched |
| Base.BaseStore.ResetState | client/stores/base.ts:28-31 | the state is idle and the loading flag cleared, so the indicator shows only the lock |
| Base.ApiBaseUrl | client/stores/base.ts:33-39 | the root always ends in `/`; it is `/api/` when the value is missing or empty; otherwise it is the value, with `/` appended only when absent |
| Base.ApiBaseUrlIdempotent | client/stores/base.ts:33-39 | normalising an already normalised root changes nothing, and a slashed value is used as it is |
| Base.StripTrailingSlash | client/stores/base.ts:43 | at most one trailing `/` is removed, and adding it back gives the segment |
| Base.StripOneSlash | client/stores/base.ts:43 | only one slash is removed, even from a segment ending in two |
| Base.StripAll | client/stores/base.ts:43 | one result per segment, in order; putting back the slash a segment ended in gives that segment |
| Base.ApiUrl | client/stores/base.ts:41-44 | the URL starts with the API root |
| Base.ApiUrlTwoSegments | client/stores/base.ts:41-44 | two segments give the root, the stripped first segment, one `/` and the stripped second segment |
| Base.ApiUrlResults | client/stores/base.ts:41-44 | under the default root, `"v1/results"` gives `/api/v1/results`, and so do `"v1/"` and `"results/"` |
| Base.BearerTokenPrecedence | client/stores/base.ts:54 | with a non-empty local token the session token makes no difference and the local one is sent; an empty local token counts as none |
| Base.GenerateFetchHeader | client/stores/base.ts:46-65 | the header names are `Accept`, `Authorization` when `withAuth`, and the override's names; override values win; otherwise `Accept` is `application/json` and `Authorization` is the bearer token |
| Base.DefaultHeaders | client/stores/base.ts:46-65 | with defaults and no override, exactly `Accept` and `Authorization` |
| Loading.LoadingStore.constructor | client/stores/loading.ts:11-16 | both flags start false, so the indicator is off |
| Loading.LoadingStore.SetLoading | client/stores/loading.ts:18-22 | only the loading flag changes; while locked the indicator stays on whatever the argument |
| Loading.LoadingStore.LockLoading | client/stores/loading.ts:24-28 | only the lock changes, and the indicator is on |
| Loading.LoadingStore.UnlockLoading | client/stores/loading.ts:30-34 | only the lock changes, and the indicator equals the loading flag again |

## Left out

- **The database and the HTTP framework** (MongoDB client and connection, route decorators,
  `res.send`, static serving, listening). The collection is a sequence of samples given to
  `Server.Aggregate`.
- **The probe writer** (`checker/index.ts`): the ping call, timers and inserts are I/O. Only its
  record shape appears, as `Server.Sample`. A latency of "unknown" is `None`.
- **Calendar arithmetic.** Months and years have variable length, so two things are parameters
  of `Server.Get`:
  - dayjs's fractional month difference, `monthDiff`; the year difference is taken as that
    divided by 12;
  - `$dateTrunc` to months and years, `calendarTrunc`.
- Server.SelectTruncSymmetric: assumes the month difference keeps its magnitude under a swap.
  dayjs's fractional month difference need not: when both instants fall on the same day of the
  month, the fraction is taken over the length of a different month in each direction. That
  exact magnitude is not modelled.
- Server.SelectTrunc: the hour and day differences are compared as whole seconds, in UTC. A
  daylight-saving change inside the range shifts dayjs's day difference, and that shift is not
  modelled.
- Server.Project: `$divide` gives a double. The model divides the integer milliseconds by 1000
  instead. That is exact for the fixed units, whose starts are whole seconds
  (`Server.FixedTruncate`). For a calendar truncation it is exact only when the parameter returns
  whole seconds, which `Server.AggregateSorted` takes as a hypothesis for its strict ordering.
- **Floating point.** Packet loss, latency and their means are `real`, not IEEE doubles.
  `parseFloat` in the probe writer is not modelled.
- **Query parameter types.** The server reads `start` and `end` as the numbers its declared type
  promises: a pair whose value is an integer literal gives that integer, anything else is
  missing, and 0 is falsy. The framework really hands over strings, in which "0" would be
  truthy. What a non-numeric value does is not modelled either. A repeated name is read as its
  first value; the framework would hand over an array.
- **String order.** `Text.Before` compares characters by code point. JavaScript's default
  `sort` compares UTF-16 code units. The two differ only for characters outside the Basic
  Multilingual Plane.
- **URL encoding.** `URLSearchParams` serialization and the server's decoding are the identity.
  The parameters carry only letters, digits and a minus sign, which are never escaped.
- **The URL's query part.** `Ping.ClientServerAgree` starts from the serialized parameters. That
  the server takes everything after the `?` as the query string is not modelled.
- **The date label.** `dayjs(...).format("YYYY/MM/DD HH:mm:ss")` in local time is the parameter
  `format`.
- **The network request and JSON parsing** (`fetch`, `res.json()`) are the parameter `respond`
  of `Ping.PingStore.Fetch`. A request that throws and a body that is not JSON are both
  `Failed`. An ok body without a `results` object ends in done with no bucket map, and both
  getters then fail at `Object.keys`. A `results` value that is not an object is treated the
  same way as a missing one.
- **An `await` in `fetch`.** The model runs the request as one step, so nothing else changes the
  store in between.
- **The error snackbar** (`tryEnqueueSnackbar`, `window.enqueueSnackbar`): a UI call with no
  effect on the store's state.
- **Logging** (`Logger.verbose`, `Logger.debug`, `req.log.debug`).
- **The token source.** `localStorage` and `sessionStorage` become the parameters of
  `Base.BearerToken`. `withAuth` has no default and is passed explicitly.
- **The getters' lookups.** The getters look each bucket up inside the `forEach` callback. The
  model looks them up first (`Charts.Buckets`) and then runs the loop over the looked-up buckets.
- **MobX observability** (`@observable`, `@computed`, `@action`, `makeObservable`,
  `toJS`): reactivity only, no effect on values.
