# Media duration ledger — a Dafny model

The Media Duration Calculator is a single React component. A user drops
audio/video files, the browser reports each file's duration, and the page
shows the total duration and a charge of "total minutes × rate per minute".
This project models the arithmetic and list handling inside that component,
as pure functions over immutable values, and proves what they do:

- **Ledger** — entries (`id`, `name`, `kind`, whole-second duration) appended
  batch by batch and removed by id (`ledger.dfy`);
- **Entry construction** — the audio/video kind rule and the rounding of the
  probed duration, failures counting as 0 seconds (`media.dfy`);
- **Durations** — the total as a left-to-right reduce, and `formatDuration`,
  the minutes/seconds split with its 60-second carry (`durations.dfy`);
- **Charge** — `combineMinutes`, which prints `M.SS` and parses it back as a
  decimal, the product with the rate, and the "> 150" label (`charge.dfy`);
- the JavaScript pieces these rely on, on exact numbers: `Math.floor`,
  `Math.round`, `toFixed(2)` (`rounding.dfy`), and `includes`, `toString`,
  `padStart` and the fixed-point part of `parseFloat` (`strings.dfy`).

Durations on the ledger are `nat`. `formatDuration` is modelled on any
non-negative `real`, so its carry branch can be examined: it is dead for
whole seconds, and live for a fractional input such as 59.6 s, which gives
1m 0s. The rate is a `real`. No floating point is involved: every quantity
is exact.

Behaviours worth knowing, all proved:

- `combineMinutes(m, s)` is `m + s/100`, not `m + s/60`. So 1m 30s is 1.30,
  and at the default rate of 3 that charges 3.90. Below a whole minute this
  reading always gives less than the true number of minutes.
- The label needs the charge *rounded to the cent* to exceed 150. So, on
  exact values, 150.00 and 150.004 show no label, while 150.005 and 150.01 do.
- Removal is a filter on the id. It removes every entry with that id. With
  unique ids it removes at most one entry, and the total loses exactly that
  entry's duration.

## Model

| member | source | states |
|---|---|---|
| `Strings.Includes` | src/App.jsx:42 | `includes` is true exactly when the pattern occurs at some position of the text |
| `Media.KindOf` | src/App.jsx:42 | the kind is audio exactly when a declared type is present and contains "audio"; a missing type is video |
| `Media.KindExamples` | src/App.jsx:42 | "audio/mpeg" is audio; "video/mp4", "" and a missing type are video |
| `Media.MakeEntry` | src/App.jsx:19-45 | the entry keeps the upload's id and name and gets the kind rule's kind; a failed or non-finite probe gives 0 seconds, and a loaded one gives the whole number of seconds within half a second of the probed duration |
| `Rounding.Floor` | src/App.jsx:77 | `Math.floor` is the greatest integer not above its argument |
| `Rounding.Round` | src/App.jsx:78 | `Math.round` gives the integer within half a unit, ties going up |
| `Rounding.RoundShift` | src/App.jsx:78 | rounding commutes with adding a whole number |
| `Rounding.Cents` | src/App.jsx:162 | `Number(x.toFixed(2))` is the nearest hundredth, ties away from zero, as whole cents |
| `Durations.FormatDuration` | src/App.jsx:76-87 | for any non-negative duration, seconds are below 60 and minutes·60 + seconds is the duration rounded to the nearest second |
| `Durations.WholeSecondsNeverCarry` | src/App.jsx:76-87 | for whole seconds n, the rounded remainder is already n mod 60 < 60, so the carry never fires and the result is (n div 60, n mod 60) |
| `Durations.CarryBranch` | src/App.jsx:81-84 | the carry fires exactly when the remainder in the minute is at least 59.5, and then gives the next minute with 0 seconds, other cases being left untouched |
| `Durations.CarryExample` | src/App.jsx:76-87 | 59.6 seconds rounds its remainder to 60 and is shown as 1m 0s |
| `Durations.FormatExamples` | src/App.jsx:76-87 | 125 s is 2m 5s and 90 s is 1m 30s |
| `Durations.RowClock` | src/App.jsx:203 | each row's split gives seconds below 60 and minutes·60 + seconds equal to that entry's duration |
| `Durations.TotalAppend` | src/App.jsx:90 | the total of two ledgers joined is the sum of their totals |
| `Durations.ReduceTotal` | src/App.jsx:90 | the left-to-right reduce starting from 0 computes the sum of all entries' durations |
| `Durations.TotalPermutation` | src/App.jsx:90 | any reordering of the entries has the same total |
| `Durations.TotalExample` | src/App.jsx:90 | durations 5, 10 and 0 total 15 in either order shown |
| `Strings.NatToString` | src/App.jsx:94 | `toString` of a non-negative integer is a digit string without leading zeros that reads back as the same number |
| `Strings.PadStart` | src/App.jsx:94 | `padStart` keeps the text as a suffix and fills in front up to the width, never shortening |
| `Strings.LeadingZeros` | src/App.jsx:94 | zeros put in front of digits do not change the number they spell |
| `Strings.ParseFixedPointOfJoin` | src/App.jsx:94 | `parseFloat` of `whole.frac` gives the whole part plus the fraction the digits after the point spell |
| `Charge.SecondsDigitsValue` | src/App.jsx:94 | the padded seconds are at least two digits and spell the seconds; below 100 they are exactly two |
| `Charge.CombineMinutes` | src/App.jsx:93-95 | the combined value lies in [minutes, minutes + 1) and, for seconds below 100, equals minutes + seconds/100 |
| `Charge.CombineWholeSeconds` | src/App.jsx:91-95 | splitting whole seconds t and combining gives (t div 60)·100 + t mod 60 hundredths |
| `Charge.CombinedTotal` | src/App.jsx:90-95 | the figure the rate multiplies is the ledger total read as `M.SS` |
| `Charge.TotalCharge` | src/App.jsx:97 | the charge is the ledger total's `M.SS` reading times the rate |
| `Charge.ChargeNonNegative` | src/App.jsx:97 | with a non-negative rate the charge is non-negative |
| `Charge.MinuteDecimalBelowMinutes` | src/App.jsx:93-97 | the `M.SS` reading never exceeds the true number of minutes t/60, and equals it exactly on whole minutes |
| `Charge.MinuteHundredthsMonotone` | src/App.jsx:93-95 | a longer total never reads as a smaller `M.SS` |
| `Charge.ChargeMonotone` | src/App.jsx:90-97 | at a non-negative rate, a ledger with at least as much total duration is charged at least as much |
| `Charge.CombineExample` | src/App.jsx:93-97 | 1m 30s combines to 1.30, and 1.30 at the default rate 3 is 3.90, shown as 390 cents |
| `Charge.ChargeExample` | src/App.jsx:90-97 | a ledger totalling 90 seconds at the default rate charges exactly 3.90 |
| `Charge.ShowsLabel` | src/App.jsx:162 | the label shows exactly when the charge is at least 150.005, that is, when it rounds to more than 150.00 |
| `Charge.LabelExamples` | src/App.jsx:162 | 150.00 and 150.004 show no label; 150.005 and 150.01 do |
| `Ledger.Resolve` | src/App.jsx:36-47 | a resolved batch gives one entry per upload, in batch order |
| `Ledger.Ingest` | src/App.jsx:48 | after ingesting, the old entries come first and unchanged, followed by one entry per upload in batch order |
| `Ledger.IngestEmptyBatch` | src/App.jsx:48 | an empty batch leaves the ledger unchanged |
| `Ledger.FailedProbeStillAppended` | src/App.jsx:19-48 | an upload whose probe failed or was non-finite is still appended, carrying its id and 0 seconds |
| `Ledger.ResolveAppend` | src/App.jsx:36-47 | resolving two batches joined is the same as joining their resolutions |
| `Ledger.IngestTwice` | src/App.jsx:48 | two batches one after the other give the same ledger as one batch holding both |
| `Ledger.IngestTotal` | src/App.jsx:48 | ingesting adds the batch's durations to the total |
| `Ledger.IngestNeverLowersCharge` | src/App.jsx:48 | at a non-negative rate an upload never lowers the charge |
| `Ledger.IngestKeepsUnique` | src/App.jsx:44-48 | a batch whose ids are distinct and new keeps the ledger's ids unique |
| `Ledger.RemoveById` | src/App.jsx:72-74 | removal never grows the ledger, no entry left carries the id, and an absent id leaves the ledger unchanged |
| `Ledger.RemoveKeepsOthers` | src/App.jsx:72-74 | every entry without the id keeps its number of occurrences; entries with the id are all gone |
| `Ledger.RemoveDistributes` | src/App.jsx:73 | removal from a joined ledger is the join of the removals, so relative order is kept |
| `Ledger.RemoveSingle` | src/App.jsx:73 | a single entry is dropped exactly when it carries the id |
| `Ledger.RemoveIdempotent` | src/App.jsx:72-74 | removing the same id twice equals removing it once |
| `Ledger.RemoveCommutes` | src/App.jsx:72-74 | removals of two ids can be done in either order |
| `Ledger.RemoveKeepsUnique` | src/App.jsx:72-74 | removal keeps ids unique |
| `Ledger.RemoveUnique` | src/App.jsx:72-74 | with unique ids, removal drops exactly one entry when the id is present and none otherwise, and the total loses that entry's duration |
| `Ledger.RemoveTotalBound` | src/App.jsx:72-74 | removal never increases the total |
| `Ledger.RemoveNeverRaisesCharge` | src/App.jsx:72-74 | at a non-negative rate a removal never raises the charge |
| `Ledger.RateFromInput` | src/App.jsx:146 | a rate input that is not a number becomes 0, and a number is kept as it is |
| `Ledger.Apply` | src/App.jsx:5-6 | uploads and removals leave the rate alone, and a rate edit leaves the entries alone; an upload keeps the old entries in front and appends one entry per upload in batch order; a removal is `RemoveById`, keeping every entry without the id with its count of copies |
| `Ledger.RunKeepsUnique` | src/App.jsx:44 | any run of uploads, removals and rate edits keeps ids unique, provided each upload brings fresh ids |
| `Ledger.Rows` | src/App.jsx:202-203 | there is one row per entry, each splitting that entry's duration into minutes and seconds below 60 |
| `Ledger.Summarise` | src/App.jsx:89-97 | the summary's total splits the ledger total; its charge is the `M.SS` reading priced at the rate; its label flag matches the 150.005 threshold; each row splits its entry into minutes and seconds below 60 |

## Left out

- The metadata probe (src/App.jsx:9-32) creates a DOM media element and an object URL, and answers through callbacks. The model takes its outcome as data instead: a finite non-negative duration, a non-finite one, or a failure. The element kind chosen at line 11 only affects how the browser probes, so it is not modelled.
- The `Promise.all` fan-out and join (src/App.jsx:36-47) is concurrency. A batch arrives already resolved, and it is appended in one step, which is what the join guarantees.
- Id generation (src/App.jsx:44) is random. Ids are inputs. Uniqueness is a hypothesis (`FreshBatch`, `FreshRun`), not something the model guarantees.
- Floating point: all arithmetic is on exact reals. Binary rounding effects of doubles (for example in `toFixed` or in `M.SS * rate`) are not modelled.
- `parseFloat` of the rate text (src/App.jsx:146) is left out. The rate edit carries the parsed number, or None for NaN.
- Strings.ParseFixedPoint: models `parseFloat` only on `digits` or `digits.digits` text. Other text gives None, where JavaScript would read a prefix or give NaN. `combineMinutes` only ever builds text of that shape.
- Durations.FormatDuration: requires a non-negative duration. Only sums of non-negative durations reach it, so JavaScript's sign behaviour of `%` for negative numbers is not modelled.
- Drag and drop, the `isDragging` state, the React hooks and all rendering (src/App.jsx:51-70, 99-245) are left out. The shown strings ("2m 5s", "$3.90", the label's text) are left out too. Only the numbers behind them are modelled.
- The label test compares the string from `toFixed(2)` with the number 150. JavaScript converts that string back to a number, so the model compares the cent value numerically.
- Ids are meant to be unique, so a removal is meant to take out at most one entry. The code filters out every entry with the id, and the model follows the code. The two agree when ids are unique (`Ledger.RemoveUnique`).
- The rate field has `min="0"`, but the code keeps any number typed, negatives included, and so does the model. The non-negativity and monotonicity lemmas assume a non-negative rate.
- The source's entry also holds the browser `file` object (src/App.jsx:40). Nothing in the ledger, the totals or the charge reads it, so `MediaEntry` drops it.
