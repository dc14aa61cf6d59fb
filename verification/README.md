# NikEatMobile core in Dafny

A model of the logic inside NikEatMobile, a React Native helper for people with
diabetes.

## What is modelled

- **Dosing and timestamps.**
  - Residual active insulin decays linearly over 120 minutes and is rounded half up to one decimal.
  - The recommended dose is a ceiling of carbs × ratio, plus a glucose correction, minus the residual once more than 30 minutes have passed.
  - Timestamps are the fixed `DD.MM.YY HH:mm` text, parsed into `new Date` arguments and compared as a linear minute count.
- **Input parsing.**
  - `parseNumber`: the first comma becomes a point, then `parseFloat`, with 0 for anything unreadable.
  - `extractFloat`: strip non-numeric characters, then `Number()`.
  - How a chat completion's content is flattened to text.
  - How a ```` ```json ```` fence is picked out of the reply, the fallback when the JSON does not parse, and the guards of `fetchMacroInfo`.
- **The offline-first store.**
  - Start-up `loadData` publishes the four cached slots, fetches everything, overwrites with the server's values and reconciles active insulin (last writer wins by timestamp).
  - The write-through persistence effects.
  - Pull-to-refresh, which is refused while the server is unreachable.
- **Screen handlers.** Each is a function from (store state, form, reachability, gateway outcomes) to the new state, the alert, and the remote calls made in order.
  - Calculator: default meal, product picker, XE total, dose, save.
  - Products: search, create, edit, delete, cancel.
  - Settings: form seed, edit, save.
  - Timer: the hour/quarter-hour state machine and its duration.

### How the model represents the program

- **Time.** The clock (`new Date()`) is a parameter: a broken-down `Moment` whose instant is computed with days-from-civil.
- **Calls that can fail.** Every remote call and every call that can throw becomes a `Result` value handed in, consumed only on the path where the program makes that call.
- **`JSON.parse`.** An abstract partial function `string -> Option<Value>`.
- **`localeCompare`.** An abstract ranking `string -> real`.
- **JavaScript numbers.** Exact reals. `NaN` and the infinities are a small `Num` datatype where they can arise.
- **Strings.** Sequences of Unicode scalar values, not UTF-16 code units. Lengths, indices and slices (`split`, `padStart`, `slice(-2)`) count characters. The two views differ only for characters outside the Basic Multilingual Plane. The lengths and positions the model relies on are those of digit strings and dates, where such characters do not occur; search, trim and filter treat a surrogate pair the same way as the single character it encodes.

Modules follow the source files:

| module | file |
|---|---|
| `InsulinUtils` | `insulinUtils.ts` |
| `DateUtils` | `dateUtils.ts` |
| `NumberUtils` | `numberUtils.ts` |
| `Store` | `StoreContext.tsx` |
| `Refresh` | `useRefresh.ts` |
| `Calculator` | `CalculatorScreen.tsx` |
| `Products` | `ProductsScreen.tsx` |
| `SettingsScreen` | `SettingsScreen.tsx` |
| `Timer` | `TimerModal.tsx` |
| `MacroAi` | `macroAi.ts` |

Supporting modules:

- `Records`: the records of `src/types/index.ts`.
- `Text`: trim, split, lower case, search.
- `Numbers`: decimal literals, `parseFloat`, `parseInt`, `Number()`.
- `JsMath`: floor, ceil, round.
- `JsValue`: JavaScript values.
- `Seqs`: filter, slice, sort.
- `Wrappers`.

## Model

| member | source | states |
|---|---|---|
| InsulinUtils.ElapsedMinutes | src/utils/insulinUtils.ts:13-16 | the minutes since the stored date: a throw exactly when the date has no space, NaN exactly when a field is not a number, else the floored minute difference from the parsed date to now |
| InsulinUtils.Residual | src/utils/insulinUtils.ts:19-20 | below 120 minutes the residual is the linear share value/120 × (120 − elapsed), rounded half up to one decimal (within 0.05 of the exact share, on a tenth) |
| InsulinUtils.CalculateActiveInsulin | src/utils/insulinUtils.ts:10-21 | no record gives 0; an unsplittable date throws; an unparsable one gives NaN; 120 or more elapsed minutes give exactly 0, fewer give the rounded linear residual |
| InsulinUtils.PassedTime | src/utils/insulinUtils.ts:26-32 | no record gives 0 minutes, else the elapsed minutes from the stored date to now |
| InsulinUtils.IsInsulinActive | src/utils/insulinUtils.ts:37-45 | no record is inactive; an unsplittable date throws; an unparsable date is inactive; otherwise active exactly when less than two hours separate the parsed date from now, in exact milliseconds |
| InsulinUtils.ActiveIffBeforeCutoff | src/utils/insulinUtils.ts:17-44 | the insulin counts as active exactly when the elapsed time is below the cut-off that zeroes the residual |
| InsulinUtils.ResidualNonIncreasing | src/utils/insulinUtils.ts:17-20 | for a non-negative dose the rounded residual never grows as minutes pass and stays non-negative |
| InsulinUtils.ActiveInsulinNonIncreasing | src/utils/insulinUtils.ts:10-21 | for a non-negative dose, a later clock never yields more active insulin, including across the 120-minute cut-off |
| InsulinUtils.GlucoseCorrection | src/utils/insulinUtils.ts:57-58 | the correction is 0 up to glucose 7 and (glucose − 7)/3 above it, never negative |
| InsulinUtils.CalculateInsulinDose | src/utils/insulinUtils.ts:50-62 | the dose is the smallest integer not below need − residual after more than 30 minutes, and not below need itself at 30 minutes or less; a NaN residual past 30 minutes gives NaN |
| InsulinUtils.DoseMonotoneInXE | src/utils/insulinUtils.ts:57-61 | with a non-negative ratio, more XE never lowers the dose |
| InsulinUtils.DoseMonotoneInGlucose | src/utils/insulinUtils.ts:57-61 | higher glucose never lowers the dose |
| InsulinUtils.DoseExamples | src/utils/insulinUtils.ts:59-61 | XE 3, glucose 10, ratio 2, residual 3 gives 4 after 60 minutes and 7 at exactly 30 |
| InsulinUtils.DoseNotClamped | src/utils/insulinUtils.ts:57-61 | a residual larger than the need gives a negative dose, returned as it is |
| InsulinUtils.ResidualExample | src/utils/insulinUtils.ts:19-20 | 6 units after 60 minutes leave 3 |
| DateUtils.MinutesDiff | src/utils/dateUtils.ts:33-35 | the whole minutes from b to a, rounded down: the result times 60000 is within one minute below the millisecond difference |
| DateUtils.MinutesDiffSame | src/utils/dateUtils.ts:33-35 | an instant is 0 minutes from itself |
| DateUtils.MinutesDiffAligned | src/utils/dateUtils.ts:33-35 | minute-aligned instants differ by exactly their minute counts |
| DateUtils.ParseDate | src/utils/dateUtils.ts:4-15 | parsing throws exactly when the text has no space (the time part is undefined) |
| DateUtils.FormatDateShape | src/utils/dateUtils.ts:20-28 | for a four-digit year the formatted date has 14 characters with '.' at 2 and 5, ' ' at 8 and ':' at 11, all else digits |
| DateUtils.ParseCivilText | src/utils/dateUtils.ts:4-28 | the text of any well-formed date-time of 2000-2099 parses back to the same day, month, year, hour and minute |
| DateUtils.FormatParseRoundTrip | src/utils/dateUtils.ts:4-28 | parseDate(formatDate(d)) is d truncated to the minute, for years 2000-2099 |
| DateUtils.SameDayLater | src/contexts/StoreContext.tsx:120-126 | moving the hour of a date moves its instant by exactly 60 minutes per hour, so later times on a day compare as later |
| DateUtils.ParseDateExamples | src/utils/dateUtils.ts:4-15 | "02.01.25 10:00" reads as 2 January 2025 10:00, and "02.01.25 09:00" as 09:00 |
| DateUtils.FormatDuration | src/utils/dateUtils.ts:40-48 | 60 minutes or more print as hours ≥ 1 and 0-59 minutes that add back to the input; 0-59 print as minutes alone; negative input prints the truncated remainder |
| NumberUtils.ParseNumber | src/utils/numberUtils.ts:15-17 | blank text reads as 0 |
| NumberUtils.ParseNumberLongest | src/utils/numberUtils.ts:15-25 | away from blank text, the value of the longest decimal prefix after leading spaces once the first comma is a point, or 0 when there is none, so never NaN |
| NumberUtils.ParseNumberPoint | src/utils/numberUtils.ts:8 | '1.5' reads as 1.5 |
| NumberUtils.ParseNumberComma | src/utils/numberUtils.ts:9 | '1,5' reads as 1.5 |
| NumberUtils.ParseNumberInteger | src/utils/numberUtils.ts:10 | '10' reads as 10 |
| NumberUtils.ParseNumberEmpty | src/utils/numberUtils.ts:11 | '' reads as 0 |
| NumberUtils.ParseNumberLetters | src/utils/numberUtils.ts:12 | 'abc' reads as 0 |
| Numbers.ParseFloatLongest | src/utils/numberUtils.ts:22 | parseFloat: no number exactly when no decimal literal starts the text after leading spaces, else the value of the longest such literal |
| Numbers.ScanDecimalIsLongest | src/utils/numberUtils.ts:22 | the scanner stops at the end of the longest decimal-literal prefix, and finds none exactly when there is none |
| Numbers.NatToStringRoundTrip | src/utils/dateUtils.ts:21-25 | the decimal text of a number reads back as that number |
| Numbers.ParseIntMeans | src/utils/dateUtils.ts:9-14 | parseInt with the default radix: after leading spaces and an optional sign, a `0x`/`0X` prefix switches to hexadecimal digits; no number exactly when no digit of the radix follows, and never negative without a sign |
| Numbers.ParseIntHex | src/utils/dateUtils.ts:9-14 | parseInt("0x10") is 16 |
| Numbers.ParseIntSignedHex | src/utils/dateUtils.ts:9-14 | parseInt("-0X1f") is −31: the sign comes before the prefix and capital hexadecimal digits count |
| Numbers.ParseIntBarePrefix | src/utils/dateUtils.ts:9-14 | parseInt("0x") is NaN |
| Numbers.StringToNumber | src/services/macroAi.ts:28 | Number(): blank text is 0, other text is a number exactly when all of it, trimmed, is a decimal literal |
| Text.Split | src/utils/dateUtils.ts:6-8 | split on a character: the pieces contain no separator and join back to the input |
| Text.Trim | src/services/macroAi.ts:51-56 | trimmed text starts and ends with no white space and is empty exactly when the input is blank |
| Text.TrimIdempotent | src/services/macroAi.ts:125 | trimming twice is trimming once |
| Text.ReplaceFirst | src/services/macroAi.ts:125 | replace: only the first occurrence of the pattern is replaced, and text without it is unchanged |
| Text.ReplaceFirstChar | src/utils/numberUtils.ts:21 | replace(',', '.'): only the first comma changes and the length is kept |
| Text.LowerExamples | src/screens/ProductsScreen.tsx:31 | `toLowerCase` lowers the accented capital of "Éclair" and the Cyrillic capital of "Хлеб" |
| JsMath.Round1Monotone | src/utils/insulinUtils.ts:20 | rounding to one decimal is monotone |
| JsMath.TruncRem | src/utils/dateUtils.ts:42 | JavaScript `%`: the remainder differs from the dividend by a multiple of the divisor, takes the sign of the dividend and is smaller than the divisor |
| Store.PublishCache | src/contexts/StoreContext.tsx:51-59 | each present cached slot is published and an absent one leaves its value as it was; an undecodable products slot publishes nothing |
| Store.LaterThan | src/contexts/StoreContext.tsx:89-126 | the local-versus-server date comparison throws exactly when either date has no space, and is true exactly when both parse and the local instant is strictly later |
| Store.EnrichedGlucose | src/contexts/StoreContext.tsx:72-84 | with a truthy server glucose, the enrichment result on success and the server value on failure; otherwise the server value |
| Store.ReconcileInsulin | src/contexts/StoreContext.tsx:86-102 | the active-insulin reconciliation leaves products, settings, glucose and loading as the sync set them |
| Store.LoadData | src/contexts/StoreContext.tsx:112-114 | loading ends on every path |
| Store.OfflineStartPublishesCache | src/contexts/StoreContext.tsx:56-108 | when the fetch fails, every cached slot stays published as cached, reachability becomes false, and the fetch is the only call |
| Store.MalformedSlotSkipsSync | src/contexts/StoreContext.tsx:56-111 | a cached value that does not decode skips the sync: no remote call, unreachable, loading done |
| Store.SyncOverwrites | src/contexts/StoreContext.tsx:63-84 | after a successful fetch products, settings and glucose hold the server values, whatever happens to active insulin |
| Store.LocalNewerIsPushed | src/contexts/StoreContext.tsx:88-107 | a strictly later cached dose is pushed and published, and the app is reachable exactly when the push succeeds |
| Store.ServerNotOlderWins | src/contexts/StoreContext.tsx:88-99 | an equal or later server dose is published, nothing is pushed, and the app is reachable |
| Store.NoLocalDose | src/contexts/StoreContext.tsx:100-102 | with no cached dose the server's is published if there is one and null stays null otherwise |
| Store.UnsplittableDateGoesOffline | src/contexts/StoreContext.tsx:87-107 | with both doses present and a date without a space, the cached dose stays, nothing is pushed and the app is marked unreachable though the fetch succeeded |
| Store.ServerWithoutDoseKeepsLocal | src/contexts/StoreContext.tsx:86-104 | a cached dose with none on the server stays published, nothing is pushed and the app is reachable |
| Store.Persisted | src/contexts/StoreContext.tsx:129-143 | a non-null value is written to its slot, a null one leaves the slot as it was |
| Store.Persist | src/contexts/StoreContext.tsx:129-143 | persistence never clears a stored slot and keeps a decodable cache decodable |
| Store.PersistLoadRoundTrip | src/contexts/StoreContext.tsx:51-143 | what is written through is published again by an offline start, and a null value leaves the older cached one |
| Store.LaterCachedDoseScenario | src/contexts/StoreContext.tsx:88-92 | a dose stored at 10:00 is later than one at 09:00 the same day; equal times are not later |
| Refresh.OnRefresh | src/hooks/useRefresh.ts:12-52 | offline: only the info alert; a failed fetch: the error alert and no store change; success: server products, settings and active insulin, glucose as enriched, the success alert; refreshing goes true then false; reachability never changes |
| Refresh.RefreshForgetsOldValues | src/hooks/useRefresh.ts:27-43 | a successful refresh keeps nothing of the previous store values |
| Refresh.RefreshIdempotent | src/hooks/useRefresh.ts:27-43 | refreshing twice with the same answers is refreshing once |
| Refresh.RefreshIgnoresTimestamps | src/hooks/useRefresh.ts:29 | unlike the start-up sync, a refresh takes the server's dose even when the stored one is later |
| Calculator.DefaultMeal | src/screens/CalculatorScreen.tsx:27-30 | hours 7-11 give breakfast, hours up to 6 and 12-17 give lunch, 18 and later give dinner |
| Calculator.InitialForm | src/screens/CalculatorScreen.tsx:24-34 | the screen opens with the default meal, nothing picked and empty texts |
| Calculator.FilteredProducts | src/screens/CalculatorScreen.tsx:36-42 | exactly the loaded products not yet picked whose names contain the query ignoring case, each as many times as it is listed, ordered by name |
| Calculator.Dropdown | src/screens/CalculatorScreen.tsx:179 | nothing for an empty query, else the first five filtered products, or all of them when fewer |
| Calculator.TotalXE | src/screens/CalculatorScreen.tsx:47-51 | the XE total is Σ value × count rounded to one decimal: within 0.05 of the exact sum, on a tenth |
| Calculator.TotalValue | src/screens/CalculatorScreen.tsx:53-58 | the dose uses parseNumber of the glucose text and the meal's ratio or 0; it throws exactly when the stored date has no space; with no stored dose it is the ceiling of XE × ratio + correction: a whole number at most 1 above that need |
| Calculator.AddProduct | src/screens/CalculatorScreen.tsx:60-63 | the product is appended with count 1 and the query is cleared |
| Calculator.AddProductSum | src/screens/CalculatorScreen.tsx:47-63 | adding a product raises the exact XE sum by its value |
| Calculator.UpdateProductCount | src/screens/CalculatorScreen.tsx:65-69 | only entry i changes, to the parsed count |
| Calculator.RemoveProduct | src/screens/CalculatorScreen.tsx:71-73 | exactly entry i is dropped and the others keep their order |
| Calculator.RemoveUndoesAdd | src/screens/CalculatorScreen.tsx:60-73 | removing what was just added restores the picked list |
| Calculator.SaveEnabledMeans | src/screens/CalculatorScreen.tsx:215-217 | save is enabled exactly when no save is in flight and the dose is positive |
| Calculator.NewInsulin | src/screens/CalculatorScreen.tsx:81-85 | the saved record has the stored id or 1, the formatted clock and the dose |
| Calculator.HandleSave | src/screens/CalculatorScreen.tsx:75-102 | pushes the record only when reachable; a failed push changes nothing but the error alert; otherwise the record is stored, the form cleared and success shown |
| Calculator.SavedDoseReadsBack | src/screens/CalculatorScreen.tsx:81-95 | a saved dose's date parses back to the save's clock, so no time has passed right after |
| Products.Search | src/screens/ProductsScreen.tsx:30-32 | exactly the loaded products whose names contain the query ignoring case, each as many times as it is listed; nothing while unloaded |
| Products.SearchKeepsOrder | src/screens/ProductsScreen.tsx:30-32 | searching never reorders: a concatenation's matches are each part's matches in turn |
| Products.EmptySearchShowsAll | src/screens/ProductsScreen.tsx:30-32 | an empty query shows the whole list |
| Products.SavedValueAsWritten | src/screens/ProductsScreen.tsx:47-60 | the saved value is NaN exactly when the value text starts with no number |
| Products.GuardAdmitsNaN | src/screens/ProductsScreen.tsx:35-60 | the guard as written accepts the value text "," whose value is NaN |
| Products.SavedValue | src/screens/ProductsScreen.tsx:47-60 | a form the corrected guard accepts saves a finite number |
| Products.FilledSavesNumber | src/screens/ProductsScreen.tsx:35-38 | the corrected guard accepts exactly the forms the written guard accepts whose value is a number |
| Products.ReplaceById | src/screens/ProductsScreen.tsx:54 | every product with the id becomes the updated one, every other stays |
| Products.ReplaceKeepsIds | src/screens/ProductsScreen.tsx:44-54 | replacing with a record of the same id keeps every position's id |
| Products.FindById | src/screens/ProductsScreen.tsx:105 | the first product with the id, or none exactly when no product has it |
| Products.SaveEdit | src/screens/ProductsScreen.tsx:42-85 | pushes the update only when reachable; success replaces the edited product and clears the form; a failed push or unloaded list leaves list and form with the error alert |
| Products.SaveCreate | src/screens/ProductsScreen.tsx:57-85 | reachable: create then reload, the list becomes the server's only if both succeed; offline: append under the clock's id; failure leaves list and form |
| Products.HandleSave | src/screens/ProductsScreen.tsx:34-89 | an unfilled form changes nothing and shows the dialog; otherwise it edits or creates with the trimmed name and parsed value |
| Products.OfflineCreateAppends | src/screens/ProductsScreen.tsx:68-74 | an offline create keeps the old list as a prefix and adds one product with the clock's id |
| Products.EditChangesOnlyTarget | src/screens/ProductsScreen.tsx:42-54 | an edit keeps positions and ids, changes only the edited product, and gives it the trimmed name and parsed value |
| Products.HandleDelete | src/screens/ProductsScreen.tsx:97-118 | the remote delete happens only when found and reachable; unless it fails, every copy of every product with the id leaves the list and every other product keeps its count; a failure keeps the list; the name/value form is never touched |
| Products.DeleteUndoesOfflineCreate | src/screens/ProductsScreen.tsx:68-110 | deleting a product just created offline under a fresh id restores the old list |
| Products.DropFresh | src/screens/ProductsScreen.tsx:109 | filtering out a fresh id appended at the end gives back the list before it |
| Products.HandleCancel | src/screens/ProductsScreen.tsx:120-124 | cancel clears name, value and the edited product |
| Products.SaveClearsLikeCancel | src/screens/ProductsScreen.tsx:80-124 | a successful save leaves the form as cancel would |
| SettingsScreen.DefaultForm | src/screens/SettingsScreen.tsx:21-27 | the form starts with 0 for the two long-acting doses and the three meals, and nothing else |
| SettingsScreen.Seed | src/screens/SettingsScreen.tsx:30-34 | once the store holds settings the form becomes them |
| SettingsScreen.TypedValue | src/screens/SettingsScreen.tsx:39 | parseFloat of the text, or 0 when it has no number |
| SettingsScreen.HandleChange | src/screens/SettingsScreen.tsx:36-41 | only the named field changes, to the typed value |
| SettingsScreen.ChangesCommute | src/screens/SettingsScreen.tsx:36-41 | the last edit of a field wins and edits of different fields commute |
| SettingsScreen.TypedValueAgreesWithParseNumber | src/screens/SettingsScreen.tsx:39 | without a comma the field reads the text as parseNumber does |
| SettingsScreen.CommaIsNotADecimalPoint | src/screens/SettingsScreen.tsx:39 | with a comma the two readings part: "1,5" is 1 here and 1.5 for parseNumber |
| SettingsScreen.ToSave | src/screens/SettingsScreen.tsx:46-49 | the saved record is the form with the stored id, or 1 when there is none |
| SettingsScreen.HandleSave | src/screens/SettingsScreen.tsx:43-63 | pushes only when reachable; success stores the record; a failed push leaves store settings and shows the error |
| SettingsScreen.SaveReseeds | src/screens/SettingsScreen.tsx:30-56 | after a save the form seeded from the store is the saved record, and saving it again changes nothing |
| Timer.Adjust | src/components/TimerModal.tsx:24-39 | hours clamp to 0-23; minutes reaching 60 wrap to 0 with one hour more (at most 23), below 0 wrap to 45 with one hour less (at least 0), otherwise just move; a valid clock stays valid |
| Timer.PressKeepsQuarter | src/components/TimerModal.tsx:116-152 | every button keeps a valid clock on the quarter hour |
| Timer.RunKeepsQuarter | src/components/TimerModal.tsx:21-152 | any presses from a quarter-hour clock leave minutes at 0, 15, 30 or 45 |
| Timer.ReachableFromStart | src/components/TimerModal.tsx:21-22 | every clock reachable from 1:30 is valid and on the quarter hour |
| Timer.TotalSeconds | src/components/TimerModal.tsx:44 | the seconds are hours × 3600 + minutes × 60, under one day for a valid clock |
| Timer.QuarterUpDown | src/components/TimerModal.tsx:29-35 | a quarter up then down restores the clock exactly when it is not 23:45 |
| Timer.QuarterDownUp | src/components/TimerModal.tsx:29-35 | a quarter down then up restores the clock exactly when it is not 0:00 |
| Timer.QuarterUpSeconds | src/components/TimerModal.tsx:29-44 | a quarter up adds 900 seconds everywhere but at 23:45, where the time drops by 2700 |
| MacroAi.KeepNumeric | src/services/macroAi.ts:28 | keeps exactly the digits, points and minus signs, in order |
| MacroAi.ExtractFloat | src/services/macroAi.ts:23-32 | a finite number is itself, NaN and the infinities are null; a string goes through first-comma-to-point, stripping and Number(); anything else is null |
| MacroAi.ExtractFloatDecimal | src/services/macroAi.ts:27-30 | an unsigned or minus-signed decimal literal reads as its value |
| MacroAi.ExtractFloatNoNumber | src/services/macroAi.ts:27-30 | text with no numeric character reads as 0, unless it has a comma, which leaves a lone point and so null |
| MacroAi.TextField | src/services/macroAi.ts:43-55 | the `text` of an object when it is a string |
| MacroAi.Pieces | src/services/macroAi.ts:38-50 | the kept chunks are exactly the non-empty texts of string and `{text}` chunks |
| MacroAi.NormalizeMessageContent | src/services/macroAi.ts:34-57 | a string is returned as it is; an array joins its non-empty pieces with newlines and trims; an object's string text is returned; undefined and null give '' |
| MacroAi.ContentShapes | src/services/macroAi.ts:34-57 | the four shapes of one text: plain, `{text}`, and the two one-chunk arrays, the latter trimmed |
| MacroAi.EmptyChunkIgnored | src/services/macroAi.ts:48-51 | a chunk without text changes nothing in the joined content |
| MacroAi.FindOpener | src/services/macroAi.ts:60 | the first position from which "```json" starts, ignoring ASCII case |
| MacroAi.JsonFenceMeans | src/services/macroAi.ts:60-62 | a fence is found exactly when some opener is followed by a closer, and the body is the text between an opener and a closer |
| MacroAi.FenceFound | src/services/macroAi.ts:60-62 | in plain text, the fence's body is exactly what lies between "```json" and "```" |
| MacroAi.RawJson | src/services/macroAi.ts:60-62 | the text to parse is the trimmed fence body when there is a fence, else the whole trimmed reply |
| MacroAi.FromParsed | src/services/macroAi.ts:71-81 | the five numbers through extractFloat, the note only when a string, the model when a string else "provider (model)", the raw text |
| MacroAi.ParseContent | src/services/macroAi.ts:59-94 | raw text is the trimmed input; a failed or falsy parse gives five nulls, the fixed note and the provider; otherwise the parsed fields |
| MacroAi.FencedReplyParsesBody | src/services/macroAi.ts:59-81 | a reply with a fence is parsed from the fence body alone |
| MacroAi.FetchWith | src/services/macroAi.ts:99-138 | for any fixed instructions, a blank name is refused before anything is sent; a failed request rejects with the prefixed message; otherwise the prompt is stripped from the reply, the rest parsed, and a missing note defaulted |
| MacroAi.FetchAlwaysNotes | src/services/macroAi.ts:130-133 | a successful lookup always carries a note and a trimmed raw text |
| MacroAi.EchoedPromptIsDropped | src/services/macroAi.ts:122-127 | a reply that echoes the prompt before a fenced answer keeps only the fence |
| Seqs.FilterAppend | src/screens/ProductsScreen.tsx:31 | filtering never reorders: a concatenation filters part by part |
| Seqs.FilterCount | src/screens/ProductsScreen.tsx:31 | `filter` keeps every copy of an element that passes and no copy of one that fails |
| Seqs.SortBy | src/screens/CalculatorScreen.tsx:41 | the sort returns a permutation of its input ordered by rank |
| Seqs.SortSorted | src/screens/CalculatorScreen.tsx:41 | sorting a sorted list changes nothing, so sorting twice is sorting once |
| Records.RatioOrZero | src/screens/CalculatorScreen.tsx:56 | the meal's ratio when set, else 0 |
| Records.IdOrOne | src/screens/CalculatorScreen.tsx:82 | the stored id when it is set and non-zero, else 1 |

## Left out

- Storage and the network. `AsyncStorage` reads and writes and every `api` call are parameters or recorded calls.
- Store.Persisted: the cache is modelled at the decoded level: a written value is stored as the value itself, which takes `JSON.parse(JSON.stringify(v))` to be `v`. That fails for a NaN number, which `JSON.stringify` writes as `null`, so a product saved with a NaN value would come back with a null value. Store.PersistLoadRoundTrip states its round trip within this decoded cache and carries the same gap.
  - `JSON.parse` is an abstract partial function.
  - The body-with-`error` rule of the API client is covered by modelling each call as a `Result`.
- Concurrency. `Promise.all` is one result. The detached `calculateGlucose` continuation is applied right after the fetch, as an opaque gateway result that the model does not invent. `calculateGlucose` itself is not defined in `src/services/api.ts`.
- Floating point. Numbers are exact reals, so binary rounding at ties and overflow to Infinity are not modelled. `parseFloat` and `Number()` read plain decimal literals only; exponent and `Infinity` forms are not modelled.
- Time zones, daylight saving and the `Date` constructor's overflow. Instants are a linear local minute count. Out-of-range fields carry linearly.
- `String(number)` in `normalizeMessageContent` is the parameter `show`.
- The model-name interpolation in the prompt is the parameter `modelName`.
- MacroAi.FetchMacroInfo: its contract is stated on `FetchWith`, which takes the fixed instruction text as a parameter `system`. `FetchMacroInfo` is `FetchWith` applied to `SystemPrompt`, so every property holds for it as well.
- The Hugging Face client itself and the `!hf` guard are left out. The guard cannot fire, because the client is always constructed.
- `MacroInfo` is not part of `src/types/index.ts`. The model's record follows the object literals `parseContent` builds.
- `formatNumber` in `numberUtils.ts` is not modelled: it relies on `toFixed` and is not called.
- Not modelled, because they have no logic beyond display:
  - `handleEdit` of the products screen, which only fills the form;
  - rendering, navigation, toasts, the timer's URL opening;
  - the glucose and macro screens.
- `localeCompare` is an abstract ranking of names.
- Text.Lower: `toLowerCase` is modelled for the ASCII, Latin-1 (U+00C0 to U+00DE, without U+00D7) and basic Cyrillic (U+0400 to U+042F) capitals. Every other character is kept unchanged: Greek, Latin Extended and the special cases where one capital lowers to two code units, such as U+0130. A product name in those scripts can be missed by a case-insensitive search that the program would find.
- Seqs.SortBy: stability of `Array.prototype.sort` is not stated; only order, permutation and idempotence are.
- InsulinUtils.ElapsedMinutes: takes the clock as a broken-down moment rather than reading `new Date()`; seconds and milliseconds are kept in the difference.
- Store.LoadData: its contract states only that loading ends. What each path publishes is stated by the lemmas that follow it: OfflineStartPublishesCache, MalformedSlotSkipsSync, SyncOverwrites, LocalNewerIsPushed, ServerNotOlderWins, NoLocalDose, UnsplittableDateGoesOffline and ServerWithoutDoseKeepsLocal.
- Store.ReconcileInsulin: its contract states only what it leaves untouched. Each of its five branches is stated through LoadData: LocalNewerIsPushed, ServerNotOlderWins, UnsplittableDateGoesOffline, NoLocalDose and ServerWithoutDoseKeepsLocal. A stored text that decodes to `null` is modelled as an absent entry, since both publish `null`.
- Calculator.TotalValue: the dose with a stored record is stated through InsulinUtils.CalculateInsulinDose rather than repeated here.
- Products.HandleSave: uses the corrected guard from the finding below, so a value text without a number is refused instead of saved as NaN.

## Findings

| source | as written | input that shows it | evidently intended | confidence | as-written member | corrected member |
|---|---|---|---|---|---|---|
| src/screens/ProductsScreen.tsx:35-60 | the guard checks only that the value text is non-empty, then saves `parseFloat(value)` | name "Хлеб", value "," passes the guard and saves a product with value NaN | only a value text that starts with a number is saved | medium, not executed | Products.GuardAdmitsNaN | Products.FilledSavesNumber |
