# CLIMADA discount rates and hazard validation, modelled in Dafny

This project models two parts of the CLIMADA climate-risk library. Both are
written as pure functions over immutable datatypes.

- **Discount rates** (`DiscRates`) are a series of (year, rate) entries. They
  are held as two parallel sequences, `years` and `rates`, paired by position.
  The model covers:
  - `check`: one rate per year.
  - `append`: a merge keyed by year. An empty receiver becomes a copy of the
    appended series. Otherwise the result holds the ascending union of the
    years, and the appended side wins on a shared year. The provenance tags
    are merged too.
  - Building an entity from several sources by folding `append` over them.
  - `select`: the entries of a set of years, or "none".
  - `net_present_value`: "none" when the series has no year in the range.
- **Hazard** `check` is an ordered, fail-fast validator of shapes. It checks
  the centroids, the event vectors and the dimensions of the intensity and
  fraction matrices. The base class's `load`, `read` and file constructor
  always fail with "not implemented".

Files:

- `wrappers.dfy`: the `Option`, `Outcome` and `Result` types.
- `checker.dfy`: the shared size checker. It reports the first violated
  requirement. It also renders the error text
  "Invalid <name> size: <expected> != <actual>" and its log line, which ends
  with a full stop.
- `tags.dfy`: provenance tags and their merge.
- `years.dfy`: ascending, duplicate-free year sequences.
- `disc_rates.dfy`: the discount-rate series.
- `hazard.dfy`: the hazard shape validation and the base-class file
  operations.

Design notes:

- A series is read as a dictionary from year to rate (`AsMap`). It is filled
  in index order, so a later entry for a year overrides an earlier one.
  `append` is then stated as a dictionary union in which the appended side
  wins. Onto a non-empty receiver, the result's years are that union's keys in
  ascending order.
- The error text and the log line differ:
  - The hazard tests compare the raised error's text, which has no full stop
    (`Checker.Message`).
  - The discount-rate test compares the logged line, which ends with a full
    stop (`Checker.LogLine`).

## Model

| member | source | states |
|---|---|---|
| Checker.Validate | climada/hazard/test/test_base.py:32-80 | Validation passes exactly when every size requirement holds. Otherwise it reports the first violated requirement in order: all earlier ones hold, and the reported sizes differ. |
| Checker.ValidateReportsFirst | climada/hazard/test/test_base.py:32-80 | If every requirement before position k holds and the one at k does not, the error is exactly the one for position k. |
| Checker.ParseNatToString | climada/entity/disc_rates/test/test_base.py:26 | The sizes printed in a message read back to the same numbers. |
| Checker.NatToStringInjective | climada/entity/disc_rates/test/test_base.py:26 | Different sizes never print as the same text. |
| Checker.NatToString | climada/entity/disc_rates/test/test_base.py:26 | A size is printed as a non-empty string of decimal digits with no leading zero. |
| Checker.MessageSizesReadBack | climada/hazard/test/test_base.py:39-40 | For one field name, the error text "Invalid <name> size: <expected> != <actual>" determines both sizes: two errors with the same text are the same error. |
| Checker.LogLineReadBack | climada/entity/disc_rates/test/test_base.py:26 | The logged line is the error text followed by a full stop, and for one field name it determines both sizes. |
| Tags.MergeIdempotent | climada/entity/disc_rates/test/test_base.py:64-84 | Merging a tag with an identical tag leaves the file name and the description unchanged. |
| Tags.JoinInjective | climada/entity/disc_rates/test/test_base.py:108-109 | With the receiver's text fixed, the appended text can be read back from the joined text: different appended texts never join to the same text. |
| Tags.MergeInjective | climada/entity/disc_rates/test/test_base.py:45-62 | Merging into a given tag records the appended tag recoverably, both when the receiver has no file name and takes the other tag, and when the texts are joined. |
| DiscountRates.Check | climada/entity/disc_rates/test/test_base.py:17-26 | `check` passes exactly when there are as many rates as years. A failure names DiscRates.rates, with the year count as the expected size and the rate count as the actual size. |
| DiscountRates.CheckWrongRatesExample | climada/entity/disc_rates/test/test_base.py:17-26 | Two rates for one year fail the check and log "Invalid DiscRates.rates size: 1 != 2.". |
| DiscountRates.AsMapLastEntry | climada/entity/disc_rates/test/test_base.py:86-88 | Years act as keys: an entry that no later entry repeats gives its year's rate in the dictionary view. |
| DiscountRates.AsMapDetermines | climada/entity/disc_rates/test/test_base.py:57-58 | Two series with ascending years are equal exactly when their year-to-rate dictionaries are equal. |
| DiscountRates.MergedYears | climada/entity/disc_rates/test/test_base.py:104-105 | The merged years ascend strictly. They are the union of both year sets, and there are as many of them as distinct years. |
| DiscountRates.Append | climada/entity/disc_rates/test/test_base.py:45-109 | The result passes `check` and carries the merged tag. Onto an empty receiver it has exactly the appended years and rates. Onto a non-empty receiver its years are the ascending union of both year sets, each once. In both cases its dictionary is the receiver's dictionary overridden by the appended one. |
| DiscountRates.AppendRateAt | climada/entity/disc_rates/test/test_base.py:98-107 | Each rate merged onto a non-empty receiver is the rate the overriding dictionary union gives its year. |
| DiscountRates.AppendOtherWins | climada/entity/disc_rates/test/test_base.py:98-107 | Every entry of the appended series that no later appended entry repeats appears in the result with its own rate, including on shared years. |
| DiscountRates.AppendReceiverKept | climada/entity/disc_rates/test/test_base.py:92-107 | An entry of the receiver whose year no later receiver entry repeats and the appended side lacks appears in the result with the receiver's rate. |
| DiscountRates.AppendToEmpty | climada/entity/disc_rates/test/test_base.py:45-62 | Appending any series to an empty entity yields exactly that series: the same years in the same order, rates, file name and description. |
| DiscountRates.AppendSameSeries | climada/entity/disc_rates/test/test_base.py:64-84 | Appending the same ascending years and rates leaves them unchanged, with no concatenation. Only the tags are merged. |
| DiscountRates.AppendIdentical | climada/entity/disc_rates/test/test_base.py:64-84 | Appending an entity with ascending years to a copy of itself gives back the same entity. |
| DiscountRates.AppendOverrideExample | climada/entity/disc_rates/test/test_base.py:86-109 | Appending [2000, 2001, 2003] with rates [0.11, 0.22, 0.33] to [2000, 2001, 2002] with rates [0.1, 0.2, 0.3] gives years 2000..2003 with rates [0.11, 0.22, 0.3, 0.33]. The tag becomes "file1.txt + file2.txt" / "descr1 + descr2". |
| DiscountRates.FromSources | climada/entity/disc_rates/test/test_base.py:114-120 | An entity built from several sources passes `check`. Its years are the union of every source's years, and they ascend when every source's years do. |
| DiscountRates.ReadSameFileTwice | climada/entity/disc_rates/test/test_base.py:114-120 | Reading the same file twice with two descriptions keeps the file name once and joins the descriptions with " + ". This holds for any series. The combined series has the same set of years, and an ascending series comes back unchanged. |
| DiscountRates.FilterInSubsequence | climada/entity/disc_rates/test/test_base.py:124-136 | The filtered entries keep their original relative order. |
| DiscountRates.FilterInCounts | climada/entity/disc_rates/test/test_base.py:124-136 | Every entry whose year is in range is kept, as often as it occurs. |
| DiscountRates.Select | climada/entity/disc_rates/test/test_base.py:124-147 | The result is none exactly when no year is in the range. Otherwise it holds exactly the in-range entries, in original order, with their rates and the same tag. |
| DiscountRates.FilterInBlock | climada/entity/disc_rates/test/test_base.py:124-136 | When membership in the range is decided by the position lo <= i < hi, the filter keeps exactly the slice [lo, hi). |
| DiscountRates.SelectBlock | climada/entity/disc_rates/test/test_base.py:124-136 | When the years in range are exactly those at positions lo..hi, the selection is that block of years and rates, with the same tag. |
| DiscountRates.SelectConsecutive | climada/entity/disc_rates/test/test_base.py:124-136 | On consecutive years, selecting a consecutive sub-range returns that range with the rates at the matching positions. |
| DiscountRates.SelectExample | climada/entity/disc_rates/test/test_base.py:124-136 | Selecting 2010..2019 from 2000..2049 gives years 2010..2019 and rates[10:20]. |
| DiscountRates.SelectDisjointExample | climada/entity/disc_rates/test/test_base.py:138-147 | Selecting 2050..2059 from 2000..2049 gives none. |
| DiscountRates.NetPresentValue | climada/entity/disc_rates/test/test_base.py:163-171 | The net present value is none exactly when no year of the series lies within [year_start, year_end]. |
| DiscountRates.NetPresentValueDisjointExample | climada/entity/disc_rates/test/test_base.py:163-171 | For years 2000..2049, the range 2050..2060 gives none. |
| DiscountRates.NetPresentValueOfBlock | climada/entity/disc_rates/test/test_base.py:151-161 | When the years in the range are exactly those at positions lo..hi, one per cash flow, the net present value discounts each cash flow with the rate at the matching position of that block. |
| DiscountRates.BlockYearsAscending | climada/entity/disc_rates/test/test_base.py:151-161 | On ascending years, a block of positions holding exactly the years of a range of the same length holds that range's years in order. So the cash flow at offset k is discounted with the rate of year yearStart + k. |
| DiscountRates.NetPresentValueNonNegative | climada/entity/disc_rates/test/test_base.py:151-161 | Non-negative cash flows have a non-negative net present value. |
| DiscountRates.NetPresentValueZeroRates | climada/entity/disc_rates/test/test_base.py:151-161 | With every rate zero, when the years in the range are exactly those at positions lo..hi, one per cash flow, the net present value is the plain sum of all the cash flows. |
| DiscountRates.DiscountedZeroRates | climada/entity/disc_rates/test/test_base.py:151-161 | Discounting at zero rates leaves the summed cash flows unchanged. |
| DiscountRates.Discounted | climada/entity/disc_rates/test/test_base.py:151-161 | The discounted sum of non-negative cash flows is non-negative when every rate is above -1. |
| Hazards.CheckCentroids | climada/hazard/test/test_base.py:32-40 | The centroid check passes exactly when there are as many region ids and coordinate rows as ids. A failure uses the id count as the expected size. |
| Hazards.HazardChecksHold | climada/hazard/test/test_base.py:15-30 | All of the hazard's size requirements hold exactly when the hazard is consistent. |
| Hazards.Check | climada/hazard/test/test_base.py:32-80 | The hazard check passes exactly on a consistent hazard. A failure reports differing sizes, and inconsistent centroids are reported first. |
| Hazards.GoodHazard | climada/hazard/test/test_base.py:15-30 | The reference hazard, with three events, two centroids and 3x2 matrices, is consistent. |
| Hazards.GoodHazardPasses | climada/hazard/test/test_base.py:15-30 | The reference hazard passes the check. |
| Hazards.CheckWrongRegionId | climada/hazard/test/test_base.py:32-40 | In a consistent hazard, changing only the region ids to a wrong count raises exactly the Centroids.region_id error: id count expected, region id count actual. |
| Hazards.CheckWrongFrequency | climada/hazard/test/test_base.py:42-50 | In a consistent hazard, changing only the frequencies to a wrong count raises exactly the Hazard.frequency error against the event count. |
| Hazards.CheckWrongIntensityRows | climada/hazard/test/test_base.py:52-60 | In a consistent hazard, changing only the intensity row count raises exactly the Hazard.intensity row error against the event count. |
| Hazards.CheckWrongFractionColumns | climada/hazard/test/test_base.py:62-70 | In a consistent hazard, changing only the fraction column count raises exactly the Hazard.fraction column error against the centroid count. |
| Hazards.CheckWrongEventName | climada/hazard/test/test_base.py:72-80 | In a consistent hazard, a non-empty name list of the wrong length raises exactly the Hazard.event_name error against the event count. |
| Hazards.WrongCentroidsMessage | climada/hazard/test/test_base.py:32-40 | For the reference hazard, four region ids raise "Invalid Centroids.region_id size: 2 != 4". |
| Hazards.WrongFrequencyMessage | climada/hazard/test/test_base.py:42-50 | For the reference hazard, two frequencies raise "Invalid Hazard.frequency size: 3 != 2". |
| Hazards.WrongIntensityMessage | climada/hazard/test/test_base.py:52-60 | For the reference hazard, a 2x2 intensity matrix raises "Invalid Hazard.intensity row size: 3 != 2". |
| Hazards.WrongFractionMessage | climada/hazard/test/test_base.py:62-70 | For the reference hazard, a 3x1 fraction matrix raises "Invalid Hazard.fraction column size: 2 != 1". |
| Hazards.WrongEventNameMessage | climada/hazard/test/test_base.py:72-80 | For the reference hazard, one event name raises "Invalid Hazard.event_name size: 3 != 1". |
| Hazards.Load | climada/hazard/test/test_base.py:82-86 | `load` on the base hazard fails with not-implemented for every hazard and file name. |
| Hazards.Read | climada/hazard/test/test_base.py:88-92 | `read` on the base hazard fails with not-implemented for every hazard and file name. |
| Hazards.FromFile | climada/hazard/test/test_base.py:94-97 | Constructing the base hazard from a file fails with not-implemented for every file name. |

## Left out

- Reading discount rates from spreadsheet or MAT files is not modelled, and neither are `get_def_file_var_names` and `READ_SET`. They depend on external files and on constants that are not part of this model. `FromSources` takes the entities already read.
- The MATLAB/HDF5 readers for impact functions and measures are not modelled (`climada/entity/impact_funcs/test/test_mat.py`, `climada/entity/measures/test/test_mat.py`). They are file-format input over data that is not part of this model.
- DiscountRates.NetPresentValue: computed over exact reals, not floating point, so the exact value 1.215049630691397e11 of the test is not reproduced. The model divides the cash flow at offset i by one plus its rate, compounded i times, and sums the terms from the first year on.
- DiscountRates.NetPresentValue: requires every rate to be above -1, so rates at or below -1 are excluded. At a rate of -100% the division is by zero, and floating-point infinities are not modelled. Rates below -1 are excluded because Discounted guarantees a non-negative sum for non-negative cash flows, and that needs every rate above -1. Below -1 the factor (1 + rate) is negative and odd powers flip the sign.
- DiscountRates.NetPresentValue: requires one cash flow per year of the range; a cash-flow list of another length has no modelled error path.
- DiscountRates.NetPresentValue: when the range is only partly covered, the cash flows are paired with the selected rates by position, not by year, over as many positions as both have. The tests only show a fully covered and a disjoint range.
- DiscountRates.Select: a partly covered range returns the covered entries. The tests only show a fully covered and a disjoint range.
- DiscountRates.Select: the selection keeps the receiver's tag. The tests do not inspect the tag of a selection.
- DiscountRates.Append: requires both operands to pass `check`. No test appends a malformed series.
- DiscountRates.Append: a later entry for a year overrides an earlier one within a series, as in a dictionary. The tests only use series without repeated years.
- DiscountRates.AppendIdentical: holds for ascending years only. Appending a non-empty series whose years do not ascend to itself returns its years sorted (`AppendIdenticalSorts`), because every append onto a non-empty receiver sorts the union. An empty receiver is copied as is (`AppendToEmpty`), so the test's ascending years come back unchanged in both tests.
- Tags.Merge: a tag is a pair of texts, and every merge joins the texts accumulated so far. A list of sources kept after more than two merges is not modelled; no test merges more than two tags.
- Tags.Merge: appending a tag with no file name onto a named tag leaves a trailing " + " on both texts (`MergeEmptyOther`). No test shows this case.
- Logging is not modelled as a side effect. Only the text of the logged line is modelled (`Checker.LogLine`).
- Hazards.Check: the checks run in this order: centroids, frequency, event names, intensity rows and columns, fraction rows and columns. The tests change one field at a time, so the order is not fixed by them.
- Hazards.Check: an empty event-name list is not checked against the event count. The message text for a wrong coordinate row count ("Centroids.coord") is not shown by any test.
- Sparse-matrix storage, numpy array types and coordinate values are not modelled. Matrices are modelled by their dimensions only.
- Format-specific hazard subclasses, which would implement `load` and `read`, are not part of this model.
