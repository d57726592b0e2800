# Marmara earthquake traffic: a Dafny model

This project models the three Python scripts at the core of a small
earthquake monitor for the Marmara region. Two of them scrape the AFAD
"last earthquakes" page: `verilerial.py` into an SQLite table and `app.py`
into a separate PostgreSQL table. The third, `analiz.py`, reads the SQLite
table that `verilerial.py` fills.

- **`verilerial.py`** is the batch ingester. It scrapes the page, normalises
  the depth and magnitude cells, keeps events inside the Marmara bounding box
  and inserts them into an SQLite table keyed by timestamp
  (`INSERT OR IGNORE`).
- **`app.py`** is the update endpoint. It runs the same scrape into a
  PostgreSQL table (`ON CONFLICT DO NOTHING`). It has different conversion
  rules, a different counter and different error handling.
- **`analiz.py`** is the analysis script. It makes windowed queries on the
  table and runs four analyses on them:
  - the seismic rate, with its rate ratios and its z-score anomaly test
  - spatial clustering within 20 km, and a summary of each cluster
  - the magnitude-threshold counts and the activity comment
  - the Gutenberg-Richter b-value estimate and its 7-day versus 30-day trend

Modules, in dependency order:

| module | file | models |
|---|---|---|
| `Wrappers` | wrappers.dfy | `Option` |
| `Timestamps` | timestamps.dfy | the TEXT order on timestamps, proved a strict total order, and the day key |
| `Catalog` | catalog.dfy | the event row, the store, and `get_earthquakes_in_period` |
| `Stats` | stats.dfy | sum, min, max, mean over reals |
| `Region` | region.dfy | the Marmara box, `is_in_marmara` |
| `SeismicRate` | rate.dfy | `analyze_seismic_rate` |
| `Clustering` | clustering.dfy | the region-growing loop of `analyze_spatial_clustering_advanced` |
| `ClusterSummary` | cluster_summary.dfy | the per-cluster centroid and strongest event |
| `MagnitudeDistribution` | magnitudes.dfy | `analyze_magnitude_distribution` |
| `BValue` | bvalue.dfy | `calculate_b_value`, `analyze_b_value_trend` |
| `ScrapedRows` | rows.dfy | the scraped table as rows of cell texts |
| `Ingest` | ingest.dfy | `save_earthquake_to_db`, `fetch_and_save_earthquakes` |
| `Update` | update.dfy | `save_earthquake`, `fetch_afad` |
| `IngestComparison` | compare.dfy | how the two ingesters agree and where they part |
| `Analysis` | analysis.dfy | the clustering report and one full run of the analysis script |

Some things are parameters of the model rather than parts of it:

- **The wall clock** is a function from a lookback (`hours=` or `days=`) to
  the formatted threshold text.
- **The haversine distance** is any symmetric function of two coordinate
  pairs.
- **`statistics.stdev`** is any function of the list of daily counts.
- **Python's `float()` on a cell** is a parser that may fail.

Every other quantity is computed in exact real arithmetic.

## Model

| member | source | states |
|---|---|---|
| `Timestamps.BeforeTotal` | analiz.py:66-72 | the TEXT comparison the window query uses is total: two distinct timestamps are ordered one way or the other |
| `Timestamps.BeforeTransitive` | analiz.py:66-72 | the TEXT comparison is transitive, so `ORDER BY tarih` is a consistent order |
| `Timestamps.AtOrAfterMeansLaterOrEqual` | analiz.py:70 | the SQL `tarih >= threshold` holds exactly when the timestamp equals the threshold or sorts after it |
| `Catalog.InsertSorted` | analiz.py:71 | placing one more row keeps the result strictly ascending, with exactly the old rows plus the new one |
| `Catalog.SelectSince` | analiz.py:66-74 | the query returns, strictly ascending by timestamp, exactly the stored rows whose timestamp is at or after the threshold |
| `Catalog.AscendingUnique` | analiz.py:71 | two ascending sequences with the same members are equal, so the ordered result is unique |
| `Catalog.GetEarthquakesInPeriod` | analiz.py:50-80 | no lookback or a failing database gives the empty list; when `hours` is given the result is the ascending window since clock(hours), whatever `days` is; otherwise it is the window since clock(days) |
| `Catalog.WindowIsDetermined` | analiz.py:66-74 | two results of the same query on the same store are identical |
| `Stats.Min` | analiz.py:327 | the minimum is an element and lies below every element |
| `Stats.Mean` | analiz.py:232-235 | the length times the mean equals the sum |
| `Stats.MeanBetweenMinAndMax` | analiz.py:232-235 | a mean lies between the minimum and the maximum |
| `Stats.MeanWithin` | analiz.py:232-235 | if every value lies in [lo, hi], so does the mean |
| `Stats.ConstantMean` | analiz.py:330 | the mean of equal values is that value |
| `SeismicRate.AverageDaily` | analiz.py:107 | 30 days times the daily average equals the 30-day count |
| `SeismicRate.AverageHourly` | analiz.py:109 | 720 hours times the hourly average equals the 30-day count |
| `SeismicRate.RateRatios` | analiz.py:115-124 | ratios are computed exactly when the hourly average exceeds 0.1, that is when more than 72 events fall in 30 days; the 6 h ratio is count_6h over six hourly averages; the 24 h ratio is finite and equals count_24h over the daily average |
| `SeismicRate.DailyGuardFollows` | analiz.py:117-121 | once the hourly guard holds, the daily average exceeds 2.4, so the infinite fallback of the 24 h ratio cannot be reached |
| `SeismicRate.Bump` | analiz.py:137 | incrementing one day's counter raises the total by one and the chosen day's count by one, and leaves every other day's count alone |
| `SeismicRate.BumpKeepsOrder` | analiz.py:133-140 | existing days keep their position; a new day is appended with count 1 (dictionary insertion order) |
| `SeismicRate.BumpDistinct` | analiz.py:133-140 | the tally never lists a day twice |
| `SeismicRate.BumpDays` | analiz.py:133-140 | after an increment the listed days are the old days plus the incremented one |
| `SeismicRate.Tally` | analiz.py:133-140 | the daily counts list distinct days, each positive; they sum to the window size; each day's count is its number of events; a day is listed exactly when some event falls on it |
| `SeismicRate.TallyExtends` | analiz.py:133-140 | one more event keeps every listed day in its place and puts a day not seen before at the end with count 1, so the days are in first-appearance order, the order `statistics.stdev` receives them in |
| `SeismicRate.SumOfCountsAsReals` | analiz.py:140-143 | the real-valued daily counts sum to the integer total |
| `SeismicRate.Classify` | analiz.py:155-160 | increase exactly when z > 2, decrease exactly when z < -2, and normal otherwise |
| `SeismicRate.ClassifyMonotone` | analiz.py:155-160 | a larger z-score never gives a lower verdict |
| `SeismicRate.AnomalyTest` | analiz.py:131-166 | fewer than 30 events is insufficient; one active day is the single-day case; otherwise the mean is events per active day; z is scored exactly when the deviation exceeds 0.1, with z times the deviation equal to count_24h minus the mean, and the verdict is that z's classification |
| `SeismicRate.DailyMeanIsEventsPerDay` | analiz.py:143 | the mean of the daily counts is the window size divided by the number of active days |
| `SeismicRate.FarAboveMeanIsIncrease` | analiz.py:150-156 | a 24 h count more than two deviations above the daily mean is reported as an increase |
| `SeismicRate.FarBelowMeanIsDecrease` | analiz.py:150-158 | a 24 h count more than two deviations below the daily mean is reported as a decrease |
| `SeismicRate.AnalyzeSeismicRate` | analiz.py:83-168 | the report holds the four window sizes, the two averages, the ratios and the anomaly verdict of those windows |
| `Clustering.NearSymmetric` | analiz.py:214-216 | nearness within 20 km is symmetric when the distance is |
| `Clustering.ScanNeighbours` | analiz.py:209-220 | the scan adds, in index order, exactly the unprocessed events within 20 km of the current one, and marks them processed |
| `Clustering.ExpandHead` | analiz.py:203-220 | one turn of the FIFO loop: the new cluster is the old one followed by exactly the popped member's unprocessed neighbours, in index order, which also join the queue, and the breadth-first record of who found whom is kept |
| `Clustering.GrowCluster` | analiz.py:197-220 | the grown cluster starts at its seed, lists distinct events, and is closed: no unprocessed event lies within 20 km of a member; its members are in breadth-first order: each member's finder is the earliest member near it, finders never go backwards, and one finder's finds are in index order |
| `Clustering.FindClusters` | analiz.py:188-224 | reported clusters have at least two distinct members, each in breadth-first order from its smallest index, are pairwise disjoint, are ordered by seed and are closed under nearness; every event is in a reported cluster or has no neighbour at all |
| `Clustering.BreadthFirstFixesOrder` | analiz.py:203-220 | on four events at latitudes 0, 1, -1, 2 with neighbours 20 km per degree apart, the order 0, 1, 2, 3 is breadth-first and the depth-first order 0, 1, 3, 2 is not |
| `Clustering.ChainFromSeed` | analiz.py:193-220 | every cluster member is joined to the seed by a chain of steps within 20 km |
| `Clustering.ChainStaysInCluster` | analiz.py:209-220 | a chain of nearby events that starts inside a closed cluster stays inside it |
| `Clustering.ClusterIsComponent` | analiz.py:189-224 | two events are in the same reported cluster exactly when a chain of steps within 20 km joins them, so clusters are connected components |
| `Clustering.IsolatedReachesOnlyItself` | analiz.py:222-224 | an event with no neighbour reaches no other event by a chain |
| `Clustering.MemberIsNotIsolated` | analiz.py:222-224 | every member of a reported cluster has a neighbour |
| `ClusterSummary.StrongestAsWritten` | analiz.py:237-241 | the max-magnitude loop as written: one member is picked; with two or more members, it raises exactly when some magnitude is absent |
| `ClusterSummary.AbsentMagnitudeRaises` | analiz.py:237-241 | a cluster whose magnitudes are [None, 3.0] makes the loop raise; the corrected pick is the second member |
| `ClusterSummary.Strongest` | analiz.py:237-241 | the corrected pick: none exactly when no magnitude is present; otherwise a member with the largest magnitude, the earliest such one on a tie |
| `ClusterSummary.StrongestAgreesWhenComplete` | analiz.py:237-241 | when every magnitude is present, the loop as written and the corrected pick choose the same member |
| `ClusterSummary.StrongestMember` | analiz.py:237-241 | the strongest event is one of the cluster's events, its magnitude is the largest present, and no earlier member ties it |
| `ClusterSummary.Summarize` | analiz.py:227-241 | the summary holds the cluster size; each centroid coordinate is the mean of the members' and lies within their extent; the strongest event is that of `StrongestMember` |
| `ClusterSummary.CentroidInRegion` | analiz.py:232-235 | a cluster whose events all lie in the Marmara box has its centroid in the box |
| `MagnitudeDistribution.CountByMagnitude` | analiz.py:273-274 | never counts an event without a magnitude; the count is positive exactly when some event reaches the threshold |
| `MagnitudeDistribution.CountMonotone` | analiz.py:273-297 | raising the threshold never raises the count |
| `MagnitudeDistribution.CountAppend` | analiz.py:273-274 | counting a concatenation adds the counts of its parts |
| `MagnitudeDistribution.Ladder` | analiz.py:276-297 | one count per threshold; over ascending thresholds the counts never increase |
| `MagnitudeDistribution.MagnitudeComment` | analiz.py:300-307 | strong activity exactly when some 6 h or 24 h event reaches 4.0; moderate exactly when none does but one reaches 3.0; quiet exactly when none reaches 3.0 |
| `MagnitudeDistribution.CommentDecidedBy24h` | analiz.py:302-305 | when the 6 h window is contained in the 24 h window, its clauses never change the comment |
| `MagnitudeDistribution.AnalyzeMagnitudeDistribution` | analiz.py:259-309 | four counts each for the 6 h and 24 h windows (2, 3, 4, 5) and three each for the 7 d and 30 d windows (3, 4, 5), and the comment |
| `BValue.UsableMagnitudes` | analiz.py:318-319 | a value is kept exactly when some event has it as a present magnitude that passes the digit test, and every kept value is non-negative |
| `BValue.UsableOne` | analiz.py:318-319 | a single event contributes its magnitude once when it is present and passes the digit test, and nothing otherwise |
| `BValue.UsableAppend` | analiz.py:318-319 | the usable magnitudes of a concatenation are the two lists joined, so together with `UsableOne` every event contributes once, in window order |
| `BValue.CalculateBValue` | analiz.py:312-340 | no estimate below 50 usable magnitudes; otherwise Mc is the smallest magnitude plus 0.05, and b exists exactly when the mean exceeds Mc, with b positive and b times (mean - Mc) equal to 0.434 |
| `BValue.NarrowSpreadHasNoB` | analiz.py:327-340 | magnitudes spanning at most 0.05 give Mc but no b-value |
| `BValue.EqualMagnitudesHaveNoB` | analiz.py:327-340 | a window of identical magnitudes has no b-value |
| `BValue.BAtLeastSpreadBound` | analiz.py:335-337 | b times (largest magnitude - Mc) is at least 0.434 |
| `BValue.CompareB` | analiz.py:364-369 | lower exactly when b7 is below 90% of b30; higher exactly when it is not lower and is above 110%; stable when a value is missing or b7 lies within the band |
| `BValue.HigherIsTenPercentAbove` | analiz.py:364-369 | with a positive b30, "higher" is exactly "more than 10% above" |
| `BValue.AnalyzeBValueTrend` | analiz.py:343-371 | estimates for the 7, 30 and 90 day windows; the trend compares the 7-day b-value with the 30-day one |
| `ScrapedRows.WideCount` | verilerial.py:166-170 | the number of rows with at least six cells is at most the number of rows, and zero exactly when no row is wide |
| `Ingest.ParseRow` | verilerial.py:172-187 | a row converts exactly when latitude and longitude parse and depth and magnitude normalise; the stored magnitude is always present, a blank depth or magnitude is 0.0, and any other depth or magnitude is its parse |
| `Ingest.SaveToDb` | verilerial.py:91-111 | without a cursor nothing changes and nothing is returned; a new timestamp is inserted and reported as True; an existing one leaves the store unchanged and is reported as False |
| `Ingest.Step` | verilerial.py:166-197 | a wide row is counted as processed; an accepted row's timestamp is in the store afterwards, holding that row's conversion when the timestamp was new; `added` grows by the number of new rows; old rows are untouched |
| `Ingest.Ingest` | verilerial.py:166-207 | processed counts the wide rows; added counts exactly the new keys and never exceeds processed; old rows are untouched; new rows lie in the region and have a magnitude; the final keys are the old keys plus the accepted rows' timestamps |
| `Ingest.FirstAcceptedIsStored` | verilerial.py:166-197 | the first accepted row with a new timestamp is what the store holds under it, with a blank or '-' depth or magnitude stored as 0.0; later rows with that timestamp are ignored |
| `Ingest.NewRecordIsFirstAccepted` | verilerial.py:166-197 | every timestamp new to the store holds the conversion of the first accepted row with that timestamp |
| `Ingest.FetchAndSave` | verilerial.py:153-207 | a missing table changes nothing; otherwise the data rows are ingested from zeroed counters, and added never exceeds processed |
| `Ingest.HeaderIsSkipped` | verilerial.py:158 | the first row of the table is never converted: the run equals the ingest of the remaining rows, whatever the first row holds |
| `Ingest.CountOneCommutes` | verilerial.py:169-170 | counting a processed row up front changes only the final processed count |
| `Ingest.FailedRowIsIsolated` | verilerial.py:200-204 | a row whose conversion raises is counted as processed, and otherwise the loop carries on as if it were absent |
| `Update.SaveEarthquake` | app.py:40-53 | the insert with ON CONFLICT DO NOTHING adds the key, keeps every existing row, and stores the record only when its key is new |
| `Update.RowStep` | app.py:71-82 | a row raises exactly when it is wide and fails to convert; otherwise a counted row adds its key, stores its conversion when the key is new, and increments the counter, and nothing else changes |
| `Update.UpdateRows` | app.py:69-87 | without an exception the counter equals the number of counted rows; the counter never exceeds the number of wide rows; old rows are untouched; new rows lie in the region |
| `Update.UpdatedKeys` | app.py:70-82 | a run that is not abandoned adds exactly the timestamps of its counted rows |
| `Update.CountCoversNewRecords` | app.py:80-82 | the table grows by at most the counter, because duplicates are counted too |
| `Update.AbortedIffSomeRowFails` | app.py:73-87 | the batch is abandoned exactly when some wide row fails to convert |
| `Update.NewRecordsKeepRawDepth` | app.py:70-82 | every new record is the conversion of the first counted row with its timestamp, and keeps that row's depth cell as raw text |
| `Update.FirstCountedIsStored` | app.py:70-82 | the first counted row with a new timestamp is stored under it when no earlier row raises, whatever follows |
| `Update.AbortKeepsPrefix` | app.py:70-87 | the rows saved before a failing row stay saved and the rows after it are never looked at |
| `Update.FetchAfad` | app.py:55-87 | a missing table gives the "table not found" reply; otherwise the table is the run's, the reply is the error exactly when the run was abandoned, and a completed run replies with the number of counted rows |
| `Update.HeaderIsSkipped` | app.py:67 | the first row of the table is never converted: table and failure reply are those of the run over the remaining rows |
| `Update.DuplicateIsCounted` | app.py:80-82 | an in-region row whose timestamp is already stored is counted although nothing new is stored |
| `IngestComparison.SameDecision` | verilerial.py:182-191 | on a row that converts under both scripts, the two make the same accept decision and the update endpoint does not raise |
| `IngestComparison.SameKeys` | app.py:70-82 | on rows that convert under both scripts, the two accept the same timestamps and the update endpoint raises on none |
| `IngestComparison.VariantsAgree` | app.py:55-87 | from stores with the same keys, on rows that convert under both scripts: the update run is not abandoned, both end with the same keys, and added ≤ count ≤ processed |
| `IngestComparison.DashMagnitudeDiverges` | app.py:78 | for an in-region row with magnitude '-', the batch script stores it with magnitude 0.0, while the endpoint raises and stores nothing |
| `Analysis.AnalyzeSpatialClustering` | analiz.py:171-256 | an empty 24 h window is reported as such; otherwise the report holds the window size and, in order, the summaries of clusters meeting the sweep's characterisation (breadth-first members, seed order, closed, isolated leftovers); no cluster is reported exactly when every event is isolated; each summary has at least two members and a strongest event taken from the window; centroids of in-region windows are in the region |
| `Analysis.NoClusterIffAllIsolated` | analiz.py:222-250 | with every event either clustered or isolated, there is no cluster exactly when every event is isolated |
| `Analysis.NestedWindows` | analiz.py:66-74 | a window with a later threshold holds only events of one with an earlier threshold |
| `Analysis.RunAnalysis` | analiz.py:375-399 | each analysis gets the windows queried with one clock; the clustering report is empty exactly when the 24 h window is, and otherwise summarises the breadth-first clusters of that window; with a single clock reading, the 6 h window cannot change the magnitude comment; with no readable store, every analysis takes its not-enough-data branch |

## Findings

| source | as written | input that shows it | evidently intended | confidence | as-written member | corrected member |
|---|---|---|---|---|---|---|
| analiz.py:237-241 | the strongest-event loop compares `eq[5] > max_mag_eq[5]` without checking for None, although the magnitude column may be NULL and `count_by_magnitude` (line 274) guards against exactly that | a cluster whose magnitudes are [None, 3.0]: the second iteration compares 3.0 with None and raises TypeError, which aborts the remaining analyses | skip members without a magnitude; report the strongest among the rest, or none | not executed | `ClusterSummary.StrongestAsWritten`, `ClusterSummary.AbsentMagnitudeRaises` | `ClusterSummary.Strongest`, `ClusterSummary.StrongestMember` |

Two further observations need no correction.

- **The infinite 24 h ratio is unreachable.** The hourly guard (line 117)
  already implies a daily average above 2.4, so the infinite fallback of the
  24 h ratio (line 121) is dead code. See `SeismicRate.DailyGuardFollows`.
- **The 6 h clauses of the comment are redundant.** The comment (lines
  302-305) tests both the 6 h and the 24 h windows. When both windows are
  read at one instant, the 6 h clauses never decide anything. See
  `MagnitudeDistribution.CommentDecidedBy24h`.

## Left out

- HTTP fetching, BeautifulSoup parsing and the database connections are left out. A scraped page is a sequence of rows of cell texts, or none when the content table is missing. The SQLite store is a map keyed by timestamp, and so is the PostgreSQL table.
- `haversine_distance` (analiz.py:32-48) is a parameter, assumed only to be symmetric, because it needs trigonometry and floating point.
- `statistics.stdev` is a parameter for the same reason. The mean of the daily counts is computed exactly.
- Floating-point rounding, NaN and infinity are left out. Reals are exact, so `float()` is any partial parser of cell text. The digit test on line 319 is modelled by the decimal range in which Python prints a float without an exponent.
- `datetime.now()` is called anew in every query, but the model reads one clock per run, so all windows of a run share one instant.
- `strptime` on a malformed stored timestamp (analiz.py:136) is not modelled. The day of an event is the first ten characters of its timestamp text.
- Exceptions raised by database calls in `save_earthquake_to_db` (verilerial.py:112-122) and `save_earthquake` (app.py:52-53) are left out: saves never fail in the model. As a result, the model does not show the update endpoint counting a row whose save failed.
- `Ingest.SaveToDb`: the `rowcount`-based return covers the insert and conflict cases only; the `False` after a rolled-back failure is not modelled.
- `Update.FetchAfad`: the reply texts are reduced to three cases (count, missing table, failure); the exception message is not modelled.
- Exceptions escaping one analysis abort the rest of the run through the `except` of the main block (analiz.py:375-399). The model uses the corrected strongest-event pick, under which no analysis raises, so this cascade is not modelled.
- `main.py`, the Flask routes (`home`, `update`, `create_table`), the console output and the connection setup of `verilerial.py` are left out because they are plumbing around the modelled operations.
- `Clustering.FindClusters`: the contract characterises the reported clusters (components of two or more, seed order, breadth-first member order) but does not prove that only one list of clusters meets that characterisation.
- `Catalog.GetEarthquakesInPeriod`: a database error is modelled as an absent store giving the empty list; the error message itself is not modelled.
