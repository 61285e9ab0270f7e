# Crime-rate dashboard: the data layer, verified

This project is a Dafny model of the data-transformation core of a Streamlit dashboard on
French recorded-crime statistics. The dashboard loads a CSV of counts per commune, region
and year. It joins the counts to a GeoJSON of the regions through a normalised name key
and shows rates per thousand inhabitants. The model covers the following:

- `norm_str`, the join-key normaliser: strip, lower-case, canonical decomposition (NFD),
  removal of non-spacing marks (Mn), and collapse of whitespace runs (module `Text`).
  - The Unicode tables are a parameter of type `Tables`.
  - The laws the normaliser needs are the predicate `Lawful`.
  - A Latin-1 instance of the tables (module `Latin1`) shows that the laws can be met, and
    gives concrete keys.
- The GeoJSON side (module `Geo`):
  - detection of the property that holds the region name;
  - stamping of `region_norm` on every feature.
- The loader's post-processing (module `Loader`):
  - rows with an unpublished count or population are dropped;
  - the `nom_region_norm` column is added.
- The region-year metrics table (module `Metrics`): grouped sums, the rate per thousand,
  and its change since the region's previous year.
- The matching diagnostics between the two key sets (module `Diagnostics`), with Python's
  string order (module `Order`).
- The dashboard page's transforms:
  - case-insensitive column detection (`Columns`);
  - the per-category breakdown and its top-N fold into "Autres" (`TopN`);
  - the top-k relabelling of the composition over time (`Composition`);
  - the commune ranking (`Communes`);
  - the commune labels and the INSEE code read back from them (`Search`).
- `Tally` holds the two pandas idioms these transforms share: `groupby(...).agg(sum)` and
  `sort_values(ascending=False)`.

Operations that the source writes as loops or column assignments are methods, proved
against specification functions:
- `Geo.GeojsonWithNormNames`
- `Loader.LoadData`
- `Metrics.BuildRegionMetrics`
- `TopN.TopNFold`
- `Composition.Relabel`
- `Communes.CommuneTable`

The rest are functions and lemmas.

Where the project's own description and the code disagree, the model follows the code.
- The description says that "Île-de-France" and "ile de france" normalise to the same key.
  The code keeps hyphens (only whitespace is collapsed), so the keys differ.
  `Latin1.HyphenKept` states the general rule and `Latin1.IleDeFranceKeys` the two keys.
- Accents, case and surrounding whitespace do fold away, as `Latin1.AccentAndCaseFold`
  shows.

## Model

| member | source | states |
|---|---|---|
| Text.Strip | 02_streamlit/utils.py:53 | `str.strip()`: the result is the slice `s[a..b]` with only whitespace before `a` and from `b` on, and no whitespace at either end of the slice; empty exactly when the input is all whitespace; text already stripped is returned unchanged |
| Text.LowerAll | 02_streamlit/utils.py:53 | lower-casing leaves text unchanged when every character is its own lower case |
| Text.DecomposeAll | 02_streamlit/utils.py:54 | NFD leaves text unchanged when no character decomposes |
| Text.DropMarks | 02_streamlit/utils.py:55 | no character of the result is a non-spacing mark; every character comes from the input; mark-free text is unchanged; a single character is dropped exactly when it is a mark |
| Text.DropMarksAppend | 02_streamlit/utils.py:55 | dropping marks distributes over concatenation, so with the one-character case every non-mark is kept, in order |
| Text.Split | 02_streamlit/utils.py:56 | `str.split()`: every piece is a non-empty run of non-whitespace characters |
| Text.SplitOverSpace | 02_streamlit/utils.py:56 | words end at whitespace: any whitespace character splits the text into the words before it followed by the words after it |
| Text.SplitBlank | 02_streamlit/utils.py:56 | text of whitespace only has no words |
| Text.SplitKeepsText | 02_streamlit/utils.py:56 | `str.split()` loses only whitespace: the pieces laid end to end are the non-whitespace characters of the input, in order |
| Text.SplitChars | 02_streamlit/utils.py:56 | every character of a piece is a character of the input; text with a non-space character has a piece |
| Text.JoinChars | 02_streamlit/utils.py:56 | every character of `" ".join(ws)` is a space or a character of one of the words |
| Text.JoinCollapsed | 02_streamlit/utils.py:56 | words joined by single spaces give text with no whitespace at the ends and no whitespace other than single spaces between non-spaces |
| Text.SplitJoin | 02_streamlit/utils.py:56 | splitting words joined by single spaces gives the words back |
| Text.Collapse | 02_streamlit/utils.py:56 | `" ".join(s.split())`: the result is collapsed with no edge whitespace, keeps only input characters and spaces, and is non-empty when the input has a non-space |
| Text.JoinKeepsText | 02_streamlit/utils.py:56 | `" ".join(words)` adds only whitespace: its non-whitespace characters are the words laid end to end |
| Text.CollapseKeepsWords | 02_streamlit/utils.py:56 | collapsing keeps every word: the non-whitespace text is unchanged and splitting the result gives the input's words |
| Text.CollapseIdempotent | 02_streamlit/utils.py:56 | collapsing twice is collapsing once |
| Text.CollapseFixedPoint | 02_streamlit/utils.py:56 | collapsed text without edge whitespace is its own collapse |
| Text.NormStr | 02_streamlit/utils.py:49-57 | `norm_str(None)` is `""`; every key is collapsed and has no whitespace at either end |
| Text.NormStrCanonical | 02_streamlit/utils.py:49-57 | under the table laws every character of a key is its own lower case, its own decomposition, and not a mark |
| Text.NormStrFixedPoint | 02_streamlit/utils.py:49-57 | collapsed text with no edge whitespace, made of canonical characters, is its own key |
| Text.NormStrIdempotent | 02_streamlit/utils.py:49-57 | `norm_str(norm_str(s)) == norm_str(s)` for every input, `None` included |
| Latin1.TablesLawful | 02_streamlit/utils.py:53-55 | the Latin-1 lower-case, decomposition and mark tables satisfy the laws, so the laws are consistent |
| Latin1.AccentAndCaseFold | 02_streamlit/utils.py:49-57 | "Île" and "ile" both have the key "ile" |
| Latin1.HyphenKept | 02_streamlit/utils.py:56 | three words of lower-case ASCII letters and hyphens, joined by hyphens or by single spaces, are each their own key, and the two keys differ |
| Latin1.IleDeFranceKeys | 02_streamlit/utils.py:49-57 | "ile-de-france" and "ile de france" are their own keys, so they do not match |
| Latin1.PlainKey | 02_streamlit/utils.py:49-57 | words of lower-case ASCII letters and hyphens separated by single spaces are their own key |
| Geo.Get | 02_streamlit/utils.py:154 | `props.get(k)` is `None` exactly when no member is named `k`; with distinct names it is that member's value |
| Geo.Put | 02_streamlit/utils.py:154 | `props[k] = v`: `k` then holds `v`, every other name keeps its value, an existing member keeps its place, and a new member is appended |
| Geo.FindCandidate | 02_streamlit/utils.py:74-76 | the first candidate name, in list order, that the properties have, or none |
| Geo.FindTextKey | 02_streamlit/utils.py:79-81 | the first member, in insertion order, whose value is text that is non-blank after strip, or none |
| Geo.GuessRegionKey | 02_streamlit/utils.py:60-83 | no features gives "nom"; else the earliest candidate present in the first feature; else its first non-blank text member; else its first member; else "nom" |
| Geo.AnnotateFeature | 02_streamlit/utils.py:153-154 | the feature gets `region_norm = norm_str(props.get(key, ""))`; every other property and the geometry are unchanged; a missing `properties` becomes an object |
| Geo.GeojsonWithNormNames | 02_streamlit/utils.py:143-156 | fails exactly when `"features"` is `null` or a feature has `"properties": null`, naming that feature; otherwise returns the detected key, the collection unchanged when it has no `features` member, and every feature annotated, in order and number |
| Loader.Kept | 02_streamlit/utils.py:113-115 | the kept rows are exactly the input rows with both `nombre` and `insee_pop` present; no rows are dropped when either column is absent |
| Loader.KeptAppend | 02_streamlit/utils.py:113-115 | filtering distributes over concatenation, so the relative order of the kept rows is the input order |
| Loader.KeptIdempotent | 02_streamlit/utils.py:113-115 | filtering twice is filtering once |
| Loader.AllPublished | 02_streamlit/utils.py:113-115 | when every row is published, nothing is dropped |
| Loader.RegionKey | 02_streamlit/utils.py:117-119 | the key of a region name is its `norm_str`; a missing name (NaN) gets the key of "nan"; keys are collapsed without edge whitespace |
| Loader.WithKeys | 02_streamlit/utils.py:117-119 | adding the key column keeps the number of rows, and changes nothing without a `nom_region` column |
| Loader.WithKeysAt | 02_streamlit/utils.py:117-119 | output row `i` is input row `i` with its key |
| Loader.DropUnpublished | 02_streamlit/utils.py:113-115 | the loop computes the kept rows |
| Loader.AddRegionKeys | 02_streamlit/utils.py:117-119 | the loop computes the keyed rows |
| Loader.LoadData | 02_streamlit/utils.py:106-121 | the result has the filtered, keyed rows, and gains the `nom_region_norm` column exactly when `nom_region` exists |
| Loader.PreparedRows | 02_streamlit/utils.py:106-121 | every output row is an input row that is published, with `nom_region_norm == norm_str(nom_region)`; when all rows are published the row count is unchanged |
| Metrics.KeyLtIrreflexive | 02_streamlit/utils.py:187 | the output order on (region, year, key) is irreflexive |
| Metrics.KeyLtTransitive | 02_streamlit/utils.py:187 | the output order is transitive |
| Metrics.KeyLtTotal | 02_streamlit/utils.py:187 | any two distinct group keys are ordered |
| Metrics.Summary | 02_streamlit/utils.py:176-182 | a key has sums exactly when some row with a complete key has it |
| Metrics.Accumulate | 02_streamlit/utils.py:176-182 | adding a row keeps the groups strictly ordered, and adds no key but the row's |
| Metrics.AccumulateSums | 02_streamlit/utils.py:176-182 | adding a row adds its count and population to its key's sums only, and its count to the total |
| Metrics.Grouped | 02_streamlit/utils.py:176-182 | the groups are strictly ordered; each key's group holds the sums over its rows; the counts of the groups add up to the count of the grouped rows |
| Metrics.PopOf | 02_streamlit/utils.py:184 | a zero population becomes NA, any other stays |
| Metrics.Rate | 02_streamlit/utils.py:185 | the rate is defined exactly when the population is present and non-zero, and then `rate * pop == 1000 * nb` |
| Metrics.Variation | 02_streamlit/utils.py:187-192 | 0 at a region's first row, when the current rate is NA and when the previous row's rate is NA; otherwise the rate minus the previous row's rate |
| Metrics.GroupRows | 02_streamlit/utils.py:176-182 | the loop over the rows computes the groups |
| Metrics.EmitMetrics | 02_streamlit/utils.py:184-193 | one output row per group, in order, each with the group's sums, population, rate and variation |
| Metrics.BuildRegionMetrics | 02_streamlit/utils.py:162-193 | fails exactly when a required column is missing, reporting exactly the missing ones; otherwise one output row per group, in order |
| Metrics.TotalConserved | 02_streamlit/utils.py:176-182 | the table's `nb_region` column adds up to the count of the rows with a complete key |
| Metrics.OneRowPerKey | 02_streamlit/utils.py:176-188 | a (region, key, year) has a row exactly when some input row has it, and rows are strictly ordered by region, then year |
| Order.StrLtIrreflexive | 02_streamlit/utils.py:211-212 | Python's string order is irreflexive |
| Order.StrLtTransitive | 02_streamlit/utils.py:211-212 | Python's string order is transitive |
| Order.StrLtTotal | 02_streamlit/utils.py:211-212 | any two distinct strings are ordered |
| Order.Insert | 02_streamlit/utils.py:211-212 | inserting into a strictly ascending list keeps it strictly ascending and adds exactly the new element |
| Order.SortedSet | 02_streamlit/utils.py:211-212 | `sorted(set(xs))`: strictly ascending, with exactly the elements of `xs` |
| Order.AscendingUnique | 02_streamlit/utils.py:211-212 | two strictly ascending lists with the same elements are equal |
| Diagnostics.GeoKey | 02_streamlit/utils.py:204-207 | a GeoJSON key is kept exactly when it is a non-empty string |
| Diagnostics.GeoKeys | 02_streamlit/utils.py:203-207 | reading the keys fails exactly when a feature has `"properties": null`, naming that feature |
| Diagnostics.GeoKeysExactly | 02_streamlit/utils.py:203-207 | the keys read are exactly the non-empty `region_norm` values of the features |
| Diagnostics.DataKeys | 02_streamlit/utils.py:209 | the data keys are exactly the non-missing `nom_region_norm` values |
| Diagnostics.Without | 02_streamlit/utils.py:211-212 | the elements of one list that the other lacks |
| Diagnostics.Diagnose | 02_streamlit/utils.py:199-219 | fails exactly when `"features"` is `null` or a feature has `"properties": null`; otherwise the counts are the numbers of distinct keys; both lists are strictly ascending, hold exactly data − geo and geo − data, and are disjoint |
| Diagnostics.MissingAreSortedDifferences | 02_streamlit/utils.py:211-212 | the two lists are the only strictly ascending lists of those differences |
| Columns.LowerIndex | 02_streamlit/pages/2_Tableau_de_bord.py:14 | the lower-cased names are exactly the keys, and each maps to the last column with that lower-cased name |
| Columns.FirstIn | 02_streamlit/pages/2_Tableau_de_bord.py:15-17 | the first candidate found in the index, or none |
| Columns.GuessCol | 02_streamlit/pages/2_Tableau_de_bord.py:14-18 | `None` exactly when no column lower-cases to a candidate; otherwise the last column matching the earliest matching candidate |
| Columns.GuessClassCol | 02_streamlit/pages/2_Tableau_de_bord.py:8-18 | `None` exactly when no column lower-cases to a class candidate; otherwise a column whose lower-cased name is a candidate, namely the last column for the earliest candidate that any column matches |
| Columns.GuessCommuneCol | 02_streamlit/pages/2_Tableau_de_bord.py:21-28 | `None` exactly when no column lower-cases to a commune candidate; otherwise a column whose lower-cased name is a candidate, namely the last column for the earliest candidate that any column matches |
| Columns.EarlierCandidateWins | 02_streamlit/pages/2_Tableau_de_bord.py:15-17 | when a column matches an earlier candidate, no column of a later candidate is chosen |
| Tally.FindNone | 02_streamlit/pages/2_Tableau_de_bord.py:255-256 | a key has no group exactly when no group carries it |
| Tally.PresentAppend | 02_streamlit/pages/2_Tableau_de_bord.py:255-256 | rows are dropped for a null key one by one, in order: the filter distributes over concatenation |
| Tally.PresentAllKeyed | 02_streamlit/pages/2_Tableau_de_bord.py:255-256 | when every row has a key, every row is kept in place, with a null count summed as 0 |
| Tally.PresentNoneKeyed | 02_streamlit/pages/2_Tableau_de_bord.py:255-256 | rows without a key are all dropped |
| Tally.KeysDistinctPermutation | 02_streamlit/pages/2_Tableau_de_bord.py:316-320 | a rearrangement of a table with one row per key still has one row per key |
| Tally.SumOfDistinct | 02_streamlit/pages/2_Tableau_de_bord.py:323-324 | on a table with one group per key, a key's sum is its group's value |
| Tally.GroupSumFind | 02_streamlit/pages/2_Tableau_de_bord.py:255-256 | `groupby(key).agg(sum)`: each key's group holds the sum over the rows with that key, and a key without rows has none |
| Tally.GroupSumDistinct | 02_streamlit/pages/2_Tableau_de_bord.py:255-256 | one group per key |
| Tally.UpsertFind | 02_streamlit/pages/2_Tableau_de_bord.py:255-256 | adding a row changes only its key's sum, by its value, and creates the group when it is missing |
| Tally.UpsertTotal | 02_streamlit/pages/2_Tableau_de_bord.py:255-256 | adding a row adds its value to the total of every set of keys that holds its key, and nothing to the others |
| Tally.GroupSumTotalWhere | 02_streamlit/pages/2_Tableau_de_bord.py:255-256 | grouping keeps the total of every set of keys |
| Tally.GroupSumTotal | 02_streamlit/pages/2_Tableau_de_bord.py:255-256 | grouping keeps the grand total |
| Tally.SortDesc | 02_streamlit/pages/2_Tableau_de_bord.py:257 | `sort_values(ascending=False)`: a rearrangement of the rows, largest first |
| Tally.HeadOutranks | 02_streamlit/pages/2_Tableau_de_bord.py:263-264 | the head of a descending table is descending, drawn from the table, and no row left out is larger than a row kept |
| TopN.Repartition | 02_streamlit/pages/2_Tableau_de_bord.py:254-258 | the breakdown is descending, holds exactly the per-category sums, and keeps the total count |
| TopN.TotalOfPermutation | 02_streamlit/pages/2_Tableau_de_bord.py:257 | reordering rows keeps their total |
| TopN.TopNFold | 02_streamlit/pages/2_Tableau_de_bord.py:262-268 | with more than N categories, the first N followed by "Autres" holding the sum of the rest; otherwise the table unchanged; the total is kept |
| TopN.LocSet | 02_streamlit/pages/2_Tableau_de_bord.py:265 | `.loc[label] = row` appends when no row carries the label |
| TopN.LocSetOverwrites | 02_streamlit/pages/2_Tableau_de_bord.py:265 | `.loc[label] = row` overwrites in place the first row carrying the label and leaves every other row as it was |
| TopN.AsWrittenAppendsWhenLabelFree | 02_streamlit/pages/2_Tableau_de_bord.py:262-268 | when no kept row has index label N, the fold as written is the intended one |
| TopN.AsWrittenOverwrites | 02_streamlit/pages/2_Tableau_de_bord.py:262-268 | a six-category table whose largest row has label 5, folded to 5, loses that row to "Autres", and the shown total drops from 120 to 20 |
| Composition.KeyOf | 02_streamlit/pages/2_Tableau_de_bord.py:310 | a row is grouped exactly when its year and category are both present |
| Composition.TopClasses | 02_streamlit/pages/2_Tableau_de_bord.py:316-322 | at most k distinct categories, all present; none smaller in overall total than a category left out; fewer than k only when none is left out |
| Composition.Relabel | 02_streamlit/pages/2_Tableau_de_bord.py:323 | each row keeps its year and count, and its category unless outside the top, which becomes "Autres" |
| Composition.SameYearsSameTotals | 02_streamlit/pages/2_Tableau_de_bord.py:323 | changing categories only keeps every year's total |
| Composition.RelabelKeeps | 02_streamlit/pages/2_Tableau_de_bord.py:323 | a top category other than "Autres" keeps its sum in every year after relabelling |
| Composition.OthersSum | 02_streamlit/pages/2_Tableau_de_bord.py:323-324 | the "Autres" sum of a year is the total of that year's groups outside the top (or already named "Autres"), 0 when there is none |
| Composition.RelabelledGroups | 02_streamlit/pages/2_Tableau_de_bord.py:323-324 | regrouping the relabelled rows: each key holds their sum, top categories keep their sums, "Autres" collects the rest |
| Composition.DetailedComposition | 02_streamlit/pages/2_Tableau_de_bord.py:314-324 | one row per (year, category), each holding the sum of the relabelled rows with that key; a top category's count in a year is unchanged; a year's "Autres" holds the total of its categories outside the top; every year keeps its total; every category is a top one or "Autres"; at most k + 1 categories per year |
| Composition.StackedComposition | 02_streamlit/pages/2_Tableau_de_bord.py:309-324 | every year's total is the count of its rows that have a category; at the aggregated level each (year, category) holds the sum of its rows; at the detailed level a top category's count in a year is the sum of its rows, "Autres" holds the total of that year's rows outside the top, and a year has at most k + 1 categories |
| Communes.NbGroups | 02_streamlit/pages/2_Tableau_de_bord.py:371-373 | one group per commune, holding the sum of its counts |
| Communes.MaxPopIsMax | 02_streamlit/pages/2_Tableau_de_bord.py:374 | the maximum population is NA exactly when no row of the commune has one, and otherwise is one of them that none exceeds |
| Communes.TableSound | 02_streamlit/pages/2_Tableau_de_bord.py:370-382 | every row holds its commune's summed count; with populations, the maximum population, which is positive, and a rate with `rate * pop == 1000 * nb`; without them, NA in both |
| Communes.TableExactly | 02_streamlit/pages/2_Tableau_de_bord.py:378-379 | a commune has a row exactly when it has input rows and, with populations, a positive maximum population |
| Communes.TableDistinct | 02_streamlit/pages/2_Tableau_de_bord.py:371 | one row per commune |
| Communes.CommuneTable | 02_streamlit/pages/2_Tableau_de_bord.py:370-382 | the loop computes the table, every row of which is sound |
| Communes.TopCommunes | 02_streamlit/pages/2_Tableau_de_bord.py:384-397 | 20 rows, or all when fewer, drawn from the table, in descending order of the measure, none left out larger than one kept |
| Communes.CommuneRanking | 02_streamlit/pages/2_Tableau_de_bord.py:370-397 | min(20, table size) sound rows, a sub-multiset of the table, ranked by rate when asked and populations exist, by count otherwise, in descending order and outranking those left out |
| Search.FindFrom | 02_streamlit/pages/2_Tableau_de_bord.py:463 | an occurrence found is one, at or after the start |
| Search.FindFromFirst | 02_streamlit/pages/2_Tableau_de_bord.py:463 | the occurrence found is the first from the start, and none is found exactly when there is none from there |
| Search.SplitOn | 02_streamlit/pages/2_Tableau_de_bord.py:463 | `str.split(sep)` always has a piece |
| Search.JoinSplit | 02_streamlit/pages/2_Tableau_de_bord.py:463 | `sep.join(s.split(sep)) == s` |
| Search.LastPiece | 02_streamlit/pages/2_Tableau_de_bord.py:463 | the last piece is what follows an occurrence that nothing overlaps from the left and nothing follows |
| Search.ExtractInsee | 02_streamlit/pages/2_Tableau_de_bord.py:463 | the extracted code has no whitespace at either end |
| Search.LabelRoundTrip | 02_streamlit/pages/2_Tableau_de_bord.py:440-463 | the code read back from a commune's label is its code, whatever its name, department and region, when the code has no "INSEE " inside and no edge whitespace |
| Search.DropDuplicates | 02_streamlit/pages/2_Tableau_de_bord.py:436-437 | each distinct row once, and exactly the input's rows |
| Search.SortByName | 02_streamlit/pages/2_Tableau_de_bord.py:455 | a rearrangement of the rows in name order |
| Search.Shown | 02_streamlit/pages/2_Tableau_de_bord.py:435-455 | exactly min(3000, number of distinct communes) distinct input communes, in name order, none named after a commune left out, and all of them when there are at most 3000 |
| Search.Options | 02_streamlit/pages/2_Tableau_de_bord.py:454-455 | at most 3000 options, the labels of the communes shown, in order |
| Search.OptionsReadBack | 02_streamlit/pages/2_Tableau_de_bord.py:440-463 | choosing any option reads back its commune's code, when the code is recoverable |

## Left out

- Unicode tables: lower-casing, NFD and the Mn category are a parameter with stated laws. The Latin-1 instance covers only A–Z and the precomposed Latin-1 letters. Special cases such as final sigma, multi-character lower-casing and canonical reordering of marks are not modelled.
- File access and parsing are not modelled: `get_project_paths`, `load_geojson`, `pd.read_csv` and `pd.to_numeric`. Rows start out parsed, with optional fields. JSON values other than strings and `null` are carried as the text `str()` gives for them.
- `st.cache_data` memoisation has no effect on results and is not modelled.
- Floating point: counts, populations and rates are exact reals, so rounding and overflow are not modelled.
- The rolling mean, the heatmap pivot and the box plot are not modelled; they are display statistics over floats.
- All Streamlit widgets and Plotly charts are not modelled. The year, region and level selections are inputs, and the rows given to each transform are already selected. `02_streamlit/app.py` and `02_streamlit/pages/1_Carte_interactive.py` hold only page wiring and display; they are not part of this model.
- Commune search: the regex filter `str.contains(q, case=False)` is not part of this model. Neither is the final row selection by INSEE code.
- Tally.SortDesc: pandas' single-column `sort_values` uses an unstable quicksort. The order among equal values is therefore left open; the contract states only the descending order and the permutation. The same holds for TopN.Repartition, Composition.TopClasses, Communes.TopCommunes and Search.SortByName.
- Tally.GroupSum: the groups come in first-appearance order, while pandas sorts them by key. Only `Metrics.Grouped` models pandas' sorted group order, because its output order is observable.
- Metrics.BuildRegionMetrics: the missing columns are reported as a set. The Python list comes from iterating a set, so its order depends on string hashing.
- Diagnostics.GeoKeys: a truthy `region_norm` value that is not a string is not modelled. After `geojson_with_norm_names` every value is a string.
- Search.Label: every field is taken to be text already. NaN and numeric cells, which the f-string would render, are not modelled.

## Findings

| source | as written | input that shows it | evidently intended | confidence | as-written member | corrected member |
|---|---|---|---|---|---|---|
| 02_streamlit/pages/2_Tableau_de_bord.py:265 | `top.loc[len(top)] = ["Autres", autres]` writes by index label. The labels come from `groupby(as_index=False)` in category order and travel with the rows through `sort_values`, so a kept row may already carry the label N. That row is then overwritten. | Six categories a–f with counts 6, 5, 4, 3, 2, 100 get labels 0–5. Sorted, "f" (label 5) comes first. Folded to N = 5, "Autres" (2) replaces "f": the shown rows total 20 instead of 120. | Append one "Autres" row after the N largest categories, keeping the total. | not executed | TopN.AsWrittenOverwrites | TopN.TopNFold |
