# Structure-data deviation checks, modelled in Dafny

The system checks waste-collection contracts that have been exported as
spreadsheet rows. Each rule engine reads one table. It first checks that the
table has the columns the rule needs. It then applies a per-row or a
per-group business rule and produces the list of deviation records that
becomes the report. This project models the six engines under `views/` as
pure functions over an explicit table, and proves what each engine promises:
when a row or group is reported, what the record holds, and how the report
is ordered.

Modules, leaves first:

- `Wrappers` (`wrappers.dfy`): `Option` and `Result`.
- `Strings` (`strings.dfy`): the Python text operations the engines use.
  - `str.strip()` over Python's white-space set.
  - `str.lower()` for ASCII and Latin-1 letters.
  - `in` on strings, `startswith` and `join`.
  - `str()` of whole numbers and reading decimal digits back.
- `Seqs` (`seqs.dfy`) holds generic sequence tools:
  - `Collect` keeps the present results of an optional-valued function, in order;
  - `Filter`, `FirstIndex`, `MaxSome` and `Concat`.
- `Ordering` (`ordering.dfy`): Python's string order and `sorted(set(...))`.
- `Sheet` (`sheet.dfy`) holds the shared table model:
  - a cell is `Blank` (pandas' NaN), `Text` or `Num`;
  - a row maps column names to cells;
  - a table has columns and rows;
  - the shared `str()`/normalise conversions;
  - the required-column contract, grouping by a key column, and the set of keys.
- One module per engine:
  - `Debiteringsgrupp`: billing-group policy, per row.
  - `Prisdel`: frequency inside the price component, per row.
  - `Antalsvarde`: container count against distinct external references, per service number.
  - `Dorrtillagg`: door-addon frequency against the densest container, per location.
  - `MatRest`: food waste against residual waste frequency, per location.
  - `Slamanlaggningar`: sludge-installation row checks, then a visit count per service number.

Frequencies are whole numbers of collections per eight weeks. The weekly
values 0.5, 1, 2 and 3 and the fractions 1/4 and 1/8 then become 4, 8, 16, 24,
2 and 1, so every comparison the engines make on them is exact.

pandas decides the order in which groups are visited (sorted keys for
`groupby`, falling counts for `value_counts`). The grouped engines therefore
take that order as a parameter, `order`, which must list every non-missing
key exactly once (`Sheet.IsKeyOrder`). `Sheet.FirstSeenKeys` shows that such
an order always exists.

A missing required column is `Failure(MissingColumns(m))`, where `m` is exactly
the set of missing columns; the engines raise `ValueError` there. In the
door-addon engine, a location that mixes kinds but has no container of known
frequency makes the run fail. The source indexes an empty selection at that
point. The model returns `Failure(NoContainerMaximum(location))` for the first
such location in `order`.

Three behaviours of the code are worth stating plainly:
- The visit-count parser returns nothing for a number outside 1..12; it does
  not clamp the number into that range.
- The courier rule looks for the text "bud" in the frequency, the route plan
  and the route name.
- The food/residual rule compares only the two maxima, never the full sets of
  frequencies.

## Model

| member | source | states |
|---|---|---|
| Sheet.Missing | views/debiteringsgrupp_check.py:37-39 | The missing columns are exactly the required columns the table lacks; there are none exactly when every required column is present. |
| Sheet.NormEmptyIff | views/debiteringsgrupp_check.py:11-14 | A cell normalises to the empty text exactly when it is missing or only white space. |
| Sheet.GroupHeadIsFirst | views/antalsvarde_individer.py:69-73 | The first row of a key's group is the first row of the table holding that key, so "the group's first row" is well defined. |
| Sheet.FirstSeenKeys | views/antalsvarde_individer.py:49 | Listing keys by first appearance visits every non-missing key exactly once. |
| Strings.TrimEmptyIff | views/slamanlaggningar_check.py:81-84 | A value is empty after `strip()` exactly when every character is white space. |
| Strings.ContainsIff | views/hamtfrekvens_prisdel.py:40 | Python's `needle in hay` holds exactly when the needle occurs at some position of the text. |
| Ordering.SortedSet | views/hamtfrekvens_mat_rest.py:71-72 | `sorted(set(xs))` is ascending in Python's string order and holds exactly the values of `xs`. |
| Debiteringsgrupp.Check | views/debiteringsgrupp_check.py:41-90 | Ignored billing groups always pass. Otherwise a SEVAB unit is flagged exactly when its group is not "månad". An EEM unit with a known price list is flagged exactly when its group differs from the mapped one. Every other row passes. A flagged row's record carries its own fields and the quoted reason: for SEVAB the group found, for EEM the price list, the mapped group and the group found. |
| Debiteringsgrupp.VerdictReadsNormalForms | views/debiteringsgrupp_check.py:54-79 | Two rows that agree on the stripped, lower-cased unit, group and price list get the same verdict, whatever their case, spacing or other columns. |
| Debiteringsgrupp.Process | views/debiteringsgrupp_check.py:37-92 | The run fails exactly when columns are missing. Otherwise it reports one record per flagged row, and a record appears exactly when some row produces it. |
| Debiteringsgrupp.ProcessKeepsRowOrder | views/debiteringsgrupp_check.py:49-90 | Splitting the table in two splits the report: the records of the first part come first, so records keep input order. |
| Prisdel.CheckAndReason | views/hamtfrekvens_prisdel.py:36-43 | A row passes exactly when its normalised frequency is contained in its normalised price component. A failing row's reason quotes the frequency as written. |
| Prisdel.PassesIffOccurs | views/hamtfrekvens_prisdel.py:38-41 | A row passes exactly when the normalised frequency occurs at some position of the normalised price component. |
| Prisdel.EmptyFrequencyPasses | views/hamtfrekvens_prisdel.py:38-41 | A frequency that is empty after stripping passes whatever the price component says. |
| Prisdel.MissingFrequencyReadsNan | views/hamtfrekvens_prisdel.py:38-43 | A missing frequency is judged and quoted exactly like the text "nan". |
| Prisdel.RowCheck | views/hamtfrekvens_prisdel.py:46-51 | A row yields a record exactly when it fails, and the record holds the row and its reason. |
| Prisdel.FindColumn | views/hamtfrekvens_prisdel.py:56-59 | The column found for a wanted name is the first one whose stripped, lower-cased name equals the lower-cased wanted name; none is found only when no column matches. |
| Prisdel.IdentifiersFound | views/hamtfrekvens_prisdel.py:54-59 | When every wanted name is present verbatim, each yields exactly one matching column, in wanted order. |
| Prisdel.FallbackUnreachable | views/hamtfrekvens_prisdel.py:61-64 | Once the required columns are present, all four identifiers are found and the first-three-columns fallback never applies. |
| Prisdel.Process | views/hamtfrekvens_prisdel.py:26-66 | The run fails exactly when columns are missing. Otherwise the report has the four identifier columns, then frequency, price component and reason, and one record per failing row. |
| Prisdel.ReportLine | views/hamtfrekvens_prisdel.py:49-66 | Each report line shows the failing row's values under the four identifier columns, then its frequency, its price component and the reason quoting the frequency. |
| Prisdel.ProcessKeepsRowOrder | views/hamtfrekvens_prisdel.py:46-51 | Splitting the table in two splits the report: the failing rows of the first part come first, so failing rows keep input order. |
| Antalsvarde.ToIntOrNone | views/antalsvarde_individer.py:31-40 | A missing or blank count has no value. Any other count is read as a signed decimal, which keeps only the whole part. |
| Antalsvarde.NumericCountKept | views/antalsvarde_individer.py:31-40 | A numeric count always converts back to itself. |
| Antalsvarde.FractionTruncated | views/antalsvarde_individer.py:37-38 | A count written with a fractional part is cut to its whole part. |
| Antalsvarde.MinCount | views/antalsvarde_individer.py:51-52 | The expected count is absent exactly when no count is numeric; otherwise it is the smallest distinct numeric count. |
| Antalsvarde.DeviatesIff | views/antalsvarde_individer.py:51-66 | A group passes exactly when its numeric counts all agree on one value and that value is the number of distinct valid references. |
| Antalsvarde.ExpectedValsAsWritten | views/antalsvarde_individer.py:42-51 | The expected values as written are the distinct numeric counts, plus NaN exactly when the count column was coerced to floats and the group holds an unreadable count. |
| Antalsvarde.AsWrittenAgreesWithoutBlank | views/antalsvarde_individer.py:51-66 | Without an unreadable count in a coerced column, the verdict as written is the model's verdict. |
| Antalsvarde.BlankCountReportedAsWritten | views/antalsvarde_individer.py:51-66 | A service with one matching count and one blank count, in a column that holds numbers, is reported as written but passes in the model. |
| Antalsvarde.GroupCheck | views/antalsvarde_individer.py:49-83 | A service number yields a record exactly when its group deviates. The record holds the expected and actual counts, with context fields from the group's first row. |
| Antalsvarde.Process | views/antalsvarde_individer.py:26-83 | The run fails exactly when columns are missing. Otherwise no service number is reported twice, each one is reported exactly when its group deviates, and each record is its service number's group-check record. |
| Dorrtillagg.FreqToNum | views/dorrtillagg_check.py:32-36 | A frequency has a value exactly when its stripped, lower-cased text is one of the six phrases, and the value is that phrase's. |
| Dorrtillagg.FreqValues | views/dorrtillagg_check.py:12-19 | Every known frequency is one of 1/8, 1/4, 1/2, 1, 2 or 3 per week, and a missing one is unknown. |
| Dorrtillagg.Addons | views/dorrtillagg_check.py:87-90 | The addons are the rows spelled "tillägg", or the rows spelled "tillagg" when there are none of the first. |
| Dorrtillagg.ContainerMax | views/dorrtillagg_check.py:92-98 | There is no maximum exactly when no container has a known frequency. Otherwise the maximum is attained by a container and bounds every container's known frequency. The expected text comes from the first container, in group order, that attains it. |
| Dorrtillagg.UnknownAddonFlagged | views/dorrtillagg_check.py:101-106 | An addon whose frequency is not a known phrase is always reported. |
| Dorrtillagg.MixedRecords | views/dorrtillagg_check.py:86-117 | A mixed location fails exactly when there is no container maximum. Otherwise it yields the mismatch records of its addons, in group order. |
| Dorrtillagg.MixedFlagsOffMaximum | views/dorrtillagg_check.py:101-117 | In a mixed location, an addon is reported exactly when its frequency is not the containers' maximum. There is one record per such addon, quoting the densest container's text. |
| Dorrtillagg.GroupRecords | views/dorrtillagg_check.py:61-117 | A location with containers only reports nothing. One with addons only reports every row with the fixed reason. Any other location follows the mixed rule. |
| Dorrtillagg.Process | views/dorrtillagg_check.py:54-117 | The run fails with the missing columns exactly when some are missing. Otherwise it fails exactly when some location has no container maximum, and the failure is the first such location's. |
| Dorrtillagg.ProcessKeepsLocationOrder | views/dorrtillagg_check.py:61-117 | Splitting the visiting order splits a successful report: the records of the earlier locations come first, each location's records in group order. |
| Dorrtillagg.ProcessMember | views/dorrtillagg_check.py:61-117 | A successful run reports exactly the records of its locations. |
| Dorrtillagg.OutputColumns | views/dorrtillagg_check.py:121-135 | An empty report has no columns. Otherwise the columns follow the fixed order, and the densest-container column appears only when some record fills it. |
| MatRest.FractionOf | views/hamtfrekvens_mat_rest.py:29-31 | Only the exact labels "Matavfall", "Restavfall" and "Restavfall nollvision" take part, the last as residual waste. |
| MatRest.ToNumericFreq | views/hamtfrekvens_mat_rest.py:41-45 | A missing frequency is unknown. Any other frequency is known exactly when its normal form is one of the four phrases, and has that phrase's value. |
| MatRest.VocabularyWithinDoorVocabulary | views/hamtfrekvens_mat_rest.py:34-39 | This rule's four phrases are door-addon phrases with the same values. The monthly and bi-monthly phrases are unknown here. |
| MatRest.Relevant | views/hamtfrekvens_mat_rest.py:28-31 | A row takes part exactly when its fraction is food or residual waste. |
| MatRest.RelevantKeepsRowOrder | views/hamtfrekvens_mat_rest.py:28-31 | Splitting the table splits the taking-part rows, so they keep table order and a location's first taking-part row is the one the record reads. |
| MatRest.MaxOf | views/hamtfrekvens_mat_rest.py:58-63 | A fraction's maximum is absent exactly when none of its rows has a known frequency. Otherwise it is attained by one of its rows and bounds all of them. |
| MatRest.FlaggedIff | views/hamtfrekvens_mat_rest.py:62-70 | A location is reported exactly when residual waste has a known frequency and some food-waste row is collected more often than every residual-waste row. |
| MatRest.MissingFractionSkipped | views/hamtfrekvens_mat_rest.py:54-56 | A location lacking either fraction is never reported. |
| MatRest.EqualMaximaPass | views/hamtfrekvens_mat_rest.py:69-70 | Equal maxima are not reported. |
| MatRest.KeptAsWritten | views/hamtfrekvens_mat_rest.py:59-63 | The values kept for a fraction are its known frequencies, plus NaN exactly when the fraction mixes known and unknown frequencies. |
| MatRest.PyMaxOfNumbers | views/hamtfrekvens_mat_rest.py:69 | Over numbers alone, Python's `max` returns an element that bounds all the others. |
| MatRest.PyMaxIsMaxOf | views/hamtfrekvens_mat_rest.py:62-69 | Without NaN among a fraction's kept values, the list is empty exactly when the fraction has no known frequency, and its `max` is the highest known frequency. |
| MatRest.AsWrittenAgreesWithoutUnknown | views/hamtfrekvens_mat_rest.py:59-70 | When neither fraction mixes known and unknown frequencies, the comparison as written reports exactly the locations the model reports. |
| MatRest.NanFirstHidesMaximum | views/hamtfrekvens_mat_rest.py:59-70 | Food waste at an unknown and at twice a week, residual waste once a week: the code as written keeps `[nan, 2.0]`, whose `max` is NaN, and does not report the location; the model reports it. |
| MatRest.GroupCheck | views/hamtfrekvens_mat_rest.py:50-84 | A location yields a record exactly when it is flagged. The identifying fields come from its first row that takes part, and each list holds the sorted distinct texts of its fraction. |
| MatRest.Process | views/hamtfrekvens_mat_rest.py:24-84 | The run fails exactly when columns are missing. Otherwise no location is reported twice, a location of the taking-part rows is reported exactly when it is flagged, and each record is its location's group-check record. |
| Slamanlaggningar.ExpectedCount | views/slamanlaggningar_check.py:18-34 | A missing frequency expects nothing, and "every other year" expects one. Otherwise the expectation is the first number in the text when it lies in 1..12, and nothing otherwise. |
| Slamanlaggningar.ExpectedCountOfNumber | views/slamanlaggningar_check.py:26-31 | A bare whole number expects itself when it lies in 1..12, and nothing otherwise. |
| Seqs.SpansSound | views/slamanlaggningar_check.py:41 | Each match `re.findall` reports lies inside the text, is the match the pattern makes where it starts, and the matches come in order without overlapping. |
| Seqs.SpansComplete | views/slamanlaggningar_check.py:41 | A position starts a reported match exactly when the pattern matches there and no earlier reported match covers it. |
| Slamanlaggningar.WeekMatchLongest | views/slamanlaggningar_check.py:41 | Where `vecka\s*\d{1,2}` matches, the match is "vecka", white space and one or two digits, and it is the longest text of that shape there. |
| Slamanlaggningar.WeekTokensSound | views/slamanlaggningar_check.py:37-43 | Every week token occurs in the text at its match position and has the shape "vecka", white space, one or two digits. |
| Slamanlaggningar.WeekTokensInOrder | views/slamanlaggningar_check.py:37-43 | The week tokens appear in text order and do not overlap. |
| Slamanlaggningar.WeekTokensComplete | views/slamanlaggningar_check.py:37-43 | A position starts a week token exactly when the week pattern matches there and no earlier token covers it. |
| Slamanlaggningar.NoDigitsNoWeeks | views/slamanlaggningar_check.py:37-43 | A plan without digits names no week. |
| Slamanlaggningar.SingleWeek | views/slamanlaggningar_check.py:37-43 | A plan that is "vecka" and one digit names exactly that week. |
| Slamanlaggningar.AreaReasons | views/slamanlaggningar_check.py:80-87 | Each service area is reported when blank. A mismatch is reported when both are present but differ after normalising. No reason arises exactly when both are present and agree. |
| Slamanlaggningar.RouteReasons | views/slamanlaggningar_check.py:89-93 | The route plan and the route name are each reported when blank. |
| Slamanlaggningar.BiennialReasons | views/slamanlaggningar_check.py:95-100 | A present frequency saying "vartannat år" needs a plan naming odd or even years; otherwise the one parity reason is given. |
| Slamanlaggningar.WeekReasons | views/slamanlaggningar_check.py:102-107 | A present plan yields one reason per week token the route name lacks, in plan order. No reason arises exactly when the plan is blank or every token is in the route name. |
| Slamanlaggningar.WeekReasonsAppend | views/slamanlaggningar_check.py:102-107 | Splitting the plan's tokens splits the week reasons: reasons follow plan order, and a token repeated in the plan gives a reason for each occurrence. |
| Slamanlaggningar.WeekReasonsOne | views/slamanlaggningar_check.py:102-107 | One token gives exactly one reason when the plan is present and the route name lacks the token, and none otherwise. |
| Slamanlaggningar.CourierAgreement | views/slamanlaggningar_check.py:109-129 | The courier rule holds exactly when the frequency, the plan and the route name all mention "bud", or none of them does. |
| Slamanlaggningar.ReasonsEmptyIff | views/slamanlaggningar_check.py:70-133 | A row has no reason exactly when it meets every row requirement. |
| Slamanlaggningar.RowCheck | views/slamanlaggningar_check.py:135-150 | A row yields one record exactly when it has a reason. The record joins all its reasons with "; " in check order. |
| Slamanlaggningar.RowPassesIff | views/slamanlaggningar_check.py:70-150 | A row is reported exactly when it breaks a requirement, read from its cells. |
| Slamanlaggningar.Judge | views/slamanlaggningar_check.py:160-186 | A service passes exactly when it has no expectation or its only expectation is its row count. Two or more expectations are inconsistent and listed sorted. A single differing expectation is a wrong count. |
| Slamanlaggningar.PresentAllEqual | views/slamanlaggningar_check.py:159-164 | The distinct expectations are none or just `n` exactly when every expectation present equals `n`. |
| Slamanlaggningar.GroupCheck | views/slamanlaggningar_check.py:152-202 | A service number yields a record exactly when its verdict is not a pass, using its first row. An inconsistency lists the distinct frequencies first-seen with the sorted expectations; a wrong count gives the count and the expectation. |
| Slamanlaggningar.GroupPassesIff | views/slamanlaggningar_check.py:156-202 | A service passes exactly when every expectation its rows give equals its number of rows. |
| Slamanlaggningar.TwoExpectationsReported | views/slamanlaggningar_check.py:164-180 | Two rows with different expectations make the service reported as inconsistent, whatever its row count. |
| Slamanlaggningar.RowRecords | views/slamanlaggningar_check.py:70-150 | The row records are one per row with a reason, in row order. |
| Slamanlaggningar.RowRecordsKeepRowOrder | views/slamanlaggningar_check.py:70-150 | Splitting the table splits the row records, so they keep row order. |
| Slamanlaggningar.ServiceRecords | views/slamanlaggningar_check.py:152-202 | No service number is reported twice, each one is reported exactly when its group check fails, and each record is its service number's group-check record. |
| Slamanlaggningar.Process | views/slamanlaggningar_check.py:63-202 | The run fails exactly when columns are missing. Otherwise every row record comes before every service record. |

## Findings

| source | as written | input that shows it | evidently intended | confidence | as-written member | corrected member |
|---|---|---|---|---|---|---|
| views/antalsvarde_individer.py:42-66 | The parsed counts of a column that mixes numbers and blanks are stored as floats, with NaN for the blanks. The `v is not None` filter keeps the NaN, so a group with a blank count is always reported. | A service with counts 2 and blank and two distinct references, in a column that holds numbers elsewhere. | Blank and unreadable counts are ignored; only the numeric counts are compared with the references. | medium; not executed | Antalsvarde.DeviatesAsWritten, shown by Antalsvarde.BlankCountReportedAsWritten | Antalsvarde.Deviates, proved by Antalsvarde.DeviatesIff |
| views/hamtfrekvens_mat_rest.py:59-70 | An unknown frequency becomes NaN when its fraction also has known ones, and the filter keeps it. `max` then depends on where NaN sorts, and NaN compares false. | Food waste with an unknown frequency and then "2 gånger i veckan", residual waste "1 gång i veckan": `max([nan, 2.0])` is NaN, so the location is not reported. | Unknown frequencies are filtered out, as the code's comment says, and the maxima of the known ones are compared. | medium; not executed | MatRest.FlaggedAsWritten, shown by MatRest.NanFirstHidesMaximum | MatRest.Flagged, proved by MatRest.FlaggedIff |

## Left out

- Reading and writing spreadsheets, the Flask routes, sessions, file naming and cleanup (`app.py`, `utils/file_utils.py` and the upload handlers) are not part of this model. An engine's report is its list of records. Its count is the list's length.
- The text of the `ValueError` for missing columns is left out. Python's set iteration order makes its wording unspecified; the model returns the set of missing columns.
- The order in which pandas visits groups is a parameter: sorted keys for `groupby`, falling counts with ties unspecified for `value_counts`.
- Float cells are left out. A numeric column with a missing value is read as floats that print as "3.0"; the model's numbers are whole and print without a fractional part.
- `Antalsvarde.ToIntOrNone`: `float()` accepts exponent forms ("2e1") and underscores ("1_0"), which the model treats as unreadable. "inf" and "nan" agree: `int()` raises on them, the error is caught, and the count has no value, as in the model.
- Case folding covers ASCII and Latin-1 letters only, and `\d` covers ASCII digits only; Python applies both to all of Unicode.
- `float()` also accepts non-ASCII Unicode digits, such as Arabic-Indic ones. `Antalsvarde.ToIntOrNone` reads ASCII digits only and treats other counts as unreadable.
- `Antalsvarde.ToIntOrNone`: `int(float(s))` loses precision for counts above 2^53, because a float cannot hold them exactly, and a digit string beyond the float range (about 1.8e308) becomes infinity and then no value. The model reads every count exactly.
- Whether pandas coerces a column to floats depends on the whole column. The as-written members take it as the parameter `coerced`, or take the kept values as given lists.
- The `ind_kort is None` test in the sludge rule is left out. A missing cell is NaN, not `None`, and then the test that follows gives the same outcome.
