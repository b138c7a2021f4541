# Canadian federal election data collection, modelled in Dafny

This project models the data-collection stage of the CanadianElection
analysis (`01_data_collection.py`). For each of the 2004, 2006, 2008 and
2011 federal elections, that stage turns the published per-candidate
results (Elections Canada table 12) and the per-district turnout
(table 11) into one summary row per electoral district. Each summary row
holds:

- the votes of the Liberal, Conservative, N.D.P. and Bloc Québécois
  candidates;
- the residual "Others" vote;
- the registered electors and the valid ballots;
- the winning party;
- the province or territory.

The model follows the program's stages:

- `Normalize` (`normalize.dfy`) holds the text normalisers:
  - `num_process`, which parses counts written with space separators;
  - `rdname_process`, which keeps the English part of a bilingual district name and turns the legacy dash into a hyphen;
  - the en-dash replacement of the district lists.
- `Extract` (`extract.dfy`) holds the table extractors:
  - the row filters of `load_table12` and `load_table11`;
  - the forward fill of district labels;
  - the typed candidate and turnout records.
- `Registry` (`registry.dfy`) holds the district registry:
  - the code → name dictionaries;
  - the "Western Arctic" and 2004 corrections;
  - the name-drift and unknown-name checks;
  - the inversion to name → code;
  - the re-keying of the tables by code.
- `Aggregate` (`aggregate.dfy`) holds `get_vote_count`:
  - the nested substring scan, written as loops;
  - a loop-free closed form of what the scan leaves in each column;
  - proofs that the two agree.
- `Dataset` (`dataset.dfy`) holds the dataset builder:
  - the inner join with the turnout table;
  - `add_others` and `add_elected`;
  - the hard-coded "Others" winners;
  - `pt_dict` and `add_pt`;
  - the final sort.
- `Pipeline` (`pipeline.dfy`) chains the stages for one election year.
- `Text`, `Dicts`, `Seqs`, `Records` and `Wrappers` are the supporting pieces:
  - Python's substring test, `re.sub` and `split`;
  - insertion-ordered dictionaries with Python's last-write-wins assignment;
  - `unique()` and order-preserving filtering;
  - the shared records;
  - `Option` and `Result`.

Three modelling choices:

- **Tables and dictionaries.** Tables are sequences of records. Dictionaries are association lists, so that `dict(zip(values, keys))` keeps the last code of a repeated name, as Python does.
- **Missing cells.** A missing cell (pandas NaN) is `Cell.Blank`.
- **Errors.** Exceptions the code would raise become `Result` errors: a non-numeric count, a NaN passed to a normaliser, and a `pt_dict` KeyError.

Three behaviours of the code that the model keeps:

- **The join.** The join with table 11 is a pandas inner `merge`. A district missing from either table is dropped without an error.
- **Repeated matches.** When several labels of a district contain a party's fragment, the last one wins.
- **The "NDP" labels.** A label containing "NDP" writes the N.D.P. column during the scan of every party whose fragment it lacks.

## Model

| member | source | states |
|---|---|---|
| Text.Contains | 01_data_collection.py:278 | Python's `party in label` is true exactly when the fragment occurs at some position of the label |
| Text.ReplaceRemoves | 01_data_collection.py:29 | after `re.sub` of a single character by a different one, that character no longer occurs |
| Text.ReplaceIdempotent | 01_data_collection.py:29 | replacing a character a second time changes nothing |
| Text.PrefixBefore | 01_data_collection.py:29 | `split(sep)[0]` is the longest prefix without `sep`: it holds no `sep`, and the input continues with `sep` wherever the prefix stops early |
| Text.PrefixBeforeIdempotent | 01_data_collection.py:29 | taking the part before the separator a second time changes nothing |
| Text.RemoveMembers | 01_data_collection.py:20 | deleting spaces keeps exactly the other characters |
| Normalize.ParseSucceeds | 01_data_collection.py:20 | a count parses exactly when deleting its spaces leaves a non-empty run of decimal digits |
| Normalize.ParseRejectsNonDigit | 01_data_collection.py:20 | any character that is neither a space nor a digit makes the parse fail |
| Normalize.ParseRejectsBlank | 01_data_collection.py:20 | a cell of spaces only (or empty) is not a number |
| Normalize.ParseIgnoresSpace | 01_data_collection.py:20 | inserting a space anywhere does not change the parse |
| Normalize.ParseDigits | 01_data_collection.py:20 | the plain decimal rendering of any count parses back to that count |
| Normalize.ParseGrouped | 01_data_collection.py:20 | the space-grouped rendering of any count ("12 345") parses back to that count |
| Normalize.NumProcess | 01_data_collection.py:18-22 | the column converts exactly when every cell is present and parses; the result keeps length and order, element i being cell i's value |
| Normalize.RidingName | 01_data_collection.py:29 | the name holds no "/" and no legacy dash, and is the prefix before the first "/" of the dash-replaced input |
| Normalize.RidingNameIdempotent | 01_data_collection.py:29 | normalising a normalised name changes nothing |
| Normalize.RdnameProcess | 01_data_collection.py:27-31 | the column converts exactly when no cell is NaN, keeping length and order and normalising every name |
| Normalize.ListName | 01_data_collection.py:100 | each en dash becomes '-', every other character is kept in place, and no en dash remains |
| Normalize.ListNameIdempotent | 01_data_collection.py:100 | the en-dash replacement is idempotent |
| Seqs.Filter | 01_data_collection.py:57-59 | a row filter keeps exactly the rows that pass, and never more rows than it was given |
| Seqs.FilterAppend | 01_data_collection.py:57-59 | filtering distributes over concatenation, so kept rows keep their relative order |
| Seqs.Unique | 01_data_collection.py:245 | `unique()` lists every district once and nothing else, in order of first appearance |
| Extract.FilterResults | 01_data_collection.py:57-59 | a table-12 row survives exactly when its count is present, differs from the percentage and is not "No./Nbre" |
| Extract.Pad | 01_data_collection.py:64 | `fillna(method='pad')` keeps every present label; a blank label takes the filled label above it; a leading blank stays blank |
| Extract.PadNearest | 01_data_collection.py:64 | a filled label equals the nearest present label at or above it |
| Extract.PadLeadingBlank | 01_data_collection.py:64 | a label with no present label at or above it stays blank |
| Extract.LoadResults | 01_data_collection.py:57-65 | table 12 loads exactly when every kept count parses and every kept row has a label after the fill; there is one candidate per kept row, with the parsed count and the normalised district name |
| Extract.TrimTurnout | 01_data_collection.py:332-336 | the turnout rows are those passing the four filters, in order, without the last one |
| Extract.TurnoutColumnsParse | 01_data_collection.py:338-340 | electors, valid ballots and names all convert exactly when every kept row's numbers parse and its name is present |
| Extract.LoadTurnout | 01_data_collection.py:332-345 | table 11 loads exactly when its kept rows convert; each record carries the parsed electors and valid ballots and the district's code (None when unknown) |
| Dicts.Set | 01_data_collection.py:155 | assigning a key changes that key's value and no other |
| Dicts.SetAll | 01_data_collection.py:205-206 | after the assignment loop each listed key holds its last listed value and every other key is unchanged |
| Dicts.InvertThenGet | 01_data_collection.py:218-219 | looking a name up in the inverted dictionary gives a code that the forward dictionary maps back to that name |
| Dicts.GetThenInvert | 01_data_collection.py:218-219 | for an injective dictionary, inverse(forward(c)) = c |
| Registry.RidingList | 01_data_collection.py:98-101 | the district list becomes a dictionary over the same codes, each holding the en-dash-free form of its last listed name |
| Registry.RidingListNames | 01_data_collection.py:100 | no name of a district list holds an en dash |
| Registry.DriftedCodes | 01_data_collection.py:120-124 | the reported codes are exactly the base codes given two different names across the elections |
| Registry.CorrectStandard | 01_data_collection.py:155 | code 61001 becomes "Western Arctic" and every other code keeps its name |
| Registry.RenameMatchesCorrection | 01_data_collection.py:155-156 | when 61001 is the only code named "Northwest Territories", renaming that name in the table equals correcting the dictionary |
| Registry.CorrListDistinct | 01_data_collection.py:165-203 | the 2004 correction list names each code once |
| Registry.Correct2004 | 01_data_collection.py:205-206 | each code of the correction list takes its corrected name; every other code keeps its 2004 name |
| Registry.WesternArcticReconciled | 01_data_collection.py:155-206 | after both corrections, code 61001 has a single name across the 2004 and 2011 dictionaries |
| Registry.UnknownNames | 01_data_collection.py:144-147 | a name is in the difference exactly when the table holds it and the dictionary has no code for it |
| Registry.Rekey | 01_data_collection.py:222-226 | re-keying succeeds exactly when every name is in the name → code dictionary; each row then gets its name's code and keeps its label and count. Otherwise the error names the first row's name that the dictionary lacks |
| Registry.RekeyByInverse | 01_data_collection.py:218-235 | re-keying by the inverted dictionary leaves no NaN exactly when no name is unknown; an error then names an unknown name, and on success each new code maps back to the row's name |
| Registry.Codes2004RoundTrip | 01_data_collection.py:219 | with distinct names, the 2004 name → code dictionary returns each code from its own name |
| Registry.CodesStandardRoundTrip | 01_data_collection.py:218 | the same round trip for the standard dictionary |
| Aggregate.PassLastWrite | 01_data_collection.py:276-285 | one party's inner loop leaves each column at the count of the last row it writes into that column, or unchanged |
| Aggregate.ScanIsDistrictTally | 01_data_collection.py:273-285 | the four scans, in the order Liberal, Conservative, N.D.P., Bloc, leave the closed-form tally: last match per fragment, with the "NDP" rows' overwrites of the N.D.P. column |
| Aggregate.TallyDistrict | 01_data_collection.py:273-285 | the nested loops over parties and rows compute the closed-form tally of the district |
| Aggregate.ColumnStep | 01_data_collection.py:276-285 | appending a row leaves each column alone or sets it to that row's count, and only when the row's label claims the column |
| Aggregate.TallyWithinCounts | 01_data_collection.py:273-285 | when no label claims two parties, the four columns together never exceed the district's total candidate votes |
| Aggregate.InDistrict | 01_data_collection.py:271 | the selected rows are exactly the rows of that district |
| Aggregate.VoteTable | 01_data_collection.py:245-258 | one row per distinct district and no other, in order of first appearance, each holding the closed-form tally of its rows |
| Aggregate.GetVoteCount | 01_data_collection.py:243-296 | the loops over districts build exactly that vote table |
| Dataset.Matches | 01_data_collection.py:370 | the join of one vote row holds exactly its combinations with the turnout records of the same code |
| Dataset.Merge | 01_data_collection.py:370-373 | the inner merge holds exactly the combinations of a vote row and a turnout record with equal codes; unmatched districts vanish |
| Dataset.MergeOneToOne | 01_data_collection.py:370-373 | with distinct codes on both sides, each matched pair appears exactly once |
| Dataset.Elected | 01_data_collection.py:403-404 | `idxmax` picks a party with the most votes, and every party before it in the column order has strictly fewer |
| Dataset.ElectedUnique | 01_data_collection.py:403-404 | those two properties determine the winner |
| Dataset.WinnerOf | 01_data_collection.py:415-419 | the winner is "Others" exactly for the five listed (year, district) pairs; otherwise it is the `idxmax` party |
| Dataset.PtDict | 01_data_collection.py:423-437 | a prefix has a province exactly when it is one of the thirteen listed |
| Dataset.Province | 01_data_collection.py:445-446 | a code has a province exactly when code // 1000 is a listed prefix; codes 60000-62999 are "Territories" |
| Dataset.ProvinceExamples | 01_data_collection.py:423-446 | 35075 is in ON, 24051 in QC, 59028 in BC; 9999 and -1 have no province |
| Dataset.Summarise | 01_data_collection.py:378-450 | a joined row is summarised exactly when its prefix is known (otherwise KeyError on that prefix). The result keeps the counts and satisfies parties + Others = valid ballots, with the corrected winner and the province |
| Dataset.OthersNonNegative | 01_data_collection.py:384 | "Others" is not negative when the valid ballots cover all the district's candidate votes and no label claims two parties |
| Dataset.SummariseAll | 01_data_collection.py:378-450 | the column-wise stages succeed exactly when every prefix is known, summarising each row in place; otherwise the error names an unknown prefix |
| Dataset.Insert | 01_data_collection.py:471 | inserting into sorted rows keeps them sorted and adds exactly the one row |
| Dataset.SortByDistrict | 01_data_collection.py:471-474 | the result is sorted by district code and is a permutation of the input |
| Dataset.SortedUnique | 01_data_collection.py:471-474 | with distinct codes, the sorted permutation is unique |
| Dataset.RowsFromJoin | 01_data_collection.py:370-450 | every summarised row is consistent and comes from a joined pair |
| Dataset.BuildDataset | 01_data_collection.py:370-474 | the dataset exists exactly when every joined prefix is known. It is then sorted and holds the summaries of all joined pairs, each once (the same multiset); every row is consistent and comes from the join. Otherwise the error is the KeyError of an unknown joined prefix |
| Dataset.JoinCovered | 01_data_collection.py:370-474 | every vote-table row with a turnout record under its code has a dataset row with that code, its tally, and the record's electors and valid ballots |
| Pipeline.YearNames | 01_data_collection.py:218-226 | 2004 tables are read with the corrected 2004 dictionary, all other years with the corrected standard one |
| Pipeline.YearDataset | 01_data_collection.py:57-474 | the stages fail in order. A table-12 error is the year's error. Then an unknown table-12 name gives an UnknownDistrict error naming one. Then a table-11 error is the year's error. Then the dataset exists exactly when every joined district's code prefix is in `pt_dict`, and otherwise the error is UnknownProvince. A dataset is sorted and consistent; its districts are named by table 12, and it has a row for every table-12 district that table 11 records under the same code. Up to order, its rows are the summaries of the vote table of the re-keyed table 12 joined with table 11, so every row holds its district's party counts, electors and valid ballots |
| Pipeline.FromCandidates | 01_data_collection.py:222-474 | the same stage order, success condition and dataset properties, from the parsed table 12 on; the rows are, up to order, the summaries of the re-keyed vote table joined with table 11 |
| Pipeline.RowsNamed | 01_data_collection.py:222-258 | every district code of a built dataset maps, in the year's dictionary, to the district of some table-12 candidate |
| Pipeline.RowFromTable | 01_data_collection.py:370-450 | every row of a built dataset carries the code of a vote-table row |
| Pipeline.RowsComplete | 01_data_collection.py:222-474 | a candidate whose re-keyed code a turnout record carries has a row with that code in the dataset |
| Pipeline.OneDistrict | 01_data_collection.py:370-474 | Liberal 5000 and Conservative 6000 of 11500 valid ballots in district 10001 give one NL row with 500 Others and a Conservative win |

## Left out

- Retrieval and output (`pd.read_html`, the URLs, `to_csv`) and `warnings.filterwarnings`: I/O. Every table is a parameter.
- Header recovery (01_data_collection.py:40-45, 314-319): it depends on how pandas parses the HTML header. Rows carry named fields from the start.
- The concatenation of the thirteen provincial tables in `get_riding_list`: its result is a given list of (code, name) pairs.
- `03_machine_learning.py`: it is floating-point rates, scikit-learn models, seeded shuffles and plotting. It is not part of this model.
- The `namecount` check (01_data_collection.py:120-124) is modelled over dictionaries. The pandas `join` of the four name tables and `nunique` over its columns are not modelled.
- NaN versus None: both are `Cell.Blank`, and an unknown table-11 name is `None`.
- The float `np.zeros` initialisation: counts are naturals.
- Chained assignment (`count_df[party].loc[...] = ...`, `data['Elected'].loc[...] = ...`): the intended write is assumed to happen.
- ParseCount: accepts only space-separated decimal digits. Python's `int()` also accepts signs, underscores, surrounding whitespace and non-ASCII digits.
- Registry.Rekey: fails on the first unknown name. The program instead leaves NaN and only displays the NaN count (01_data_collection.py:230-235) for a human to check. Downstream, a NaN district gets an all-zero tally, because `== NaN` selects no row (01_data_collection.py:271). The inner merge then drops it (01_data_collection.py:370). If a table-11 name also failed to map, pandas pairs the two NaN keys in the merge, and `pt_dict[NaN // 1000]` raises KeyError (01_data_collection.py:446). So where the program may lose a district silently, the model reports an error.
- A NaN 'Candidate and affiliation' cell is not modelled: the label is a string. The program would raise TypeError at `party in label` (01_data_collection.py:278).
- Dataset.SortByDistrict: is a stable insertion sort. pandas' default quicksort is not stable, which matters only for repeated district codes.
- Dataset.OthersNonNegative: proves "Others" ≥ 0 only under its stated conditions. The program does not guarantee it: table 11's valid ballots and table 12's counts come from different tables.
