# ParcelAnalysis in Dafny

A model of the core of ParcelAnalysis, a set of Python/arcpy scripts for Hawaii parcel
analysis. The scripts do the following:

- prioritise residential parcels still served by cesspools. They join bedroom counts to
  tax-map-key (TMK) parcels, size septic systems by the rules the workflow attributes to
  Hawaii Administrative Rules Title 11 Chapter 62, score priority and summarise;
- apply soil and technology compatibility rules and a disposal-area table;
- build the MPAT foundation feature class from the municipal and domestic wells-distance
  layers, with framework fields and per-record tracking fields;
- check and fix the projection of downloaded shapefiles (target NAD 1983 HARN UTM Zone 4N,
  EPSG 26904), batch-reproject a download tree, reproject per-county parcel layers to State
  Plane, and export the statewide parcels one county at a time.

arcpy and the file system have no visible semantics here, so what they report is a
parameter:

- the field list, the rows, and whether a tool call goes through;
- the factory code `Describe` gives, and the set of paths that exist;
- the folder walk, as the list of (folder, file) pairs `os.walk` yields.

Passes that change a feature class in place are methods on a `Table` object or on an
array of rows. The field-calculator expressions and other pure rules are functions. Each
loop that counts or collects is a method proved against a specification function, and
lemmas state what the source promises about that function.

| module | file | models |
|---|---|---|
| `Strings` | strings.dfy | startswith, endswith, substring, replace, split, lower, join, `os.path.join` |
| `Values` | values.dfy | Python cell values, truthiness and `str()` |
| `Tally` | tally.dfy | the `counts.get(k, 0) + 1` summary loop |
| `FeatureTable` | feature_table.dfy | attribute tables; AddField, AlterField and update cursors on a `Table` |
| `CesspoolAnalysis` | cesspool_analysis.dfy | scripts/hawaii_cesspool_analysis.py |
| `HarStandards` | har_standards.dfy | scripts/99_Utilities/99b_HAR_11_62_Standards.py |
| `CommonFunctions` | common_functions.dfy | scripts/99_Utilities/99a_Common_Functions.py |
| `TechnologyMatrix` | technology_matrix.dfy | the technology-matrix sieve in scripts/Work_with_Available_Data.py |
| `WellsDistanceJoin` | wells_distance_join.dfy | scripts/01_Data_Preparation/01b_Wells_Distance_Join.py |
| `MpatFoundation` | mpat_foundation.dfy | the steps the three foundation scripts share |
| `CleanSlateStart` | clean_slate_start.dfy | scripts/Clean_Slate_Academic_Start.py |
| `CleanStartFixed` | clean_start_fixed.dfy | scripts/Clean_Academic_Start_Fixed.py |
| `FreshStartFoundation` | fresh_start_foundation.dfy | scripts/Fresh_Start_Foundation.py |
| `ExamineFoundation` | examine_foundation.dfy | scripts/Examine_Existing_Foundation.py |
| `CheckProjections` | check_projections.dfy | scripts/check_projections.py |
| `ProjectionCheckRobust` | projection_check_robust.dfy | scripts/projection_check_robust.py |
| `ReprojectAllData` | reproject_all_data.dfy | scripts/data_standardization/reproject_all_data.py |
| `ReprojectParcelsByCounty` | reproject_parcels_by_county.dfy | scripts/.idea/reproject_parcels_by_county.py |
| `ExportParcelsByCounty` | export_parcels_by_county.dfy | scripts/arcpy_utilities/export_parcels_by_county.py |

## Model

| member | source | states |
|---|---|---|
| CesspoolAnalysis.BedroomLookupLastWins | scripts/hawaii_cesspool_analysis.py:162 | a TMK is a key of the lookup built from the CSV, and its value is the bedroom count of the last CSV row with that TMK |
| CesspoolAnalysis.BedroomLookupKeys | scripts/hawaii_cesspool_analysis.py:162 | the lookup's keys are exactly the TMKs that occur in the CSV |
| CesspoolAnalysis.JoinBedroomDataAlternative | scripts/hawaii_cesspool_analysis.py:166-171 | every row of the feature class afterwards is its old value passed through the join of one row; no other state changes |
| CesspoolAnalysis.JoinRowEffect | scripts/hawaii_cesspool_analysis.py:168-171 | a row whose TMK occurs in the CSV changes only in BED_ROOMS, which becomes the count of the last CSV row with that TMK |
| CesspoolAnalysis.JoinRowUnmatched | scripts/hawaii_cesspool_analysis.py:169 | a row whose TMK is not in the CSV is left unchanged |
| CesspoolAnalysis.SelectResidential | scripts/hawaii_cesspool_analysis.py:187-191 | the selection is never larger than the input |
| CesspoolAnalysis.SelectResidentialKeepsExactly | scripts/hawaii_cesspool_analysis.py:187-191 | the selection holds each residential row (1 to 20 bedrooms, ACRES at least 0.1 or NULL) exactly as often as the input does, and no other row |
| CesspoolAnalysis.SelectedHaveBedrooms | scripts/hawaii_cesspool_analysis.py:188-189 | every selected parcel has a non-NULL bedroom count between 1 and 20 |
| CesspoolAnalysis.CalculateWastewaterFlows | scripts/hawaii_cesspool_analysis.py:261-267 | every row gets DAILY_FLOW_GAL = 200 times its bedrooms, and nothing else in the row changes |
| CesspoolAnalysis.SepticSizeTable | scripts/hawaii_cesspool_analysis.py:278-290 | with a flow of 200 gallons per bedroom the tank is 1000 gallons up to 4 bedrooms or for NULL, 1250 for 5, and 250 per bedroom (at least 1500) from 6 on |
| CesspoolAnalysis.SepticSizeMonotone | scripts/hawaii_cesspool_analysis.py:282-290 | across all three branches a house with more bedrooms never gets a smaller tank |
| CesspoolAnalysis.CalculateSepticTankSizes | scripts/hawaii_cesspool_analysis.py:275-291 | every row gets the tank size computed from its own bedrooms and flow (falsy values read as 0, the result truncated toward zero), and nothing else changes |
| CesspoolAnalysis.LotSizeCategoryBands | scripts/hawaii_cesspool_analysis.py:309-315 | every lot size lies in exactly one of the three bands, each band given by its interval (iff) |
| CesspoolAnalysis.CalculateLotCharacteristics | scripts/hawaii_cesspool_analysis.py:320-333 | every row gets its lot-size band and CESSPOOL_REPLACEMENT = 'YES', and nothing else changes |
| CesspoolAnalysis.PriorityRange | scripts/hawaii_cesspool_analysis.py:346-363 | the score lies in 5..10, and the cap at 10 never changes it |
| CesspoolAnalysis.PriorityMonotone | scripts/hawaii_cesspool_analysis.py:346-365 | more bedrooms never lower the score, a larger lot never raises it, and a NULL or zero bedroom count is scored as 1 |
| CesspoolAnalysis.CalculatePriorityScores | scripts/hawaii_cesspool_analysis.py:365-373 | every row gets the score of its own bedrooms and lot size, and nothing else changes |
| CesspoolAnalysis.IslandOfText | scripts/hawaii_cesspool_analysis.py:456-467 | a text TMK starting with 1, 2, 3 or 4 decodes to Hawaii, Maui, Honolulu or Kauai; every other TMK, including an empty or NULL one, gives Unknown (iff) |
| CesspoolAnalysis.IslandOfNumber | scripts/hawaii_cesspool_analysis.py:457-458 | a positive numeric TMK is decoded by its leading decimal digit; zero and negative numbers give Unknown |
| CesspoolAnalysis.CalculateIslands | scripts/hawaii_cesspool_analysis.py:469-477 | every row gets the island of its own TMK, and nothing else changes |
| CesspoolAnalysis.SummarizeByIsland | scripts/hawaii_cesspool_analysis.py:480-484 | the counts are the occurrence counts of the ISLAND values, and they sum to the number of rows |
| CesspoolAnalysis.SummarizeByBedrooms | scripts/hawaii_cesspool_analysis.py:498-502 | the counts are the occurrence counts of the bedroom keys, and they sum to the number of rows |
| CesspoolAnalysis.SummarizeByPriority | scripts/hawaii_cesspool_analysis.py:517-525 | the counts are the occurrence counts of the priority keys, and they sum to the row counter, which equals the number of rows |
| CesspoolAnalysis.SummaryDefaults | scripts/hawaii_cesspool_analysis.py:501-523 | a NULL bedroom count is tallied under 0 and a NULL priority under 5 |
| CesspoolAnalysis.ExportFieldNamesExactly | scripts/hawaii_cesspool_analysis.py:543-544 | the exported columns are exactly the fields other than OBJECTID, Shape, Shape_Length and Shape_Area |
| HarStandards.CheckSeepagePitTail | scripts/99_Utilities/99b_HAR_11_62_Standards.py:1-19 | the flag-and-append code returns the same verdict and factor list as the rule stated as a function |
| HarStandards.SeepagePitTailFactors | scripts/99_Utilities/99b_HAR_11_62_Standards.py:2-17 | the pit stays compatible iff it was compatible, the class is 1-10 min/inch and drainage is Good or Moderate; each failing test appends exactly one message (too fast, too slow, unknown rate; poor or unknown drainage) after the earlier factors |
| HarStandards.DistinctSpec | scripts/99_Utilities/99b_HAR_11_62_Standards.py:99 | the distinct factors are exactly the factors, each once |
| HarStandards.JoinSeparatorAt | scripts/99_Utilities/99b_HAR_11_62_Standards.py:100 | a join of two or more parts holds the separator right after the first part |
| HarStandards.LimitingFactorsSuitable | scripts/99_Utilities/99b_HAR_11_62_Standards.py:99-100 | LIMITING_FACTORS is 'Suitable' iff none of the three checks found a factor |
| HarStandards.ProcessRowFlags | scripts/99_Utilities/99b_HAR_11_62_Standards.py:73-100 | each MATRIX_*_OK flag is 0 or 1, and 1 iff its check found the technology compatible, the seepage-pit flag included; the input fields are not changed |
| HarStandards.ProcessSoilHarClassifications | scripts/99_Utilities/99b_HAR_11_62_Standards.py:70-108 | every row is rewritten by the per-row rule, and the processed count equals the number of rows |
| HarStandards.DisposalAreaCases | scripts/99_Utilities/99b_HAR_11_62_Standards.py:123-151 | there is a requirement iff the bedroom count is positive and the class has a factor; it echoes bedrooms, design flow and class, uses factor 70, 85 or 125, and its area is flow / 100 times the factor |
| HarStandards.DisposalAreaMonotone | scripts/99_Utilities/99b_HAR_11_62_Standards.py:126-143 | a larger house never needs a smaller disposal area |
| HarStandards.DisposalAreaSlowerPercolation | scripts/99_Utilities/99b_HAR_11_62_Standards.py:126-143 | for the same house and a non-negative flow per bedroom, a slower percolation class (fast, good, slow in that order) never needs a smaller disposal area |
| HarStandards.ValidCount | scripts/99_Utilities/99b_HAR_11_62_Standards.py:183-197 | the number of valid records never exceeds the number of records |
| HarStandards.ValidCountAll | scripts/99_Utilities/99b_HAR_11_62_Standards.py:188-197 | every record is valid iff the valid count equals the record count |
| HarStandards.ValidateHarCompliance | scripts/99_Utilities/99b_HAR_11_62_Standards.py:171-197 | the missing required fields are returned, in order, iff some is absent; otherwise valid plus invalid equals the records scanned, and the valid ones are those whose three classes are all valid |
| CommonFunctions.OutputName | scripts/99_Utilities/99a_Common_Functions.py:30-33 | with an empty suffix the name is the layer name; otherwise it is the layer name, '_' and the suffix |
| CommonFunctions.CreateOutputPath | scripts/99_Utilities/99a_Common_Functions.py:28-35 | the path lies under the base folder and ends with the output name plus '.shp' |
| CommonFunctions.BackupPath | scripts/99_Utilities/99a_Common_Functions.py:68-70 | the path lies under the backup folder and ends with '<source>_backup_<timestamp>.shp' |
| CommonFunctions.BackupPathsDiffer | scripts/99_Utilities/99a_Common_Functions.py:68-70 | backups of one layer taken at two different timestamps of the same format have different paths |
| CommonFunctions.CountKeys | scripts/99_Utilities/99a_Common_Functions.py:54 | one key per row; no key is NULL; a row's key is the text 'NULL' iff its value is NULL or the text 'NULL', and every other value is its own key |
| CommonFunctions.CountRecordsByField | scripts/99_Utilities/99a_Common_Functions.py:49-56 | the counts are the occurrence counts of the keys; they sum to the row count, no key is NULL, every key counts at least 1 and every row's key is present |
| CommonFunctions.FilterMembers | scripts/99_Utilities/99a_Common_Functions.py:75-81 | the present filter keeps exactly the names in the pool and the absent filter exactly the others |
| CommonFunctions.FilterCounts | scripts/99_Utilities/99a_Common_Functions.py:75-81 | the two filters' results together hold every name exactly as often as the list does |
| CommonFunctions.FiltersPartition | scripts/99_Utilities/99a_Common_Functions.py:75-81 | the present and absent filters keep exactly the names on their side, and together every name exactly once |
| CommonFunctions.FilterOrder | scripts/99_Utilities/99a_Common_Functions.py:128-131 | the filters keep the names in their given order |
| CommonFunctions.KeepPresentAppend | scripts/99_Utilities/99a_Common_Functions.py:131 | filtering a list extended by one name extends the result by that name exactly when it exists |
| CommonFunctions.ValidateRequiredFields | scripts/99_Utilities/99a_Common_Functions.py:76-85 | it passes iff every required field exists; otherwise it raises with the non-empty list of missing fields, in required order |
| CommonFunctions.NumbersPopulated | scripts/99_Utilities/99a_Common_Functions.py:96 | every number counts as populated |
| CommonFunctions.PopulatedCount | scripts/99_Utilities/99a_Common_Functions.py:92-97 | the populated count never exceeds the number of rows |
| CommonFunctions.PopulatedCountFull | scripts/99_Utilities/99a_Common_Functions.py:96-97 | every value is populated (not NULL, not blank after strip) iff the count equals the number of rows |
| CommonFunctions.CalculateCompletenessStats | scripts/99_Utilities/99a_Common_Functions.py:87-106 | a field that does not exist means no result (the cursor raises); otherwise each checked field has total = row count and populated = the number of populated values, at most the total |
| CommonFunctions.InvalidCount | scripts/99_Utilities/99a_Common_Functions.py:191-195 | the invalid count never exceeds the number of rows |
| CommonFunctions.InvalidCountZero | scripts/99_Utilities/99a_Common_Functions.py:194-195 | nothing is invalid iff every value is in the allowed list; any NULL makes the count positive |
| CommonFunctions.ValidateHarClassifications | scripts/99_Utilities/99a_Common_Functions.py:171-203 | each of the three HAR fields is reported MISSING iff absent; otherwise total is the row count and invalid is the number of values not in that field's list |
| CommonFunctions.ExportSummaryCsv | scripts/99_Utilities/99a_Common_Functions.py:125-139 | the header is the requested fields that exist, in requested order, and each line holds one row's values for exactly those fields |
| CommonFunctions.AddTrackingField | scripts/99_Utilities/99a_Common_Functions.py:108-123 | a failed AddField returns False and changes nothing; otherwise the field exists, every row holds a non-empty initial value, an empty initial value leaves the rows as AddField made them, and no other field changes |
| TechnologyMatrix.BinaryColumnsExactly | scripts/Work_with_Available_Data.py:101-106 | a column is detected as binary iff it is not Technology and its non-missing values all lie in {0, 1, '0', '1'} (so an all-missing column is binary) |
| TechnologyMatrix.DetectBinaryColumns | scripts/Work_with_Available_Data.py:100-106 | the loop returns the binary columns, in column order |
| TechnologyMatrix.SuitableTechnologies | scripts/Work_with_Available_Data.py:121-135 | the sieve never returns more technologies than there are rows |
| TechnologyMatrix.NoConditionsAllSuitable | scripts/Work_with_Available_Data.py:127-135 | when no requested condition is a binary column, every technology is suitable, in row order |
| TechnologyMatrix.SuitableTechnologiesMember | scripts/Work_with_Available_Data.py:123-135 | a technology is kept iff each of its requested binary-column cells equals the number 1 |
| TechnologyMatrix.NotKept | scripts/Work_with_Available_Data.py:134-135 | a technology named by no row is never returned |
| TechnologyMatrix.DemonstrateSieveAnalysis | scripts/Work_with_Available_Data.py:116-144 | it fails iff the matrix has rows but no Technology column; otherwise it returns every suitable technology in row order, shows the first five and counts the rest |
| TechnologyMatrix.TextOneRejected | scripts/Work_with_Available_Data.py:105-130 | a column holding the text '1' is detected as binary, yet the sieve rejects the technology whose cell it is |
| TechnologyMatrix.SuitableTechnologiesBinary | scripts/Work_with_Available_Data.py:128-132 | the corrected sieve never returns more technologies than there are rows |
| TechnologyMatrix.SuitableTechnologiesBinaryCorrect | scripts/Work_with_Available_Data.py:105-130 | in a detected binary column a cell fails the corrected sieve iff it is missing or a 0 in either form, and the corrected sieve keeps at least as many technologies as the numeric one |
| TechnologyMatrix.SuitableTechnologiesBinaryMember | scripts/Work_with_Available_Data.py:128-132 | the corrected sieve keeps a technology iff every site condition that is a binary column holds 1 in its row, as the number or as the text '1' |
| TechnologyMatrix.NumericSieveIncluded | scripts/Work_with_Available_Data.py:128-132 | every technology the numeric sieve keeps, the corrected sieve keeps too |
| TechnologyMatrix.TextOneKept | scripts/Work_with_Available_Data.py:105-130 | the technology whose only applicable cell is the text '1', rejected by the numeric sieve, is kept by the corrected one |
| Tally.Bump | scripts/99_Utilities/99a_Common_Functions.py:55 | one counting step adds the key if new and raises only its count, by one |
| Tally.CountsSum | scripts/hawaii_cesspool_analysis.py:480-484 | the counts of a counting loop add up to the number of rows scanned |
| Tally.CountsAreOccurrences | scripts/hawaii_cesspool_analysis.py:480-484 | the keys are exactly the values seen, and each count is the number of occurrences, at least one |
| Strings.ReplaceAllNoMatch | scripts/check_projections.py:36 | text without the pattern is returned unchanged |
| Strings.ReplaceFirstOccurrence | scripts/check_projections.py:36 | the first occurrence of the pattern is replaced, and the replacement goes on in the rest of the text |
| Strings.SplitNoSeparator | scripts/.idea/reproject_parcels_by_county.py:31 | text without the separator splits into itself alone |
| Strings.SplitFirstToken | scripts/.idea/reproject_parcels_by_county.py:31 | the first token of a split is the text before the first separator |
| Values.DisplayNonEmpty | scripts/Examine_Existing_Foundation.py:96 | the text form of a value is empty only for the empty string |
| WellsDistanceJoin.FindTmkField | scripts/01_Data_Preparation/01b_Wells_Distance_Join.py:93-105 | the search loop with break finds the first of TMK, TMK9, TMK_txt, tmk, tmk9 that is a field, matched exactly, and it is a field |
| WellsDistanceJoin.DistanceFieldsExactly | scripts/01_Data_Preparation/01b_Wells_Distance_Join.py:115-116 | the distance fields are exactly the fields whose lower-case name contains 'dist' or 'near' |
| WellsDistanceJoin.NearFieldsAreDistanceFields | scripts/01_Data_Preparation/01b_Wells_Distance_Join.py:185-192 | the near-table names the rename mapping expects are distance fields, and TMK is not |
| WellsDistanceJoin.VerifyDataStructure | scripts/01_Data_Preparation/01b_Wells_Distance_Join.py:93-121 | verification succeeds iff both datasets have a TMK candidate; on failure it returns no fields, on success each side's first candidate and its distance fields in field order |
| WellsDistanceJoin.CleanupFieldNames | scripts/01_Data_Preparation/01b_Wells_Distance_Join.py:182-211 | the fields, rows and renamed_count afterwards are CleanupOutcome of the fields and rows before (see CleanupStandardNames); at most one rename is counted per mapped name listed before the loop, and every field the mapping does not name keeps its name and its values |
| WellsDistanceJoin.RenameMappingGroups | scripts/01_Data_Preparation/01b_Wells_Distance_Join.py:185-193 | the mapping sends NEAR_DIST, Distance and Muni_Dist, in that order, to Dist_Municipal_Wells_ft, then NEAR_DIST_1, Distance_1 and Domestic_Dist to Dist_Domestic_Wells_ft |
| WellsDistanceJoin.FirstRenamed | scripts/01_Data_Preparation/01b_Wells_Distance_Join.py:197-209 | no name is chosen iff no name of the group is listed with a rename that goes through; a chosen name is in the group, listed and renamed without error |
| WellsDistanceJoin.RenamesAppend | scripts/01_Data_Preparation/01b_Wells_Distance_Join.py:197-209 | running the loop over two parts of the mapping one after the other is running it over their concatenation |
| WellsDistanceJoin.RenamesPrefix | scripts/01_Data_Preparation/01b_Wells_Distance_Join.py:196-209 | after the first k passes every row is kept, every field that is no source name keeps its presence and values, later listed sources are still fields, and the count is at most the number of listed sources passed |
| WellsDistanceJoin.RenamesNext | scripts/01_Data_Preparation/01b_Wells_Distance_Join.py:197-209 | the pass for the k-th pair extends the first k passes, and a listed name is still a field when its pass comes |
| WellsDistanceJoin.RenamePass | scripts/01_Data_Preparation/01b_Wells_Distance_Join.py:198-209 | one pass calls AlterField only for a name listed before the loop, and renames and counts it as the loop's specification step says |
| WellsDistanceJoin.TakeStandardFacts | scripts/01_Data_Preparation/01b_Wells_Distance_Join.py:197-209 | for a group of names sharing a target: the target is a field afterwards iff it was one or some listed name of the group is renamed without error; the count rises by one iff the target is created; the new column holds the renamed field's values; every field outside the group keeps its presence and values |
| WellsDistanceJoin.GroupRename | scripts/01_Data_Preparation/01b_Wells_Distance_Join.py:197-209 | the passes of one group end with the first listed name whose rename goes through taking the free target; every later rename of the group fails because the target is then taken |
| WellsDistanceJoin.RenamesByGroup | scripts/01_Data_Preparation/01b_Wells_Distance_Join.py:185-209 | the loop over the whole mapping ends as the municipal group's renames followed by the domestic group's |
| WellsDistanceJoin.CleanupStandardNames | scripts/01_Data_Preparation/01b_Wells_Distance_Join.py:196-211 | Dist_Municipal_Wells_ft is a field afterwards iff it was one or some listed municipal name was renamed without error, and likewise Dist_Domestic_Wells_ft; renamed_count is the number of standard names so created (0, 1 or 2); each created column holds, row by row, the values of the field renamed into it |
| WellsDistanceJoin.AddMetadata | scripts/01_Data_Preparation/01b_Wells_Distance_Join.py:229-262 | it succeeds iff Process_Date existed or could be added; then the field exists once and every row holds the timestamp, with nothing else changed; a failure changes nothing |
| WellsDistanceJoin.RunWellsJoin | scripts/01_Data_Preparation/01b_Wells_Distance_Join.py:268-300 | import always runs; verification runs iff the import succeeded, the join iff both TMK fields were found too; cleanup and metadata run iff the join succeeded, whatever their own outcome |
| FeatureTable.Column | scripts/99_Utilities/99a_Common_Functions.py:52-53 | a search cursor over one field yields one value per row, and a value occurs in the column iff some row holds it in that field |
| FeatureTable.SetAll | scripts/99_Utilities/99a_Common_Functions.py:114-117 | an update cursor writing one value leaves each row with its fields plus that field, which holds the value, and every other field with its old value |
| FeatureTable.ColumnAfterSetAll | scripts/99_Utilities/99a_Common_Functions.py:114-117 | reading a field back after writing one value to it gives that value in every row, and reading any other field gives what it held before |
| FeatureTable.JoinedRow | scripts/Fresh_Start_Foundation.py:189-194 | a joined row keeps its fields and values and gains each join field, holding the matched record's value, or NULL when the record has none |
| FeatureTable.Table.JoinField | scripts/Fresh_Start_Foundation.py:189-194 | JoinField succeeds iff the call does not raise; then the join fields are appended to the field list and every row becomes its joined row; otherwise nothing changes |
| FeatureTable.FirstPresentSpec | scripts/01_Data_Preparation/01b_Wells_Distance_Join.py:97-105 | nothing is found iff no candidate is a field; what is found is the earliest candidate that is a field |
| FeatureTable.FirstPresentAppend | scripts/Clean_Slate_Academic_Start.py:212-216 | extending the candidate list by one name finds that name only when no earlier candidate matched |
| FeatureTable.Table.constructor | scripts/Clean_Slate_Academic_Start.py:120 | a feature class holds the given fields and rows |
| FeatureTable.Table.AddField | scripts/99_Utilities/99a_Common_Functions.py:111 | a successful AddField appends a new field that is NULL in every row and leaves an existing one alone; a failed one changes nothing |
| FeatureTable.Table.FillField | scripts/99_Utilities/99a_Common_Functions.py:114-117 | the update cursor sets the field to the value in every row, changes nothing else and updates every row |
| FeatureTable.RenameKeepsTable | scripts/01_Data_Preparation/01b_Wells_Distance_Join.py:200-205 | renaming a field onto a free name keeps every row's fields equal to the field list, and every other field keeps its values |
| FeatureTable.Table.RenameField | scripts/01_Data_Preparation/01b_Wells_Distance_Join.py:200-205 | AlterField succeeds iff the tool succeeds and the new name is free; it then renames the field in the list and in every row, and no other field changes |
| MpatFoundation.CleanOldFoundations | scripts/Clean_Slate_Academic_Start.py:81-87 | afterwards no old foundation name is in the geodatabase and nothing else was removed; the count is the number of deletions made, at most the length of the list |
| MpatFoundation.DeletedCount | scripts/Clean_Slate_Academic_Start.py:81-87 | the deletion counter equals the number of distinct old foundation names that existed, which is at most the number of names listed |
| MpatFoundation.AddFieldArguments | scripts/Clean_Slate_Academic_Start.py:178-187 | AddField gets the field's name, type and alias, and its length only when the length is not None (nor 0) |
| MpatFoundation.SuccessCount | scripts/Clean_Slate_Academic_Start.py:174-191 | the number of AddField calls that succeed is at most the number of fields |
| MpatFoundation.AddFields | scripts/Clean_Slate_Academic_Start.py:174-191 | fields_added counts the calls that did not raise (at most the list length); the fields afterwards are exactly the old ones and the names of the specs whose call succeeded; existing fields and their values stay, and when nothing was added nothing changed |
| MpatFoundation.AddedNames | scripts/Clean_Slate_Academic_Start.py:174-191 | the names added by the loop are names of the specs, and every spec whose AddField call succeeded has its name among them |
| MpatFoundation.AddedNamesAppend | scripts/Clean_Slate_Academic_Start.py:174-191 | adding two lists of specs one after the other adds the union of the names each adds |
| MpatFoundation.ShapefileFieldName | scripts/Clean_Slate_Academic_Start.py:178-187 | a field added to a shapefile is stored under a name of at most ten characters that is a prefix of the requested one, and under the requested name iff that has at most ten characters |
| MpatFoundation.ShapefileAddedNames | scripts/Clean_Slate_Academic_Start.py:174-191 | the names the AddField loop leaves on a shapefile all have at most ten characters, and each spec whose call succeeded is there under its cut name |
| MpatFoundation.AddedNamesDistinct | scripts/Clean_Slate_Academic_Start.py:174-191 | when the spec names are distinct, a spec's name is added iff its own AddField call succeeded |
| MpatFoundation.SuccessCountNone | scripts/Clean_Academic_Start_Fixed.py:173-192 | when every AddField call raises, fields_added stays 0 |
| MpatFoundation.FirstPresentUnaffected | scripts/Clean_Slate_Academic_Start.py:204-216 | adding fields none of which is a TMK candidate does not change which TMK field the search finds |
| MpatFoundation.FindTmkFields | scripts/Clean_Slate_Academic_Start.py:208-216 | the one loop with two flags finds, for each side, the earliest candidate in that side's own field list |
| MpatFoundation.InitializeTracking | scripts/Clean_Slate_Academic_Start.py:253-262 | the cursor raises, writing nothing, iff a tracking field is missing; otherwise every row gets the constant values and its own clock reading, the field list does not change, and the count equals the row count |
| CleanSlateStart.TakeInventory | scripts/Clean_Slate_Academic_Start.py:51-64 | a data source is available iff its path exists, it is recorded with its own path, and nothing else is recorded |
| CleanSlateStart.WellsStatus | scripts/Clean_Slate_Academic_Start.py:218-238 | the status is "Both wells joined" iff both TMK fields were found and the join did not raise, and "Municipal only" otherwise |
| CleanSlateStart.InitLogReadBack | scripts/Clean_Slate_Academic_Start.py:251 | the log starts with "Academic Foundation: " and the timestamp, and ends, after "; Wells: ", with the status |
| CleanSlateStart.TrackedWritesTracking | scripts/Clean_Slate_Academic_Start.py:254-261 | a tracked row holds the log, the status, "High" and the time read, and every other field keeps its value |
| CleanSlateStart.MpatFieldNames | scripts/Clean_Slate_Academic_Start.py:139-171 | the first four framework fields are the tracking fields, and no framework field is a TMK candidate |
| CleanSlateStart.JoinDomesticWells | scripts/Clean_Slate_Academic_Start.py:204-238 | the status is 'Both wells joined' iff both sides have a TMK candidate and JoinField does not raise; then the domestic fields are appended and every record holds its matched values, and otherwise the foundation is unchanged |
| CleanSlateStart.TrackingAddedNames | scripts/Clean_Slate_Academic_Start.py:139-144 | the first four MPAT fields are the four tracking specs, and a tracking name is added by them iff its own AddField call succeeded |
| CleanSlateStart.OtherNamesNotTracking | scripts/Clean_Slate_Academic_Start.py:139-172 | no site, regulatory or matrix field has the name of a tracking field |
| CleanSlateStart.TrackingAdded | scripts/Clean_Slate_Academic_Start.py:174-191 | a tracking field is added by the whole MPAT list iff its own AddField call succeeded |
| CleanSlateStart.ShapefileTrackingMissing | scripts/Clean_Slate_Academic_Start.py:117-255 | on the shapefile foundation every field name has at most ten characters and DATA_STATUS and LAST_UPDATED are stored cut to DATA_STATU and LAST_UPDAT, so the tracking cursor never finds its four fields and the condition under which AcademicSteps finishes fails, whatever AddField and JoinField do |
| CleanSlateStart.TrackingPresent | scripts/Clean_Slate_Academic_Start.py:254-255 | the tracking cursor finds all its fields iff the first four MPAT field names are fields |
| CleanSlateStart.AddAndJoin | scripts/Clean_Slate_Academic_Start.py:173-238 | fields_added counts the successful adds; the status is decided on the copied fields; the fields afterwards are exactly the copied ones, the added ones and, after a join, the joined ones; a tracking field is present iff it was copied or added; old values stay and joined fields hold the matched values |
| CleanSlateStart.WriteTracking | scripts/Clean_Slate_Academic_Start.py:249-264 | the cursor runs iff the four tracking fields exist; then every row is tracked and the count equals the row count; no other field of any row changes |
| CleanSlateStart.AcademicSteps | scripts/Clean_Slate_Academic_Start.py:173-264 | on the foundation copy: fields_added counts the successful adds, the status comes from the TMK fields of the copy before any add, the run finishes iff every tracking field was on the copy or its AddField call succeeded (and otherwise crashes at the tracking cursor), the fields afterwards are exactly the copied, added and joined ones, and a finished run tracks every record |
| CleanSlateStart.RunCleanSlate | scripts/Clean_Slate_Academic_Start.py:51-304 | the script exits iff a wells source is missing, having only removed the old foundations; otherwise it adds the fields, joins and tracks as above, and at the end of a finished run the two temporary feature classes are gone |
| CleanStartFixed.RunAsWritten | scripts/Clean_Academic_Start_Fixed.py:101-203 | the run as written never stops cleanly: without both wells sources it goes on, adds no field (every AddField raises and is caught), writes nothing and crashes when listing the foundation's fields; with both it ends as the clean-slate run does |
| FreshStartFoundation.Imported | scripts/Fresh_Start_Foundation.py:77-89 | each import feature class exists afterwards iff it existed or its shapefile exists, and nothing else is added |
| FreshStartFoundation.AcademicFieldNames | scripts/Fresh_Start_Foundation.py:110-126 | the tracking fields are the 1st, 2nd and 15th academic fields, and no academic field is a TMK candidate |
| FreshStartFoundation.InitialTracking | scripts/Fresh_Start_Foundation.py:150-156 | the cursor runs iff JOIN_LOG, DATA_STATUS and LAST_UPDATED exist; then every row holds "Foundation: <ts>", "Municipal wells only" and its clock reading, and no other field changes |
| FreshStartFoundation.AppendDomesticLog | scripts/Fresh_Start_Foundation.py:197-201 | every row's JOIN_LOG becomes its previous text followed by "; Domestic wells: <ts>", and DATA_STATUS becomes "Both wells joined" |
| FreshStartFoundation.AppendAfterInitial | scripts/Fresh_Start_Foundation.py:153-199 | appending to an initially tracked row gives the joined log, which extends the initial one |
| FreshStartFoundation.JoinDomestic | scripts/Fresh_Start_Foundation.py:171-210 | the join counts iff both TMK fields are found and JoinField does not raise; then the domestic fields are appended and every row is its joined row with the log and status updated, otherwise no row and no field changes |
| FreshStartFoundation.FinalRows | scripts/Fresh_Start_Foundation.py:188-201 | after step 4 every record holds the foundation log, followed by the domestic entry iff the join went through, the matching status and its own time, and a join leaves each record's matched values in the joined fields |
| FreshStartFoundation.AddAcademicFields | scripts/Fresh_Start_Foundation.py:110-156 | fields_added counts the successful adds; the tracking cursor runs iff each of the three tracking fields was there or added, and then every row is initially tracked; no field other than the academic ones appears, and adding the fields does not change which TMK field is found |
| FreshStartFoundation.ShapefileTrackingMissing | scripts/Fresh_Start_Foundation.py:103-151 | on the shapefile foundation every field name has at most ten characters and DATA_STATUS and LAST_UPDATED are stored cut to DATA_STATU and LAST_UPDAT, so the initial tracking cursor never finds its three fields, whatever AddField does |
| FreshStartFoundation.AcademicNamesDistinct | scripts/Fresh_Start_Foundation.py:110-126 | the fifteen academic field names are pairwise distinct |
| FreshStartFoundation.BuildFoundation | scripts/Fresh_Start_Foundation.py:110-212 | fields_added counts the successful adds; the run finishes iff each tracking field was there or added; the domestic join happens iff it finishes with the domestic import present, both TMK fields and a successful join, and then the joined fields hold the matched values and every row the final log and status |
| FreshStartFoundation.RunFreshStart | scripts/Fresh_Start_Foundation.py:44-243 | a foundation is created iff the municipal import exists after step 2; without one nothing is built and the run ends; a finished run removes both temporary imports |
| ExamineFoundation.ClassifyUnclear | scripts/Examine_Existing_Foundation.py:39-51 | a field is unclear iff no location or matrix keyword occurs in its lower-cased name and it is not FID or Shape; only those two are system fields |
| ExamineFoundation.GroupSizes | scripts/Examine_Existing_Foundation.py:35-57 | useful, unclear and system fields add up to all fields |
| ExamineFoundation.UsefulMembers | scripts/Examine_Existing_Foundation.py:39-45 | the useful list holds exactly the fields with a location or matrix keyword |
| ExamineFoundation.ConfusingMembers | scripts/Examine_Existing_Foundation.py:46-51 | the unclear list holds exactly the fields classified unclear |
| ExamineFoundation.FieldsPartition | scripts/Examine_Existing_Foundation.py:35-57 | useful, unclear and system fields add up to all fields, and the useful and unclear lists hold exactly the fields of their kind |
| ExamineFoundation.CategorizeFields | scripts/Examine_Existing_Foundation.py:32-51 | the loop's two lists are the useful and the unclear fields, in table order |
| ExamineFoundation.PickDistanceFields | scripts/Examine_Existing_Foundation.py:69-76 | the sample starts with TMK and Island, has no duplicates and at most 5 fields, each added one a distance field of the table; every distance field is taken unless the sample reached 5 |
| ExamineFoundation.PickTrackingFields | scripts/Examine_Existing_Foundation.py:78-84 | the sample keeps what it started with, has no duplicates and at most 8 fields, each added one a tracking field of the table; every tracking field of the table is taken unless the sample reached 8 |
| ExamineFoundation.ChooseSampleFields | scripts/Examine_Existing_Foundation.py:69-84 | the sample starts with TMK and Island, has no duplicates and 2 to 8 fields, each added one a distance or tracking field of the table; every distance field is taken unless the sample reached 5, every tracking field unless it reached 8 |
| ExamineFoundation.DisplayValue | scripts/Examine_Existing_Foundation.py:96 | a false value shows as NULL; any other shows as the first 30 characters of its text, the whole text when it is short enough |
| ExamineFoundation.RecordEntries | scripts/Examine_Existing_Foundation.py:93-97 | one entry per sample field, each starting with the field's name and ': ' |
| ExamineFoundation.SampleRecords | scripts/Examine_Existing_Foundation.py:89-101 | the cursor raises iff a sample field is not a field; otherwise the first min(3, rows) records are shown, each with its entries |
| ExamineFoundation.RecommendationBounds | scripts/Examine_Existing_Foundation.py:106-124 | a table with fewer than 8 fields is never recommended for clean-up, and one without unclear fields is never recommended to start fresh |
| ExamineFoundation.Examine | scripts/Examine_Existing_Foundation.py:20-134 | a missing table gives only the not-found report; otherwise the useful and unclear fields, a sample starting TMK, Island that adds the table's distance then tracking fields until five and eight, the recommendation for the two counts, and the first min(3, rows) records each shown field by field; the sampling fails iff a sample field is missing |
| CheckProjections.CandidatesSound | scripts/check_projections.py:116-120 | every collected path joins the folder and name of a walked file ending in '.shp' but not '_original.shp' |
| CheckProjections.CandidatesComplete | scripts/check_projections.py:116-120 | every walked file ending in '.shp' but not '_original.shp' gives a collected path |
| CheckProjections.CandidatesExactly | scripts/check_projections.py:116-120 | a path is collected iff some walked file ending in '.shp' but not '_original.shp' joins its folder to give that path |
| CheckProjections.CandidatesAreShapefilesLemma | scripts/check_projections.py:118-119 | every collected path ends in '.shp' |
| CheckProjections.FindShapefiles | scripts/check_projections.py:115-120 | the loop collects the candidate paths in walk order |
| CheckProjections.Companion | scripts/check_projections.py:36-67 | the corrected companion path is the shapefile's path without its '.shp' extension followed by the new suffix |
| CheckProjections.CompanionsDistinct | scripts/check_projections.py:36-67 | for a path ending in '.shp', the '.prj', backup and temporary paths the script builds with `replace` differ from the shapefile and from each other, so its renames never overwrite the original |
| CheckProjections.CompanionAgrees | scripts/check_projections.py:36 | where the path holds no other '.shp', the script's replace gives the intended companion path |
| CheckProjections.CompanionInShpFolder | scripts/check_projections.py:36 | in a folder whose name ends in '.shp' the script's replace also rewrites the folder name, so the '.prj' it looks for is not the shapefile's; the corrected path keeps the folder |
| CheckProjections.ShpFolderPrjMissed | scripts/check_projections.py:36-40 | a shapefile in a folder whose name ends in '.shp', with its '.prj' beside it, is reported as having no projection file, while the corrected companion path is that '.prj' |
| CheckProjections.ProjectionLabelOrder | scripts/check_projections.py:54-61 | a text is geographic iff it has GEOGCS and no PROJCS; a projected text naming State_Plane is Hawaii State Plane even when it also names WGS_1984; WGS84 needs WGS_1984 without State_Plane |
| CheckProjections.CheckAndFixReady | scripts/check_projections.py:27-93 | the function returns True iff the '.prj' the script's replace names exists and can be read, and either already names NAD_1983_HARN_UTM_Zone_4N or the reprojection succeeds; a fix keeps the original under a different name |
| CheckProjections.CountStatusTotal | scripts/check_projections.py:132-158 | every shapefile is counted under exactly one of ready, fixed and error |
| CheckProjections.CountProjections | scripts/check_projections.py:132-158 | ready + fixed + error equals the number of candidates, each counter counting the candidates of its status; a '.prj', found by the script's replace, that is missing or unreadable is an error |
| CheckProjections.ScanGisFolders | scripts/check_projections.py:95-171 | nothing is collected when the downloads folder is missing, nothing is counted when no candidate was found, and otherwise the counters cover the candidates exactly once, each by the status of the '.prj' the script's replace names |
| ProjectionCheckRobust.LabelsDisagree | scripts/projection_check_robust.py:70-77 | this checker's label differs from the fixing checker's iff the text is not plain geographic and names both WGS_1984 and State_Plane; then it says WGS84 where the other says Hawaii State Plane |
| ProjectionCheckRobust.CountFindingTotal | scripts/projection_check_robust.py:53-83 | each shapefile is counted at most once, so ready + needs-fix plus the uncounted ones equals the number of candidates |
| ProjectionCheckRobust.CheckersAgreeOnReady | scripts/projection_check_robust.py:58-67 | this checker finds a shapefile ready iff the fixing checker counts it as already correct, and one it cannot count is an error there |
| ProjectionCheckRobust.CheckProjectionsSimple | scripts/projection_check_robust.py:27-100 | nothing is collected without the data folder and nothing counted without candidates; otherwise the two counters count the ready and the needs-fix shapefiles, a '.prj', found by the script's replace, that is missing or unreadable counts in neither, and the fix steps print iff something needs fixing |
| ReprojectAllData.LastDot | scripts/data_standardization/reproject_all_data.py:98 | the result is the position of the last '.' of the name, with no dot after it, or -1 exactly when the name has no dot |
| ReprojectAllData.Extension | scripts/data_standardization/reproject_all_data.py:98 | the extension is empty or a suffix of the name that starts with its only dot; it is empty exactly when the name has no dot or only dots before its last one |
| ReprojectAllData.UpperCaseExtensionNeverMatches | scripts/data_standardization/reproject_all_data.py:98-99 | only the file's extension is lower-cased, so an extension list entry with an upper-case letter selects no file |
| ReprojectAllData.RelPathRoundTrip | scripts/data_standardization/reproject_all_data.py:105-106 | joining the top folder with a walked folder's relative path gives that folder back |
| ReprojectAllData.OutputPath | scripts/data_standardization/reproject_all_data.py:105-107 | an output path lies under the output folder and ends with the input's file name |
| ReprojectAllData.JobMirrors | scripts/data_standardization/reproject_all_data.py:102-107 | a job reads the walked file and writes the same file name in the same relative folder under the output folder |
| ReprojectAllData.JobsFromSelected | scripts/data_standardization/reproject_all_data.py:95-107 | every job comes from a walked file whose extension is selected, so there are never more jobs than walked files |
| ReprojectAllData.ReprojectToHcptSpec | scripts/data_standardization/reproject_all_data.py:45-73 | a dataset already in EPSG 26904 is copied and any other is projected; the result is true exactly when Describe, the tool and the output check all succeed with EPSG 26904 |
| ReprojectAllData.Successes | scripts/data_standardization/reproject_all_data.py:112-115 | no more jobs succeed than there are jobs |
| ReprojectAllData.BatchReprojectFolder | scripts/data_standardization/reproject_all_data.py:75-121 | with '.shp' and '.gdb' as the default extensions, the jobs are those of the selected walked files, the success counter counts the jobs that succeed and the two counters add up to the number of jobs |
| ReprojectAllData.CorrectCount | scripts/data_standardization/reproject_all_data.py:139-140 | no more shapefiles are correct than were checked |
| ReprojectAllData.VerifyProjectionBatch | scripts/data_standardization/reproject_all_data.py:123-151 | the correct counter counts the '.shp' files in EPSG 26904, one whose Describe raises counts as incorrect, and the two counters cover every '.shp' file |
| ReprojectAllData.Standardize | scripts/data_standardization/reproject_all_data.py:161-197 | nothing runs without the raw folder; otherwise the raw folder is reprojected into the standardized folder, and the output is verified exactly when at least one dataset succeeded |
| ReprojectParcelsByCounty.ParcelsNameSplits | scripts/.idea/reproject_parcels_by_county.py:26-31 | a name that starts with 'Parcels_' splits on '_' into at least two parts, the first 'Parcels', so the county lookup cannot fail |
| ReprojectParcelsByCounty.CountyOfParses | scripts/.idea/reproject_parcels_by_county.py:31 | the county read from 'Parcels_' + county, followed by nothing or by '_'-led text, is that county when it has no '_' |
| ReprojectParcelsByCounty.DecideSpec | scripts/.idea/reproject_parcels_by_county.py:26-56 | a feature class is reprojected exactly when it is named 'Parcels_', its county is one of the four and its current WKID differs from that county's; the output is the name plus '_proj' and the target is one of the four WKIDs |
| ReprojectParcelsByCounty.OutputSkippedNextTime | scripts/.idea/reproject_parcels_by_county.py:31-51 | the '_proj' output of a county, once in that county's WKID, is skipped as already projected on a second run |
| ReprojectParcelsByCounty.PlannedFromList | scripts/.idea/reproject_parcels_by_county.py:22-56 | every planned projection comes from a listed feature class whose decision is to reproject it to that output and WKID |
| ReprojectParcelsByCounty.ReprojectByCounty | scripts/.idea/reproject_parcels_by_county.py:22-56 | the loop issues exactly the planned projections, in list order, at most one per feature class |
| ExportParcelsByCounty.BelowIrreflexive | scripts/arcpy_utilities/export_parcels_by_county.py:14 | no string sorts before itself |
| ExportParcelsByCounty.BelowAsymmetric | scripts/arcpy_utilities/export_parcels_by_county.py:14 | two strings never sort before each other |
| ExportParcelsByCounty.BelowTransitive | scripts/arcpy_utilities/export_parcels_by_county.py:14 | string order is transitive |
| ExportParcelsByCounty.BelowTotal | scripts/arcpy_utilities/export_parcels_by_county.py:14 | of two different strings one sorts before the other |
| ExportParcelsByCounty.InsertSpec | scripts/arcpy_utilities/export_parcels_by_county.py:14 | inserting into a strictly sorted list keeps it strictly sorted and adds exactly the new value |
| ExportParcelsByCounty.SortedDistinctSpec | scripts/arcpy_utilities/export_parcels_by_county.py:11-14 | the sorted set of counties is strictly increasing and holds exactly the values of the column |
| ExportParcelsByCounty.StrictlySortedUnique | scripts/arcpy_utilities/export_parcels_by_county.py:11-14 | two strictly sorted lists with the same members are equal, so the export order does not depend on the set's order |
| Strings.ReplaceEach | scripts/arcpy_utilities/export_parcels_by_county.py:15 | the result has the same length; no occurrence of the replaced element is left when it differs from its replacement; every other element of the input stays and every element of the result other than the replacement was in the input |
| Strings.ReplaceAllLength | scripts/check_projections.py:36 | `str.replace` lengthens or shortens the text by the difference in length for each occurrence it replaces |
| Strings.ReplaceAllChanges | scripts/check_projections.py:36 | replacing an occurring pattern by a different text of the same length changes the text |
| ExportParcelsByCounty.ReplaceCharBack | scripts/arcpy_utilities/export_parcels_by_county.py:15 | for a county with no '_', turning the output name's '_' back into spaces gives the county back |
| ExportParcelsByCounty.OutputNamesDistinct | scripts/arcpy_utilities/export_parcels_by_county.py:15 | counties without '_' get different output feature classes |
| ExportParcelsByCounty.OutputNameReadBack | scripts/arcpy_utilities/export_parcels_by_county.py:15 | an export of a county with neither '_' nor space is a 'Parcels_' feature class from which the reprojection script reads the same county back |
| ExportParcelsByCounty.WhereClauseQuotes | scripts/arcpy_utilities/export_parcels_by_county.py:16 | the where clause is "COUNTY = '" followed by the county and a closing quote |
| ExportParcelsByCounty.ExportCounties | scripts/arcpy_utilities/export_parcels_by_county.py:11-18 | one export per distinct county in sorted order, each with its output name and where clause, and a county gets an export exactly when it occurs in the column |

## Left out

- arcpy geoprocessing and map calls (CopyFeatures, JoinField, AddField, AlterField, CalculateField, Project, Copy, Describe, Delete, Rename, Select, ListFeatureClasses, ArcGISProject): each is a parameter. This covers the field list, the rows, whether the call goes through, and the factory code it reports. What the tools do to geometry is not modelled.
- File system and I/O: existence checks, `os.walk`, `os.makedirs`, reading the CSV with pandas, and writing CSV, inventory or log files. The walk is a list of (folder, file) pairs, and the existing paths are a set. The standardised folder that `main` creates is assumed to exist afterwards.
- Console output, progress messages and `input()` prompts are not modelled. Where a script's only effect is what it prints, the model returns the values it would print.
- Floating point:
  - `ACRES * 43560` is not modelled, so LOT_SIZE_SF is an input in whole square feet;
  - ACRES is kept in hundredths of an acre, which makes the 0.1-acre test exact;
  - percentages are not modelled (the completeness and summary passes return the counts);
  - `round()` is not modelled, so the disposal area is an exact `real`.
- Timestamps from `datetime.now()` are opaque strings or a clock function given as a parameter.
- Helpers and constants of scripts/99_Utilities/99b_HAR_11_62_Standards.py whose definitions are not in the file are fields of a `Rules` parameter: the slope, percolation and drainage classifiers, the Ksat conversion, the septic-tank and aerobic-treatment-unit checks, `DESIGN_FLOW_RATES` and `VALID_CLASSIFICATIONS`. The same goes for the start of the seepage-pit check, which is missing from the file.
- The future-use stubs at scripts/hawaii_cesspool_analysis.py:617-656 are not modelled.
- The setup and configuration scripts only create folders and join paths: scripts/00_setup/create_folder_structure.py, scripts/create_folder_structure.py, scripts/setup_notebook_structure.py, scripts/Phase2_Data_Setup.py and scripts/configs/paths_config.py. scripts/simple_projection_check.py repeats the filter and names of scripts/check_projections.py around arcpy calls. None of these is part of this model.
- HarStandards.LimitingFactorsText: Python's `list(set(...))` order is unspecified, so the model fixes first-occurrence order. The order of the joined messages is therefore a choice of the model. What is proved, by DistinctSpec, is that each message appears exactly once.
- ReprojectParcelsByCounty.ReprojectByCounty: an exception from `Describe` would stop the script. It is not modelled, because the current WKID is a total function of the name.
- ExportParcelsByCounty.OutputNamesDistinct: holds only for county names without '_'. "A B" and "A_B" both map to `Parcels_A_B`, and the later export overwrites the earlier one.
- ExportParcelsByCounty.ExportCounties: a NULL COUNTY value is not modelled; the column is taken as text. In Python, NULL mixed with text makes `sorted` raise a TypeError, and a column of NULLs only makes `replace` raise.
- ExportParcelsByCounty.WhereClauseQuotes: a county containing a quote gives a clause that arcpy rejects. The clause is built as the script builds it, without escaping, and its rejection is not modelled.
- Values.Display: cell values are integers, text and NULL. The distance fields are doubles and LAST_UPDATED is a date; they are not cases of `Value`, so `str()` and the Populated test are modelled only for integers and text.
- FeatureTable.Table.AddField: keeps the requested name whole, as a geodatabase feature class does. The three foundation scripts write a shapefile, whose field names hold at most ten characters, so the tracking cursors that name DATA_STATUS and LAST_UPDATED would raise; this is the first row of "## Findings", shown by the ShapefileTrackingMissing lemmas. AcademicSteps, BuildFoundation and RunAsWritten describe the run on a table that keeps names whole.
- CesspoolAnalysis.CalculateLotCharacteristics, CesspoolAnalysis.CalculatePriorityScores and CesspoolAnalysis.CalculateIslands: the field-calculator strings at scripts/hawaii_cesspool_analysis.py:308-318, 344-364 and 456-469 put a `def` inside the expression and pass no code block. The model takes each string to evaluate as its function would (LotSizeCategory, Priority, Island); arcpy may instead reject such an expression, and that is not modelled.
- FeatureTable.Table.JoinField: the joined fields are a parameter assumed new to the table; arcpy's renaming of a joined field whose name clashes is not modelled.
- Strings.Lower: only ASCII letters are lowered; Python's `lower()` also lowers other Unicode letters.
- Strings.PathJoin: joins with one backslash; the drive-letter and absolute-path cases of `os.path.join` are not modelled.
- ReprojectParcelsByCounty.ReprojectByCounty: an exception from `arcpy.Project_management` stops the script; the model takes each projection to go through.

## Findings

| source | as written | input that shows it | evidently intended | confidence | as-written member | corrected member |
|---|---|---|---|---|---|---|
| scripts/Clean_Slate_Academic_Start.py:117 | the foundation is written as a shapefile, whose dBASE field names hold at most ten characters, yet the tracking cursor at 254-255 names DATA_STATUS (11 characters) and LAST_UPDATED (12); scripts/Fresh_Start_Foundation.py:103 and 151 and scripts/Clean_Academic_Start_Fixed.py:117 and 251-252 do the same | any run that reaches the tracking cursor: AddField stores the fields as DATA_STATU and LAST_UPDAT, or fails | keep the tracking fields under the names the cursor uses, by writing the foundation to the geodatabase or by names of at most ten characters | plausible; not executed | CleanSlateStart.ShapefileTrackingMissing | CleanSlateStart.AcademicSteps |
| scripts/Clean_Academic_Start_Fixed.py:124-126 | when a wells source is missing, the `else` branch only prints and the script carries on; the loop at 174-192 catches a NameError on every AddField and line 203 then raises an uncaught NameError | the Municipal or Domestic wells-distance shapefile is absent | stop before creating the foundation, as scripts/Clean_Slate_Academic_Start.py does | not executed | CleanStartFixed.RunAsWritten | CleanSlateStart.RunCleanSlate |
| scripts/check_projections.py:36 | `shp_path.replace('.shp', '.prj')` rewrites every '.shp' in the whole path, and so do the backup and temporary names at 66-67 and 142 | a shapefile in a folder whose name ends in '.shp', such as `data\gis_downloads\soils.shp\soils.shp` | replace only the file's own extension | not executed | CheckProjections.ShpFolderPrjMissed | CheckProjections.Companion |
| scripts/Work_with_Available_Data.py:105-130 | binary detection accepts the text '1', but the sieve compares each cell with the number 1 | a matrix column whose cells are the texts '0' and '1' | a cell accepted as a binary 1 also passes the sieve | not executed | TechnologyMatrix.TextOneRejected | TechnologyMatrix.SuitableTechnologiesBinaryMember |
