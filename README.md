# mining_trait_data — a Dafny model

This project models the core of `mining_trait_data`, a collection of
Python pipelines that gather plant trait evidence and tie it to accepted
names of a taxonomic checklist (the World Checklist of Vascular Plants).

At its centre is the **taxonomic name resolution engine** of
`name_matching_cleaning`. It turns a free-text or identifier-based plant
name into the accepted record of the checklist: accepted name, id and
rank, and the species-level parent. The stages are:

- exact name and identifier lookups;
- the normalisation of submitted names;
- the choice among several candidates offered by the Kew Names Matching
  Service (KNMS, the remote matcher);
- the containment-based autoresolver;
- the orchestrator that runs manual, exact, remote and autoresolve
  matching in turn.

Around it sit the evidence pipelines that feed and consume its results:

- compiling the hits of several sources into one table, in three
  generations (`name_matching_cleaning/cleaning.py`,
  `cleaning/compiling_datasets.py`,
  `data_compilation_methods/compiling_datasets.py`);
- the source summaries of a compiled table, old and new;
- cleaning GBIF occurrences by the native and introduced regions of their
  taxa;
- the TRY trait-database filters for spines and hairs;
- the parsers of the World Economic Plants book, its checklist and its
  common-name index, which work on lines of extracted PDF text;
- the metabolite classifiers: the alkaloid rules, the KEGG BRITE tree
  flattener, the KNApSAcK presence matrix and hit extraction, and the
  alkaloid class lookups;
- two small helpers (the InChIKey prefix and the keyword row filter) and
  the Wikipedia common-name page search.

Tables are sequences of records, and a missing table value (NaN/None) is
`None` in `Base.Cell`. pandas' element-wise `==`, under which a missing
value equals nothing, is `Base.PyEq`. Membership tests, duplicate removal
and merge keys treat two missing values as equal, and use Dafny's `==`.
Strings are handled on ASCII. The checklist is a sequence of
`Taxa.ChecklistRecord`.

The HTTP call to the remote matcher, the checklist loader, the CSV cache
and temporary files, and `remove_whitespace` (it is imported from a
module that is not part of this model) are parameters of the members that
use them.

## Model

| member | source | states |
|---|---|---|
| WcvpMatching.InfoFromRecord | name_matching_cleaning/wcvp_matching.py:8-31 | an Accepted record yields its own name and id, any other its accepted name and id; the rank is the record's own; a Species yields itself as species, any other rank its parent |
| WcvpMatching.IdLookup | name_matching_cleaning/wcvp_matching.py:61-82 | a non-empty answer comes from a record holding the (URN-stripped) id, and from every such record |
| WcvpMatching.NameLookup | name_matching_cleaning/wcvp_matching.py:34-58 | a non-empty answer comes from a record spelling the name or naming it as its accepted name |
| WcvpMatching.IdLookupUnique | name_matching_cleaning/wcvp_matching.py:71-82 | an id held by exactly one record gives that record's accepted information |
| WcvpMatching.IdLookupDuplicate | name_matching_cleaning/wcvp_matching.py:79-81 | an id held by two records gives the all-missing answer, not an error |
| WcvpMatching.IdLookupUnknown | name_matching_cleaning/wcvp_matching.py:74-78 | an id nobody holds (unknown, empty, blank, or missing read as "nan") gives the all-missing answer |
| WcvpMatching.LookupKeyPlainOrPrefixed | name_matching_cleaning/wcvp_matching.py:68-70 | the lookup key is the id itself without the URN prefix, and the rest of the id with it |
| WcvpMatching.IdLookupSynonym | name_matching_cleaning/wcvp_matching.py:14-20 | a unique synonym's URN id resolves to its accepted name and accepted id |
| WcvpMatching.NameLookupUnique | name_matching_cleaning/wcvp_matching.py:42-58 | a name spelled by exactly one record gives that record's accepted information |
| WcvpMatching.NameLookupUnknown | name_matching_cleaning/wcvp_matching.py:45-47 | a name no record spells gives the all-missing answer |
| WcvpMatching.NameLookupAmbiguous | name_matching_cleaning/wcvp_matching.py:48-57 | a name spelled by several records is decided by a unique accepted-name record, and is all-missing when there is none or when two or more records name it as their accepted name |
| WcvpMatching.AcceptedNameRoundTrip | name_matching_cleaning/wcvp_matching.py:34-82 | a uniquely spelled Accepted name resolves to itself, and its id resolves to the same information |
| WcvpMatching.InfoForNames | name_matching_cleaning/wcvp_matching.py:85-106 | one row per input row, in order, the row unchanged and paired with its name lookup |
| NameCleaning.CleanUrnIds | name_matching_cleaning/cleaning.py:30-41 | the text after the first match of the URN pattern; missing when the string has no match; a missing value unchanged |
| NameCleaning.CleanUrnIdsOfPrefixed | name_matching_cleaning/cleaning.py:30-39 | stripping undoes prefixing an id with the URN |
| NameCleaning.FilterOutRanks | name_matching_cleaning/cleaning.py:16-19 | a key error exactly when there is no rank column; otherwise the rows whose accepted rank is Species, and every such row |
| NameCleaning.PathJoin | name_matching_cleaning/cleaning.py:24-25 | `os.path.join` on POSIX paths: the result ends with the second part, an absolute second part replaces the first, and otherwise the first part is followed by one separator |
| NameCleaning.TempOutputFilePaths | name_matching_cleaning/cleaning.py:22-27 | the cleaned and accepted file names of a tag lie side by side in the given directory, unless the tag is an absolute path |
| NameCleaning.FirstText | name_matching_cleaning/cleaning.py:54 | 'nan' exactly when every value is '' or 'nan'; otherwise the first value that is neither |
| NameCleaning.MergedColumnsMeaning | name_matching_cleaning/cleaning.py:44-56 | the old columns are gone, a new column not among them is added, each row's new value is the first non-blank text of its old columns, and every other column keeps its values |
| NameCleaning.MergeColumns | name_matching_cleaning/cleaning.py:52-56 | the argument is changed in place (old columns cast to text, new column added) and the returned frame lacks the old columns; a missing old column raises after the earlier casts |
| NameCleaning.MergeOnAcceptedIdOf | name_matching_cleaning/cleaning.py:59-60 | a key error exactly when either frame lacks Accepted_ID |
| NameCleaning.WithSourcesMeaning | name_matching_cleaning/cleaning.py:62-69 | Sources is the ':'-join of a row's source columns, a missing cell read as ''; it is the only column left whose name contains 'Source'; other columns keep their values |
| NameCleaning.AcceptedMergedMeaning | name_matching_cleaning/cleaning.py:71-78 | the three accepted-column merges keep every column that mentions none of the accepted columns, with its values, and add only the three accepted columns |
| NameCleaning.MergeOnAcceptedIdMeaning | name_matching_cleaning/cleaning.py:59-80 | after the merge, Sources joins every source column of the outer merge, and no other column name contains 'Source' |
| NameCleaning.MergeOnAcceptedId | name_matching_cleaning/cleaning.py:59-80 | the loop that fills the source columns computes the merge specified above |
| NameCleaning.KeptColumns | name_matching_cleaning/cleaning.py:92-97 | the kept columns include Accepted_Name, Accepted_ID and Source |
| NameCleaning.CollectMentions | name_matching_cleaning/cleaning.py:92-96 | the collecting loop lists every column whose lower-cased name contains 'source', and every one containing 'snippet', frame by frame |
| NameCleaning.FirstLacking | name_matching_cleaning/cleaning.py:100-104 | no index exactly when every frame has Accepted_Name; otherwise the first frame without it |
| NameCleaning.CleanFrame | name_matching_cleaning/cleaning.py:101-104 | one table is trimmed to the kept columns in place, then its rows without an accepted name are dropped; without the name column it stops after the trim |
| NameCleaning.CleanTables | name_matching_cleaning/cleaning.py:100-104 | the loop cleans the tables in order and stops at the first without Accepted_Name, leaving that one trimmed and the later ones unchanged |
| NameCleaning.MergeAllNeedsIds | name_matching_cleaning/cleaning.py:111-113 | the fold of merges succeeds only when every remaining frame has Accepted_ID |
| NameCleaning.MergeFrames | name_matching_cleaning/cleaning.py:111-113 | the merge loop computes the fold of merge_on_accepted_id |
| NameCleaning.Finished | name_matching_cleaning/cleaning.py:115-121 | the result has no two identical rows, Sources is its last column, and the start columns come before the others |
| NameCleaning.CompiledMeaning | name_matching_cleaning/cleaning.py:83-121 | an error with no frames, with a frame lacking Accepted_Name, or with a first frame lacking Source; otherwise a frame with distinct rows and Sources last |
| NameCleaning.MergeFromFirst | name_matching_cleaning/cleaning.py:107-121 | the first table's Source column is renamed to Sources in place, and the merges and arrangement follow |
| NameCleaning.CompileCleaned | name_matching_cleaning/cleaning.py:107-121 | on cleaned tables, the Source check and the merges compute the specified result |
| NameCleaning.CompileHits | name_matching_cleaning/cleaning.py:83-121 | returns the specified compilation and leaves every input table in the state the source leaves it |
| KnmsMatching.UniqueNameList | name_matching_cleaning/knms_name_matching.py:23-27 | the loop lists each name once, in order of first occurrence |
| KnmsMatching.CacheFileNameIgnoresRepeats | name_matching_cleaning/knms_name_matching.py:29-30 | the cache file name does not change when a name is repeated |
| KnmsMatching.LastPresentIsLast | name_matching_cleaning/knms_name_matching.py:58-59 | the forward-fill value is missing only when all values so far are missing, and otherwise is the last present one |
| KnmsMatching.ForwardFill | name_matching_cleaning/knms_name_matching.py:58-59 | each position takes the last present value at or above it |
| KnmsMatching.EmptyToMissing | name_matching_cleaning/knms_name_matching.py:57 | an empty string becomes missing, and everything else is kept |
| KnmsMatching.RecordsFromReply | name_matching_cleaning/knms_name_matching.py:46-59 | a record of more than four fields raises; a reply of two-field records has no id and no matched name; ids and matched names come from the reply, and submission and match state are forward-filled |
| ResolvingNames.ResolutionsWithSingleRank | name_matching_cleaning/resolving_names.py:26-48 | raises TypeError exactly when the rows of the missing submission all have the rank and one of them has an accepted name; otherwise a row is kept exactly when its submission's rows all have the rank and its accepted name is present and contained in the submission |
| ResolvingNames.SingleRankRaisesMeaning | name_matching_cleaning/resolving_names.py:38-46 | some row with a missing submission reaches the containment test exactly when that submission's rows all have the rank and one of them is named |
| ResolvingNames.MissingSubmissionRaises | name_matching_cleaning/resolving_names.py:46 | one named Species record with a missing submission makes the Species resolution raise TypeError |
| ResolvingNames.SingleRankOfMissing | name_matching_cleaning/resolving_names.py:34 | a missing rank selects nothing and raises nothing |
| ResolvingNames.SingleRankExcludes | name_matching_cleaning/resolving_names.py:35-46 | one row of another or missing rank excludes its whole submission, and stops the test from raising when that submission is the missing one |
| ResolvingNames.DropMissingNames | name_matching_cleaning/resolving_names.py:12 | keeps exactly the rows with an accepted name |
| ResolvingNames.RenameWhenAllNamed | name_matching_cleaning/resolving_names.py:13-17 | answers only when every row is named, and then overwrites each name with its accepted name |
| ResolvingNames.ResolveUnmatched | name_matching_cleaning/resolving_names.py:5-18 | answers exactly when every name has an exact hit, and then gives each row its lookup with the name replaced |
| GetAcceptedInfo.CapitalizeFirstLetterOfTaxon | name_matching_cleaning/get_accepted_info.py:33-51 | missing values, and, with the upper-case test on, names not all upper case, are unchanged; more than one space returns the name without the hybrid prefix; otherwise the prefix is kept and the rest is capitalised |
| GetAcceptedInfo.CapitalizeLowerIsCapitalised | name_matching_cleaning/get_accepted_info.py:43-49 | capitalising the lower-cased name keeps its letters and length and leaves only the first letter upper case |
| GetAcceptedInfo.AcceptedInfoFromIdsInColumn | name_matching_cleaning/get_accepted_info.py:194-222 | one row per input row, with its id lookup; the mismatch error never occurs |
| GetAcceptedInfo.FindBestMatchesFromMultiples | name_matching_cleaning/get_accepted_info.py:145-191 | raises the containment test's TypeError exactly when some rank's resolution raises; otherwise computes the selection of best candidates SelectBest |
| GetAcceptedInfo.CollectByRank | name_matching_cleaning/get_accepted_info.py:174-179 | the loop collects the single-rank resolutions of each distinct rank, in order, or stops with the TypeError of the first rank whose resolution raises |
| GetAcceptedInfo.BestRaisesMeaning | name_matching_cleaning/get_accepted_info.py:166-179 | the best-match choice raises exactly when an unresolved row with a missing submission is named and every unresolved row with a missing submission shares its rank |
| GetAcceptedInfo.RanksRaiseMeaning | name_matching_cleaning/get_accepted_info.py:174-179 | over the distinct ranks of the unresolved rows, some resolution raises exactly when such a named row exists |
| GetAcceptedInfo.SelectBestPerSubmission | name_matching_cleaning/get_accepted_info.py:181-183 | at most one row per submission, each one of the candidates |
| GetAcceptedInfo.OrderedFromCandidates | name_matching_cleaning/get_accepted_info.py:159-182 | all three tiers are drawn from the candidates |
| GetAcceptedInfo.SelectBestExactFirst | name_matching_cleaning/get_accepted_info.py:158-160 | a submission with a candidate whose accepted name equals it gets such a candidate |
| GetAcceptedInfo.SelectBestCovers | name_matching_cleaning/get_accepted_info.py:181-183 | every submission with a row in some tier is answered |
| GetAcceptedInfo.SelectBestSingleAccepted | name_matching_cleaning/get_accepted_info.py:162-167 | a submission whose candidates all share one accepted id is answered with that id |
| GetAcceptedInfo.NoSingleForSplitSubmission | name_matching_cleaning/get_accepted_info.py:163-167 | a submission with two accepted ids has no single-accepted row |
| GetAcceptedInfo.SelectBestByRank | name_matching_cleaning/get_accepted_info.py:169-182 | a submission with two accepted ids and no exact candidate is answered only by a contained accepted name of the one rank its rows all share |
| GetAcceptedInfo.KnmsMatches | name_matching_cleaning/get_accepted_info.py:115-135 | a malformed reply raises, and so does a best-match choice whose containment test meets a missing submission; otherwise single matches with their id lookup in the families' checklist, then the best of the multiple matches looked up in the whole checklist, without unnamed rows |
| GetAcceptedInfo.KnmsResolutionsFromRecords | name_matching_cleaning/get_accepted_info.py:123-157 | every resolution is named and comes from a record matched once, with its id's information in the families' checklist, or from one matched several times, with its stripped id's information in the whole checklist |
| GetAcceptedInfo.KnmsSingleMatchResolved | name_matching_cleaning/get_accepted_info.py:125-127 | a record matched once, whose id has an accepted name, is a resolution |
| AutoResolve.Containment | name_matching_cleaning/get_accepted_info.py:66-71 | exactly the Accepted records whose name occurs in some submission |
| AutoResolve.BuildMatches | name_matching_cleaning/get_accepted_info.py:76-86 | the nested loops yield one candidate per submission and contained name, in order |
| AutoResolve.MatchTableAsWritten | name_matching_cleaning/get_accepted_info.py:74-88 | the table of candidates is built only when there are none |
| AutoResolve.AutoresolveAsWrittenRaises | name_matching_cleaning/get_accepted_info.py:74-88 | any Accepted name occurring in a submission makes the table constructor raise |
| AutoResolve.RankIndex | name_matching_cleaning/get_accepted_info.py:91-94 | the position of a rank in Subspecies, Variety, Species, Genus, and none for any other rank |
| AutoResolve.MostPreciseExists | name_matching_cleaning/get_accepted_info.py:96-105 | every submission with a kept candidate has a most precise one |
| AutoResolve.ChooseMostPrecise | name_matching_cleaning/get_accepted_info.py:96-105 | at most one answer per submission, one of its most precise kept candidates, and every submission with a kept candidate is answered |
| AutoResolve.AutoresolveMissingMatches | name_matching_cleaning/get_accepted_info.py:54-112 | no names gives no answer; a rank outside the priority list raises; otherwise each submission is answered at most once, by a named most precise kept candidate |
| AutoResolve.ChosenNeverGenusForMultiWord | name_matching_cleaning/get_accepted_info.py:101-102 | a Genus is never chosen for a submission containing a space |
| AutoResolve.ChosenIsMostPrecise | name_matching_cleaning/get_accepted_info.py:91-105 | the chosen rank is at least as precise as every kept candidate's |
| AutoResolve.AutoresolvedNameContained | name_matching_cleaning/get_accepted_info.py:69-87 | every autoresolved accepted name occurs in its submission |
| NameResolution.UnmatchedExactly | name_matching_cleaning/get_accepted_info.py:255 | a name remains for the next stage exactly when no earlier row resolves it |
| NameResolution.FirstInfo | name_matching_cleaning/get_accepted_info.py:285-286 | the information of the first row for a name, and none exactly when no row has it |
| NameResolution.FirstInfoConcat | name_matching_cleaning/get_accepted_info.py:273 | the first row of a concatenation comes from its first part when that part has one |
| NameResolution.ManualStageResolves | name_matching_cleaning/get_accepted_info.py:250-254 | a name is resolved manually exactly when it is listed and has a named manual row, whose first row decides |
| NameResolution.ManualRowResolves | name_matching_cleaning/get_accepted_info.py:251-254 | a manual row for a listed name whose resolution id has an accepted name resolves it |
| NameResolution.MergeOnNamesResolves | name_matching_cleaning/get_accepted_info.py:254 | the merge resolves exactly the listed names present in the table, with the table's first row |
| NameResolution.FinalCoversAll | name_matching_cleaning/get_accepted_info.py:276-280 | every name has a row in the final table, so the lookup never fails |
| NameResolution.FinalPriority | name_matching_cleaning/get_accepted_info.py:260-286 | the first row for a name is autoresolved, then exact, then manual, then remote, else all-missing |
| NameResolution.RunStagesOrder | name_matching_cleaning/get_accepted_info.py:249-273 | when stages answer only for names they are given, manual wins over exact, exact over remote, remote over autoresolve |
| NameResolution.ExactStageLeavesNothing | name_matching_cleaning/get_accepted_info.py:257-270 | with the exact stage of wcvp_matching, the remote matcher and the autoresolver get no names, and every name not resolved manually gets its exact lookup |
| NameResolution.InputRowsDistinct | name_matching_cleaning/get_accepted_info.py:235-241 | one row per distinct non-missing name, and every non-missing name has one |
| NameResolution.FillAccepted | name_matching_cleaning/get_accepted_info.py:288-292 | every row gets the four accepted columns of the first result row for its name |
| NameResolution.GetAcceptedInfoFromNamesInColumn | name_matching_cleaning/get_accepted_info.py:225-294 | the stages run on the distinct, normalised names; errors exactly when a stage raises; every name is resolved and gets its first row's fields |
| CompoundFunctions.SimplifyInchiKey | metabolite_properties/generic_compound_functions.py:6-12 | a missing key stays missing; a present key becomes a prefix of itself, itself when at most 14 characters long and exactly 14 characters otherwise |
| CompoundFunctions.SimplifyInchiKeyIdempotent | metabolite_properties/generic_compound_functions.py:6-12 | simplifying a simplified key changes nothing |
| CompoundFunctions.SimplifyInchiKeySameLayer | metabolite_properties/generic_compound_functions.py:7-10 | two full keys simplify alike exactly when their connectivity layers (first 14 characters) agree |
| CompoundFunctions.Stacked | metabolite_properties/generic_compound_functions.py:16-18 | concatenating rows onto an empty frame gives exactly those rows, under the frame's columns when there is any row |
| CompoundFunctions.Bins | metabolite_properties/generic_compound_functions.py:20-35 | the three outputs together hold as many rows as the input, the assertion of line 35 |
| CompoundFunctions.BinsAreSelections | metabolite_properties/generic_compound_functions.py:20-29 | each output is the in-order selection of the rows whose branch leads to it |
| CompoundFunctions.FilterRowsContainingKeyword | metabolite_properties/generic_compound_functions.py:14-37 | the loop raises exactly when some row reads an absent inspected column, with the KeyError of the first such row; otherwise it returns the keyword rows, the other rows and the blank rows, each in input order, with the input's columns, and their sizes add up to the input's |
| CompoundFunctions.AnyMentionsMeaning | metabolite_properties/generic_compound_functions.py:22-26 | a row raises exactly when reading the inspected columns in order reaches an absent one before any mentions the keyword; a row that does not raise takes its branch; with every column present no row raises |
| CompoundFunctions.AnyMentionsShortCircuits | metabolite_properties/generic_compound_functions.py:22 | a mention in the first inspected column stops `any` before an absent second column; a row without it raises that column's KeyError |
| CompoundFunctions.FilterRowsNeverRaise | metabolite_properties/generic_compound_functions.py:20-26 | with every inspected column present, or no rows, no row raises |
| CompoundFunctions.AppendToBin | metabolite_properties/generic_compound_functions.py:22-29 | one pass of the loop body appends row i to the output of its branch and leaves the other two alone |
| CompoundFunctions.BinMeaning | metabolite_properties/generic_compound_functions.py:22-29 | a keyword row mentions the keyword, lower-cased, in an inspected column; a blank row has only '', 'nan' or missing inspected cells; any other row has neither |
| CompoundFunctions.AsWrittenBins | metabolite_properties/generic_compound_functions.py:20-29 | with the row appended chosen as `df.iloc[[index]]`, the outputs still hold one row per classified row when the labels are valid positions |
| CompoundFunctions.AsWrittenOnDefaultIndex | metabolite_properties/generic_compound_functions.py:20-29 | under the default index the code as written is the intended split |
| CompoundFunctions.AsWrittenMisplacesRows | metabolite_properties/generic_compound_functions.py:20-24 | with index labels 1, 0 the keyword output receives the row that does not mention the keyword |
| ManualAlkaloidClasses.CleanMetaboliteName | metabolite_properties/manual_alkaloid_classes.py:18-24 | the cleaned name has no upper-case letter and is no longer than the given one |
| ManualAlkaloidClasses.DeleteDescriptorsKeepsChars | metabolite_properties/manual_alkaloid_classes.py:21-23 | deleting the three descriptor prefixes adds no upper-case letter and never lengthens the name |
| ManualAlkaloidClasses.NormalFormKept | metabolite_properties/manual_alkaloid_classes.py:19-20 | lower-casing and stripping leave a lower-case name without surrounding blanks unchanged |
| ManualAlkaloidClasses.AbsentPattern | metabolite_properties/manual_alkaloid_classes.py:21-23 | a replacement whose pattern starts with '(' leaves a name without '(' unchanged |
| ManualAlkaloidClasses.DeleteDescriptorsWithoutParenthesis | metabolite_properties/manual_alkaloid_classes.py:21-23 | a name without '(' loses no descriptor |
| ManualAlkaloidClasses.CleanKeepsNormalName | metabolite_properties/manual_alkaloid_classes.py:18-24 | cleaning leaves a lower-case, stripped name without '(' unchanged |
| ManualAlkaloidClasses.CleanIgnoresCase | metabolite_properties/manual_alkaloid_classes.py:18-19 | cleaning the lower-cased name gives the same as cleaning the name |
| ManualAlkaloidClasses.CleanDropsMinusPrefix | metabolite_properties/manual_alkaloid_classes.py:21 | a '(-)-' prefix before a clean name is removed |
| ManualAlkaloidClasses.DeletePlusDescriptor | metabolite_properties/manual_alkaloid_classes.py:22 | the '(+)-' replacement removes that prefix from a name without other '(' |
| ManualAlkaloidClasses.CleanDropsPlusPrefix | metabolite_properties/manual_alkaloid_classes.py:22 | a '(+)-' prefix before a clean name is removed |
| ManualAlkaloidClasses.ClassInformation | metabolite_properties/manual_alkaloid_classes.py:27-51 | a ValueError exactly when a raw Alkaloids entry repeats; otherwise the keys are exactly the cleaned alkaloid names and each maps to the ';'-join of its distinct cleaned classes |
| ManualAlkaloidClasses.ClassOfRowRecorded | metabolite_properties/manual_alkaloid_classes.py:41-48 | every row's cleaned class is among the classes joined for its cleaned alkaloid |
| ManualAlkaloidClasses.RecordedClassHasRow | metabolite_properties/manual_alkaloid_classes.py:46-48 | every joined class comes from a row of that alkaloid |
| ManualAlkaloidClasses.AlkaloidClassFromMetabolite | metabolite_properties/manual_alkaloid_classes.py:12-15 | an answer exactly when no entry repeats and some cleaned alkaloid equals the cleaned metabolite, and then its joined classes; a KeyError otherwise |
| ManualAlkaloidClasses.LookupIsClassText | metabolite_properties/manual_alkaloid_classes.py:71-72 | the lookup gives the joined classes of a known name and '' for an unknown one |
| ManualAlkaloidClasses.WithClassColumns | metabolite_properties/manual_alkaloid_classes.py:70-72 | one output row per input row, each with its cleaned name and that name's looked-up class |
| ManualAlkaloidClasses.AlkaloidClassesFromMetabolites | metabolite_properties/manual_alkaloid_classes.py:54-77 | fails exactly on a repeated alkaloid, a missing name column or a missing name; otherwise every row gets its cleaned name and that name's class text |
| KnapsackAlkaloidClasses.ClassInformation | knapsack_metabolite_properties/alkaloid_classes.py:20-34 | the dictionary has each class of the table once, as a key, and a class's alkaloids are exactly those the table pairs with it |
| KnapsackAlkaloidClasses.ClassTuple | knapsack_metabolite_properties/alkaloid_classes.py:11-17 | the tuple holds exactly the classes whose alkaloids include the metabolite |
| KnapsackAlkaloidClasses.ClassTupleOf | knapsack_metabolite_properties/alkaloid_classes.py:13-15 | scanning the first keys collects exactly those of them whose alkaloids include the metabolite |
| KnapsackAlkaloidClasses.AlkaloidClassFromMetabolite | knapsack_metabolite_properties/alkaloid_classes.py:11-17 | the loop over the dictionary's keys computes the class tuple |
| KnapsackAlkaloidClasses.ClassTupleOfOrdered | knapsack_metabolite_properties/alkaloid_classes.py:13-15 | distinct keys give a tuple without repeats |
| KnapsackAlkaloidClasses.ClassesOfMetabolite | knapsack_metabolite_properties/alkaloid_classes.py:11-34 | a metabolite's tuple lists exactly the classes the table pairs with its exact name, each once |
| KnapsackAlkaloidClasses.AlkaloidClassesFromMetabolites | knapsack_metabolite_properties/alkaloid_classes.py:37-55 | one tuple per metabolite, holding exactly the classes the table pairs with it |
| KnapsackAlkaloids.VerdictTextInjective | knapsack_metabolite_properties/alkaloids.py:23-32 | the three verdict strings are distinct |
| KnapsackAlkaloids.IsAlkaloid | knapsack_metabolite_properties/alkaloids.py:9-32 | a missing name raises; a name matching a known alkaloid word for word in either direction is 'in_known_alkaloids'; otherwise a name without an 'ine' ending or suffix is 'False', and one with it raises on a missing formula and is 'N_and_ends_in_ine' exactly when the formula contains n or N |
| KnapsackAlkaloids.LowerKeepsNonSpace | knapsack_metabolite_properties/alkaloids.py:16-17 | lower-casing adds no blank |
| KnapsackAlkaloids.OneWordKnownNameRecognised | knapsack_metabolite_properties/alkaloids.py:21-24 | every one-word known alkaloid is recognised as known, whatever the formula |
| KnapsackAlkaloids.KopsanoneRecognised | knapsack_metabolite_properties/alkaloids.py:18-24 | Kopsanone, which does not end in 'ine', is a known alkaloid |
| KnapsackAlkaloids.WordOfKnownNameRecognised | knapsack_metabolite_properties/alkaloids.py:25-26 | any single word of a known alkaloid's lower-cased name is recognised as known |
| KnapsackAlkaloids.IneRule | knapsack_metabolite_properties/alkaloids.py:27-32 | for an unknown name with a formula, the verdict is not 'False' exactly when the name has an 'ine' ending or suffix and the formula contains nitrogen, and nothing raises |
| KnapsackAlkaloids.MoreKnownKeepsRecognition | knapsack_metabolite_properties/alkaloids.py:21-26 | adding known alkaloids never loses a recognition |
| KnapsackAlkaloids.Verdicts | knapsack_metabolite_properties/alkaloids.py:45-46 | the column of verdicts has the verdict of each row in order, and raises exactly when some row raises |
| KnapsackAlkaloids.VerdictsKept | knapsack_metabolite_properties/alkaloids.py:51 | the rows kept after dropping 'False' all carry an alkaloid verdict |
| KnapsackAlkaloids.AlkaloidsFromMetabolites | knapsack_metabolite_properties/alkaloids.py:35-55 | the result keeps at most the input's rows, each with an alkaloid verdict |
| KnapsackAlkaloids.AlkaloidRowsKept | knapsack_metabolite_properties/alkaloids.py:44-55 | an input row, with its verdict added, is in the result exactly when its verdict is not 'False' |
| MetaboliteAlkaloids.NameAndFormulaeVerdict | metabolite_properties/alkaloids.py:10-35 | raises exactly on a missing name; a known alkaloid is 'in_known_alkaloids'; 'N_and_ends_in_ine' only when some present formula contains nitrogen |
| MetaboliteAlkaloids.IsAlkaloidFromNameAndFormulae | metabolite_properties/alkaloids.py:10-35 | the loop over the formulae computes the verdict specified above |
| MetaboliteAlkaloids.AgreesWithSingleFormula | metabolite_properties/alkaloids.py:10-35 | with one present formula the verdict is that of the KNApSAcK test |
| MetaboliteAlkaloids.MissingFormulaeIgnored | metabolite_properties/alkaloids.py:30-31 | a missing formula added to the list changes no verdict |
| MetaboliteAlkaloids.NameVerdicts | metabolite_properties/alkaloids.py:48-49 | the column has each row's verdict, from its name and its formula and SMILES, and raises exactly when some row raises |
| MetaboliteAlkaloids.AlkaloidsFromMetabolites | metabolite_properties/alkaloids.py:38-58 | raises exactly when some row raises; otherwise keeps at most the input's rows, each with an alkaloid verdict |
| MetaboliteAlkaloids.AlkaloidsRaiseOnMissingName | metabolite_properties/alkaloids.py:17-49 | the table raises exactly when some row's name is missing |
| MetaboliteAlkaloids.NameAlkaloidRowsKept | metabolite_properties/alkaloids.py:47-58 | an input row, with its verdict added, is kept exactly when its verdict is not 'False' |
| MetaboliteAlkaloids.NContainingFromMetabolites | metabolite_properties/alkaloids.py:61-76 | a key error exactly when the formula or SMILES column is missing; otherwise exactly the input rows whose formula or SMILES contains n or N, with the input's columns |
| MetaboliteAlkaloids.IneAlkaloidsContainNitrogen | metabolite_properties/alkaloids.py:29-71 | every row judged 'N_and_ends_in_ine' is among the nitrogen-containing rows |
| MetaboliteAlkaloids.ZincCountsAsNitrogen | metabolite_properties/alkaloids.py:69 | the case-insensitive 'n' test counts the n of Zn as nitrogen |
| KeggBrite.LeavesAreLeafNames | metabolite_properties/kegg_brite_parsing.py:8-13 | a name is collected from a node exactly when some leaf below it carries that name |
| KeggBrite.SegmentTransitive | metabolite_properties/kegg_brite_parsing.py:8-13 | a contiguous run of a contiguous run of a list is a contiguous run of that list |
| KeggBrite.ChildLeavesSegment | metabolite_properties/kegg_brite_parsing.py:9-11 | a child's names appear in its parent's list as one contiguous run |
| KeggBrite.SelectConcat | metabolite_properties/kegg_brite_parsing.py:25-63 | following a path and then another is following the joined path, and a failed first step fails the whole |
| KeggBrite.SelectedLeavesSegment | metabolite_properties/kegg_brite_parsing.py:8-63 | the names under any selected node form a contiguous run of the names of the whole document |
| KeggBrite.NameList.constructor | metabolite_properties/kegg_brite_parsing.py:20-58 | a new compound list is empty |
| KeggBrite.DigIntoKeggDicts | metabolite_properties/kegg_brite_parsing.py:8-13 | the recursion appends to the list, in document order, the names of the node's leaves and changes nothing else |
| KeggBrite.LeavesAt | metabolite_properties/kegg_brite_parsing.py:20-31 | an answer exactly when every step of the path exists, and then the leaf names below the selected node |
| KeggBrite.GetAlkaloidsFromKeggBrite | metabolite_properties/kegg_brite_parsing.py:16-31 | fails exactly when the document has no first child; otherwise the names are exactly the leaf names of the alkaloid group |
| KeggBrite.GetSteroidsFromKeggBrite | metabolite_properties/kegg_brite_parsing.py:35-50 | fails exactly when the path 4, 6 is missing; otherwise the leaf names of the steroid group in order |
| KeggBrite.GetCardenolidesFromKeggBrite | metabolite_properties/kegg_brite_parsing.py:53-68 | fails exactly when the path 4, 6, 3 is missing; otherwise the leaf names of the cardenolide group in order |
| KeggBrite.CardenolidesAreSteroids | metabolite_properties/kegg_brite_parsing.py:44-63 | when the cardenolides exist so do the steroids, and the cardenolide names are a contiguous run of the steroid names |
| MetaboliteProperties.AllContainN | metabolite_searches/_get_metabolite_properties.py:99 | true exactly when every formula contains 'N' (true for no formula); false only with a present formula lacking 'N'; an error only with a missing formula |
| MetaboliteProperties.ReasonFor | metabolite_searches/_get_metabolite_properties.py:88-101 | an error only for an 'ine'-shaped name with a missing formula; the nitrogen reason only for an 'ine'-shaped name that neither rule before it catches and whose formulas all contain 'N' |
| MetaboliteProperties.Hits | metabolite_searches/_get_metabolite_properties.py:77-103 | raises exactly when some name raises; otherwise the hits are the names that pass, in order, with one reason each |
| MetaboliteProperties.HitsReasons | metabolite_searches/_get_metabolite_properties.py:89-101 | each hit's reason is the one of the first rule that catches it |
| MetaboliteProperties.HitsErrorKept | metabolite_searches/_get_metabolite_properties.py:87-101 | an error on a prefix of the names is the error of the whole list |
| MetaboliteProperties.HitsErrorLast | metabolite_searches/_get_metabolite_properties.py:87-101 | one more name after an error keeps the error |
| MetaboliteProperties.Classify | metabolite_searches/_get_metabolite_properties.py:89-101 | the tests of one name compute its reason |
| MetaboliteProperties.GetAlkaloidsFromMetabolites | metabolite_searches/_get_metabolite_properties.py:77-103 | the loop computes the hits and reasons specified above |
| MetaboliteProperties.HitsStep | metabolite_searches/_get_metabolite_properties.py:87-101 | one name more appends it and its reason when it passes, keeps the lists otherwise, and raises when it raises |
| MetaboliteProperties.ManualRuleFirst | metabolite_searches/_get_metabolite_properties.py:89-91 | a name containing 'Kopsanone' is a manual hit, whatever the other rules say |
| MetaboliteProperties.NoFormulasPass | metabolite_searches/_get_metabolite_properties.py:97-101 | an 'ine' name no earlier rule catches and for which no formula is found passes the nitrogen test vacuously |
| MetaboliteProperties.KeggFragmentKept | metabolite_searches/_get_metabolite_properties.py:92-94 | a fragment of a KEGG name, such as 'Caff' of 'Caffeine', is a KEGG hit |
| KnapsackSearch.TaxonUrlName | metabolite_searches/knapsack_search.py:26 | the URL form of a taxon name has no space (the same as knapsack_search/knapsack_search.py:63) |
| KnapsackSearch.MetaboliteUrlName | knapsack_search/knapsack_search.py:41-42 | the URL form of a metabolite name has no space and no '+' |
| KnapsackSearch.MetaboliteUrlNameKeepsChars | knapsack_search/knapsack_search.py:41-42 | any character outside the replaced and replacing ones is in the URL form exactly when it is in the name |
| KnapsackSearch.Searched | knapsack_search/knapsack_search.py:100-110 | every taxon listed as searched had a search that answered |
| KnapsackSearch.PresenceRow | knapsack_search/knapsack_search.py:117-121 | one flag per metabolite column: 1 exactly when the taxon lists the metabolite, 0 exactly when it does not |
| KnapsackSearch.AppendUnseen | knapsack_search/knapsack_search.py:106-108 | appending the metabolites not yet seen keeps the list equal to the distinct metabolites of everything searched so far, in order of first occurrence |
| KnapsackSearch.BuildPresenceRow | knapsack_search/knapsack_search.py:117-121 | the inner loop computes the presence row |
| KnapsackSearch.SearchTaxa | metabolite_searches/knapsack_search.py:61-74 | the search loop leaves the taxa that answered (each once, in order), their metabolite lists, all their distinct metabolites, and the timed-out taxa in order (the same loop as knapsack_search/knapsack_search.py:98-110) |
| KnapsackSearch.GetMetabolitesForTaxa | metabolite_searches/knapsack_search.py:43-98 | the search and the table loop compute the presence matrix of the answering taxa, and the list of taxa to recheck (the same code as knapsack_search/knapsack_search.py:80-123) |
| KnapsackSearch.BuildRows | knapsack_search/knapsack_search.py:115-121 | one presence row per answering taxon, in order |
| KnapsackSearch.MatrixFromSearch | knapsack_search/knapsack_search.py:98-123 | the loop's state assembled as a table is the presence matrix |
| KnapsackSearch.MatrixShape | metabolite_searches/knapsack_search.py:61-87 | the matrix has distinct taxa and distinct metabolites, one row per taxon; its taxa are exactly the answering ones and the recheck list exactly the failing ones (the same code as knapsack_search/knapsack_search.py:98-123) |
| KnapsackSearch.MatrixCell | metabolite_searches/knapsack_search.py:79-85 | a cell is 1 exactly when the taxon's search lists the metabolite, and 0 otherwise (the same code as knapsack_search/knapsack_search.py:115-121) |
| KnapsackSearch.MatrixColumnsCover | knapsack_search/knapsack_search.py:106-114 | every metabolite any answering taxon lists is a column |
| KnapsackSearch.FirstRowOf | knapsack_search/knapsack_search.py:231 | the row `taxa_record` reads is the first row with the same taxon |
| KnapsackSearch.PresentMembers | knapsack_search/knapsack_search.py:233 | a column is listed as present exactly when its flag in the row is 1 |
| KnapsackSearch.RowHitsMeaning | metabolite_searches/knapsack_search.py:199-206 | a compound is a hit of a row exactly when it is in the compound list and flagged 1 in the first row of that taxon (the same code as knapsack_search/knapsack_search.py:231-238) |
| KnapsackSearch.AllRowHits | knapsack_search/knapsack_search.py:228-238 | one list of hits per row |
| KnapsackSearch.HitTaxa | knapsack_search/knapsack_search.py:240-241 | one output taxon per row with a hit |
| KnapsackSearch.HitSnippets | knapsack_search/knapsack_search.py:240-243 | one snippet per row with a hit |
| KnapsackSearch.HitFrame | knapsack_search/knapsack_search.py:244-245 | the output frame has the taxa, snippet and Source columns and one row per hit taxon |
| KnapsackSearch.CompoundsInTaxon | knapsack_search/knapsack_search.py:235-238 | the loop keeps, in order, the present metabolites that are in the compound list |
| KnapsackSearch.CompoundHitsForTaxa | metabolite_searches/knapsack_search.py:112-218 | for the antibacterial list of get_antibac_metabolite_hits_for_taxa and the column-chosen list of get_compound_hits_for_taxa alike (and the alkaloid and general lists of knapsack_search/knapsack_search.py:156-245), the loop builds the frame of the rows with a hit, their taxa and their snippets |
| KnapsackSearch.TaxonHits | knapsack_search/knapsack_search.py:229-238 | one pass of the loop computes that row's hits |
| KnapsackSearch.CollectHits | metabolite_searches/knapsack_search.py:195-211 | the loop collects the taxa and snippets of the rows with a hit, in order (the same loop as knapsack_search/knapsack_search.py:228-243) |
| KnapsackSearch.CollectRow | knapsack_search/knapsack_search.py:229-243 | one pass appends the row's taxon and snippet exactly when the row has a hit |
| KnapsackSearch.RepeatedTaxonUsesFirstRow | knapsack_search/knapsack_search.py:231-233 | two rows of the same taxon get the same hits, those of its first row |
| KnapsackSearch.IneRuleAlkaloids | knapsack_search/knapsack_search.py:191-205 | raises exactly when an 'ine'-shaped name has a missing formula; otherwise the names, in order, that are 'ine'-shaped and whose formulas all contain 'N' |
| KnapsackSearch.IneRuleErrorKept | knapsack_search/knapsack_search.py:199-205 | an error on a prefix of the names is the error of the whole list |
| KnapsackSearch.AlkaloidFrame | knapsack_search/knapsack_search.py:206-210 | the output frame has the alks, Reason and Source columns and one row per alkaloid |
| KnapsackSearch.GetAlkaloidsFromMetabolites | knapsack_search/knapsack_search.py:191-213 | the loop raises exactly when the rule raises, and otherwise returns the frame of the rule's alkaloids |
| KnapsackSearch.IneRuleWithinLaterClassifier | knapsack_search/knapsack_search.py:199-205 | every name this rule keeps is also a hit of the older classifier, which adds the manual and KEGG rules in front |
| WikiSearch.PagesSearched | wikipedia_searches/search_pages.py:33-55 | the six languages' list pages make 37 pages, each fetched once |
| WikiSearch.PageTextsLength | wikipedia_searches/search_pages.py:50-55 | one page text per listed title |
| WikiSearch.HitSourcesMembers | wikipedia_searches/search_pages.py:63-65 | a page label is a hit for a species exactly when that page's text contains the species name |
| WikiSearch.HitsWhenMentioned | wikipedia_searches/search_pages.py:63-69 | a species has hits exactly when some page mentions it |
| WikiSearch.NameOutput | wikipedia_searches/search_pages.py:58-75 | a name is output exactly when it is a (non-missing) species of the list that some page mentions |
| WikiSearch.EntryContents | wikipedia_searches/search_pages.py:69-72 | each output row holds `Wiki (<list of hit pages>)` and the list of its snippets, and has at least one hit |
| WikiSearch.UnmatchedSpeciesAddsNothing | wikipedia_searches/search_pages.py:58-75 | a missing species (the TypeError branch) or one no page mentions adds no row |
| WikiSearch.SnippetHoldsName | wikipedia_searches/search_pages.py:66-67 | when the first mention is not at the start of the text, the snippet holds the name one character in, and is one or two characters longer than it |
| WikiSearch.SnippetAtStart | wikipedia_searches/search_pages.py:66-67 | a mention at the very start of the text, where the slice starts at index -1, gives an empty snippet when the text is at least two characters longer than the name, and otherwise the text's last character |
| WikiSearch.SnippetAtStartExamples | wikipedia_searches/search_pages.py:66-67 | "Rosa" opening "Rosa canina" gives an empty snippet; "Rosa" in "Rosa" gives "a" |
| WikiSearch.PageHits | wikipedia_searches/search_pages.py:61-68 | the inner loop computes the species' hit pages and snippets, in page order |
| WikiSearch.SearchForCommonNames | wikipedia_searches/search_pages.py:57-77 | the species loop builds the table of names, snippets and sources |
| WikiSearch.AddSpecies | wikipedia_searches/search_pages.py:59-75 | one pass of the species loop extends the table by that species' row, if any |
| PdfLines.EconLines | read_pdfs/parse_wiersema.py:148-155 | raises exactly when either intro text is missing; otherwise the lines, rejoined, are the text from the econ intro up to the common-names intro |
| PdfLines.RunEnd | read_pdfs/parse_wiersema.py:37-136 | the lines after an opening line that it absorbs form the longest run of absorbable lines |
| PdfLines.GroupsTile | read_pdfs/parse_wiersema.py:22-142 | the compressing loop splits the non-blank lines into consecutive spans, each an opening line with the absorbable lines that follow it, or a single line |
| PdfLines.LineStartsSpan | read_pdfs/parse_wiersema.py:30-140 | every non-blank line that the preceding line does not absorb starts an output line |
| PdfLines.NoBlankOutput | read_pdfs/parse_wiersema.py:32-123 | no output line is '' or ' ' |
| PdfLines.AbsorbRun | read_pdfs/parse_wiersema.py:35-43 | the inner loop stops at the first line that is not absorbed (or the end) and its text is the opening line followed by every absorbed line |
| PdfLines.TakeSpan | read_pdfs/parse_wiersema.py:34-138 | one opening line and its inner loop produce the joined span and resume after it |
| PdfLines.Compress | read_pdfs/parse_wiersema.py:22-142 | the loop with its iterator skips computes the compressed lines |
| PdfLines.CompressLinesIntoNames | read_pdfs/parse_wiersema.py:22-49 | a ' -' line absorbs the following lines without ' -'; the result is the compressed lines and has no blank line |
| PdfLines.DashLineOpensEntry | read_pdfs/parse_wiersema.py:34-45 | every ' -' line starts an output line |
| PdfLines.CompressLinesIntoCategories | read_pdfs/parse_wiersema.py:117-142 | a tagged line absorbs the following untagged lines that cannot be names; the result is the compressed lines and has no blank line |
| PdfLines.CategoryLineOpensEntry | read_pdfs/parse_wiersema.py:124-138 | every tagged line starts an output line |
| PdfLines.RetrieveNearest | read_pdfs/parse_wiersema.py:108-114 | the name of a property line is the nearest earlier line that can be a name |
| PdfLines.RetrieveWraps | read_pdfs/parse_wiersema.py:108-114 | with no such line before it, the search wraps round through the negative indices to the last line that can be a name |
| PdfLines.RetrieveFails | read_pdfs/parse_wiersema.py:108-114 | with no line that can be a name, the search runs off the list and raises IndexError |
| PdfLines.RetrievedIsName | read_pdfs/parse_wiersema.py:108-114 | a retrieved line is one of the lines and can be a name |
| PdfLines.RetrieveNameFromPropertyLine | read_pdfs/parse_wiersema.py:108-114 | the backward loop computes the retrieval |
| PdfLines.NamesForMeaning | read_pdfs/parse_wiersema.py:158-162 | without an error, one name per selected line, each a line that can be a name |
| PdfLines.SelectNames | read_pdfs/parse_wiersema.py:158-164 | the selection loop computes the names of the selected lines, or the first IndexError |
| PdfLines.ErrorPersists | read_pdfs/parse_wiersema.py:158-162 | an IndexError on one line is the result of the whole selection |
| PdfLines.NoDashBeforeFirst | read_pdfs/parse_wiersema.py:85 | the common name, the text before the first ' -', has no ' -' |
| PdfLines.SplitNameLineRebuilds | read_pdfs/parse_wiersema.py:85-86 | a line splits into common name, ' -', one character, scientific name and one final character, and nothing is lost |
| PdfLines.PagePairsOrigin | read_pdfs/parse_wiersema.py:79-91 | every pair comes from splitting one of the page's lines |
| PdfLines.SplitPageLines | read_pdfs/parse_wiersema.py:79-91 | the line loop keeps the pairs of the lines with ' -' (the ValueError branch skips the others) |
| PdfLines.PagePairsOf | read_pdfs/parse_wiersema.py:70-91 | a page's pairs are the pairs of its compressed lines |
| PdfLines.CollectNamePairs | read_pdfs/parse_wiersema.py:67-91 | the page loop collects the pairs of every page in order |
| PdfLines.CommonNamesOfMembers | read_pdfs/parse_wiersema.py:93 | a common name is in a scientific name's joined list exactly when that pair was found |
| PdfLines.WepTable | read_pdfs/parse_wiersema.py:92-99 | no more rows than pairs |
| PdfLines.WepTableRows | read_pdfs/parse_wiersema.py:92-96 | every scientific name found has a row, whose snippet joins all its common names with ':' |
| PdfLines.WepTableDistinct | read_pdfs/parse_wiersema.py:96 | no two rows have the same name |
| PdfLines.CommonNamesTable | read_pdfs/parse_wiersema.py:52-99 | the page loops build the de-duplicated table of names and joined common names |
| Wiersema.CategoryTagHasColon | read_pdfs/parse_wiersema.py:103-105 | a tagged line has a ':' (so the tag test never decides the name test on its own) |
| Wiersema.PossibleNameShape | read_pdfs/parse_wiersema.py:103-105 | a line that can be a name has a '.', no ':' and no category tag |
| Wiersema.CompressLinesIntoCategories | read_pdfs/parse_wiersema.py:117-142 | the category compression with this book's name test; no blank output line |
| Wiersema.RetrieveNameFromPropertyLine | read_pdfs/parse_wiersema.py:108-114 | the backward search with this book's name test; a result can be a name |
| Wiersema.NamesWithPropertyMeaning | read_pdfs/parse_wiersema.py:145-164 | raises exactly when an intro is missing or a selected line has no name before or after it; otherwise one name per line carrying the category and property, each a line that can be a name |
| Wiersema.GetScientificNamesFromProperty | read_pdfs/parse_wiersema.py:145-164 | the loop computes the names of the selected lines |
| Wiersema.PoisonsFromWiersema | read_pdfs/parse_wiersema.py:167-169 | the names with 'Poison' under 'ECON', each a line that can be a name |
| Wiersema.TraditionalMedicinesFromWiersema | read_pdfs/parse_wiersema.py:172-174 | the names with 'Medic. (folklore)' under 'ECON', each a line that can be a name |
| Wiersema.CommonNamesFromWiersema | read_pdfs/parse_wiersema.py:52-100 | the table of scientific names with their joined common names, no more rows than pairs |
| Catalog.PossibleNameMeaning | read_wep/parse_catalog.py:17-36 | a line can be a name exactly when it is non-empty, passes every layout test and has a listed genus as one of its tokens |
| Catalog.NoGeneraNoNames | read_wep/parse_catalog.py:32-36 | with an empty genus list no line can be a name |
| Catalog.FusedKeywordLetsVegetableThrough | read_wep/parse_catalog.py:11-36 | with the keyword list as written, 'Aa vegetable)' passes as a name when 'Aa' is a genus |
| Catalog.VegetableRuledOut | read_wep/parse_catalog.py:11-25 | with the keyword list as intended, any line with '(vegetable' or 'vegetable)' is ruled out |
| Catalog.CompressLinesIntoCategories | read_wep/parse_catalog.py:48-76 | the category compression with the catalogue's name test; no blank output line |
| Catalog.RetrieveNameFromPropertyLine | read_wep/parse_catalog.py:39-45 | the backward search with the catalogue's name test; a result is a line that can be a name |
| Catalog.ArgumentsAccepted | read_wep/parse_catalog.py:81-84 | the arguments pass exactly when a property is given for every category but 'CN' and none for 'CN' |
| Catalog.CatalogNamesMeaning | read_wep/parse_catalog.py:79-111 | bad arguments raise their ValueError; otherwise one name per selected line, each a line that can be a name |
| Catalog.CommonNameSelection | read_wep/parse_catalog.py:109-111 | for 'CN' a line is selected exactly when it has 'CN:' |
| Catalog.GetScientificNamesFromProperty | read_wep/parse_catalog.py:79-112 | the argument checks and the selection loop compute the catalogue names |
| Catalog.PoisonsFromCatalog | read_wep/parse_catalog.py:120-122 | the names with 'Poison' under 'ECON', each a line that can be a name |
| Catalog.TraditionalMedicinesFromCatalog | read_wep/parse_catalog.py:125-127 | the names with 'Medic. (folklore)' under 'ECON', each a line that can be a name |
| Catalog.CommonNamesFromCatalog | read_wep/parse_catalog.py:130-132 | the names of the 'CN' lines, each a line that can be a name |
| CommonNameIndex.CompressLinesIntoNames | read_wep/parse_common_name_index.py:12-39 | the dash compression; no blank output line |
| CommonNameIndex.IndexLineSplit | read_wep/parse_common_name_index.py:73-85 | a line yields a pair exactly when it has ' -'; the name (right-to-left pages) or the common name (other pages) is the text before the first ' -', less one leading character on right-to-left pages |
| CommonNameIndex.CommonNamesFromIndex | read_wep/parse_common_name_index.py:42-90 | the table of scientific names with their joined common names, no two rows with the same name |
| TryData.IntegerEntriesNeverMatch | morphological_vars/parse_try_data.py:24-105 | the integer entries of a drop list never match a value read as text, so only the text entries drop rows |
| TryData.MentionCounts | morphological_vars/parse_try_data.py:79-92 | the lost-row test's total is the sum of the three keyword sub-tables' sizes |
| TryData.MentionsNamed | morphological_vars/parse_try_data.py:75-81 | the sub-tables taken after dropping rows without a trait name are those taken from all rows |
| TryData.CleanTryDbChecks | morphological_vars/parse_try_data.py:72-94 | the split raises 'Some items have been lost' exactly when the three sub-tables' sizes do not add up to the named rows |
| TryData.EachMatchedOnce | morphological_vars/parse_try_data.py:79-94 | when every named row mentions exactly one keyword, the lost-row test passes |
| TryData.UnnamedUnmatched | morphological_vars/parse_try_data.py:75 | a row without a trait name is in no sub-table |
| TryData.UnmatchedRecordLost | morphological_vars/parse_try_data.py:79-94 | when no row mentions two keywords, a named row mentioning none makes the lost-row test raise |
| TryData.MatchesAtMostNamed | morphological_vars/parse_try_data.py:79-92 | when no row mentions two keywords, the total is at most the named rows |
| TryData.CleanTryHitsMeaning | morphological_vars/parse_try_data.py:153-171 | the rows kept are those of a trait not dropped and a reference other than 'unpub.', in order, each turned into a hit |
| TryData.HitColumns | morphological_vars/parse_try_data.py:166-169 | the snippet starts with the data name and ':' and ends with the unit when there is one; the source is 'TRY (<reference>)' |
| TryData.DropListedValues | morphological_vars/parse_try_data.py:103-127 | the drop loop keeps the hits whose value is not listed for their data name |
| TryData.FirstUnknown | morphological_vars/parse_try_data.py:107-138 | no data name is reported exactly when every hit's data name is a key; a reported one is a hit's data name and not a key |
| TryData.FirstWordFound | morphological_vars/parse_try_data.py:111-144 | no word is reported exactly when no data name contains any of the words; a reported word is one of them and occurs in a data name |
| TryData.HairHitsMeaning | morphological_vars/parse_try_data.py:97-113 | each hair hit is a record with a value, of a hair trait, not a spine trait, not unpublished, not dropped by its value, with its snippet and source |
| TryData.GetAcceptedInfoTryHairHits | morphological_vars/parse_try_data.py:97-113 | the hair loops compute the hair hits or the first ValueError |
| TryData.SpinePartition | morphological_vars/parse_try_data.py:119-134 | the spine hits and non-hits split the cleaned records: a record is a non-hit exactly when its value is listed as showing no spines |
| TryData.SpineHitsMeaning | morphological_vars/parse_try_data.py:136-144 | after the checks every hit and non-hit is of a spine trait and none mentions 'hair' |
| TryData.GetAcceptedTryInfoSpineHits | morphological_vars/parse_try_data.py:119-144 | the spine loops compute the split or the first ValueError |
| Occurrences.Within | clean_plant_occurrences/clean_by_tdwg_region.py:68-74 | the binary column is missing exactly when the taxon has no codes, 1 exactly when the region is among them and 0 exactly when it is not |
| Occurrences.Locate | clean_plant_occurrences/clean_by_tdwg_region.py:47-78 | one located row per occurrence, keeping it, with both binary columns |
| Occurrences.DeduplicatedRows | clean_plant_occurrences/clean_by_tdwg_region.py:102-118 | every row left is an input row with an accepted name |
| Occurrences.GbifIdsKept | clean_plant_occurrences/clean_by_tdwg_region.py:104-106 | with duplicate removal, the gbifIDs left are distinct and every named occurrence's gbifID is still present |
| Occurrences.NativeKeeps | clean_plant_occurrences/clean_by_tdwg_region.py:131-134 | 'native' keeps a located row exactly when its region is native or its taxon has no native codes |
| Occurrences.BothKeeps | clean_plant_occurrences/clean_by_tdwg_region.py:125-130 | 'both' keeps a located row exactly when its region is native or introduced, or its taxon has neither list of codes |
| Occurrences.OtherCleanByRaises | clean_plant_occurrences/clean_by_tdwg_region.py:136-137 | any other clean_by raises ValueError |
| Occurrences.NativeRegionAlwaysKept | clean_plant_occurrences/clean_by_tdwg_region.py:125-134 | a row in a native region is kept by both modes |
| Occurrences.BothCanDropWhatNativeKeeps | clean_plant_occurrences/clean_by_tdwg_region.py:125-134 | a row whose taxon has no native codes but introduced codes elsewhere is kept by 'native' and dropped by 'both' |
| SourceBreakdown.AddSourcesGet | data_compilation_methods/source_breakdown.py:44-48 | counting a row's sources adds to each key the number of times it occurs in the list |
| SourceBreakdown.TallyValid | data_compilation_methods/source_breakdown.py:33-55 | both tallies are well-formed dictionaries holding 'Total' |
| SourceBreakdown.TallyMeaning | data_compilation_methods/source_breakdown.py:33-55 | each source's count is its number of occurrences over all rows, its unique count the number of rows that list only it; 'Total' adds the row count |
| SourceBreakdown.UniqueAtMostCount | data_compilation_methods/source_breakdown.py:40-55 | a source's unique count never exceeds its count |
| SourceBreakdown.CountRow | data_compilation_methods/source_breakdown.py:44-48 | the inner loop counts one row's sources |
| SourceBreakdown.AddRowSources | data_compilation_methods/source_breakdown.py:44-55 | one pass of the row loop counts its sources, and its only source when it has one |
| SourceBreakdown.CountSources | data_compilation_methods/source_breakdown.py:33-55 | the row loop computes both tallies |
| SourceBreakdown.ResetTargets | data_compilation_methods/source_breakdown.py:59-61 | after the reset every group name is present with count 0 |
| SourceBreakdown.ResetOther | data_compilation_methods/source_breakdown.py:59-61 | the reset leaves every other key as it was |
| SourceBreakdown.RouteUnmatched | data_compilation_methods/source_breakdown.py:64-69 | a key containing no group's pattern adds to no group |
| SourceBreakdown.RouteTarget | data_compilation_methods/source_breakdown.py:64-67 | routing a key adds its count to each group whose pattern it contains and leaves the other groups alone |
| SourceBreakdown.RouteKeysSums | data_compilation_methods/source_breakdown.py:64-67 | after routing every key, each group holds its own count plus the sum of the counts of the keys containing its pattern |
| SourceBreakdown.RouteKeysFrame | data_compilation_methods/source_breakdown.py:64-76 | routing adds and removes no key |
| SourceBreakdown.CollectMembers | data_compilation_methods/source_breakdown.py:63-76 | the removal list holds exactly the earlier entries and the keys matching some pattern |
| SourceBreakdown.TranslationSums | data_compilation_methods/source_breakdown.py:57-82 | after merging, no key matching a pattern is left, every other non-group key keeps its count in both dictionaries, and each group holds the sum of its matching keys |
| SourceBreakdown.TranslateValid | data_compilation_methods/source_breakdown.py:57-82 | the merged dictionaries are well-formed |
| SourceBreakdown.RouteKey | data_compilation_methods/source_breakdown.py:65-69 | the pattern loop routes one key and reports whether it matched |
| SourceBreakdown.RouteAllKeys | data_compilation_methods/source_breakdown.py:64-69 | the key loop routes every key and collects the matched ones |
| SourceBreakdown.ResetCounts | data_compilation_methods/source_breakdown.py:59-61 | the reset loop sets every group to 0 in both dictionaries |
| SourceBreakdown.TranslateCounts | data_compilation_methods/source_breakdown.py:57-82 | the merging loops compute the merged dictionaries |
| SourceBreakdown.DropZerosMeaning | data_compilation_methods/source_breakdown.py:84-96 | dropping zeros keeps exactly the non-zero entries, with their counts |
| SourceBreakdown.ZeroKeys | data_compilation_methods/source_breakdown.py:84-87 | the loop lists the keys with count 0, in order |
| SourceBreakdown.DropZeroEntries | data_compilation_methods/source_breakdown.py:84-96 | the two loops drop the zero entries |
| SourceBreakdown.OutputSummaryOfHitCsv | data_compilation_methods/source_breakdown.py:10-96 | the whole summary: duplicate check, de-duplication, filters, counting, merging and zero removal |
| SourceBreakdown.SummaryRaises | data_compilation_methods/source_breakdown.py:19-23 | raises exactly when some Accepted_ID repeats and check_duplicates is set |
| SourceBreakdown.CountInAbsent | data_compilation_methods/source_breakdown.py:40-55 | a source no row lists is counted 0 |
| SourceBreakdown.TotalIsRowCount | data_compilation_methods/source_breakdown.py:25-38 | 'Total' in both tables is the number of rows left after de-duplication and filtering |
| SourceBreakdown.SourceCounts | data_compilation_methods/source_breakdown.py:40-96 | without merging, each source's counts are its occurrence count and its sole-source count, the second never above the first |
| SourceBreakdown.NoZeroEntries | data_compilation_methods/source_breakdown.py:84-96 | no entry of either table is 0 |
| SourceBreakdown.SummaryTranslated | data_compilation_methods/source_breakdown.py:57-82 | with merging, no matching key is left and each group holds the sum of its matching keys' counts |
| CleaningSourceBreakdown.FixedTranslationsShape | cleaning/source_breakdown.py:20 | the two fixed groups have distinct names and neither name contains a pattern |
| CleaningSourceBreakdown.ResetIsPowoThenWiki | cleaning/source_breakdown.py:44-47 | the reset sets 'POWO' to 0, then 'Wiki' |
| CleaningSourceBreakdown.RouteEveryKey | cleaning/source_breakdown.py:49-57 | the key loop adds each key's count to the groups whose pattern it contains |
| CleaningSourceBreakdown.OutputSummaryOfHitCsv | cleaning/source_breakdown.py:8-57 | the older summary: duplicate check, de-duplication, counting, reset and routing, no key removed |
| CleaningSourceBreakdown.OldSummaryRaises | cleaning/source_breakdown.py:13-17 | raises exactly when some Accepted_ID repeats and check_duplicates is set |
| CleaningSourceBreakdown.PowoAndWikiSums | cleaning/source_breakdown.py:44-57 | 'POWO' and 'Wiki' end as the sums of the counts of the keys containing 'POWO pages' and '_wiki' |
| CleaningSourceBreakdown.OriginalKeysRetained | cleaning/source_breakdown.py:26-57 | every tallied key is kept, and every key other than 'POWO' and 'Wiki' keeps its count |
| CleaningSourceBreakdown.OldTotalIsRowCount | cleaning/source_breakdown.py:19-25 | 'Total' in both tables is the number of rows after de-duplication |
| Dicts.Put | data_compilation_methods/source_breakdown.py:46-60 | assignment replaces the key's value, keeps an old key in place and appends a new one |
| Dicts.Incr | data_compilation_methods/source_breakdown.py:45-48 | the key's value goes up by one, a new key starting at 1; the others are unchanged |
| Dicts.Remove | data_compilation_methods/source_breakdown.py:78-82 | deletion removes exactly that key |
| Dicts.RemoveAllMeaning | data_compilation_methods/source_breakdown.py:78-89 | deleting the listed keys keeps exactly the other entries, with their values |
| Dicts.RemoveKeys | data_compilation_methods/source_breakdown.py:78-82 | the deletion loop removes the listed keys that are present |
| CompilingDatasets.MergedKeeps | cleaning/compiling_datasets.py:31-37 | merging keeps every column that is neither old nor new, with its values |
| CompilingDatasets.MergedColumnsFrom | cleaning/compiling_datasets.py:31-37 | the merged frame's columns are old columns or the new one |
| CompilingDatasets.MergeColumnsMeaning | cleaning/compiling_datasets.py:23-37 | with fewer than two old columns the frame is unchanged; otherwise the old columns are replaced by the new one, which holds the first text that is neither '' nor 'nan', and the other columns keep their values |
| CompilingDatasets.MergeColumns | cleaning/compiling_datasets.py:23-37 | on the frame object: nothing changes with fewer than two old columns; a missing old column raises after the conversions before it; otherwise the frame becomes the merged one |
| CompilingDatasets.SourceWordIsLower | cleaning/compiling_datasets.py:43 | the source test compares with the lower-cased 'Source' |
| CompilingDatasets.SourceColumns | cleaning/compiling_datasets.py:43 | the source columns are exactly the merged frame's columns whose lower-cased name contains 'source', in order |
| CompilingDatasets.RemoveFirstAt | cleaning/compiling_datasets.py:51-56 | removing '' removes its first occurrence only |
| CompilingDatasets.WithSourcesColumns | cleaning/compiling_datasets.py:43-61 | after the merge of sources the frame has 'Sources' and has kept exactly the non-source columns |
| CompilingDatasets.WithSourcesValue | cleaning/compiling_datasets.py:45-58 | each row's 'Sources' is the text of its source cells, missing ones as '', with the first '' removed |
| CompilingDatasets.WithSourcesKeeps | cleaning/compiling_datasets.py:60-61 | every other column keeps its values |
| CompilingDatasets.MergeOnAcceptedIdOf | cleaning/compiling_datasets.py:40-41 | the merge raises exactly when either frame lacks 'Accepted_ID' |
| CompilingDatasets.AcceptedMergedMeaning | cleaning/compiling_datasets.py:63-73 | merging the accepted columns keeps every column not named after an accepted column, with its values, and adds only accepted columns |
| CompilingDatasets.AcceptedApartFromSources | cleaning/compiling_datasets.py:43-73 | no accepted column is a source column, and 'Sources' is not accepted-like |
| CompilingDatasets.MergeOnAcceptedIdMeaning | cleaning/compiling_datasets.py:40-75 | after the merge each row's 'Sources' is built from the outer merge's source cells, and 'Sources' is the only source column left |
| CompilingDatasets.MergeOnAcceptedId | cleaning/compiling_datasets.py:40-75 | the merging steps compute the merge |
| CompilingDatasets.KeptColumns | cleaning/compiling_datasets.py:87-92 | the kept columns include the accepted name, the accepted ID and 'Source' |
| CompilingDatasets.Finished | cleaning/compiling_datasets.py:111-120 | the result has distinct Accepted_IDs, 'Sources' last, and the start columns before the others |
| CompilingDatasets.FinishedCovers | cleaning/compiling_datasets.py:120 | every Accepted_ID of the merged frame keeps a row |
| CompilingDatasets.CleanedAll | cleaning/compiling_datasets.py:95-101 | one cleaned frame per input, each with only the kept columns and the named rows |
| CompilingDatasets.CompiledErrors | cleaning/compiling_datasets.py:89-106 | a frame without an accepted-name column raises KeyError, no frames raise IndexError, a first frame without 'Source' raises KeyError |
| CompilingDatasets.CompiledShape | cleaning/compiling_datasets.py:78-120 | the compiled table has 'Sources' last and distinct Accepted_IDs |
| CompilingDatasets.CompiledFromCleaned | cleaning/compiling_datasets.py:86-110 | compiling is merging the cleaned frames with the kept columns |
| CompilingDatasets.CleanCopy | cleaning/compiling_datasets.py:97-100 | cleaning a frame raises exactly when it has no accepted-name column, and otherwise gives its cleaned copy |
| CompilingDatasets.CleanCopies | cleaning/compiling_datasets.py:95-101 | the cleaning loop raises exactly when some frame lacks the accepted-name column, and otherwise gives every frame's cleaned copy |
| CompilingDatasets.MergeFrames | cleaning/compiling_datasets.py:108-110 | the merge loop folds the frames in order |
| CompilingDatasets.CompileCleaned | cleaning/compiling_datasets.py:104-120 | the merge and arrangement steps compute the compiled table |
| CompilingDatasets.CompileHits | cleaning/compiling_datasets.py:78-120 | the whole compilation computes the compiled table or its error, and (having no modifies clause) leaves the input frames as they were |
| DataCompilation.StrLtTotal | data_compilation_methods/compiling_datasets.py:15-100 | Python's string order is total |
| DataCompilation.StrLtTrans | data_compilation_methods/compiling_datasets.py:15-100 | Python's string order is transitive |
| DataCompilation.InsertText | data_compilation_methods/compiling_datasets.py:13-16 | inserting into a sorted distinct list keeps it sorted and distinct and adds exactly that text |
| DataCompilation.SortedDistinct | data_compilation_methods/compiling_datasets.py:13-16 | the unique sources are sorted, without repeats, and are exactly the texts of the input |
| DataCompilation.SortedUnique | data_compilation_methods/compiling_datasets.py:13-16 | two sorted distinct lists with the same members are equal, so the unique sources are determined by their set |
| DataCompilation.WithoutEarlierIsFilter | data_compilation_methods/compiling_datasets.py:77-86 | the anti-join loop keeps exactly the rows whose (name-with-author, Source) pair is in no earlier cleaned frame, in order |
| DataCompilation.FirstFailing | data_compilation_methods/compiling_datasets.py:68-74 | no frame is reported exactly when every frame has 'Source' and the name-with-author column; a reported frame is the first that lacks one |
| DataCompilation.CleanedIsClean | data_compilation_methods/compiling_datasets.py:71-74 | a trimmed frame with its named rows has the key columns, and every row has a name-with-author |
| DataCompilation.GrownClean | data_compilation_methods/compiling_datasets.py:67-89 | every frame appended to the cleaned list is clean and has rows |
| DataCompilation.Concat | data_compilation_methods/compiling_datasets.py:91 | concatenating raises exactly when there are no frames, and otherwise gives a clean frame |
| DataCompilation.ConcatPairFrom | data_compilation_methods/compiling_datasets.py:91 | every concatenated row's pair comes from one of the frames |
| DataCompilation.ConcatPairTo | data_compilation_methods/compiling_datasets.py:91 | every pair of a frame is some concatenated row's pair |
| DataCompilation.SourcesOfMeaning | data_compilation_methods/compiling_datasets.py:13-20 | a name's list of texts is sorted and distinct and holds exactly the text sources paired with that name |
| DataCompilation.PresentSourcesExist | data_compilation_methods/compiling_datasets.py:13-20 | a group has a text source exactly when some row pairs its name with a text |
| DataCompilation.MixedSourcesMeaning | data_compilation_methods/compiling_datasets.py:13-20 | a group's sources cannot be sorted exactly when one row pairs its name with no Source and another with a text |
| DataCompilation.MixedGroupRaises | data_compilation_methods/compiling_datasets.py:13-20 | two rows of one name, with Source 'X' and with none, make the aggregation raise the TypeError |
| DataCompilation.MissingGroupListsNan | data_compilation_methods/compiling_datasets.py:13-20 | a name none of whose rows has a Source is listed as `[nan]` |
| DataCompilation.AggregatedRow | data_compilation_methods/compiling_datasets.py:18-25 | each aggregated row holds its name's list (its sorted texts, or `[nan]` when it has none), and its name is an input row's name |
| DataCompilation.AggregatedCovers | data_compilation_methods/compiling_datasets.py:21-25 | every input name keeps a row |
| DataCompilation.OutColsMeaning | data_compilation_methods/compiling_datasets.py:94-98 | the arranged columns start with the start columns present, end with 'Compiled_Sources', and are the same columns |
| DataCompilation.SortRowsSorted | data_compilation_methods/compiling_datasets.py:100 | the rows are sorted by accepted name |
| DataCompilation.SortRowsDistinct | data_compilation_methods/compiling_datasets.py:100 | sorting keeps names distinct |
| DataCompilation.ArrangedAggregate | data_compilation_methods/compiling_datasets.py:92-98 | arranging keeps the rows and the columns, and each name-with-author occurs once |
| DataCompilation.KeepKeeps | data_compilation_methods/compiling_datasets.py:59-64 | the kept columns hold the key columns |
| DataCompilation.SourceMentioned | data_compilation_methods/compiling_datasets.py:62 | 'Source' is among the columns mentioning 'source' whenever a frame has it |
| DataCompilation.CleanedFramesAllClean | data_compilation_methods/compiling_datasets.py:67-89 | every cleaned frame is clean and has rows |
| DataCompilation.ConcatenatedKeeping | data_compilation_methods/compiling_datasets.py:67-91 | the concatenation, when there is one, is clean |
| DataCompilation.FinishOk | data_compilation_methods/compiling_datasets.py:13-100 | after the concatenation, the remaining steps raise exactly when a group mixes missing and text sources (the TypeError) or the accepted-name column is missing (the KeyError) |
| DataCompilation.FinishShape | data_compilation_methods/compiling_datasets.py:92-107 | with sortable groups and an accepted-name column, the finished table has the start columns first and 'Compiled_Sources' last, drops 'Source', is sorted by accepted name, and has distinct named rows, so the duplicate check never raises |
| DataCompilation.FinishRow | data_compilation_methods/compiling_datasets.py:18-100 | each output row holds its name's list (sorted texts, or `[nan]`), and its name comes from the concatenation |
| DataCompilation.FinishCovers | data_compilation_methods/compiling_datasets.py:21-100 | every concatenated name keeps a row |
| DataCompilation.StepPairs | data_compilation_methods/compiling_datasets.py:71-89 | a pair is in the cleaned list after a step exactly when it was before or the step's cleaned frame has it |
| DataCompilation.GrownPairs | data_compilation_methods/compiling_datasets.py:67-89 | a named pair is in the cleaned frames exactly when some input row has it |
| DataCompilation.CleanedEmpty | data_compilation_methods/compiling_datasets.py:74-89 | a cleaned frame is empty exactly when no row has a name-with-author |
| DataCompilation.CompiledEmpty | data_compilation_methods/compiling_datasets.py:52-56 | no frames, or only empty ones, give the empty table with the output columns |
| DataCompilation.FirstFailingAt | data_compilation_methods/compiling_datasets.py:68-70 | the first frame lacking a key column is the one reported |
| DataCompilation.AllPass | data_compilation_methods/compiling_datasets.py:68-74 | with every key column present no frame is reported |
| DataCompilation.CompiledFails | data_compilation_methods/compiling_datasets.py:68-74 | the first frame lacking 'Source' raises ValueError, and one lacking the name-with-author column raises KeyError |
| DataCompilation.CompiledNoObjects | data_compilation_methods/compiling_datasets.py:88-91 | with valid frames, concatenation raises exactly when no row has a name-with-author |
| DataCompilation.CompiledRaises | data_compilation_methods/compiling_datasets.py:13-111 | the only errors are the missing 'Source', the missing name-with-author, nothing to concatenate, a group mixing missing and text sources, and the missing accepted name |
| DataCompilation.CompiledSucceeds | data_compilation_methods/compiling_datasets.py:13-111 | with every key column present and some named row, compiling succeeds exactly when no name is paired in the inputs both with no Source and with a text |
| DataCompilation.ConcatenatedMixed | data_compilation_methods/compiling_datasets.py:13-91 | the concatenation has a group mixing missing and text sources exactly when the inputs pair one name with both |
| DataCompilation.CompiledMixed | data_compilation_methods/compiling_datasets.py:13-111 | once the checks and the concatenation pass, compiling raises the TypeError exactly when the inputs pair one name both with no Source and with a text |
| DataCompilation.FinishMixed | data_compilation_methods/compiling_datasets.py:13-92 | the last steps raise the TypeError exactly when a group mixes missing and text sources |
| DataCompilation.ConcatenatedPairs | data_compilation_methods/compiling_datasets.py:67-91 | a named pair is a concatenated row's pair exactly when some input row has it |
| DataCompilation.CompiledShape | data_compilation_methods/compiling_datasets.py:30-111 | the compiled table has the start columns first and 'Compiled_Sources' last, no 'Source', rows sorted by accepted name, and one row per name-with-author |
| DataCompilation.CompiledRow | data_compilation_methods/compiling_datasets.py:13-111 | each output row's name comes from the inputs, and its 'Compiled_Sources' lists, sorted and once each, exactly the text sources paired with that name in the inputs, or is `[nan]` when the inputs pair it with no text |
| DataCompilation.GroupListOfInputs | data_compilation_methods/compiling_datasets.py:13-91 | a name's list is its sorted texts when the inputs pair it with a text, and `[nan]` otherwise |
| DataCompilation.CompiledCovers | data_compilation_methods/compiling_datasets.py:30-111 | every named input row's name has an output row |
| DataCompilation.StepCovered | data_compilation_methods/compiling_datasets.py:76-89 | a frame whose pairs are all in earlier cleaned frames adds nothing |
| DataCompilation.CleanedRepeated | data_compilation_methods/compiling_datasets.py:67-89 | adding a copy of one of the frames leaves the cleaned frames unchanged |
| DataCompilation.CompiledSameMembers | data_compilation_methods/compiling_datasets.py:64-73 | the kept columns matter only through their members, not their order or repeats |
| DataCompilation.MentionsRepeated | data_compilation_methods/compiling_datasets.py:59-63 | adding a copy of a frame adds no mentioned column |
| DataCompilation.RepeatedFrame | data_compilation_methods/compiling_datasets.py:59-107 | with the same kept columns, a repeated frame does not change the compiled table |
| DataCompilation.RepeatedInput | data_compilation_methods/compiling_datasets.py:30-111 | compiling with a copy of one of the frames added gives the same result |
| DataCompilation.WithRepeats | data_compilation_methods/unittests/test_compiling.py:34-47 | the inputs followed by copies of the chosen ones |
| DataCompilation.RepeatedInputs | data_compilation_methods/compiling_datasets.py:30-111 | compiling the inputs followed by any copies of them gives the same result as compiling the inputs |
| DataCompilation.RemoveRepeats | data_compilation_methods/compiling_datasets.py:77-86 | the anti-join loop drops the rows paired in the earlier cleaned frames |
| DataCompilation.CleanAll | data_compilation_methods/compiling_datasets.py:67-89 | the cleaning loop gives the cleaned frames, or the first frame's error |
| DataCompilation.CompileHits | data_compilation_methods/compiling_datasets.py:13-111 | the whole compilation computes the compiled table or its error, including the TypeError of a taxon whose rows mix a missing Source with a text |

## Left out

- Printing, the `_temp_output` files, the CSV cache of remote matches and the manual-match CSV are I/O. The cache file name is a function of an `md5` parameter, and the manual table is an input.
- The HTTP request to the remote matcher is the `reply` parameter. The checklist loader `get_all_taxa` becomes a `Checklist` argument at each call site. In `GetAcceptedInfo.KnmsMatches`, `families_of_interest` selects the checklist `c` of the single matches; the best-match choice for multiple matches is called without it (name_matching_cleaning/get_accepted_info.py:130), so it reads the whole checklist, passed as `full`. In `NameResolution.RunStages` and `NameResolution.GetAcceptedInfoFromNamesInColumn`, `c` is the manual stage's checklist, the whole one, since get_accepted_info.py:252 passes no families; the checklist of `families_of_interest` (line 258) is the one the exact stage reads, `taxa` in `NameResolution.ExactStageLeavesNothing`.
- `remove_whitespace` is not part of this model. The orchestrator takes it as a function parameter.
- The exact, remote-matcher and autoresolve stages of the orchestrator are function parameters. `NameResolution.ExactStageLeavesNothing` instantiates the exact one.
- The cumcount merge of remote matches back onto the input (get_accepted_info.py:137-141) is not modelled. Its pairing of duplicated names is a pandas idiom, and the result is used only through the names it resolves.
- The order among autoresolve candidates of equal rank after the unstable `sort_values` is unspecified. `AutoResolve.ChooseMostPrecise` may pick any of them.
- Unicode case mapping: `isupper`, `lower` and `capitalize` are modelled on ASCII letters.
- AutoResolve.AutoresolveMissingMatches: models the evidently intended behaviour (see Findings), not the constructor error of the code as written. The as-written behaviour is `AutoResolve.MatchTableAsWritten`.
- Reading and writing CSV, Excel, JSON and PDF files, plotting, `print` diagnostics and progress bars are I/O. Page texts, book texts, KEGG documents and trait records arrive as values; the web searches of KNApSAcK and Wikipedia are function parameters.
- The accepted-name lookup that ends many pipelines (`get_accepted_info_from_names_in_column` after the Wikipedia, KNApSAcK, TRY, catalogue and index searches) is not repeated in those modules: their models stop at the table handed to it, whose resolution is `NameResolution`.
- `compound_df[compound_abbv]` (metabolite_searches/knapsack_search.py:193) is outside the model: `KnapsackSearch.CompoundHitsForTaxa` takes the compound list itself, so the KeyError of a missing column stays with the caller.
- The point-in-region search over the TDWG shapefile and the distribution lookup are left out; each occurrence carries its level-3 region and its taxon's code lists. The model reads `x in codes` as list membership, which assumes the distribution lookup returns lists.
- The values of `COL_NAMES` and of the WCVP accepted-column names come from packages that are not part of this model; they are constants here.
- `ast.literal_eval` of the Compiled_Sources cells is left out: the summaries receive the parsed source lists.
- The order of the classes in `';'.join(set(...))` and `tuple(set(...))` is unspecified in Python. The models list them in order of first appearance, so the order is a choice of the model; membership and distinctness are what is proved.
- `sort_values` is not stable in general; `DataCompilation.SortRows` sorts stably, so rows with equal accepted names keep their concatenation order. Only the order by name and the one-row-per-name property are proved.
- Row order of `pd.merge(..., how='outer')`: pandas sorts the rows by the join key, while `Frames.OuterMerge` keeps the left rows in order and then the unmatched right rows. Membership, values and one row per Accepted_ID do not depend on that order; which row `drop_duplicates` keeps for a repeated Accepted_ID follows the model's order.
- A missing accepted name sorts last in `DataCompilation.SortRows`, as under pandas' default `na_position='last'`.
- The unused `sources` list of the anti-join loop (data_compilation_methods/compiling_datasets.py:77-81) and the unused snippet-column list are not modelled; neither affects the result.
- An input column already named `Compiled_Sources` is assumed absent.
- DataCompilation.GroupList: a taxon none of whose rows has a Source is listed with one `nan`. Python's `set` keeps two NaN floats apart unless they are the same object, so when pandas hands `_unique_sources` a fresh float per row (a Source column of float type) the list may repeat `nan`.
- The `dropna(axis=1, how='all')` column pruning of `clean_try_db` affects only the written files and is left out; the lost-row test compares row counts only.
- Python's `is np.nan` test in `within_native` is read as "the cell is missing".
- WikiSearch.SnippetAtStart: the snippet of a mention at index 0 is modelled as written (the slice from -1), not corrected.
- Catalog.NotPossibleName: the rest of the model uses the corrected keyword list (see Findings); the as-written list is `Catalog.NotPossibleNameAsWritten`.
- CompoundFunctions.FilterRowsContainingKeyword: models the evidently intended row selection (see Findings); the positional `df.iloc[[index]]` of the code as written is `CompoundFunctions.AsWrittenBins`.
- `filter_out_ranks` and `generate_temp_output_file_paths` of cleaning/compiling_datasets.py are the same functions as in name_matching_cleaning/cleaning.py and are modelled once, as `NameCleaning.FilterOutRanks` and `NameCleaning.TempOutputFilePaths`.

## Findings

| source | as written | input that shows it | evidently intended | confidence | as-written member | corrected member |
|---|---|---|---|---|---|---|
| name_matching_cleaning/get_accepted_info.py:74-88 | `dict_for_matches` has a seventh list, `taxonomic_status_of_submitted_name`, that the loop never fills, because `id_lookup_wcvp` returns only five keys; `pd.DataFrame` then raises on lists of unequal length | one Accepted checklist record with name "Aa" and one unmatched submission "Aa b" | a table of the candidates with their accepted information | medium, not executed; the package's re-export of `id_lookup_wcvp` is not part of this model | AutoResolve.AutoresolveAsWrittenRaises | AutoResolve.AutoresolveMissingMatches |
| read_wep/parse_catalog.py:11-14 | a comma is missing between 'potential as soil improver' and 'vegetable', so Python joins them into one keyword and neither '(vegetable' nor 'vegetable)' rules a line out | the line "Aa vegetable)" with the genus list ["Aa"] passes as a possible name | the two keywords kept apart, so any line with 'vegetable)' is ruled out | high, not executed | Catalog.FusedKeywordLetsVegetableThrough | Catalog.VegetableRuledOut |
| metabolite_properties/generic_compound_functions.py:20-29 | the row appended is `df.iloc[[index]]`, which reads the index label as a position | a frame with rows "alkaloid" and "sugar" whose index labels are 1 and 0, keyword "alkaloid": the keyword output holds the "sugar" row | the row being classified is appended | high, not executed | CompoundFunctions.AsWrittenMisplacesRows | CompoundFunctions.FilterRowsContainingKeyword |
