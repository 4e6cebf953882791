# Medical inventory labelling, modelled in Dafny

The system takes an inventory spreadsheet of medical supplies (one row per item, with
columns such as ITEM_NO, DESCRIPTION, VENDOR_NAME and SUBCATEGORY). It adds three labels to
every row:

- a **product category**, one of five fixed categories. A keyword table is tried on the
  description, then on the subcategory. After that a language model is asked, and its reply
  is checked against the five names.
- a **facility suitability** (rural clinics, district hospitals, both, or needs review).
  A veto word list is tried first, then two equipment lists, then the model.
- a **plain-language description** written by the model. The request is retried up to three
  times, with exponential back-off, and token usage is counted.

A command-line pipeline chains the stages through intermediate CSV files, then deletes
those files. A small web front end accepts uploads of `.csv` and `.xlsx` files.

The facility prompt (scripts/facilitize.py:131-133) asks the model for "Rural Clinic",
"District Hospital" or "Both Settings", while the reply is checked against "Rural Clinics",
"District Hospitals", "Both" and "Needs Review" (lines 18-23). The model follows the code as
written: `Facilitize.RuralClinicReplyNeedsReview` and
`Facilitize.DistrictHospitalReplyNeedsReview` show that the two singular replies always end
as "Needs Review", and `Facilitize.BothSettingsReplyIsBoth` shows that "Both Settings" is
read as "Both".

The model consists of these modules:

- `Frame`: a table as a header plus rows that map column names to cells. A missing cell
  (NaN) is `None`.
- `Text`: the Python string operations the stages use.
- `Keywords`: the ordered first-match keyword search.
- `Completion`: the model's reply and its validation against a closed label set.
- `Categorize`, `Facilitize` and `Description`: the three stages. Each has a per-item
  function and an in-place pass over an `array` of rows.
- `ReadCsv`: the required-column check.
- `Pipeline`: the output path, the stage plan, the clean-up list and the preserve flag.
- `Upload`: the upload filter and the stored file name.

The language model is a parameter. Categories and facility types use a function from the
user message to a `Reply`. Descriptions use a function from the prompt and the attempt
number, so a retry can see a different outcome. File existence is also a parameter.

## Model

| member | source | states |
|---|---|---|
| Text.Lower | scripts/categorize.py:97 | the lower-cased text has the input's length and maps each character through ASCII lower-casing |
| Text.ContainsIff | scripts/categorize.py:101 | the substring test `keyword in text` holds exactly when the keyword occurs at some index of the text |
| Text.StripWhereShape | scripts/categorize.py:139 | what `strip` keeps is one contiguous block of the input whose two ends are kept characters; everything removed on either side is removable |
| Text.StripWhereChars | scripts/categorize.py:139 | stripping keeps only characters drawn from the input |
| Text.StripWhereKeeps | scripts/categorize.py:139 | a string with nothing removable at either end is left unchanged by `strip` |
| Text.StripWrapped | scripts/description.py:126 | a text wrapped in one removable character on each side, with kept characters at its own ends, is unwrapped by `strip(chars)` |
| Text.IndexOf | scripts/categorize.py:143 | the first cut of `split(c)`: the position of the first `c`, which is there and not earlier |
| Text.LastIndexOf | web_app/app.py:28 | `rfind`: -1 or a position holding the character, with no occurrence after it |
| Text.SplitOn | scripts/categorize.py:143 | `split(c)` gives at least one piece, at least two when `c` occurs, and no piece holds `c` |
| Text.JoinSplitOn | scripts/categorize.py:143 | joining the pieces of `split(c)` with `c` gives the input back |
| Text.SecondPiece | scripts/categorize.py:143 | `split(c)[1]` is the text between the first and the second `c` (or the end) |
| Frame.WithColumn | scripts/categorize.py:179-186 | after `df[col] = ...` the header holds `col` and every old column; a new column is added once |
| Frame.ClearColumn | scripts/facilitize.py:178 | `df[col] = ""` keeps the row count and sets that cell of every row to the empty string, leaving the rest of each row |
| Frame.CountBlank | scripts/categorize.py:189 | the number of rows whose cell is NaN or empty is at most the row count |
| Frame.CountBlankNext | scripts/categorize.py:189 | counting one more row adds one exactly when that row's cell is blank |
| Frame.PausePoints | scripts/categorize.py:208-214 | the pauses of a pass are at most as many as the items finished |
| Frame.PausePointsSpec | scripts/categorize.py:208-214 | a rate-limit pause falls at counter value `k` exactly when `1 <= k <= done`, `k % batch_size == 0` and `k < items_to_categorize`; the pause points are strictly increasing |
| Frame.NoPauseAfterLast | scripts/facilitize.py:197-199 | once every pending item is done, no pause follows the last one |
| Frame.Multiples | scripts/description.py:181-184 | the checkpoints are at most as many as the rows processed |
| Frame.MultiplesSpec | scripts/description.py:181 | a checkpoint falls after `k` rows exactly when `k` is a positive multiple of 50 and at most the rows processed |
| Keywords.FirstHit | scripts/categorize.py:100-102 | a label the keyword loop returns belongs to an entry whose keyword occurs in the text |
| Keywords.FirstHitIsEarliest | scripts/categorize.py:100-102 | the loop returns the label of the earliest table entry whose keyword occurs: the table order decides, not the position in the text |
| Keywords.FirstHitHasEarliest | scripts/categorize.py:100-102 | conversely, any label the loop returns is that of the earliest matching entry |
| Keywords.FirstHitNone | scripts/categorize.py:100-102 | the loop falls through exactly when no keyword of the table occurs in the text |
| Keywords.AnyHit | scripts/facilitize.py:74-78 | when the flag is raised, some keyword of the list occurs in the text |
| Keywords.AnyHitIff | scripts/facilitize.py:74-78 | the flag with early `break` is raised exactly when some keyword of the list occurs in the text |
| Completion.CleanLabel | scripts/categorize.py:139-143 | the cleaned reply holds no colon; a reply without a colon is only stripped of white space |
| Completion.LabelTable | scripts/categorize.py:148-150 | the fuzzy-match table pairs each valid label, in list order, with its lower-case form |
| Completion.MatchLabel | scripts/categorize.py:146-154 | the validated answer is a valid label or "Needs Review", and an exact label is returned unchanged |
| Completion.ClassifyReply | scripts/categorize.py:139-158 | any reply gives a valid label or "Needs Review"; every failed attempt, whether an error from the service or a completion whose message content is null (on which `.strip()` raises), gives "Needs Review" |
| Completion.ExactLabelKept | scripts/categorize.py:146-154 | a reply that is exactly a label, with no colon and no surrounding white space, comes back unchanged |
| Completion.CleanLabelKeeps | scripts/categorize.py:139-143 | a reply with no colon and nothing to strip is its own cleaned label |
| Completion.UnmatchedReply | scripts/categorize.py:146-152 | a reply that is no label and contains no label (ignoring case) gives "Needs Review" |
| Completion.FuzzyReply | scripts/categorize.py:148-150 | a reply that is no label gives the first label, in list order, that it contains ignoring case |
| Completion.CleanLabelAfterColon | scripts/categorize.py:142-143 | for "head:answer" the part before the first colon is dropped and the rest stripped |
| Completion.CleanLabelFieldReply | scripts/categorize.py:142-143 | the usual "Field: answer" shape gives exactly the answer |
| Completion.CleanLabelDropsAfterSecondColon | scripts/categorize.py:143 | only the text between the first and the second colon survives; anything after the second colon is lost |
| Completion.SecondColonPiece | scripts/categorize.py:143 | the second piece of "head:answer:tail" split on colons is `answer` |
| Completion.FuzzyMatchIsFirst | scripts/categorize.py:148-152 | for a non-label text the result is the first label it contains ignoring case, and "Needs Review" when there is none |
| Categorize.Entries | scripts/categorize.py:30-86 | each keyword of a category group is mapped, in order, to that category |
| Categorize.MappingLabels | scripts/categorize.py:21-86 | every label of the keyword table is one of the five categories |
| Categorize.CategoryContext | scripts/categorize.py:114-118 | the user message starts with "Description: " followed by the description |
| Categorize.CategoryContextBoth | scripts/categorize.py:114-118 | with vendor and subcategory present the message is "Description: d, Vendor: v, Subcategory: s", in that order |
| Categorize.CategoryContextBare | scripts/categorize.py:114-118 | a missing, NaN or empty vendor and subcategory add nothing: the message is "Description: d" |
| Categorize.CategoryContextVendorOnly | scripts/categorize.py:114-118 | a vendor without a subcategory ends the message: "Description: d, Vendor: v" |
| Categorize.CategoryContextSubcategoryOnly | scripts/categorize.py:114-118 | a subcategory without a vendor follows the description directly: "Description: d, Subcategory: s" |
| Categorize.KeywordRule | scripts/categorize.py:97-102 | a keyword match always gives one of the five categories |
| Categorize.HintRule | scripts/categorize.py:105-109 | the subcategory hint fires only when a subcategory is present, and then by the same keyword rule |
| Categorize.CategorizeItem | scripts/categorize.py:93-158 | the answer is one of the five categories, "Uncategorized" or "Needs Review"; it is "Uncategorized" exactly when the description is missing or empty; it is never empty |
| Categorize.BlankDescription | scripts/categorize.py:93-94 | an empty or NaN description gives "Uncategorized" and the model is not asked |
| Categorize.DescriptionRuleWins | scripts/categorize.py:97-102 | the earliest table entry whose keyword occurs in the lower-cased description decides, whatever the subcategory and the model say |
| Categorize.SubcategoryHint | scripts/categorize.py:104-109 | with no description keyword, the earliest entry whose keyword occurs in the lower-cased subcategory decides |
| Categorize.ModelFallback | scripts/categorize.py:112-158 | with no rule firing the model's reply to the context, validated against the five categories, is the answer; a service error gives "Needs Review" |
| Categorize.RulesIgnoreModel | scripts/categorize.py:93-109 | when no request is made, the model cannot influence the answer |
| Categorize.LabCartIsFurniture | scripts/categorize.py:30-102 | "lab cart" is furniture: the "cart" entry comes before "lab" in the table, although "lab" comes first in the text |
| Categorize.LabCartLower | scripts/categorize.py:97 | "lab cart" is already lower case |
| Categorize.LabCartRule | scripts/categorize.py:35-102 | the "cart" entry (index 3) is the first entry found in "lab cart" |
| Categorize.MappingFront | scripts/categorize.py:32-35 | the table starts with table, chair, bed and cart, all mapped to furniture |
| Categorize.CartRule | scripts/categorize.py:32-102 | a text holding "cart" but neither of the letters e and h is decided by the "cart" entry |
| Categorize.LabelledReplyAccepted | scripts/categorize.py:142-146 | a reply "Category: <one of the five>" is read as that category |
| Categorize.CategoryShape | scripts/categorize.py:21-27 | no category is empty, holds a colon, or starts or ends with white space |
| Categorize.CategoriesColonFree | scripts/categorize.py:21-27 | no category holds a colon |
| Categorize.Prepared | scripts/categorize.py:179-186 | setting up the column keeps the row count |
| Categorize.WithCategory | scripts/categorize.py:199-206 | the updated row holds a non-empty category that is one of the five categories, "Uncategorized" or "Needs Review", and every other column keeps its value |
| Categorize.CategorizeRow | scripts/categorize.py:194-206 | after its turn a row always holds a category, and a row skipped under preservation comes out unchanged |
| Categorize.CategorizeRows | scripts/categorize.py:194-206 | every row is updated on its own: row `i` of the result depends only on row `i` |
| Categorize.CategoryPass | scripts/categorize.py:176-206 | the pass keeps the row count |
| Categorize.ProcessCsv | scripts/categorize.py:176-214 | the table becomes `CategoryPass` of the old rows, the header gains the column, and the pauses are the pause points of the counter over the items to categorize |
| Categorize.FillCategories | scripts/categorize.py:193-214 | the loop leaves each row categorized or skipped as `CategorizeRow` says, and pauses exactly at `PausePoints` |
| Categorize.FilledUpToNext | scripts/categorize.py:194-206 | one loop step extends the finished prefix by one row |
| Categorize.FilledAll | scripts/categorize.py:194-206 | once every row is finished the table is the pass result |
| Categorize.PassFillsEveryRow | scripts/categorize.py:179-206 | after the pass every row holds a category; without preservation every row holds the category its own fields give; with preservation every row that was blank holds the category its own fields give |
| Categorize.PassPreservesExisting | scripts/categorize.py:181-197 | with preservation a row that already has a category comes out unchanged |
| Categorize.PassTouchesOnlyCategory | scripts/categorize.py:206 | the pass keeps the row count and writes only the category column |
| Categorize.SecondPassChangesNothing | scripts/categorize.py:189-197 | a second pass with preservation finds no item to categorize and gives the same rows back, whatever the model says |
| Categorize.AllPresentNoneBlank | scripts/categorize.py:189 | when every row holds a category, nothing is counted as to categorize |
| Facilitize.SentinelIsFacilityType | scripts/facilitize.py:18-23 | "Needs Review" is one of the four facility types |
| Facilitize.FacilityContext | scripts/facilitize.py:97-101 | the user message starts with "Description: " followed by the description |
| Facilitize.FacilityContextBoth | scripts/facilitize.py:97-101 | with category and vendor present the message is "Description: d, Category: c, Vendor: v", in that order |
| Facilitize.FacilityContextBare | scripts/facilitize.py:97-101 | a missing, NaN or empty category and vendor add nothing: the message is "Description: d" |
| Facilitize.FacilityContextCategoryOnly | scripts/facilitize.py:97-101 | a category without a vendor ends the message: "Description: d, Category: c" |
| Facilitize.FacilityContextVendorOnly | scripts/facilitize.py:97-101 | a vendor without a category follows the description directly: "Description: d, Vendor: v" |
| Facilitize.FacilitySuitability | scripts/facilitize.py:57-161 | the answer is always one of the four facility types |
| Facilitize.BlankDescriptionNeedsReview | scripts/facilitize.py:63-64 | an empty or NaN description needs review and the model is not asked |
| Facilitize.VetoComesFirst | scripts/facilitize.py:68-71 | a veto word anywhere in the lower-cased description gives "Needs Review", whatever the equipment lists say |
| Facilitize.DecisionTable | scripts/facilitize.py:73-157 | without a veto word: both lists give "Both", rural only gives "Rural Clinics", district only gives "District Hospitals", and the model is asked exactly when neither list matches |
| Facilitize.RulesIgnoreModel | scripts/facilitize.py:63-92 | when no request is made, the model cannot influence the answer |
| Facilitize.RuralClinicReplyNeedsReview | scripts/facilitize.py:131-155 | the reply "Rural Clinic" that the prompt asks for is not a facility type and contains none, so it becomes "Needs Review" |
| Facilitize.RuralClinicMatchesNone | scripts/facilitize.py:148-151 | "Rural Clinic" is no facility type and contains none of them ignoring case |
| Facilitize.DistrictHospitalReplyNeedsReview | scripts/facilitize.py:132-155 | the reply "District Hospital" that the prompt asks for becomes "Needs Review" |
| Facilitize.DistrictHospitalMatchesNone | scripts/facilitize.py:148-151 | "District Hospital" is no facility type and contains none of them ignoring case |
| Facilitize.DistrictHospitalLetters | scripts/facilitize.py:132 | "District Hospital" holds none of the letters u, b and n |
| Facilitize.NoTypeInDistrictLike | scripts/facilitize.py:148-151 | a text shorter than "District Hospitals" without u, b and n contains no facility type |
| Facilitize.BothSettingsReplyIsBoth | scripts/facilitize.py:133-152 | the reply "Both Settings" is not a facility type, but the fuzzy match turns it into "Both" |
| Facilitize.BothSettingsMatchesBoth | scripts/facilitize.py:148-152 | "Both" is the first facility type that "Both Settings" contains, ignoring case |
| Facilitize.BothFirst | scripts/facilitize.py:150-152 | a text starting with "Both" without r and d has "Both" as its first facility-type match |
| Facilitize.WithFacility | scripts/facilitize.py:185-191 | the updated row holds one of the four facility types, and every other column keeps its value |
| Facilitize.FacilityRows | scripts/facilitize.py:182-191 | every row is classified on its own: row `i` of the result depends only on row `i` |
| Facilitize.FacilityPass | scripts/facilitize.py:177-191 | the pass keeps the row count |
| Facilitize.ProcessCsv | scripts/facilitize.py:177-199 | the table becomes `FacilityPass` of the old rows, the header gains the column, and a pause follows every 50th row except the last |
| Facilitize.FillRows | scripts/facilitize.py:181-199 | every row is updated exactly once by the per-row classification, and the pauses are the pause points of the row counter |
| Facilitize.PassLabelsEveryRow | scripts/facilitize.py:178-191 | after the pass every row holds a facility type, and every other cell is kept |
| Facilitize.PassIgnoresOldColumn | scripts/facilitize.py:178 | the column is overwritten unconditionally: its old contents have no influence |
| Facilitize.PausesEveryBatch | scripts/facilitize.py:181-199 | a pause follows row `k` exactly when `k` is a multiple of 50 below the row count; never after the last row |
| Description.OptionalLine | scripts/description.py:59-69 | an optional field adds its titled line when it holds text, and nothing otherwise |
| Description.CreatePrompt | scripts/description.py:47-79 | the prompt holds at least the header, the item's description and the trailer |
| Description.PromptFrame | scripts/description.py:47-79 | every prompt starts with the header and the item's description ("nan" for NaN) and ends with the trailer |
| Description.PromptFieldOrder | scripts/description.py:54-77 | with all optional fields present they appear in the order vendor, category, subcategory, between the item and the trailer |
| Description.PromptWithoutOptionalFields | scripts/description.py:49-77 | missing, NaN or empty optional fields add nothing: the prompt is the header, the item and the trailer |
| Description.Backoff | scripts/description.py:133 | a back-off wait is between 1 and 60 seconds |
| Description.Pow2 | scripts/description.py:133 | a power of two is at least 1 |
| Description.Unquote | scripts/description.py:126 | removing quotation marks never lengthens the text, and what is left neither starts nor ends with a quotation mark |
| Description.Answer.Text | scripts/description.py:123-137 | an accepted reply is returned cleaned: never longer than the content, and with no quotation mark at either end; a message that is not a model reply is returned as it is |
| Description.Attempts | scripts/description.py:104-139 | an accepted reply always comes with at least one counted request; the exact counters are given by AttemptsCounted |
| Description.AttemptsMade | scripts/description.py:105-137 | the loop stops just after the first success or after the third attempt, and a stop before the third follows a success |
| Description.AttemptsCounted | scripts/description.py:105-137 | whatever the replies, the requests counted are the completions among the attempts made and the tokens their reported usage, null messages included |
| Description.Generation | scripts/description.py:81-139 | one call makes at most three requests and sleeps at most twice, and makes a request only for a dict item with a description |
| Description.AttemptsBounded | scripts/description.py:105-139 | the retry loop makes at most three requests and sleeps at most twice |
| Description.FirstSuccessWins | scripts/description.py:105-135 | when attempt `k` is the first success, its reply is the answer, the loop slept 1 s then 2 s for the failures before it, and the requests counted are the successful one plus every completion among the failures, and the tokens its usage plus theirs (so only one request when the failures were service errors) |
| Description.SuccessAnswerFrom | scripts/description.py:106-128 | from attempt `a` on, the first successful attempt supplies the answer |
| Description.SuccessSleepsFrom | scripts/description.py:130-135 | from attempt `a` on, one back-off wait is slept per failure before the first success |
| Description.CountedReplies | scripts/description.py:119-120 | the completions among attempts `a` .. `k - 1` number at most `k - a` |
| Description.SuccessCountsFrom | scripts/description.py:105-128 | from attempt `a` to the first success `k`, the requests counted are one plus the completions among the failures, and the tokens the success's usage plus theirs |
| Description.FailureCountsFrom | scripts/description.py:105-137 | when every attempt from `a` fails, each completion among them is counted with its usage |
| Description.NullThenSuccess | scripts/description.py:118-128 | a null message followed by a good one returns the good one, after two requests and both usages |
| Description.SuccessUsageFrom | scripts/description.py:118-120 | without counted failures, exactly one request and its tokens are counted |
| Description.ThirdFailureReported | scripts/description.py:130-137 | when all three attempts fail, the answer reports the third failure, after sleeps of 1 s and 2 s, and every completion among them is counted with its usage |
| Description.FailuresFrom | scripts/description.py:130-137 | from attempt `a` on, all-failing attempts report the last failure after one wait per earlier failure |
| Description.ExhaustionUnreachable | scripts/description.py:106-139 | the loop always returns from inside: the answer is the reply of some successful attempt or the report of the third failure, never the message after the loop |
| Description.NullContentStillCounted | scripts/description.py:119-123 | a completion with null content is still counted as a request with its usage, although that attempt then fails |
| Description.QuotesRemovedSpacesKept | scripts/description.py:123-126 | the text of the accepted reply `"inner"` is `inner`: the reply is stripped of white space first and of quotation marks second, so white space inside the quotes survives |
| Description.InvalidItemRejected | scripts/description.py:91-92 | an item that is not a dict, or is an empty dict, is rejected before anything else |
| Description.BlankDescriptionNoRequest | scripts/description.py:94-96 | a missing, NaN or empty description is answered without a request: no counter changes and no sleep |
| Description.ItemFields | scripts/description.py:176 | `row.to_dict()` has exactly the header's columns, each with the row's cell |
| Description.Processed | scripts/description.py:164-168 | the processed row count is at most the row count; it is smaller exactly when `batch_size` is given, non-zero and below the row count, and then it equals `batch_size` |
| Description.WithDescription | scripts/description.py:171-178 | a processed row holds the generated text in SIMPLE_DESCRIPTION, and every other column keeps its value |
| Description.Described | scripts/description.py:175-178 | describing rows keeps their count |
| Description.DescribedAt | scripts/description.py:175-178 | row `k` of the described rows is row `k` described |
| Description.DescriptionPass | scripts/description.py:163-195 | the stage keeps the row count |
| Description.PassDescribesLeadingRows | scripts/description.py:163-195 | the stage describes exactly the leading processed rows and leaves every later row as it was |
| Description.DescribeAfterClear | scripts/description.py:171-176 | resetting the column before reading the row's fields does not change the generated description |
| Description.UsageBounded | scripts/description.py:105-177 | the pass makes at most three requests per processed row |
| Description.Generator.constructor | scripts/description.py:32-34 | the two usage counters start at zero |
| Description.Generator.GenerateDescription | scripts/description.py:81-139 | answers the text and the back-off waits of `Generation`, and adds its counted tokens and requests to the counters |
| Description.Generator.Attempt | scripts/description.py:107-137 | one attempt: the counters grow by the reply's usage for a completion, and the attempt either ends the loop with the text of `Attempts` from this attempt on or hands over, after a back-off, to the next attempt |
| Description.Generator.Retry | scripts/description.py:104-139 | the loop answers the text and the sleeps of `Attempts` and adds its usage to the counters |
| Description.Generator.DescribeRow | scripts/description.py:175-178 | one row's description is generated from its fields and written to its column; only that row changes |
| Description.Generator.DescribeLeading | scripts/description.py:175-184 | the leading rows are described in order, later rows are untouched, the counters grow by the rows' usage, and a checkpoint is written after every 50th row |
| Description.Generator.ProcessInventoryFile | scripts/description.py:163-195 | the table becomes `DescriptionPass` of the old rows, the header gains the column, the counters grow by the processed rows' usage, and the checkpoints fall at the multiples of 50 |
| ReadCsv.Absent | scripts/read_csv.py:28 | a column is reported missing exactly when it is required and not in the header |
| ReadCsv.AbsentKeepsOrder | scripts/read_csv.py:28 | the missing columns keep the order of the required list |
| ReadCsv.ReadInventoryCsv | scripts/read_csv.py:8-31 | a missing file raises FileNotFoundError; an existing file raises ValueError exactly when a required column is missing; a loaded table keeps its header |
| ReadCsv.LoadedIff | scripts/read_csv.py:8-31 | a table is loaded exactly when the file exists and the header holds ITEM_NO, DESCRIPTION and VENDOR_NAME |
| ReadCsv.MissingColumnsMessage | scripts/read_csv.py:27-31 | missing ITEM_NO and VENDOR_NAME are reported as "Missing required columns: ITEM_NO, VENDOR_NAME" |
| ReadCsv.FirstAndLastAbsent | scripts/read_csv.py:28 | with the first and the third required column missing, those two are reported, in order |
| ReadCsv.JoinPair | scripts/read_csv.py:31 | joining two names puts the separator between them |
| ReadCsv.OnlyRequiredColumnsLoaded | scripts/read_csv.py:16-31 | a header with only the three required columns is loaded: the longer expected-column list is never checked |
| ReadCsv.MissingFileFirst | scripts/read_csv.py:8-9 | a missing file is reported before the header is looked at |
| Pipeline.ExtensionStart | scripts/main.py:104 | the extension, if any, starts at a dot after which no dot and no separator follows |
| Pipeline.Root | scripts/main.py:104 | `splitext(path)[0]` is a prefix of the path, cut at a dot when it is shorter |
| Pipeline.RootOfNamed | scripts/main.py:104 | a name `stem.ext`, with a stem holding a non-dot character and an extension without dots and separators, loses exactly `.ext` |
| Pipeline.RootWithoutDot | scripts/main.py:104 | a path whose last component has no dot has no extension |
| Pipeline.SuffixIsNoExtension | scripts/main.py:105-162 | the root followed by a suffix that does not start with a dot is never the path itself |
| Pipeline.OutputPath | scripts/main.py:103-105 | a given output is used as it is; the default output is never the input and starts with the input's root |
| Pipeline.DefaultOutputReplacesExtension | scripts/main.py:103-105 | the default output of `stem.ext` is `stem_processed.csv` |
| Pipeline.PlanStages | scripts/main.py:130-189 | the description stage has an input exactly when it is not skipped, and the category stage writes the final output exactly when both later stages are skipped |
| Pipeline.LastStageWritesOutput | scripts/main.py:130-196 | the last stage that runs writes the final output; the description stage never reads it |
| Pipeline.StagesChain | scripts/main.py:154-189 | the description stage reads what the facility stage wrote, and with the facility stage skipped that is the categorized file |
| Pipeline.IntermediatesAreNotOutput | scripts/main.py:130-164 | an intermediate file is never the final output, and the two intermediate files differ |
| Pipeline.IntermediateFiles | scripts/main.py:216-227 | the if/elif chain builds exactly the clean-up list `Intermediates` |
| Pipeline.Intermediates | scripts/main.py:216-227 | at most two files are deleted, and at most one when a later stage is skipped |
| Pipeline.CleanupSpares | scripts/main.py:216-227 | the clean-up never deletes the final output or a file that is not there, and deletes nothing when both later stages are skipped |
| Pipeline.CleanupOfPlan | scripts/main.py:130-227 | with the pipeline's own plan the comparison with the output never excludes anything: every intermediate file of the stages that ran is deleted if it exists |
| Pipeline.PreserveExisting | scripts/main.py:27-140 | `--preserve-existing` is always on: a store_true flag whose default is true |
| Pipeline.PipelineKeepsExistingCategories | scripts/main.py:27-141 | run from the pipeline, the category stage keeps every category a row already has, whatever the command line says |
| Upload.Extension | web_app/app.py:28 | `rsplit('.', 1)[1]` is the text after some dot and holds no dot |
| Upload.AllowedFile | web_app/app.py:26-28 | an accepted name has at least four characters (a dot and "csv" or "xlsx" in any case) |
| Upload.AllowedFileIff | web_app/app.py:15-28 | a name is accepted exactly when it is `stem.ext`, where `ext` holds no dot and, lower-cased, is "csv" or "xlsx" |
| Upload.LastDotSplit | web_app/app.py:28 | when the text after a dot holds no dot, it is the extension |
| Upload.NoDotRejected | web_app/app.py:28 | a name without a dot is refused |
| Upload.LastExtensionDecides | web_app/app.py:28 | only the text after the last dot decides: `stem.txt` is refused and `stem.xlsx` accepted, whatever dots the stem holds |
| Upload.UpperCaseAccepted | web_app/app.py:28 | the comparison ignores case: `stem.CSV` is accepted |
| Upload.TrailingDotRejected | web_app/app.py:28 | a trailing dot leaves an empty extension, which is refused |
| Upload.StoredFilename | web_app/app.py:47-49 | the stored name is as long as the id, an underscore and the original name together |
| Upload.StoredFilenameSplits | web_app/app.py:47-49 | for an id without an underscore (a UUID), the id and the original name are recovered by splitting at the first underscore |

## Left out

- The language-model client is not modelled. Each stage takes the service as a function
  parameter. The prompts' system messages, the model names, the temperatures and the token
  limits are not modelled.
- Description.PromptHeader and Description.PromptTrailer: the fixed instruction text of
  `_create_prompt` is left as two unspecified constants. The model states only where they
  stand in the prompt, not their wording.
- File and CSV I/O with pandas is not modelled; a table is a header plus rows. Saving the
  output, the `.temp` checkpoint files and deleting files are not modelled. A checkpoint
  is recorded only as the row count at which it is written. Whether a file exists is a
  predicate parameter.
- Time is not modelled: `time.sleep`, `time.time` and `_wait_for_rate_limit`, with its
  floating-point interval. The category and facility passes record only where they pause.
  The description retry loop records the seconds it sleeps.
- Progress printing, tqdm, the cost estimate, the summary report, the distribution
  printouts and the example printout are not modelled.
- The Flask routes, sessions, `secure_filename` and `uuid4` are not modelled. The
  sanitised name and the id are parameters of `Upload.StoredFilename`.
- Errors that pandas or the operating system would raise inside the stages (an unreadable
  file, a non-string cell) are not modelled. Cells are strings or NaN.
- `categorize.py` calls `os.path.splittext` (line 167) and `globals().gt` (line 16). These
  typos would raise when no output file or no client is given. The pipeline always passes
  both, so the model covers only the path the pipeline takes.
- Categorize.ProcessCsv requires a non-zero batch size. The source would raise
  ZeroDivisionError at `count % 0`, and that exception is not modelled.
- Description.Processed: `batch_size` is a natural number. A negative value, which the
  source would accept and use as a slice bound, is not modelled.
- Description.Generator.ProcessInventoryFile: the subset is processed in place on the
  rows of the table. The source works on a copy and merges it back by index; the result is
  the same for a table with the default row index. The checkpoint test uses the row
  position, which is the index label for such a table.
- The default output name of `process_inventory_file` (`rsplit('.', 1)`, line 156) is not
  modelled. The pipeline always passes an output file.
- `expected_columns` in `read_csv.py` (lines 16-24) is never used by the source, so it is
  not a constant of the model. ReadCsv.OnlyRequiredColumnsLoaded shows that it has no
  effect.
- Text.Lower maps only the ASCII capitals, where Python lower-cases all of Unicode.
  Pipeline.Root follows POSIX `os.path.splitext` with `/` as the only separator.
