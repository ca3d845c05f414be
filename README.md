# Screen-AI flow generation, modelled in Dafny

This project models the deterministic core of a tool that turns plain-text
test scripts into Maestro UI-test flows. The tool reads a numbered test
script ("1- open web application …", "2- find Vyhľadať Lekára and tap on
it", …) and parses each line into an action. It then screenshots the
application and runs the OmniParser detector and OCR on each screenshot.
The detected elements are post-processed: classified into UI roles and
de-duplicated. Each action's target is matched to one of those elements
through a cascade of exact, fuzzy, keyword and layout rules. Finally the
actions become Maestro commands whose tap points are percentages of the
screenshot. Later passes write matched coordinates back into a generated
flow, or into the coordinate variables of a hand-written main flow.

The modules follow the source files:

| module | source | what it holds |
|---|---|---|
| `Vision` (vision.dfy) | src/vision.py | the `UIElement` record, overlap and merge rules, duplicate clustering, role classification, point lookup, confidence filter, OCR text assembly |
| `Matcher` (matcher.dfy) | src/matcher.py | `find_best_match` and its stages, Slovak text normalisation, type boost, keywords, login-form layout rules, `match_multiple` |
| `Parser` (parser.dfy) | src/parser.py | the action patterns as recognisers, `_parse_line`, `parse_file` over the lines of a file, `validate_actions` |
| `Generator` (generator.dfy) | src/generator.py | `generate_flow`, `_convert_action_to_command`, `_pixel_to_percentage`, `_process_command_comments`, the flattening before the flow is written |
| `Rewrite` (rewrite.dfy) | src/main.py | the command loop of `update_yaml_coordinates` and `_find_element_for_action` |
| `Updater` (updater.dfy) | src/coordinate_updater.py | `analyze_screenshot_for_coordinates`, `analyze_and_update_flow`, the substitution of `update_main_flow_coordinates` |
| `Text`, `Scan`, `Select`, `Yaml`, `Wrappers` | — | Python's string methods, the regular-expression pieces the patterns are built from, `max`/`sorted`/slicing/comprehensions, insertion-ordered dictionaries and YAML nodes, `Option`/`Result` |

Where the source loops and updates variables or fields, the model does the
same: there are methods with loop invariants, in-place loops over an `array`
of elements, and a class for the orchestrator's element tables. Each method
is proved equal to a specification function, and the properties are proved
as lemmas about that function. Several behaviours of the source are
modelled as written, for example:

- an analyze line without "annotated" makes the parser raise, because the
  pattern has no group; this is `Parser.Build`'s error case;
- a blank target matches, exactly, the first element that has any text,
  because the empty string occurs in every text (`Matcher.BlankTargetMatchesFirstText`);
- the "login" keyword of the login-button rule never takes effect: the
  user-name rule is tried first and takes every target that contains "login"
  (`Matcher.SubmitRouteShadowed`);
- a comment that is a mapping or a list passes the `in` tests by its keys
  or items, and then fails on `split` when it holds the prompt and a quote,
  or no prompt but a `# ` (`Rewrite.TargetOf`).

Floats are `real` (exact). Python's `int()` truncation and `str()` of
integers are written out (`Text.Trunc`, `Text.IntToString`).

## Model

| member | source | states |
|---|---|---|
| Vision.IouValue | src/vision.py:296-299 | an intersection over a union at least as large lies in (0, 1] |
| Vision.IouBounds | src/vision.py:290-297 | for an intersection no wider or taller than either box, the union area is at least the intersection area and positive |
| Vision.OverlapRatio | src/vision.py:278-299 | `_calculate_overlap_ratio` lies in [0, 1] and is positive exactly when the boxes overlap with positive width and height |
| Vision.OverlapSymmetric | src/vision.py:278-299 | the overlap ratio does not depend on the order of the boxes |
| Vision.OverlapSelf | src/vision.py:278-299 | a box with positive width and height overlaps itself with ratio 1 |
| Vision.ShouldMerge | src/vision.py:251-276 | `_should_merge_elements`: overlap above 0.5 merges; without the same non-empty OCR text exactly that overlap merges; with the same text, confidences within 0.2 or centres closer than 30 pixels merge; a merge has one of these reasons; boxes that do not intersect merge exactly on equal text with one of the two closeness tests |
| Vision.ShouldMergeSymmetric | src/vision.py:251-276 | the duplicate test does not depend on the order of the two elements |
| Vision.BestIndex | src/vision.py:304 | `max(elements, key=confidence)`: the first member with the largest confidence |
| Vision.UnionBox | src/vision.py:307-310 | the merged box contains every member's box, and each of its four sides is some member's side |
| Vision.FirstSpecific | src/vision.py:320-325 | the first member whose type is neither container nor interactive, and none exactly when no member has such a type |
| Vision.MergeElementGroup | src/vision.py:301-333 | `_merge_element_group`: the union box, the largest confidence, which no member exceeds, and the description of the first most confident member |
| Vision.MergeOcrRule | src/vision.py:313-314 | the merged OCR text is the first longest non-blank member text, or the most confident member's text when all are blank |
| Vision.MergeTypeRule | src/vision.py:320-325 | the merged type is the first member type other than container and interactive, or the most confident member's type when there is none |
| Vision.Members | src/vision.py:228-235 | the inner loop's group: only later, unused indices that duplicate the seed itself |
| Vision.MembersComplete | src/vision.py:228-235 | every later unused index that duplicates the seed joins its group |
| Vision.MembersIncreasing | src/vision.py:228-235 | a group lists its indices in increasing order |
| Vision.MarkUsed | src/vision.py:241-245 | the used set after a group is the old set together with the group's indices |
| Vision.ClustersFrom | src/vision.py:214-249 | at most one cluster per remaining seed, each non-empty and indexing the input |
| Vision.MergeOverlappingElements | src/vision.py:214-249 | `_merge_overlapping_elements` returns `MergedSpec`: a list of at most one element is returned as it is, otherwise one output element per cluster |
| Vision.ClusterAndMerge | src/vision.py:221-249 | the outer loop emits exactly the rendering of the clusters, in seed order |
| Vision.VisitSeed | src/vision.py:222-246 | one outer pass keeps "emitted so far plus still to come" unchanged |
| Vision.ClusterSkip | src/vision.py:223-224 | a used index seeds no cluster |
| Vision.EmitCluster | src/vision.py:226-246 | an unused seed emits the output element of its own cluster: merged when the group has more than one element, the seed itself otherwise |
| Vision.CollectGroup | src/vision.py:226-235 | the inner loop collects the seed followed by its members, as indices and as elements |
| Vision.ClustersFresh | src/vision.py:221-246 | every clustered index is at or after the starting seed and was not used before |
| Vision.ClustersIncreasing | src/vision.py:228-235 | each cluster's indices increase |
| Vision.ClustersDisjoint | src/vision.py:221-246 | no index lands in two clusters |
| Vision.ClustersCover | src/vision.py:221-246 | every unused index from the starting seed on lands in some cluster |
| Vision.ClustersSeedOrder | src/vision.py:221-246 | clusters come out in increasing order of their seeds |
| Vision.MergedPartition | src/vision.py:214-249 | merging never adds elements, and the clusters partition the input indices |
| Vision.Render | src/vision.py:237-246 | one output element per cluster, in cluster order, each the cluster's merge |
| Vision.MergedAt | src/vision.py:237-246 | output element `a` stands for cluster `a`: a lone seed is emitted unchanged, and a merged element's box contains every member's box and its confidence is at least theirs |
| Vision.ClusterOutputAt | src/vision.py:237-246 | the same as `MergedAt`, for any duplicate test |
| Vision.RenderClusterCovers | src/vision.py:237-246 | a cluster's output element covers every member, and a cluster of one is emitted as it is |
| Vision.MergeCovers | src/vision.py:301-333 | the merged element's box contains each member's box and its confidence is at least each member's |
| Vision.MergedKeepsTypes | src/vision.py:214-249 | when no input element is typed interactive, no merged element is |
| Vision.RenderClusterType | src/vision.py:320-325 | a cluster's output type is the type of one of its members |
| Vision.DigitCount | src/vision.py:441-443 | the count of digits is the number of characters a digit filter keeps, and zero exactly when the text has no digit |
| Vision.Decide | src/vision.py:449-488 | the classification cascade never yields the initial type "interactive" |
| Vision.DetermineElementType | src/vision.py:393-488 | `_determine_element_type` never yields "interactive" |
| Vision.GeometryOnlyWithoutText | src/vision.py:449-458 | without text the type is banner, icon or container: banner exactly when the aspect ratio exceeds 3, icon exactly when it is at most 3 and the box is thin (ratio below 0.5) or small (area below 2000), container otherwise |
| Vision.ButtonKeywordFirst | src/vision.py:460-462 | with text, a button keyword decides "button" exactly, and banner or container is never chosen |
| Vision.DecideWithText | src/vision.py:460-488 | with text, the button test alone decides "button", and banner or container never comes out |
| Vision.CascadeOrder | src/vision.py:460-488 | each text role from button to number is chosen exactly when its own test is the first of the cascade to hold; with none holding, a text field exactly when the aspect ratio exceeds 2, else a label from area 1000 up and an icon below, so the second width test at line 485 never fires |
| Vision.Classify | src/vision.py:385-391 | a classified element takes the role `_determine_element_type` gives it, which is never interactive, and keeps its box, description, confidence and OCR text |
| Vision.Classified | src/vision.py:385-391 | classification keeps the length, and element k becomes element k with its determined role and every other field kept; no element is typed interactive |
| Vision.ClassifiedIdempotent | src/vision.py:385-391 | classifying an already classified list changes nothing, since the role depends only on the text and the box |
| Vision.ClassifyElementTypes | src/vision.py:385-391 | the in-place loop leaves the array equal to `Classified` of its old contents |
| Vision.GetElementAtPosition | src/vision.py:202-208 | `get_element_at_position`: None exactly when no box contains the point, else the first element whose box does |
| Vision.FilterByConfidence | src/vision.py:210-212 | `filter_elements_by_confidence` keeps exactly the elements with confidence at least the threshold |
| Vision.FilterByConfidenceOrder | src/vision.py:210-212 | filtering works element by element, so it keeps the order |
| Vision.CropFor | src/vision.py:352-357 | the padded crop lies inside the image; each side is the truncated box side moved out by 5 pixels where that stays inside the image, and the image edge where it does not |
| Vision.SliceLength | src/vision.py:360-363 | a Python slice's length, which is zero when the stop is not after the start |
| Vision.ConfidentTexts | src/vision.py:370-374 | the kept texts are the stripped texts of the fragments with confidence above 0.5, in the order read, and none when no fragment is that confident |
| Vision.OcrTextFor | src/vision.py:360-381 | an empty crop leaves the element alone; a failed read gives the empty text; otherwise the new text is the confident texts joined by single spaces |
| Vision.OcrTextSplits | src/vision.py:370-377 | when some fragment is confident and no confident text holds a space, splitting the new text at spaces gives back the confident texts in order |
| Vision.Extracted | src/vision.py:335-383 | without a reader or a readable image the list is unchanged; otherwise each element whose padded crop is empty is kept as it is, and every other element gets the text `OcrTextFor` reads from its crop (the space-joined confident texts, or "" on a failed read); only OCR texts change and the length is kept |
| Vision.ExtractOcrText | src/vision.py:335-383 | the in-place OCR loop leaves the array equal to `Extracted` of its old contents |
| Vision.PostProcess | src/vision.py:189-200 | detection's tail: OCR when a reader is loaded, then classification, then merging, and no output element is typed interactive |
| Matcher.NewMatcher | src/matcher.py:24-55 | a new matcher keeps the given fuzzy threshold and the standard table of OCR fixes |
| Matcher.ApplyFixes | src/matcher.py:60-61 | replacing fix by fix in table order never brings back an upper-case letter |
| Matcher.Normalize | src/matcher.py:57-62 | `_normalize_slovak_text` yields text without upper-case letters |
| Matcher.NormalizeSlovakText | src/matcher.py:57-62 | the replacement loop computes `Normalize` |
| Matcher.ApplyFixesUntouched | src/matcher.py:60-61 | text that contains none of the misreadings comes back unchanged |
| Matcher.ApplyFixesAppend | src/matcher.py:60-61 | applying two fix tables one after the other is applying the joined table |
| Matcher.NormalizeFix | src/matcher.py:57-62 | a text reading, after lower-casing, exactly as a table entry's misreading normalises to that entry's correction, when earlier entries leave the misreading alone and later ones leave the correction alone |
| Matcher.ThresholdMatch | src/matcher.py:122-150 | the fuzzy stage's "strictly better and at least the threshold" scan: none exactly when no score is positive and reaches the threshold; otherwise the first element with the largest such score |
| Matcher.ExactStage | src/matcher.py:85-108 | the exact stage: none exactly when no element passes the substring test, otherwise the first that does, with score 100 |
| Matcher.TypeBoostIn | src/matcher.py:309-321 | the boost is 0 or 10, and 10 exactly when some keyword group occurs in both the target and the description |
| Matcher.TypeBoost | src/matcher.py:309-321 | `_get_type_match_boost` with the matcher's three keyword groups |
| Matcher.MaxPercent | src/matcher.py:142 | `max(scores)` is one of the scores and at least every other |
| Matcher.FuzzValues | src/matcher.py:124-140 | the thirteen scorer results of the fuzzy stage, in their order |
| Matcher.BoostedScore | src/matcher.py:142-146 | the boosted score lies in [0, 100], is at least each of the thirteen similarity values, and is their maximum plus the type boost when that is at most 100, and 100 otherwise |
| Matcher.ExtractKeywords | src/matcher.py:346-355 | `_extract_keywords` keeps exactly the lower-cased words that are not stop words and are longer than two characters: every kept word is such a word, and every such word is kept as often as the text holds it |
| Matcher.MatchingKeywords | src/matcher.py:336 | the count of keywords found in the description is at most the number of keywords, and zero exactly when none occurs |
| Matcher.MatchingKeywordsCount | src/matcher.py:336 | the count is the number of keywords a filter by occurrence in the description keeps |
| Matcher.PartialScore | src/matcher.py:336-339 | the partial score lies in [0, 80], is positive exactly when some keyword occurs in the description, and times the number of keywords is 80 times the number found |
| Matcher.Fraction80 | src/matcher.py:339 | `(m / n) * 80` for m of n lies in [0, 80], is positive exactly when m is, and times n is 80 times m |
| Matcher.KeywordStage | src/matcher.py:331-344 | the keyword scan returns a partial match scoring between 50 and 80 for an element of the list, and none exactly when every element scores below 50 |
| Matcher.PartialMatch | src/matcher.py:323-344 | `_partial_keyword_match`: none without keywords, otherwise the keyword scan |
| Matcher.PartialKeywordMatch | src/matcher.py:323-344 | the loop computes `PartialMatch` |
| Matcher.RouteOf | src/matcher.py:185-293 | the layout rule a target selects, for each of the eight outcomes in both directions: a rule is chosen exactly when its word list matches and no earlier list does, and no rule exactly when no list matches |
| Matcher.NoRouteNoKeyword | src/matcher.py:185-306 | a target no rule selects holds no word of any of the seven keyword lists |
| Matcher.OnLoginPage | src/matcher.py:203-208 | the login page is showing exactly when some element's OCR text mentions "heslo" or "prihlasovacie" |
| Matcher.LabelledInput | src/matcher.py:244-259 | the input chosen is an element of the list beside a caption that holds "rc/id", every earlier such caption has no input beside it, and no input beside the chosen caption starts further left; none exactly when no such caption has an input beside it |
| Matcher.LeftmostNear | src/matcher.py:252-259 | after sorting the inputs beside a caption by left edge, the first is an element of the list beside the caption and no input beside it starts further left |
| Matcher.First | src/matcher.py:185-198 | a result exactly when the list is not empty, made of its first element |
| Matcher.LoginFormMatch | src/matcher.py:168-307 | `_slovak_login_form_match` only yields layout tags, yields nothing for a target no rule selects, and nothing for the post-login rules while the login page is showing |
| Matcher.FormLayout | src/matcher.py:173-180 | the form's inputs and buttons are exactly the elements in their zones, ordered by the vertical centre |
| Matcher.UsernameTakesTopInput | src/matcher.py:185-188 | a user-name target takes the input with the highest centre, with score 90, and finds one exactly when the form has an input |
| Matcher.SubmitTakesTopButton | src/matcher.py:195-198 | a submit target takes the button with the highest centre, with score 90, and finds one exactly when the form has a button |
| Matcher.PasswordTakesSecondInput | src/matcher.py:190-193 | a password target takes the second input from the top, with score 90, and finds one exactly when there are two |
| Matcher.SubmitRouteShadowed | src/matcher.py:185-198 | the button rule is reached only by targets without "login", which the user-name rule takes first |
| Matcher.SearchTakesTopLeft | src/matcher.py:200-230 | away from the login page, a search target takes the search candidate first in (top, left) order, with score 85, and finds one exactly when there is a candidate |
| Matcher.NewOrderPrefersText | src/matcher.py:273-285 | away from the login page, a new-order target takes the first element whose text mentions a new order, with score 95 |
| Matcher.NewOrderFallback | src/matcher.py:282-291 | away from the login page and with no element mentioning a new order, a new-order target takes the first element of the top-right zone with score 85, and nothing exactly when that zone is empty |
| Matcher.CategoryTakesFirst | src/matcher.py:293-305 | away from the login page, a category target takes the first element of the lower content zone with score 85, and nothing exactly when that zone is empty |
| Matcher.PatientRule | src/matcher.py:234-271 | away from the login page, a patient target follows the patient rule |
| Matcher.PatientMatchSpec | src/matcher.py:243-271 | the patient rule gives the labelled input with score 90; failing that, something exactly when the patient zone is non-empty, with score 85, an element of the zone, the second from the left or the only one: no zone element other than the leftmost starts further left |
| Matcher.SecondFromLeft | src/matcher.py:266-271 | in a list sorted by left edge, the second element (or the only one) is in the list and starts no further left than any element but the first |
| Matcher.CascadeOrder | src/matcher.py:75-166 | exact exactly when some element passes the exact test; otherwise fuzzy exactly when some score reaches the threshold; otherwise the partial result if any, else the layout result |
| Matcher.BestMatchCascade | src/matcher.py:64-166 | `find_best_match`: nothing for no elements, exact exactly when an element passes the test for the stripped lower-cased target, fuzzy only at the threshold, and the later stages only when every earlier one failed |
| Matcher.NormalizeEmpty | src/matcher.py:57-62 | the empty text normalises to itself |
| Matcher.EmptyTargetHits | src/matcher.py:94-102 | an empty target passes the exact test for every element with non-blank description or OCR text |
| Matcher.BlankTargetMatchesFirstText | src/matcher.py:78-108 | a blank target is matched exactly, with score 100, to the first element that has any non-blank text |
| Matcher.StandardFixesNonEmpty | src/matcher.py:48-55 | no misreading in the standard table is empty |
| Matcher.ExactTestOf | src/matcher.py:86-104 | one element's exact test as the loop body computes it |
| Matcher.FuzzyScoreOf | src/matcher.py:115-146 | one element's boosted fuzzy score as the loop body computes it |
| Matcher.ExactScan | src/matcher.py:85-108 | the exact loop computes `ExactStage` |
| Matcher.FuzzyScan | src/matcher.py:111-150 | the fuzzy loop computes `ThresholdMatch` with the boosted score |
| Matcher.FindBestMatch | src/matcher.py:64-166 | the method computes `BestMatch` |
| Matcher.CandidatesSpec | src/matcher.py:359-374 | each candidate scores at least the threshold, is an element of the list with its own score, and is tagged exact exactly at 100; every element reaching the threshold is a candidate; and the list is exactly one result per qualifying element, in list order |
| Matcher.CandidatesInOrder | src/matcher.py:361-374 | the loop appends one result per element reaching the threshold, in the order of the list: the qualifying elements, filtered in order, each turned into its scored and tagged result |
| Matcher.CandidateAt | src/matcher.py:372-374 | the same facts for one candidate |
| Matcher.MultipleMatchesSpec | src/matcher.py:357-378 | `match_multiple` returns `max_matches` candidates (all when there are fewer), by non-increasing score, each from the list, at least the threshold and tagged exact exactly at 100; the results are drawn from the candidates without repetition, a candidate scoring above the last one kept is kept, and the results of one score are the first candidates of that score in the order found (the stable `sort(reverse=True)`) |
| Matcher.TakeDrawnStably | src/matcher.py:377-378 | the first `max_matches` of the stable sort by score come from the candidates without repetition, and equal scores keep the candidates' order |
| Matcher.MatchMultiple | src/matcher.py:357-378 | the loop and the stable sort compute `MultipleMatches` |
| Parser.OpenAt | src/parser.py:35 | the open pattern matches only where "open" starts and captures a group inside the line |
| Parser.WaitAt | src/parser.py:36 | the wait pattern matches only where "wait" starts and captures the number |
| Parser.ScreenshotAt | src/parser.py:37 | the screenshot pattern matches only where "take" starts, its name and path groups inside the line |
| Parser.MaestroAt | src/parser.py:38 | the Maestro pattern matches only where "take" starts and captures nothing |
| Parser.AnalyzeAt | src/parser.py:39 | the analyze pattern matches only where "call" or "annotate" starts and has no group |
| Parser.FindGroupEnd | src/parser.py:40 | the lazy group of the find pattern ends at the first " and tap"/" and click" tail, or at the end of the line |
| Parser.FindAt | src/parser.py:40 | the find pattern matches only where "find" starts and captures a group inside the line |
| Parser.TapAt | src/parser.py:41 | the tap pattern matches only where "tap" starts; "it" leaves the group out |
| Parser.ClickAt | src/parser.py:42 | the click pattern matches only where "click" starts; "it" leaves the group out |
| Parser.EnterAt | src/parser.py:43 | the enter pattern matches only where "enter" starts and captures the text |
| Parser.SearchFromSpec | src/parser.py:94 | `search` fails exactly when the pattern matches at no position, and otherwise returns a match at some position |
| Parser.NotFoundWithout | src/parser.py:35-43 | a line that holds none of a pattern's leading words is never matched by it |
| Parser.FirstPatternSpec | src/parser.py:93-95 | the first table entry that matches is the one used; none when no pattern occurs |
| Parser.Build | src/parser.py:96-166 | each branch builds an action of its own type on the given line, with the fields that branch sets (the stripped group as target or value, the wait time read from the number, the fixed targets of the screenshot and analyze lines); a find mentioning "tap" becomes a tap, and the analyze branch raises exactly when the line lacks "annotated" |
| Parser.ParseLine | src/parser.py:88-169 | `_parse_line` numbers the action it returns with the given line |
| Parser.ParseLineDispatch | src/parser.py:88-169 | no action exactly when no pattern occurs; an error exactly when the analyze pattern is the first to match and "annotated" is absent; otherwise an action of the first matching entry's type |
| Parser.DashSpaceEnd | src/parser.py:57 | `[-\s]+` runs to the first character that is neither a dash nor white space |
| Parser.StepNumberDropped | src/parser.py:56-57 | a step number such as "1-" or "2.5 - " in front of a line is removed and the rest kept whole |
| Parser.StepPrefixEnds | src/parser.py:57 | digits, an optional fraction and a dash/space run are removed up to the first other character |
| Parser.DigitRunIn | src/parser.py:57 | `\d+` ends at the first non-digit |
| Parser.DashRunIn | src/parser.py:57 | `[-\s]+` ends at the first character outside the run |
| Parser.CombinedAt | src/parser.py:63 | the combined screenshot-and-analyze pattern matches only where "take" starts, its groups inside the line |
| Parser.LineActions | src/parser.py:59-84 | a line gives at most two actions, all numbered with that line |
| Parser.CombinedLineGivesTwo | src/parser.py:62-80 | a combined line gives a screenshot followed by the analysis of "current_screenshot" on the same line |
| Parser.FileLine | src/parser.py:55-57 | each line is stripped and loses its step number before it is parsed |
| Parser.ParseFile | src/parser.py:46-86 | `parse_file` over the lines of the file: the actions of each line in order, or the first error raised |
| Parser.ParseEach | src/parser.py:55-84 | the loop appends each line's actions and stops at the first error |
| Parser.ErrorEndsParse | src/parser.py:82 | once a line raises, the parse of every longer prefix raises the same error |
| Parser.AppendLine | src/parser.py:55-84 | appending a line's actions keeps the line numbers in non-decreasing order |
| Parser.StepsInOrder | src/parser.py:55-84 | the actions of a parse are numbered in non-decreasing order, none beyond the last line read |
| Parser.LineNumbersInOrder | src/parser.py:55-84 | the actions of `parse_file` carry non-decreasing line numbers from 1 to the number of lines |
| Parser.BlankLineSkipped | src/parser.py:59-60 | a blank line adds nothing |
| Parser.ValidateActions | src/parser.py:171-183 | `validate_actions` computes `Warnings` |
| Parser.UnpreparedsSpec | src/parser.py:176-178 | an enter action is flagged exactly when it is first or does not follow a find, tap or click, each once and in order |
| Parser.WarningsPerEnter | src/parser.py:176-181 | exactly one warning per flagged enter action, in order, naming its line |
| Generator.PixelToPercentage | src/generator.py:213-228 | `_pixel_to_percentage`: the box centre as percentages, so that scaled back by the width and the height they give the centre again |
| Generator.PercentInside | src/generator.py:219-224 | a box inside the screenshot has its centre between 0% and 100% on both axes |
| Generator.TargetCleanUnquoted | src/generator.py:148-158 | the cleaned target holds no double quote, so the placeholder comment quotes it unambiguously |
| Generator.StripKeepsOut | src/generator.py:148 | stripping adds no character the text did not have |
| Generator.Pad2 | src/generator.py:117 | `{n:02d}` gives the decimal digits of n, at least two of them, and exactly two below 100 |
| Generator.NatToStringLength | src/generator.py:117 | a number has one digit below 10, two below 100 and at least three from 100 on |
| Generator.ConvertActionToCommand | src/generator.py:93-211 | `_convert_action_to_command` gives no command exactly for an open action outside a web flow and for an analyze action; it gives `launchApp` for a web open, the wait in whole milliseconds, the input text, the named screenshot, and for a tap or click the percentage point with the cleaned target and OCR note, or the placeholder tap when no element was found |
| Generator.FindConversion | src/generator.py:170-207 | a find followed by an enter is converted exactly as a tap on the same target; any other find gives the placeholder, located element or not |
| Generator.TapConversion | src/generator.py:142-165 | a click is converted exactly as a tap, and without a located element it gives the placeholder |
| Generator.MaestroConversion | src/generator.py:113-136 | the Maestro screenshot is the plain screenshot command of the same step followed by the script that analyses the ".png" file it writes |
| Generator.Config | src/generator.py:44-65 | the configuration document has a "url" key exactly for a web flow; otherwise it names the given non-empty app id or "com.example.app" |
| Generator.ConfigOfWebFlow | src/generator.py:50-58 | a web flow's address is the non-empty target of the first open action, even when a later open action makes it a web flow |
| Generator.DimensionsAtDefault | src/generator.py:42-73 | before any screenshot was measured the default 1920×1080 holds |
| Generator.DimensionsAtLatest | src/generator.py:72-73 | otherwise the dimensions of the last screenshot measured up to the action hold |
| Generator.DimensionsAtPositive | src/generator.py:42-73 | the dimensions in force are positive when every measured one is |
| Generator.GenerateFlow | src/generator.py:22-85 | `generate_flow` builds the configuration, the "---" separator, then each action's commands in order, a list extending the flow and a single command appended |
| Generator.CommandsHaveNoLists | src/generator.py:79-84 | every command of a generated flow is a string or a dictionary |
| Generator.EmittedNoLists | src/generator.py:79-84 | what one action adds to the flow holds strings and dictionaries only |
| Generator.ConvertedNoLists | src/generator.py:103-207 | a converted action is a string, a dictionary or a list of dictionaries |
| Generator.GeneratedFlowIsFlat | src/generator.py:232-238 | the flattening in `_write_flow_file` leaves a generated flow unchanged |
| Generator.FlattenedAppend | src/generator.py:234-238 | flattening works command by command |
| Generator.FlattenedNoLists | src/generator.py:234-238 | a command list without lists flattens to itself |
| Generator.FlattenedAt | src/generator.py:234-238 | flattening from a position is that command, spliced in if a list, then the rest |
| Generator.Flatten | src/generator.py:232-238 | the flattening loop computes `Flattened` |
| Generator.ProcessCommandComments | src/generator.py:264-281 | `_process_command_comments`: a dictionary is rebuilt entry by entry; anything else is returned as it is |
| Generator.ProcessedHasNoComment | src/generator.py:270 | no "_comment" key survives |
| Generator.EntryAddsNoComment | src/generator.py:270-279 | handling one entry never adds "_comment" |
| Generator.ProcessedExtractedComment | src/generator.py:271-277 | "_extracted_comment" holds the comment of the last nested dictionary that had one, unless a later entry is itself under that key, and is absent when there is neither |
| Generator.EntryExtractsComment | src/generator.py:270-279 | one entry sets "_extracted_comment" only when it is a nested dictionary with a comment or is under that key |
| Generator.ProcessedKeepsKeys | src/generator.py:269-279 | every other key maps to the value of its last entry, a nested dictionary losing its comment, and no other key appears |
| Generator.EntryKeepsKey | src/generator.py:270-279 | one entry stores its processed value under its own key and leaves every other key alone |
| Generator.ProcessedLookupUnique | src/generator.py:269-279 | for a dictionary, whose keys are distinct, a key's processed value is its own value with any nested comment removed, and absent keys stay absent |
| Rewrite.MatcherFind | src/main.py:498 | the lookup used for a target is the matcher's `find_best_match` |
| Rewrite.ContainsIndex | src/main.py:485-489 | a text occurs in a comment exactly when it has a first position there |
| Rewrite.FirstPieceSpec | src/main.py:486-489 | `split(sep)[0]` is the longest start of the text in which the separator does not begin |
| Rewrite.SplitSecond | src/main.py:486-489 | `split(sep)[1]` is the first piece of the text after the first separator |
| Rewrite.ExtractPrompted | src/main.py:485-486 | a comment asking for coordinates names the quote-free run after its first double quote |
| Rewrite.ExtractPromptedUnquoted | src/main.py:486 | such a comment without a double quote names nothing |
| Rewrite.ExtractHashed | src/main.py:487-489 | any other comment with "# " names the text after its first "# ", up to the next "# " or " (OCR:" |
| Rewrite.NoteNotAcrossHash | src/main.py:489 | the " (OCR:" cut is found within the piece before the next "# " |
| Rewrite.ExtractNothing | src/main.py:484-489 | a comment with neither marker names nothing |
| Rewrite.QuotedReadsBack | src/main.py:485-486 | a comment of the prompt, a space and a quoted text without quotes reads back as that text |
| Rewrite.PlaceholderReadsBack | src/generator.py:158-163 | the comment written for a target not found reads back as the cleaned target |
| Rewrite.TapOf | src/main.py:477-479 | only a dictionary command whose `tapOn` is a dictionary holding a "point" is considered |
| Rewrite.CommentOf | src/main.py:481 | the comment is the `_comment` entry, "" when there is none |
| Rewrite.TargetOf | src/main.py:484-489 | a text comment yields the extracted target and a point yields none; a mapping or list fails exactly when it holds the marker and a quote, or lacks the marker and holds "# ", because `split` is then called on it; null and numbers fail |
| Rewrite.RewriteCommand | src/main.py:476-530 | a command is kept unless its target is found; untouched exactly when it is no tap or names no target; a failure exactly when its comment cannot be searched; on a match the tap gets the element's centre and noted comment, counted as TODO exactly when its point was "TODO%,TODO%" |
| Rewrite.NotedOnce | src/main.py:513-516 | the element's text is noted in the comment at most once |
| Rewrite.TappedSpec | src/main.py:502-516 | the new tap's point is the percentage of the element's centre and its comment is noted; every other entry keeps its value and no key moves |
| Rewrite.UpdatedCommandSpec | src/main.py:510-516 | the updated command differs only in its `tapOn`, whose keys stay in place |
| Rewrite.UpdateCommand | src/main.py:477-530 | the loop body for one command computes `RewriteCommand` |
| Rewrite.RewriteAll | src/main.py:476 | the rewrite of the first k commands gives k commands and k outcomes |
| Rewrite.RewriteAllAt | src/main.py:476-530 | each command is rewritten independently of the others |
| Rewrite.RewriteAllFails | src/main.py:557-558 | a command that fails ends the whole update with its failure |
| Rewrite.CountsAdd | src/main.py:518-523 | the updated count is the TODO count plus the existing count |
| Rewrite.CountSnoc | src/main.py:518-523 | one more outcome raises a count by one exactly when it is of that kind |
| Rewrite.NotFoundSnoc | src/main.py:526 | a target not found is reported in order |
| Rewrite.SizeOr | src/main.py:455-463 | the screenshot's size when measured, else the fallback 3492×1912, positive either way |
| Rewrite.ExpectedReport | src/main.py:434-555 | fewer than two documents is the invalid-structure case; updated = TODO + existing; the file is rewritten, as the first document and a command list, exactly when some command was updated |
| Rewrite.ReportOfCommands | src/main.py:471-555 | with a command list, the update fails exactly when some command fails, with that failure; otherwise each new command and outcome is that command's own, the counts and the targets not found come from the outcomes, and the file written is the first document and the new commands |
| Rewrite.RewriteCommands | src/main.py:471-530 | the loop computes the new commands, the three counts and the targets not found, or the first failure |
| Rewrite.UpdateYamlCoordinates | src/main.py:426-558 | `update_yaml_coordinates` computes `ExpectedReport` |
| Rewrite.Recorded | src/main.py:303-305 | recording an analysis sets the action's elements and keeps every other action's |
| Rewrite.ElementsFor | src/main.py:319-326 | the action's own analysis when recorded, else the current elements; a lookup before any recording fails |
| Rewrite.LookupAfterRecording | src/main.py:303-326 | after a recording every lookup succeeds, finding the action's own analysis or the one just recorded |
| Rewrite.Orchestrator.constructor | src/main.py:25-40 | a new orchestrator has recorded nothing and uses the default matcher |
| Rewrite.Orchestrator.RecordElements | src/main.py:303-308 | the table gets the elements for the action and the current elements become them |
| Rewrite.Orchestrator.FindElementForAction | src/main.py:317-336 | `_find_element_for_action` gives the matched element among the chosen ones, None when there are none or nothing matches |
| Updater.VarMatch | src/coordinate_updater.py:101 | a match of the variable's pattern lies past the name and colon, its quoted value inside the text |
| Updater.VarMatchSpec | src/coordinate_updater.py:101 | a match is the name and a colon, white space, a quote, a quote-free value and a closing quote |
| Updater.VarMatchAt | src/coordinate_updater.py:101 | conversely, any such text matches, with exactly that value |
| Updater.VarFinder | src/coordinate_updater.py:101 | every match of the compiled pattern starts at or before its group, which lies in the text |
| Updater.SubFromNoMatch | src/coordinate_updater.py:104 | where nothing matches, `re.sub` leaves the text as it is |
| Updater.SubVarAbsent | src/coordinate_updater.py:99-104 | a flow that does not mention the variable is left unchanged |
| Updater.SubFromSkip | src/coordinate_updater.py:104 | a position where nothing matches keeps its character |
| Updater.SubFromFirstMatch | src/coordinate_updater.py:104 | the text up to the first match is kept |
| Updater.SubFromHit | src/coordinate_updater.py:101-104 | at a match the text up to the value is kept, the value replaced, the closing quote kept, and scanning resumes after it |
| Updater.SubstitutedAt | src/coordinate_updater.py:101-104 | after a first match the new text agrees with the old up to the value, then holds the new value and the closing quote |
| Updater.MatchKept | src/coordinate_updater.py:101-102 | the substituted definition still matches the pattern |
| Updater.SubVarReadsBack | src/coordinate_updater.py:99-104 | after the substitution the variable's first definition reads back as the new value, for a value without quotes |
| Updater.SubstituteAllAbsent | src/coordinate_updater.py:99-105 | updates for variables the flow does not mention leave it unchanged |
| Updater.UpdateMainFlowCoordinates | src/coordinate_updater.py:82-111 | `update_main_flow_coordinates` writes nothing without a main flow file, else the text with each update substituted in order |
| Updater.NewFlowCoordinateUpdater | src/coordinate_updater.py:18-31 | a new updater uses the default matcher, the eight coordinate variables and the two screenshot-target entries |
| Updater.CenterPercentSpec | src/coordinate_updater.py:61-66 | the whole percentages are the generator's tap percentages truncated toward zero, between 0 and 100 for a box inside the image |
| Updater.SetterCases | src/coordinate_updater.py:69-74 | a variable is set exactly when its search term, lower-cased, occurs in the lower-cased description; an `_X` name takes the horizontal percentage, a `_Y` name the vertical one, any other nothing |
| Updater.MapVarsGet | src/coordinate_updater.py:69-74 | a variable some mapping sets takes the last value set; every other keeps its old value |
| Updater.VarValueOf | src/coordinate_updater.py:69-74 | with distinct variable names a variable's value is decided by its own entry |
| Updater.VarValueNone | src/coordinate_updater.py:69-74 | a variable without an entry gets no value |
| Updater.MapVarsKeys | src/coordinate_updater.py:69-74 | every variable set was already there or is in the mapping table |
| Updater.VarValueSome | src/coordinate_updater.py:69-74 | a variable given a value has an entry |
| Updater.MapVarsUnique | src/coordinate_updater.py:72-74 | the coordinates keep one entry per variable |
| Updater.AddTargetKeys | src/coordinate_updater.py:55-78 | a target adds only variables of the mapping table, each once |
| Updater.CoordinatesKeys | src/coordinate_updater.py:46-80 | the coordinates of a screenshot name only mapping-table variables, each once |
| Updater.MapVariables | src/coordinate_updater.py:69-74 | the mapping loop computes `MapVars` |
| Updater.AnalyzeScreenshotForCoordinates | src/coordinate_updater.py:33-80 | `analyze_screenshot_for_coordinates` on an image of the given size computes `Coordinates`, no entry for an unmatched target |
| Updater.BaseName | src/coordinate_updater.py:132-133 | the file name holds no '/', ends the path, and is either the whole path or preceded by a '/' |
| Updater.LastIndexOf | src/coordinate_updater.py:133 | the last occurrence of the character, None when there is none |
| Updater.Stem | src/coordinate_updater.py:133 | the stem starts the file name; it is the whole name exactly when the name has no dot, ends with a dot or has a single dot at its start; otherwise a dot follows it and no dot comes after that one |
| Updater.TargetsFor | src/coordinate_updater.py:136-140 | the targets of the first entry whose key occurs in the screenshot's name, none when no key does |
| Updater.Contributions | src/coordinate_updater.py:131-147 | each screenshot contributes the coordinates of its targets on an image of its size |
| Updater.ScreenshotKeys | src/coordinate_updater.py:131-147 | a screenshot contributes only mapping-table variables, each once |
| Updater.CollectedOverwrites | src/coordinate_updater.py:147 | a later screenshot's value for a variable replaces an earlier one; variables it does not set keep theirs |
| Updater.CollectedWithin | src/coordinate_updater.py:147 | merging adds no variable that no contribution names |
| Updater.CollectedKeys | src/coordinate_updater.py:122-147 | every collected variable is in the mapping table |
| Updater.AnalyzeAndUpdateFlow | src/coordinate_updater.py:113-154 | `analyze_and_update_flow` merges the screenshots' coordinates in order and rewrites the main flow only when some were found and the file exists |
| Text.Lower | src/matcher.py:59-87 | `str.lower` keeps the length, changes each letter on its own and leaves lower-case text alone |
| Text.LStrip | src/parser.py:57 | leading white space, and only that, is removed |
| Text.RStrip | src/parser.py:57 | trailing white space, and only that, is removed |
| Text.Strip | src/parser.py:57 | `str.strip` is the slice after the leading white space that leaves only white space after it, with no white space at either end, and is empty exactly for a blank text |
| Text.IndexOf | src/main.py:486-489 | the first position where the text occurs, None when it does not |
| Text.IndexOfFirst | src/main.py:486-489 | the first occurrence found is the one with none before it |
| Text.ContainsSpec | src/main.py:485-487 | `in` on strings: the text occurs at some position |
| Text.SplitOn | src/main.py:486-489 | `str.split(sep)` gives at least one piece, the whole text when the separator is absent, else the text before its first occurrence first |
| Text.SplitJoin | src/vision.py:377 | joining parts on a character none of them holds and splitting on it again gives the parts back |
| Text.Words | src/matcher.py:352 | `str.split()` gives non-empty pieces without white space (with WordsCons, WordsSkipSpace and WordsOfWord, exactly the maximal runs of non-space characters) |
| Text.WordsOfWord | src/matcher.py:352 | a word alone splits into itself |
| Text.WordsCons | src/matcher.py:352 | a word followed by white space is the first word, followed by the words of the rest |
| Text.WordsSkipSpace | src/matcher.py:352 | leading white space does not change the words |
| Text.RemoveChar | src/generator.py:148 | `replace(c, "")` leaves no `c`, removes every `c` and keeps every other character as often as before, and changes nothing without one |
| Text.RemoveCharAppend | src/generator.py:148 | removal distributes over concatenation, so the characters kept stay in order |
| Text.ReplaceAll | src/matcher.py:60-61 | `str.replace` keeps lower-case text lower-case and changes nothing when the pattern is absent |
| Text.ReplaceAllFirst | src/matcher.py:60-61 | one step of `str.replace`: the text before the first occurrence is kept, that occurrence becomes the replacement, and the rest is treated the same way |
| Text.ReplaceSelf | src/matcher.py:60-61 | replacing a text by itself changes nothing |
| Text.IntToString | src/coordinate_updater.py:72-74 | `str` of an integer is non-empty digits reading back as the number, after a minus sign when negative |
| Text.DigitsValueOf | src/parser.py:106 | reading back the digits of a whole number gives that number |
| Text.LeadingZero | src/generator.py:117 | a leading zero does not change the value of a digit string |
| Text.Trunc | src/coordinate_updater.py:65-66 | `int` of a real truncates toward zero |
| Select.FirstMaxSpec | src/vision.py:314 | `max(..., key=len)` picks the first of the longest, and there is none when every length is zero |
| Select.ArgMaxFirstSpec | src/vision.py:304 | `max(..., key=confidence)` picks the first element of greatest confidence |
| Select.BestBy | src/matcher.py:85-150 | the first element of greatest positive score, None when no score is positive |
| Select.FirstIndex | src/coordinate_updater.py:137-140 | the first element that satisfies the test, None when none does |
| Select.FilterFirst | src/matcher.py:288-291 | a filter keeps something exactly when some index passes, and its first element is the element at the first passing index |
| Select.Filter | src/matcher.py:173-180 | a comprehension with a condition keeps the elements that satisfy it, each one |
| Select.FilterAppend | src/matcher.py:173-180 | filtering works piece by piece |
| Select.FilterMultiset | src/matcher.py:353 | a list comprehension with a condition keeps each wanted value exactly as often as the list holds it and drops every other value |
| Select.MapSeqAppend | src/vision.py:385-391 | mapping a list works piece by piece |
| Select.MapInPlace | src/vision.py:385-391 | the in-place loop replaces every slot of the array by its image |
| Select.PyTake | src/matcher.py:378 | `s[:n]` is a prefix of length n clamped to the list, and for a negative n the list without its last -n elements |
| Select.SortBySpec | src/matcher.py:173 | `sorted` gives a permutation ordered by its key |
| Select.SortByHead | src/matcher.py:228 | the head of a sorted list is the first element of least key |
| Select.InsertKeyFilter | src/matcher.py:377 | one insertion step leaves the elements of any one key in their order, with the new element in front of those of its own key |
| Select.SortByStable | src/matcher.py:377 | `sort` is stable: the elements of any one key come out in the order they went in |
| Select.TakeSortedStable | src/matcher.py:377-378 | the first n of a stable sort take no element more often than the input holds it, and those of one key are the first of that key in input order |
| Select.TakeSorted | src/matcher.py:377-378 | the first n of a stable sort are n of them when there are that many, in key order, keep any property every element has, and hold every element whose key is below the last one taken |
| Select.FilterSortHead | src/matcher.py:200-230 | the head of a filtered, sorted list exists exactly when some element passes, and it passes with the least key |
| Select.SortByMembers | src/matcher.py:173 | sorting keeps exactly the same elements |
| Select.SortThenFilter | src/matcher.py:173-180 | filtering a sorted list keeps it sorted and keeps exactly the elements that pass |
| Scan.Sep | src/parser.py:35-43 | `\s+` is a maximal non-empty run of white space |
| Scan.DigitEnd | src/parser.py:57 | `\d+` runs to the first non-digit |
| Scan.QuoteEnd | src/parser.py:37 | `[^"]+` runs to the first double quote |
| Scan.Quoted | src/parser.py:37 | `"([^"]+)"` is a non-empty quote-free text between two quotes |
| Scan.DecimalOfNat | src/parser.py:106 | `float` of a whole number's digits is that number |
| Yaml.Get | src/main.py:480-481 | a dictionary lookup finds an entry under the key, None when there is none |
| Yaml.PutGet | src/main.py:511-516 | after assignment the key maps to the new value and every other key keeps its own |
| Yaml.PutUnique | src/coordinate_updater.py:72-74 | assignment keeps keys distinct |
| Yaml.UpdateGet | src/coordinate_updater.py:147 | `dict.update` takes the new value for every key it names and keeps the rest |
| Yaml.UpdateKeys | src/coordinate_updater.py:147 | after `dict.update` the keys are those of either dictionary |
| Yaml.Without | src/generator.py:270 | leaving a key out removes it and keeps every other key's value |

## Left out

- Model loading and detection: the YOLO detector, the Florence-2 captioner, the easyocr reader and the device choice in `detect_elements`. Their boxes, captions, confidences and OCR fragments are inputs; `Vision.PostProcess` starts from them.
- Drawing: `save_annotated_image` and `_add_color_legend` only draw and write image files.
- The fuzzy scorers `ratio`, `partial_ratio`, `token_sort_ratio` and `token_set_ratio` are a foreign library. They are a function parameter (`Matcher.Fuzz`) whose values are whole numbers from 0 to 100.
- Unicode: `lower()`, `upper()`, `strip()`, `split()` and `\s` are modelled on ASCII. Slovak letters with diacritics are kept as they are, so a keyword with diacritics matches only the same lower-case letters.
- Float arithmetic is exact `real` arithmetic. The `** 0.5` distance test is the equivalent squared distance below 900.
- `:.0f` formatting of tap points: a point is the node `Point(x, y)` holding the two percentages, and the rounding to whole numbers is not modelled.
- Clocks: the `datetime.now()` timestamps in screenshot names enter `Generator.GenerateFlow` as a parameter.
- YAML loading and dumping, reading and writing files, and measuring images with PIL. The documents, the flow text, the lines of a test file and the image sizes are values; a missing file is `None`. YAML anchors and shared nodes are not modelled: every node is a value.
- Writing a generated flow with its comments (`_write_commands_with_comments`), `generate_web_flow` and `create_coordinate_config` only format and write text.
- The choice of the screenshot measured by `update_yaml_coordinates` (the newest `*.png` by modification time, else 3492×1912) is a parameter of `Rewrite.UpdateYamlCoordinates`: the size, or `None` for the fallback.
- `ScreenAIOrchestrator` apart from recording analyses and `_find_element_for_action`; `main`, the command-line scripts, the Selenium capture, the HTTP server, the watcher and logging.
- `update_flow_coordinates.py` imports a `VisionAnalyzer` that src/vision.py does not define; it is not part of this model.
- Worked examples on literal lines (for example "wait 5 seconds" giving a wait of 5.0) are not stated as lemmas. The general dispatch (`Parser.ParseLineDispatch`), the fields of each action (`Parser.Build`, with `Scan.DecimalOfNat` for whole-number waits) and the step-number lemma (`Parser.StepNumberDropped`) cover these cases.
- Regular-expression replacements in `update_main_flow_coordinates` take the new value literally. A value holding a backslash would be read as an escape by `re.sub`. The values written are digit strings, so this does not arise.
- `Path.stem` and `Path.name` follow POSIX paths: the text after the last '/', without its last suffix. Trailing slashes and `..` are not treated specially.
- Updater.BaseName: a path ending in '/' gives the empty name, where Python drops the trailing slash first. The paths come from a glob of screenshot files, which never end in '/'.
- Yaml.Value: there is no boolean or floating-point node. A `_comment` that is `true` or `1.5` makes the `in` test at src/main.py:485 raise a TypeError; the model has that failure only for null and integer comments.
- Merging is not claimed to be idempotent: merged boxes grow, and the source makes no such promise.
- Generator.GenerateFlow: requires every measured screenshot size to be positive. A zero width or height would make `_pixel_to_percentage` raise `ZeroDivisionError`, which is not modelled.
- Generator.PixelToPercentage: requires a positive size, for the same reason.
- Rewrite.UpdateYamlCoordinates: requires a measured screenshot size to be positive, for the same reason.
- Updater.AnalyzeScreenshotForCoordinates: requires a positive image size, for the same reason.
- Updater.AnalyzeAndUpdateFlow: requires, through `Updater.SizesPositive`, a positive size for every path, for the same reason. That also covers screenshots whose names select no targets, which the source never measures; so do the functions behind it.
- Parser.OpenAt: the contract states only where a match starts and that the group lies in the line. The pattern's full language is the function's body.
- Parser.WaitAt: likewise, only where a match starts and that the group lies in the line.
- Parser.ScreenshotAt: likewise.
- Parser.MaestroAt: likewise; it captures no group.
- Parser.AnalyzeAt: likewise; it captures no group.
- Parser.FindAt: likewise; the end of its group is stated by `Parser.FindGroupEnd`.
- Parser.TapAt: likewise.
- Parser.ClickAt: likewise.
- Parser.EnterAt: likewise.
- Parser.CombinedAt: likewise; which optional clauses the engine keeps is the function's body.
- Parser.ParseLine: its own contract states only the line number; what it returns is stated by `Parser.ParseLineDispatch` and `Parser.Build`.
- Parser.LineActions: its own contract bounds the number of actions and states their line number; the combined case is `Parser.CombinedLineGivesTwo`.
- Matcher.ApplyFixes: its own contract states only that no upper-case letter comes back. What the table replaces is stated by `Matcher.ApplyFixesAppend`, `Matcher.NormalizeFix` and `Text.ReplaceAllFirst`.
- Matcher.Normalize: likewise, its own contract states only the absence of upper case; `Matcher.NormalizeFix` states the replacement of a misreading by its correction.
- Text.Words: its own contract states only that every piece is a word. The split itself is stated by `Text.WordsCons`, `Text.WordsSkipSpace` and `Text.WordsOfWord`.
- Text.ReplaceAll: its own contract states only what it keeps; the replacement of the first occurrence and the treatment of the rest are stated by `Text.ReplaceAllFirst`.
- Matcher.LoginFormMatch: its own contract states only the tags and when nothing is found. The outcomes of the patient, new-order and category rules and their scores are stated by `Matcher.PatientRule`, `Matcher.PatientMatchSpec`, `Matcher.NewOrderFallback` and `Matcher.CategoryTakesFirst`.
