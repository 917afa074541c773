# NASA space biology publication dashboard — Dafny model

This project models the string and list logic of a dashboard that lists
NASA space biology publications and asks a serverless function to analyse
them with a language model.

**Dashboard** (`src/Dashboard.js`):
- Keyword classifiers give each publication title a research category
  and a model organism. The first rule whose keyword occurs in the
  lower-cased title wins.
- The offline entity scan and the offline diagram for a title.
- Diagram node labels are split into two text lines.
- The fetched CSV text becomes numbered publication records.
- A search-and-filter predicate decides which records are listed.
- Per-category counts, in the key order of the JavaScript object that
  holds them, and the top five categories by count.

**Analysis function** (`netlify/functions/analyze-publication.js`):
- The request gate: CORS preflight, method, body, title and API key.
- The choice between the full-content prompt and the title-only prompt.
- The selection of important sentences from a page's text.
- Truncation of long page text to a head and a tail.
- Clean-up of the model's reply: code fences are removed and the braced
  JSON object is sliced out. A fallback summary is used when parsing fails.
- The diagram attached to every analysis.

## Modules

| module | file | contents |
|---|---|---|
| `Seqs` | `seqs.dfy` | `Option`, `Filter`, subsequences, `Take`, `Map`, `Concat` |
| `Text` | `text.dfy` | `toLowerCase`, `includes`, `startsWith`, `trim`, `split` on one character, `join` |
| `Diagrams` | `diagrams.dfy` | the `visualDiagram` value, and straight chains of nodes |
| `Dashboard` | `dashboard.dfy` | the classifiers, entity scan, offline diagram and label split |
| `Listing` | `listing.dfy` | CSV records, the filter predicate, the category statistics |
| `Analyze` | `analyze.dfy` | the analysis function's logic |

**Imperative loops.** Where the source is a loop, the model is a `method`
proved equal to a specification function. These are:
- `Dashboard.ExtractEntitiesFromTitle` (the `forEach` that pushes)
- `Listing.CategoryStats` (the `reduce` into an object)
- `Analyze.ExtractSections` (the `for … of` loop that pushes)
- `Analyze.StripFences` (the reassignments of `cleanText`)

Everything else in the core is expression code, and is modelled as functions.

`src/Dashboard.js` and `netlify/functions/analyze-publication.js` contain
no graph-layout code; nothing else is modelled.

## Model

| member | source | states |
|---|---|---|
| Dashboard.FirstMatch | src/Dashboard.js:17-51 | the `if` chain stops at the first rule whose keywords occur in the lower-cased title; no earlier rule matches |
| Dashboard.ClassifyFirstMatch | src/Dashboard.js:17-76 | `Classify(rules, fallback, title)`, the `if` chains over the lower-cased title, meets this for any rule table with distinct labels: the fallback label is returned iff no rule's keyword occurs; a rule's label is returned only when its keyword occurs and no earlier rule's does |
| Dashboard.ClassifyIgnoresCase | src/Dashboard.js:18 | a classifier gives the same label to a title and to its lower-cased form |
| Dashboard.CategoryLabelsDistinct | src/Dashboard.js:20-50 | the ten category labels differ from each other and from "General Space Biology" |
| Dashboard.CategoryRuleLabels | src/Dashboard.js:20-48 | the rule table carries the ten category labels in source order |
| Dashboard.Categorize | src/Dashboard.js:17-51 | the result is one of the eleven categories; it is "General Space Biology" iff no keyword of any rule occurs; otherwise it is the label of the first rule whose keyword occurs |
| Dashboard.BoneComesFirst | src/Dashboard.js:20-22 | a title mentioning "bone" is filed under "Bone & Musculoskeletal" whatever else it mentions |
| Dashboard.CategorizeIgnoresCase | src/Dashboard.js:18 | category matching is case-insensitive |
| Dashboard.OrganismLabelsDistinct | src/Dashboard.js:57-75 | the six organism labels differ from each other and from "Multiple/Other" |
| Dashboard.ExtractOrganism | src/Dashboard.js:54-76 | the result is one of the seven organism labels; it is "Multiple/Other" iff no keyword occurs; otherwise it is the label of the first rule whose keyword occurs |
| Dashboard.HumanBeatsMouse | src/Dashboard.js:57-62 | a title mentioning both "human" and "mouse" is tagged "Human" |
| Dashboard.RatInsideGeneration | src/Dashboard.js:57-65 | matching is on substrings, not on words: "generation" is tagged "Rat" |
| Dashboard.VocabularyTermsDistinct | src/Dashboard.js:83-95 | the eleven entity keys are distinct |
| Dashboard.EntitiesIn | src/Dashboard.js:79-104 | the entities are a subsequence of the vocabulary, in key order, with distinct terms; a vocabulary entry is listed iff its key occurs in the lower-cased title |
| Dashboard.PushMentioned | src/Dashboard.js:97-101 | the `forEach` loop pushes exactly the entries whose key occurs, in key order |
| Dashboard.ExtractEntitiesFromTitle | src/Dashboard.js:79-104 | the method's result equals `EntitiesIn(title)`, with all its properties |
| Dashboard.BoneLossEndpoints | src/Dashboard.js:110-123 | every connection of the bone-loss diagram joins two of its nodes |
| Dashboard.RadiationIsChain | src/Dashboard.js:125-137 | the radiation diagram's connections are the straight chain through its nodes |
| Dashboard.ResearchIsChain | src/Dashboard.js:139-148 | the generic diagram's connections are the straight chain through its nodes |
| Dashboard.GenerateDiagramData | src/Dashboard.js:107-149 | a title mentioning "bone" gets exactly the bone-loss diagram, else one mentioning "radiation" gets exactly the radiation-damage diagram, else the generic research diagram; every connection joins drawn nodes; only the bone diagram branches |
| Dashboard.LabelLines | src/Dashboard.js:662-671 | the first line has at most 13 characters, and exactly 13 (ten characters of the label and "...") when the label is longer than 10; there is a second line iff the label is longer than 10; the first line then ends with "..."; the label is the first line without the dots followed by the second line |
| Diagrams.Chain | netlify/functions/analyze-publication.js:389-394 | a chain of n nodes has n-1 links, link i going from node i to node i+1 |
| Diagrams.ChainEndpoints | src/Dashboard.js:676-681 | a chain only joins nodes of its diagram, so the renderer finds both ends of every link |
| Listing.Field | src/Dashboard.js:212-213 | a field has no double quote; it is a subsequence of the raw field; every character other than a double quote occurs in it as often as in the raw field, so it is the raw field with its quotes removed; a raw field without quotes is kept as is; a missing field is "" |
| Listing.RecordOf | src/Dashboard.js:210-224 | a line gives no record iff its trimmed, de-quoted first field is empty; otherwise the record has the given id, a non-empty trimmed title and link without commas or quotes, one of the eleven categories and one of the seven organisms; the title and link are the trimmed de-quoted first and second fields, and the category and organism are computed from the de-quoted first field before trimming |
| Listing.DataLines | src/Dashboard.js:207-208 | the data lines are a subsequence of the lines after the first, so they keep their order; every non-blank line after the first is among them; each line occurs as often as it does after the first line if it is not blank, and not at all if it is, so repeated lines are kept; none contains a newline |
| Listing.RecordsSound | src/Dashboard.js:210-225 | `Records(data, base, record)`, the `map((line, index) => …)` followed by `filter(Boolean)`: every record kept comes from the data line at its id's position and carries an id between base+1 and base plus the number of lines |
| Listing.RecordsOrdered | src/Dashboard.js:210-225 | the ids of the kept records increase strictly |
| Listing.RecordsComplete | src/Dashboard.js:210-225 | every data line that gives a record has that record in the result |
| Listing.RecordOfNumbers | src/Dashboard.js:218 | a record carries the id it was given |
| Listing.RecordOfTitled | src/Dashboard.js:215-219 | every record made has a non-empty, trimmed title |
| Listing.RecordsTitled | src/Dashboard.js:215-225 | when each record has a non-empty trimmed title, so does every kept record |
| Listing.ParsedTitles | src/Dashboard.js:207-225 | `ParseCsv(csv)`, the whole parse (data lines, then `Records` with `RecordOf`), gives only publications with a non-empty trimmed title |
| Listing.ParsedIds | src/Dashboard.js:207-225 | the ids of the loaded publications run from 1 up to the number of data lines, strictly increasing |
| Listing.HeaderIgnored | src/Dashboard.js:207-208 | the first line is dropped whatever it says |
| Listing.HeaderOnly | src/Dashboard.js:207-208 | a text of one line loads no publication |
| Listing.FilteredPublications | src/Dashboard.js:245-253 | the listed publications are a subsequence of the loaded ones; a publication is listed iff it is loaded and passes `Shown`: it has a title and matches the search text, the category and the organism; a shown publication keeps as many copies as were loaded |
| Listing.SearchIgnoresCase | src/Dashboard.js:248 | lower-casing the search text does not change the list |
| Listing.NoFilterListsTitled | src/Dashboard.js:245-253 | with no search text and both filters at "all", the list is every publication that has a title |
| Listing.NoFilterListsAllLoaded | src/Dashboard.js:207-253 | with no search text and no filter, the list is exactly what the CSV loaded |
| Listing.FirstOccurrences | src/Dashboard.js:342-345 | the object's keys are distinct and are exactly the categories that occur |
| Listing.FirstOccurrencesOrdered | src/Dashboard.js:342-347 | the keys come in order of first appearance: where an earlier key first occurs, a later key has not yet occurred |
| Listing.CategoryStats | src/Dashboard.js:342-347 | the `reduce` loop yields the tally over `FirstOccurrences` of the categories: each category once, in order of first appearance, paired with the number of publications in it |
| Listing.CountedStep | src/Dashboard.js:343 | one step of the `reduce` either adds one to an existing key or appends a new key with count 1, and keeps the keys and counts exact |
| Listing.CountedEntries | src/Dashboard.js:347 | `Entries(counts, keys)`, `Object.entries` read in key-insertion order, gives for the finished object the tally of every category in first-appearance order |
| Listing.CountAppend | src/Dashboard.js:343 | one more publication adds one to its own category's count only |
| Listing.TallySum | src/Dashboard.js:342-345 | the counts of the tally add up to the number of categories tallied |
| Listing.TallyShift | src/Dashboard.js:342-345 | one more category adds one to the total iff it is among the keys |
| Listing.StatsCountEveryPublication | src/Dashboard.js:342-345 | the per-category counts add up to the number of publications |
| Listing.InsertByCount | src/Dashboard.js:348 | inserting adds exactly one entry and puts it at the front or after the current front |
| Listing.InsertIsPermutation | src/Dashboard.js:348 | inserting adds exactly the new entry to the multiset |
| Listing.InsertKeepsSorted | src/Dashboard.js:348 | inserting into a list sorted by descending count keeps it sorted |
| Listing.SortByCount | src/Dashboard.js:347-348 | the sort keeps the length and orders by descending count |
| Listing.SortIsPermutation | src/Dashboard.js:347-348 | the sorted entries are a permutation of the entries |
| Listing.InsertInFront | src/Dashboard.js:348 | an entry with a higher count than the front goes first, after no entry of equal count |
| Listing.InsertAfterEqual | src/Dashboard.js:348 | an inserted entry lands after every entry of its own count |
| Listing.SortIsStable | src/Dashboard.js:348 | entries with the same count keep their relative order |
| Listing.TopCategories | src/Dashboard.js:349 | at most five entries |
| Listing.TopCategoriesShape | src/Dashboard.js:347-349 | as many entries as there are, up to five, sorted by descending count, drawn from the entries |
| Listing.TopCategoriesAreHighest | src/Dashboard.js:347-349 | no entry left out of the top five has a higher count than one kept |
| Analyze.GateRequest | netlify/functions/analyze-publication.js:10-41 | OPTIONS gets 200 with an empty body; another non-POST method gets 405; an unreadable body gets 500 "Internal server error" (the outer catch, lines 289-298); a falsy title gets 400; a falsy API key gets 500; the analysis proceeds iff none of these holds, with the request's title, link and key |
| Analyze.PreflightFirst | netlify/functions/analyze-publication.js:10-12 | the preflight answer is 200 and depends neither on the body nor on the key |
| Analyze.TitleBeforeKey | netlify/functions/analyze-publication.js:25-41 | a missing title is reported as 400 whether or not the key is configured |
| Analyze.GateStatusCodes | netlify/functions/analyze-publication.js:10-41 | the gate answers only with 200, 400, 405 or 500, and with 200 only for the preflight |
| Analyze.FetchedContent | netlify/functions/analyze-publication.js:49-74 | full content iff the link contains "http" and the fetch produced a text; the content is then that text, otherwise "" |
| Analyze.PromptExcerpt | netlify/functions/analyze-publication.js:79-81 | the content prompt is used iff the content was fetched and is longer than 500 characters; its excerpt is the content truncated to 3000 |
| Analyze.PromptUsesPage | netlify/functions/analyze-publication.js:49-118 | the content prompt is chosen iff the link mentions "http" and the page text is longer than 500; its excerpt then fits in 3000 characters and is the page text itself when that fits |
| Analyze.TruncateContent | netlify/functions/analyze-publication.js:368-378 | content within the limit is unchanged; longer content becomes its first 60% of the limit, the marker, and its last 30% of the limit |
| Analyze.HeadLength | netlify/functions/analyze-publication.js:374 | the head length is 0.6 times a limit that is a multiple of ten |
| Analyze.TailLength | netlify/functions/analyze-publication.js:375 | the tail length is 0.3 times a limit that is a multiple of ten |
| Analyze.TruncateFits | netlify/functions/analyze-publication.js:368-378 | for limits of at least 290, the truncated text fits in the limit |
| Analyze.TruncateIdempotent | netlify/functions/analyze-publication.js:368-378 | truncating twice is truncating once |
| Analyze.FirstTerminator | netlify/functions/analyze-publication.js:353 | the position of the first `.`, `!` or `?`, with none before it |
| Analyze.TerminatorRun | netlify/functions/analyze-publication.js:353 | the length of the run of terminators at the start |
| Analyze.SplitSentences | netlify/functions/analyze-publication.js:353 | `split(/[.!?]+/)` gives at least one piece, and no piece holds a terminator |
| Analyze.TerminatorRuns | netlify/functions/analyze-publication.js:353 | the runs the split cuts at are non-empty and consist of terminators only |
| Analyze.SplitSentencesCutsAtRuns | netlify/functions/analyze-publication.js:353 | the text is exactly its pieces with the runs of terminators between them, one run fewer than pieces; and no piece strictly between two runs is empty, so each run is maximal; with the two contracts above this fixes where every cut falls |
| Analyze.BeforeTerminatorKept | netlify/functions/analyze-publication.js:353 | the text before the first terminator loses nothing to the split |
| Analyze.TerminatorRunDropped | netlify/functions/analyze-publication.js:353 | a run of terminators leaves nothing behind |
| Analyze.FilterAroundRun | netlify/functions/analyze-publication.js:353 | the split's first piece, the run and the rest account for all non-terminator characters |
| Analyze.SplitSentencesDropsTerminators | netlify/functions/analyze-publication.js:353 | the pieces, put back together, are the text with every terminator removed |
| Analyze.ExtractSections | netlify/functions/analyze-publication.js:347-365 | the loop's result is `SectionsText(text)`: the first 20 kept sentences, trimmed and joined with ". ", followed by "." |
| Analyze.SectionsInOrder | netlify/functions/analyze-publication.js:353-362 | the important sentences are the trimmed pieces that pass both filters, `LongEnough` (more than 20 characters once trimmed) and `Important` (a section keyword in the lower-cased piece, or more than 100 characters), in text order |
| Analyze.SectionsShape | netlify/functions/analyze-publication.js:353-364 | at most 20 sentences are joined, each longer than 20 characters and free of terminators |
| Analyze.JoinCovers | netlify/functions/analyze-publication.js:364 | a join is at least as long as its first piece |
| Analyze.SectionsEmptyWhenNoneSelected | netlify/functions/analyze-publication.js:364 | the result is "." iff no sentence was selected |
| Analyze.SectionsEmpty | netlify/functions/analyze-publication.js:353-364 | the result is "." iff no piece of the split is both long enough and important |
| Analyze.DropOpeningFence | netlify/functions/analyze-publication.js:236-241 | after a leading fence, what is left is the end of the text that follows the fence and a maximal run of blanks: it starts with no blank; a text without the fence is unchanged |
| Analyze.DropClosingFence | netlify/functions/analyze-publication.js:236-241 | before a trailing fence, what is left is the start of the text that precedes a maximal run of blanks and the fence: it ends with no blank; a text without the fence is unchanged |
| Analyze.StripFences | netlify/functions/analyze-publication.js:235-241 | the reassignments of `cleanText` compute `Unfenced(aiText)`: the trimmed text, with a `json` fence pair removed when it starts with one, and then a plain fence pair removed when what is left starts with one |
| Analyze.UnfencedPlain | netlify/functions/analyze-publication.js:235-241 | a reply that does not start with a fence is only trimmed |
| Analyze.DropClosingKeepsTrimmed | netlify/functions/analyze-publication.js:236-241 | removing a closing fence from a trimmed text leaves a trimmed text |
| Analyze.DropOpeningKeepsTrimmed | netlify/functions/analyze-publication.js:236-241 | removing an opening fence from a trimmed text leaves a trimmed text |
| Analyze.UnfencedTrimmed | netlify/functions/analyze-publication.js:235-241 | the cleaned text has no blanks at either end |
| Analyze.DropOpeningFenceLine | netlify/functions/analyze-publication.js:236-241 | an opening fence and the line break after it are removed, and nothing of a text that starts with no blank |
| Analyze.DropClosingFenceLine | netlify/functions/analyze-publication.js:236-241 | a closing fence and the line break before it are removed, and nothing of a text that ends with no blank |
| Analyze.DropFences | netlify/functions/analyze-publication.js:236-241 | a non-empty, trimmed body, with a fence line before it and a closing fence line after it, comes back unchanged after both fences are removed |
| Analyze.UnfenceJsonFence | netlify/functions/analyze-publication.js:235-241 | a non-empty, trimmed body that does not itself start with a fence, sent inside a `json` fence, is recovered exactly (a body that starts with a fence would be stripped a second time by the plain-fence step) |
| Analyze.UnfencePlainFence | netlify/functions/analyze-publication.js:235-241 | a non-empty, trimmed body sent inside a plain fence is recovered exactly |
| Analyze.JsonSlice | netlify/functions/analyze-publication.js:243 | a match starts with `{`, ends with `}` and has at least two characters |
| Analyze.JsonSliceExists | netlify/functions/analyze-publication.js:243-244 | there is a match iff some `{` comes before some `}` |
| Analyze.JsonSliceBounds | netlify/functions/analyze-publication.js:243 | the match is a stretch of the text with no `{` before it and no `}` after it |
| Analyze.JsonSliceWhole | netlify/functions/analyze-publication.js:243 | a text that is itself a braced object matches whole |
| Analyze.FallbackSummary | netlify/functions/analyze-publication.js:273 | a reply of up to 500 characters is kept whole; a longer one becomes its first 500 characters followed by "..." |
| Analyze.ReadAnalysis | netlify/functions/analyze-publication.js:234-287 | the reply is read as the JSON slice of its cleaned text iff there is one and it parses; otherwise it becomes the fallback summary |
| Analyze.FencedObjectRead | netlify/functions/analyze-publication.js:234-260 | a JSON object sent in a `json` fence is read back exactly as sent |
| Analyze.BoneResearchIsChain | netlify/functions/analyze-publication.js:385-396 | the bone diagram is a straight chain through its nodes |
| Analyze.RadiationStudyIsChain | netlify/functions/analyze-publication.js:400-411 | the radiation diagram is a straight chain through its nodes |
| Analyze.SpaceBiologyIsChain | netlify/functions/analyze-publication.js:415-426 | the generic diagram is a straight chain through its nodes |
| Analyze.GenerateDiagram | netlify/functions/analyze-publication.js:381-427 | always a five-node flowchart with a description, whose four connections are the chain through its nodes; a title mentioning "bone" or "osteo" gets exactly the bone-research diagram, else one mentioning "radiation" gets exactly the radiation-study diagram, else the space-biology diagram |
| Analyze.DiagramIgnoresAnalysis | netlify/functions/analyze-publication.js:381-427 | the diagram depends on the title alone, not on the parsed analysis |
| Text.Lower | src/Dashboard.js:18 | lower-casing keeps the length and lower-cases every ASCII capital letter |
| Text.LowerIdempotent | src/Dashboard.js:18 | lower-casing twice is lower-casing once |
| Text.ContainsIff | src/Dashboard.js:20 | `includes` holds iff the text occurs at some position |
| Text.ContainsHasChars | src/Dashboard.js:20 | a text that includes another holds all its characters |
| Text.Trim | src/Dashboard.js:215 | the result is no longer than the text, has no blank at either end, and is the text itself when the text has none |
| Text.TrimKeepsMiddle | src/Dashboard.js:215-220 | trimming keeps one stretch of the text and drops only whitespace before it and after it |
| Text.TrimEmpty | src/Dashboard.js:215 | trimming leaves nothing iff the text is all whitespace |
| Text.TrimIdempotent | src/Dashboard.js:219 | trimming twice is trimming once |
| Text.Split | src/Dashboard.js:211 | splitting on a character gives at least one piece, none containing that character |
| Text.JoinSplit | src/Dashboard.js:207-211 | joining the pieces of a split with the separator gives the text back |
| Text.SplitJoin | src/Dashboard.js:207-211 | splitting a join of separator-free pieces gives the pieces back |
| Text.IndexOf | netlify/functions/analyze-publication.js:243 | the first position of a character that occurs, with none before it |
| Text.LastIndexOf | netlify/functions/analyze-publication.js:243 | the last position of a character that occurs, with none after it |
| Text.IndexOfAfterFree | src/Dashboard.js:207-208 | the first separator after a separator-free head sits right after that head |
| Seqs.Filter | src/Dashboard.js:245 | `filter` keeps exactly the elements that pass, and never adds elements |
| Seqs.FilterSnoc | src/Dashboard.js:97-101 | filtering one more element at the end appends it iff it passes |
| Seqs.FilterAppend | netlify/functions/analyze-publication.js:353 | filtering distributes over concatenation |
| Seqs.FilterFilter | netlify/functions/analyze-publication.js:353-362 | two filters in a row are one filter by the conjunction |
| Seqs.FilterCounts | src/Dashboard.js:212-213 | a filter keeps every occurrence of each element that passes and none of the others |
| Seqs.FilterIsSubsequence | src/Dashboard.js:245 | `filter` keeps the order of what it keeps |
| Seqs.SubsequenceDistinct | src/Dashboard.js:97-101 | a subsequence of a sequence with distinct keys has distinct keys |
| Seqs.Take | src/Dashboard.js:349 | `slice(0, n)` keeps the first min(n, length) elements |

## Left out

- Network access: fetching the CSV, the publication page and the model's reply. The outcomes are parameters (`page`, `aiText`, `parses`) or the model starts from the text that was fetched.
- `extractTextFromHTML` (netlify/functions/analyze-publication.js:302-344): its regular expressions over HTML are not modelled. Its output is taken as an arbitrary string. `extractSections`, which it calls last, is modelled.
- `JSON.parse` and `JSON.stringify`: whether a slice parses is the `parses` parameter, and an unreadable request body is `None`.
- The checks on the shape of the model service's response, and the passing through of its errors (netlify/functions/analyze-publication.js:154-231). These are about the service's wire format.
- The prompt texts, the logging and the CORS headers.
- React state, effects, JSX and SVG rendering. Only the two label lines of a diagram node (src/Dashboard.js:662, 671) are modelled.
- The sample publications used when the CSV cannot be fetched (src/Dashboard.js:233-234), and the never-read `processed: false` flag.
- The AI-processing flow of the dashboard (`processPublicationWithAI`): calling the function and storing its result is React state and network.
- Dashboard.Categorize: `toLowerCase` is modelled for ASCII letters only; other letters are left as they are.
- Dashboard.ExtractOrganism: the same ASCII-only lower-casing.
- Text.Lower: ASCII-only lower-casing; Unicode case mapping is not modelled.
- Lengths are counted in characters, not in UTF-16 code units, so a title with characters outside the Basic Multilingual Plane has a different `length` in the source.
- Analyze.TruncateContent: requires a limit divisible by ten, so that 60% and 30% of it are whole numbers. The source calls it only with 3000. For other limits `substring` truncates fractional positions, and the model does not cover that.
- Analyze.GateRequest: a title or link that is a JSON value other than a string (a number, an object) is not modelled. Fields are absent, `null` or strings.
- Listing.TopCategories: its own contract states only the bound of five; sortedness, permutation and the "highest counts" property are in `TopCategoriesShape` and `TopCategoriesAreHighest`.
- The key order of a JavaScript object puts integer-like keys first. Category labels are never integer-like, so insertion order is used.
