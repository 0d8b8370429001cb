# Google Form autofill: verified model of the form reader and payload renderer

The tool reads a Google Form's public page and then works in four steps:

1. It rewrites the view URL into the submission URL.
2. It locates the `FB_PUBLIC_LOAD_DATA_` assignment in the page.
3. It walks the parsed metadata tree into an ordered list of field descriptors.
4. It renders the descriptors as a brace-delimited `"entry.ID": VALUE` block, with optional comment lines. Before rendering, a pluggable answer generator can fill in the descriptors' values.

This project models those pure steps in Dafny and proves what they guarantee.

| file | module | models |
|---|---|---|
| `wrappers.dfy` | `Wrappers` | `Option` / `Result` |
| `text.dfy` | `Text` | `str.join`, splitting on one character, prefix/suffix/substring tests, `str(int)` |
| `json.dfy` | `Json` | the metadata tree `J`, the error kinds, and Python's truthiness, indexing, iteration, `== 1` and `> 1` on the tree |
| `encode.dfy` | `Encode` | `json.dumps(v, ensure_ascii=False)` with CPython's string escape table, its inverse (JSON string unescaping), and `str()` / `repr()` as f-strings show them |
| `url.dfy` | `ResponseUrl` | `convert_to_response_url` |
| `extract.dfy` | `Extractor` | the search `var\s NAME \s=\s(.*?);` of `extract_js_variable` |
| `descriptor.dfy` | `Descriptor` | the field descriptor record |
| `structure.dfy` | `Structure` | `analyze_form_structure` after the fetch, including `process_entry` |
| `filling.dfy` | `Filling` | `populate_form_fields` |
| `payload.dfy` | `Payload` | `create_request_payload`, `resolve_input_type` |
| `pipeline.dfy` | `Pipeline` | `generate_request_payload` between the analysis and the output |

## How Python's behaviour is represented

- **Metadata.** The metadata is the tree `J`: null, booleans, integers, strings and lists.
  - `At` models Python indexing: lists yield elements and strings yield one-character strings.
  - `Items` models Python iteration: strings iterate over their characters.
- **Crashes.** A read the program would crash on (IndexError, TypeError) becomes `Failure(Malformed)`. A refused form becomes `Failure(Unsupported)`, which is the program's `None`. In both cases the first failing read decides the outcome, in the program's evaluation order.
- **Required flag.** `subfield[2] == 1` also holds for `True`.
- **Type codes.** The type-code lookup treats `False` and `True` as the keys 0 and 1, as a dict does.
- **Descriptors.** A descriptor is a record. The keys the renderer's comment mode reads, `container_name` and `name`, are explicit fields. The builder never sets them.
- **Generator.** The answer generator is a function parameter. It returns either a value or the exception it raises.

## Behaviour that is easy to miss in the code

- **Refused forms.** The message at form.py:64 ("Login might be required") is printed, and `None` returned, only when `metadata`, `metadata[1]` or `metadata[1][1]` is falsy. Any other missing path raises. The model follows this: `Structure.EntryList` returns `Unsupported` exactly when `Structure.Unavailable` holds, and every other failed read is `Malformed`.
- **Placeholder removal.** The comment at form.py:134 speaks of removing the placeholder text, but `list.remove` drops only its first occurrence. It also drops it from the descriptor's own option list, since that is the same list. `Filling.PopulateEntry` and `Filling.PlaceholderSurvives` state this.
- **Comment mode.** Comment mode reads `field['container_name']`, which the builder never sets. So on any non-empty form, the default run (comments on) stops with a KeyError. `Payload.CommentModeNeedsContainer` and `Pipeline.GenerateRequestPayload` state this.
- **Generator exceptions.** An exception from the answer generator ends `populate_form_fields` and the whole run. One example is `random.choice` (main.py:47) on a choice field whose only option was the placeholder. `Filling.Populate`, `Filling.SolePlaceholderLeavesNoChoice` and `Pipeline.GenerateRequestPayload` state this.

## Model

| member | source | states |
|---|---|---|
| ResponseUrl.ConvertToResponseUrl | form.py:27-30 | the result ends with `/formResponse`, contains no `/viewform`, and a URL that already ends with `/formResponse` and has no `/viewform` comes back unchanged |
| ResponseUrl.ConvertIdempotent | form.py:27-29 | converting a converted URL changes nothing |
| ResponseUrl.TrailingSlashDoublesPath | form.py:27-29 | for any prefix without `/viewform`, `prefix/viewform/` becomes `prefix/formResponse/formResponse`: the suffix test runs before the slash is stripped |
| ResponseUrl.ReplaceViewBeforeView | form.py:27 | a prefix without `/viewform` is copied unchanged and the `/viewform` after it becomes `/formResponse` |
| ResponseUrl.FixedResponseUrl | form.py:27-29 | the corrected conversion still ends with `/formResponse` and contains no `/viewform` |
| ResponseUrl.FixedTrailingSlash | form.py:27-29 | with slashes stripped first, `prefix/viewform/` becomes `prefix/formResponse` |
| ResponseUrl.FixedAgreesWithoutSlash | form.py:27-29 | the correction changes nothing for URLs that do not end in a slash |
| ResponseUrl.StripTrailingSlashes | form.py:29 | `rstrip('/')` leaves a prefix of its input that does not end in a slash |
| ResponseUrl.ReplaceViewRemovesAll | form.py:27 | after replacing every `/viewform`, no occurrence is left, including none created by the replacement |
| ResponseUrl.ReplaceViewIdentity | form.py:27 | the replacement leaves text without `/viewform` unchanged |
| Extractor.LocateAssignment | form.py:36-40 | `None` exactly when the pattern matches nowhere; otherwise it gives the leftmost match, and its group is the text after `=<ws>` up to the first `;`, which holds no `;` and no line break |
| Encode.UnescapeEscape | generator.py:29 | JSON string escaping is inverted by JSON string unescaping, for every string |
| Encode.EscapeNotShorter | generator.py:29 | escaping never shortens a string |
| Encode.EscapeIdentity | generator.py:29 | escaping leaves a string unchanged exactly when it has no quote, backslash or control character (`ensure_ascii=False`) |
| Encode.NonAsciiVerbatim | generator.py:29 | non-ASCII text is written as it is, not as `\u` escapes |
| Encode.DumpsShape | generator.py:29 | the JSON encoding of any value is a non-empty single line that does not end in a comma |
| Encode.DumpsStringRoundTrip | generator.py:29 | the JSON encoding of a string is the quoted escape, and its body decodes back to the string |
| Payload.ResolveInputType | generator.py:48-59 | the free-text default is returned exactly when the code is not a table key; otherwise the result is the table's entry |
| Payload.InputTypeTable | generator.py:48-59 | codes 0-5, 7, 9 and 10 map to their descriptions; 6, 8, `"email"` and `"navigation"` map to the free-text default; `True` maps like 1 |
| Payload.TrailingComma | generator.py:28-33 | an entry line ends with a comma exactly when it is not the last |
| Payload.ValueRendering | generator.py:29 | a missing value renders as `""`, and a string value renders as a JSON string that decodes to it |
| Payload.CommentLines | generator.py:20-25 | fails with KeyError `container_name` when that key is absent; succeeds exactly when the heading can be built and there are choices or the type code is not a list |
| Payload.CommentLinesFailures | generator.py:20-25 | succeeds exactly when the container name is present, the name is absent, falsy or a string, and there are choices or the type code is not a list; with a container name, every failure is a TypeError |
| Payload.CommentLinesShape | generator.py:20-25 | the comment lines are two: a `# Field:` line that ends with ` (required)` when required (and only then, unless the heading already ends that way), and a `#   Choices:` line exactly when the options are non-empty, else a `#   Input Type:` line with the resolved type |
| Payload.LinesUpTo | generator.py:18-33 | comment mode fails exactly when some entry's comments fail; without comments rendering succeeds with one line per entry |
| Payload.PlainLineAt | generator.py:18-33 | without comments, the line at each position is that entry's key/value line, with the comma on all but the last entry |
| Payload.CommentBlock | generator.py:18-33 | in comment mode an entry's block is its two comment lines followed by its key/value line, three lines in all |
| Payload.EntryBlocks | generator.py:18-33 | in comment mode the first `n` entries give `3n` lines, and entry i's block occupies lines `3i` to `3i + 2` |
| Payload.CommentLinesCount | generator.py:18-33 | in comment mode every entry contributes exactly three lines |
| Payload.CommentLineAt | generator.py:18-33 | in comment mode lines `3i` and `3i + 1` are entry i's `# Field:` and choices/input-type comments and line `3i + 2` is its key/value line, with the comma on all but the last entry |
| Payload.FirstFailureSticks | generator.py:18-25 | the first entry whose comments fail decides the error of the whole render |
| Payload.FrameIsJoin | generator.py:15-35 | the payload is the line-break join of `{`, the lines and `}` |
| Payload.Render | generator.py:15-35 | rendering succeeds exactly when comment mode is off or every entry's comments succeed; the text starts with `{` and a line break and ends with `}` |
| Payload.EmptyPayload | generator.py:15-35 | no entries render as `{` followed by a line break and `}` |
| Payload.CommentModeNeedsContainer | generator.py:21 | comment mode fails with KeyError `container_name` when the first entry lacks that key, whatever follows |
| Payload.CreateRequestPayload | generator.py:4-36 | the loop produces exactly the framed lines of `Payload.Render`, and stops at the first entry whose comments fail |
| Payload.EntryLineSingle | generator.py:29-33 | a key/value line holds no line break when its key holds none |
| Payload.PlainLinesSingle | generator.py:18-33 | without comments, no line holds a line break when no key does |
| Payload.FramedSplit | generator.py:15-35 | braces around lines without line breaks split back into `{`, the lines, `}` |
| Payload.PlainSplit | generator.py:15-35 | without comments, splitting the payload at line breaks gives `{`, the entry lines, `}` |
| Payload.PlainPayloadLines | generator.py:15-35 | without comments, splitting the payload at line breaks gives `{`, then one key/value line per entry in input order (the comma on all but the last), then `}` |
| Structure.OptionLabels | form.py:81 | one label per option, in order: the option's first element, or `SAMPLE TEXT` when that element is falsy; no label is falsy; fails when some option cannot be indexed |
| Structure.OptionsOf | form.py:81 | `None` for falsy raw options; otherwise it succeeds exactly when the raw options iterate and every option can be indexed, and gives their labels (`Structure.OptionLabels`), one per raw option |
| Structure.Texts | form.py:82 | the join accepts a list only when every element is a string, and keeps them in order |
| Structure.SubLabelOf | form.py:82 | `None` when the sub-field has no fourth element or it is falsy; when it is present and truthy, succeeds exactly when it iterates into strings, and the label is their `' - '`-join |
| Structure.SubfieldDescriptor | form.py:76-83 | the descriptor's id is `subfield[0]`; it carries the entry's title and type; it is required exactly when `subfield[2] == 1`; it has the converted options and no value or comment keys; its sub-label is the one `Structure.SubLabelOf` builds; a missing id, options or flag is an error |
| Structure.SubfieldDescriptorSucceeds | form.py:76-83 | a sub-field gives a descriptor exactly when its first three elements can be read, its options convert and its sub-label can be built |
| Structure.DescriptorsOf | form.py:75-86 | fails exactly when some sub-field fails; unfiltered, one descriptor per sub-field; every descriptor carries the entry's title and type; filtered, every descriptor is required |
| Structure.DescriptorsInOrder | form.py:75-86 | unfiltered, descriptor i is the one built from sub-field i, so order, ids, flags and options follow the sub-fields |
| Structure.RequiredOnly | form.py:84-85 | keeps exactly the required descriptors, and keeps all of them only when all are required |
| Structure.RequiredOnlyAppend | form.py:84-86 | the filter distributes over concatenation |
| Structure.DescriptorsRequiredOnly | form.py:84-86 | skipping non-required sub-fields while building gives the required-only filter of the unfiltered list, and fails in the same cases |
| Structure.EntryDescriptors | form.py:67-87 | reading an entry's title, type and sub-fields fails only as a malformed tree; every descriptor carries `entry[1]` as its title and `entry[3]` as its type |
| Structure.EntryDescriptorsInOrder | form.py:67-87 | unfiltered, an entry gives one descriptor per sub-field of `entry[4]`, descriptor i being the one built from sub-field i |
| Structure.EntryDescriptorsSucceeds | form.py:67-87 | an entry gives descriptors exactly when its elements 1, 3 and 4 can be read, element 4 iterates, and every sub-field in it gives a descriptor |
| Structure.StepFields | form.py:92-95 | a page break contributes no descriptor |
| Structure.StepFieldsSucceeds | form.py:92-95 | an item is handled exactly when its type code can be read and it is either a page break or an entry that gives descriptors |
| Structure.ExtractedFields | form.py:89-95 | the walk over the items fails only as a malformed tree |
| Structure.ExtractedFieldsSucceeds | form.py:89-95 | the walk succeeds exactly when every item is handled |
| Structure.PageBreaks | form.py:90-94 | there are no more page breaks than items |
| Structure.ExtractedFieldsCount | form.py:75-95 | unfiltered, there is exactly one descriptor per sub-field of every item that is not a page break |
| Structure.ExtractedFieldsRequiredOnly | form.py:84-95 | the required-only walk succeeds exactly when the full walk does, and gives exactly its required descriptors |
| Structure.ExtractedFieldsShape | form.py:76-95 | no extracted descriptor has the page-break type, a value, or the comment keys |
| Structure.ExtractedStep | form.py:91-95 | one more item extends the descriptors by that item's descriptors, and the page count by one exactly for a page break |
| Structure.FirstBadItemSticks | form.py:91-95 | the first unreadable item decides the error of the whole walk |
| Structure.EntryList | form.py:63-65 | the form is refused exactly when the metadata, `metadata[1]` or `metadata[1][1]` is falsy; every other failure is a malformed tree |
| Structure.CollectsEmail | form.py:98 | the email setting fails only as a malformed tree |
| Structure.CollectsEmailValue | form.py:98 | the email setting can be read exactly when the settings block's element 6 exists and is a number or a boolean; email is collected exactly when it is a number greater than 1 (a boolean never is) |
| Structure.PageSequenceSplits | form.py:115 | the page history value splits at commas into `n + 1` numerals, and the i-th reads back as i |
| Structure.PageSequenceNonEmpty | form.py:115 | the page history value is never empty |
| Structure.Analyzed | form.py:63-118 | the result is `Unsupported` exactly when the gate refuses the form; every other failure is a malformed tree |
| Structure.AnalyzedLayout | form.py:97-118 | the extracted descriptors come first; the email descriptor comes right after them exactly when `metadata[1][10][6] > 1`; the page history comes last exactly when there are page breaks and holds the count; with neither, the result is the extracted list |
| Structure.AnalyzedSucceeds | form.py:63-118 | the analysis succeeds exactly when the gate passes, the walk over the items succeeds and the email setting can be read |
| Structure.CityEntryFields | form.py:67-87 | a required short-text entry with id 123 titled `City` gives exactly one descriptor: id 123, title `City`, type 0, required, no options, no sub-label |
| Structure.SingleEntryExample | form.py:63-118 | a form holding only that entry, with email mode 1, analyses to exactly that one descriptor |
| Structure.OneBreakHistory | form.py:115 | one page break gives the page history `0,1` |
| Structure.PageBreakEmailExample | form.py:63-118 | a page break followed by that entry, with email mode 2, analyses to three descriptors: the entry's, the email descriptor at index 1 and the page history `0,1` last |
| Structure.AnalyzedHasNoContainer | form.py:76-116 | no descriptor the analysis builds has `container_name` or `name` |
| Structure.WalkEntries | form.py:89-95 | the loop collects exactly the walk's descriptors and counts exactly its page breaks |
| Structure.AnalyzeFormStructure | form.py:63-118 | the gate, the loop and the appended entries produce exactly `Structure.Analyzed` |
| Filling.RemoveFirst | form.py:135-136 | the list is unchanged when the placeholder is absent; otherwise it is one element shorter |
| Filling.RemoveFirstAt | form.py:136 | given the position of the first occurrence, the removal cuts out exactly that element and keeps the rest in order |
| Filling.RemoveFirstCounts | form.py:135-136 | the removal takes away exactly one copy and keeps every other element |
| Filling.PlaceholderSurvives | form.py:135-136 | a placeholder is still offered after the removal exactly when there were at least two |
| Filling.PopulateEntry | form.py:124-143 | a descriptor with a truthy value is untouched; any other gets the generator's answer for its type, id, option pool (`None` options as empty, first placeholder removed), required flag and label, or the generator's exception; its own options lose that placeholder too; nothing else changes |
| Filling.Populate | form.py:120-145 | the pass succeeds exactly when the generator answers every unfilled descriptor; it then keeps the order and the number of descriptors and treats each independently |
| Filling.PopulateFirstFailure | form.py:124-143 | the first descriptor whose answer raises decides the pass's error |
| Filling.SolePlaceholderLeavesNoChoice | form.py:129-143 | a descriptor whose only option is the placeholder offers the generator an empty pool, and a generator that fails on it fails the pass |
| Filling.PopulateIdempotent | form.py:124-143 | with a generator that always answers with a truthy value, one pass succeeds and fills every descriptor, and a second pass changes nothing |
| Filling.EmptyAnswerRegenerated | form.py:126-143 | a descriptor whose value is `""` is answered again, and with two placeholders one is still offered |
| Filling.HistoryKept | form.py:126-127 | the page history already has a truthy value, so the pass leaves it untouched |
| Pipeline.GenerateRequestPayload | form.py:155-160 | a refused form gives `None` without a generator and a TypeError with one; an empty field list gives `None`; a generator exception ends the run with that exception; comment mode never yields a payload and, once the generator has answered, fails with KeyError `container_name` on any non-empty form; without comments the payload is the rendering of the (populated) descriptors |
| Pipeline.SyntheticKeys | generator.py:30 | the email and page-history descriptors are keyed `entry.emailAddress` and `entry.pageHistory` |

## Left out

- Fetching the page and submitting answers (`fetch_form_metadata`, the HTTP calls in main.py): network I/O. The analysis starts from the parsed metadata. The URL rewrite and the fetch at the top of `analyze_form_structure` are modelled separately and not chained in.
- Parsing the captured literal with `json.loads`: a library parser. `Extractor.LocateAssignment` returns the captured text, and the analysis takes the parsed tree as input.
- Floats and JSON objects in the tree: the form metadata never holds them in the positions the program indexes, so the JSON model has no constructors for them.
- Extractor.LocateAssignment: treats the variable name literally; the program splices it into the pattern unescaped, which only matters for names with pattern metacharacters (the program's own name has none).
- Encode.Show: `repr` of a string is shown between single quotes without Python's escaping, or its switch to double quotes when the string holds a single quote.
- Encode.Unescape: does not pair surrogate escapes, because the escaper never produces one.
- Payload.ResolveInputType: requires a type code that is not a list; the program's dictionary lookup raises on a list, and the comment lines that call it report that case as an error themselves.
- Structure.SubLabelOf: requires a list or string sub-field, the only kinds `len` accepts; any sub-field that reaches it has already been indexed successfully.
- The answer generators in main.py (random values, clock-based dates and times, the remote language-model call): randomness, clocks and the network. `Filling.Generator` is an arbitrary function that returns a value or an error.
- Printing, returning or writing the payload in `generate_request_payload`, and its console messages: I/O. The model returns the text.
- Command-line parsing (form.py, main.py) and run_multiple.py: process plumbing.
- Exception messages and types beyond the four error kinds of `Json.Error`.

## Findings

| source | as written | input that shows it | evidently intended | confidence | as-written member | corrected member |
|---|---|---|---|---|---|---|
| form.py:27-29 | the `/formResponse` suffix is tested before trailing slashes are stripped, and the suffix is then appended | `https://docs.google.com/forms/d/ID/viewform/` gives `https://docs.google.com/forms/d/ID/formResponse/formResponse` | strip the slashes first, giving `https://docs.google.com/forms/d/ID/formResponse` | medium, not executed | ResponseUrl.TrailingSlashDoublesPath | ResponseUrl.FixedTrailingSlash |

`ResponseUrl.ConvertToResponseUrl` models the code as written. `ResponseUrl.FixedResponseUrl` is the corrected definition. Nothing else in the model calls either one, because the analysis starts from the fetched metadata.
