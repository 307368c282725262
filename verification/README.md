# Kintsugi Publishing Python Suite — a Dafny model of its core

The suite is a command-line tool for batch-processing documents. It works in these steps:

1. It reads a YAML configuration. Command-line values override it by dotted keys such as `processing.severity`.
2. It walks an input directory for documents with the supported extensions.
3. It splits each Word document into sections at its heading paragraphs. Sections with too few words are merged into the next ones. A plain-text file becomes a single section, or none when it holds only whitespace.
4. It sends every section to a processor:
   - a grammar reviewer, a scientific reviewer or a plain reviewer;
   - a summariser or a translator;
   - a reporter, which computes word, sentence, letter and bigram statistics locally.
5. It archives the results, in one of three ways:
   - as a text file with one block per result;
   - as a copy of the Word input whose paragraphs have the processed texts substituted;
   - in "docx-in-docx" mode, by writing id-keyed records into the body, header and footer paragraphs of the original document.

This project states each of those steps as pure Dafny functions over immutable data, and proves what each step guarantees.

## Modules

| Module | File | What it holds |
|---|---|---|
| `Common` | common.dfy | `Option` and `Result`; the section and rendered-record shapes shared by the parser, the processors and the archiver |
| `Text` | text.dfy | the string operations the code relies on: `strip`, `split()`, `lower`, `startswith`/`endswith`, `in`, `replace`, `split(".")`/`join`, decimal rendering of counts |
| `Paths` | paths.dfy | `os.path.splitext` and `os.path.basename` |
| `Docx` | docx.dfy | runs, paragraphs, header and footer sections, and a document's style catalogue |
| `Config` | config.dfy | the configuration tree, `ConfigManager.get` and `ConfigManager.override` |
| `Files` | files.dfy | `find_documents` over a directory walk given as data |
| `Parser` | parser.dfy | `DocumentParser`: grouping at headings, merging small groups, choosing a reader by extension |
| `Processors` | processors.dfy | processor construction, severity clamping, instructions, reply filtering, skip rules, output suffixes |
| `Processing` | processing.dfy | the two `process_sections` loops, with the completion service as a function parameter |
| `Counter` | counter.dfy | `collections.Counter`: a first-occurrence-ordered tally and a stable `most_common` |
| `Reporter` | reporter.dfy | the reporter's tokeniser, sentence splitter, syllable count, bigrams and report layout |
| `Archiver` | archiver.dfy | `DocumentArchiver`: output name, the text layout, the content-keyed Word rewrite and the id-keyed advanced rewrite |
| `Cli` | cli.dfy | the decisions in `main`: processor dispatch, API key choice, the order of the overrides, and the docx-in-docx switch |

## Model

| member | source | states |
|---|---|---|
| Text.LowerIsLower | src/file_utils.py:31 | the lower-casing used on file names leaves no upper-case letter, and applying it twice is the same as once |
| Text.StripFacts | src/document_parser.py:28-30 | `strip()` removes only an outer whitespace prefix and suffix: the result is an infix of the input with all-whitespace text cut off on both sides; it never lengthens a string; it is empty exactly when the input is all whitespace; otherwise it starts and ends with a non-space; an input without outer whitespace comes back unchanged |
| Text.StripIdempotent | src/processors/reporter.py:134 | stripping twice is stripping once |
| Text.StripKeepsNonSpace | src/document_parser.py:28 | stripping removes only whitespace: the non-space characters survive in order |
| Text.NoWordsIffBlank | src/processors/scientific_reviewer.py:46 | `split()` gives no words exactly when `strip()` gives the empty string, so the blank test is subsumed by the word-count test |
| Text.RunsShape | src/processors/reporter.py:128-129 | splitting into maximal runs of kept characters gives non-empty runs of kept characters only, and no run at all exactly when no character is kept |
| Text.RunsConcat | src/processors/reporter.py:128-129 | the runs, glued back together, are exactly the kept characters of the input in order |
| Text.RunsAppendSep | src/processors/reporter.py:128-129 | runs never cross a character outside the class: the runs of a concatenation whose second part starts with such a character are the runs of each part |
| Text.RunsStrip | src/processors/reporter.py:128-129 | stripping whitespace changes no run of a class that holds no whitespace |
| Text.RunsBound | src/processors/reporter.py:128-129 | runs are separated by at least one character outside the class, so a string of length m has at most (m + 1) / 2 runs, and never more runs than characters |
| Text.JoinSplitOn | src/config_manager.py:23 | joining the parts of `key.split(".")` with "." gives back the key |
| Text.SplitOnJoin | src/config_manager.py:23 | splitting a "."-join of dot-free parts gives back the parts |
| Text.SplitOnConcat | src/config_manager.py:23 | splitting `a + "." + b` splits `a` and `b` separately and concatenates the parts |
| Text.Replace | src/document_archiver.py:132 | `str.replace` leaves the text unchanged when the pattern does not occur or when it is replaced by itself |
| Text.ReplaceAtFirst | src/document_archiver.py:132 | `str.replace` replaces the leftmost occurrence: the text before it is kept, the occurrence becomes the replacement, and the scan goes on after it without overlap |
| Text.ReplaceWhole | src/document_archiver.py:132 | a text that is exactly the pattern becomes the replacement |
| Text.NatToStringValue | src/processors/reporter.py:79 | the decimal rendering of a count reads back as the same number |
| Text.NatToStringInjective | src/processors/reporter.py:89 | different counts render differently |
| Paths.SplitExt | src/document_parser.py:20 | `splitext` cuts a path into stem and extension that concatenate back to it; the extension is empty or a single dot-led, dot-free and slash-free suffix |
| Paths.ExtOfAppended | src/document_parser.py:20 | appending an extension to a stem that ends in neither "/" nor "." makes `splitext` return exactly that stem and extension |
| Paths.BaseName | src/document_archiver.py:29 | `basename` is a slash-free suffix of the path that starts right after a "/" or at the start of the path |
| Paths.BaseNameAfterSep | src/document_archiver.py:29 | the base name ignores every directory in front of the file |
| Docx.SetText | src/document_archiver.py:62 | assigning a paragraph's text leaves one run holding the new text and keeps the paragraph style |
| Config.GetLoop | src/config_manager.py:22-29 | the segment-by-segment loop of `get` returns the node at the end of the dotted path, or the default at the first missing segment or non-dictionary node |
| Config.WalkAppend | src/config_manager.py:25-28 | walking a path in two steps equals walking it at once |
| Config.GetPrefix | src/config_manager.py:22-29 | `get("a.b")` is `get` of `b` inside the subtree at `a`, falling back to the default when either is missing |
| Config.SetPathSucceeds | src/config_manager.py:34-40 | a write succeeds exactly when every node it meets along the path is a dictionary; otherwise it raises `TypeError` |
| Config.SetPathGet | src/config_manager.py:34-40 | after a successful write, reading the same path gives the written value |
| Config.SetPathFrame | src/config_manager.py:34-40 | a path that leaves the written path at some segment reads the same before and after the write |
| Config.SetPathCreates | src/config_manager.py:37-38 | each missing intermediate segment is created as a dictionary holding only the next segment |
| Config.FreshWrite | src/config_manager.py:36-40 | writing into an empty tree always succeeds and creates one single-key dictionary per intermediate segment |
| Config.OverrideSpec | src/config_manager.py:31-40 | `override(key, None)` changes nothing; otherwise it fails exactly when a non-dictionary node lies on the path, always with `TypeError`, and on success `get(key)` returns the new value |
| Files.FindDocuments | src/file_utils.py:21-33 | the nested loops over the walk collect exactly the documents `Found` describes, in walk order |
| Files.PickFiles | src/file_utils.py:28-32 | the inner loop collects, in listing order, the accepted names of one directory joined with its path |
| Files.HiddenNeverAccepted | src/file_utils.py:29-30 | a file name starting with "." or "~" is never collected, whatever the extensions |
| Files.UpperExtensionNeverMatches | src/file_utils.py:31 | an extension containing an upper-case letter never matches, because only the file name is lower-cased |
| Files.NoExtensionsAcceptNothing | src/file_utils.py:31 | with an empty extension list nothing is collected |
| Files.AcceptIgnoresNameCase | src/file_utils.py:31 | the case of a visible file name does not matter to the extension test |
| Files.FoundAppend | src/file_utils.py:27-32 | the documents of a walk split into two parts are those of each part, in order |
| Files.FoundVisits | src/file_utils.py:27-32 | a path is collected for the walk exactly when it is collected for one of the visited directories |
| Files.FoundMembers | src/file_utils.py:27-32 | a path is collected exactly when some visited directory holds an accepted file name that joins to it |
| Files.JoinPathInjective | src/file_utils.py:32 | two joined paths with slash-free file names are equal only when their directory prefixes and file names are |
| Files.FoundUnique | src/file_utils.py:21-33 | on a walk whose directories are distinct and whose file names are distinct and slash-free within a directory, no document is collected twice |
| Parser.LeadingBodyTexts | src/document_parser.py:38-46 | the paragraphs in front of the first heading are exactly the leading non-heading paragraphs |
| Parser.GroupFoldIsHeadingGroups | src/document_parser.py:38-48 | the grouping loop yields one group per heading: the heading's text followed by the texts of the non-heading paragraphs up to the next heading |
| Parser.HeadingGroupsShape | src/document_parser.py:38-48 | there are as many groups as headings; group k starts with the k-th heading's text; the groups flattened are the texts from the first heading on |
| Parser.RawGroupsShape | src/document_parser.py:38-48 | the loop's groups have that shape, and a document without headings gives no group |
| Parser.LeadingBodyDropped | src/document_parser.py:45-46 | paragraphs in front of the first heading are dropped |
| Parser.LeadingBodyThenRest | src/document_parser.py:38-48 | the document's texts are the dropped leading body followed by the texts the groups cover |
| Parser.AbsorbFacts | src/document_parser.py:56-61 | the inner merge loop appends the following groups' texts, stops at the first content at or above the threshold or at the last group, and every prefix it went past was under the threshold |
| Parser.MergeIsPartition | src/document_parser.py:49-63 | the merged sections partition the groups into consecutive non-empty runs, one section per run, built from the run's first title and the absorbed texts |
| Parser.MergeCount | src/document_parser.py:49-63 | merging never produces more sections than groups |
| Parser.MergeThreshold | src/document_parser.py:55-61 | every merged section except possibly the last has at least the threshold's number of words |
| Parser.MergeWithGreedy | src/document_parser.py:57 | a group was absorbed only while the content accumulated before it was still under the threshold |
| Parser.MergeNoThreshold | src/document_parser.py:49-63 | with a threshold of zero or less every group becomes its own section with its stripped own content |
| Parser.ParseText | src/document_parser.py:26-31 | a text file that strips to nothing gives no section; otherwise it gives one section titled "Document" holding the stripped text |
| Parser.ReaderDispatch | src/document_parser.py:19-24 | four instances of `Parser.ReaderForAppended`: ".docx" and ".DocX" select the Word reader, ".pdf" and the double extension ".docx.txt" the text reader |
| Parser.ReaderForAppended | src/document_parser.py:19-24 | a path ending in a single dot-led extension is read by the Word reader exactly when that extension, lower-cased, is ".docx" |
| Parser.SingleHeadingExample | src/document_parser.py:33-64 | one heading followed by two body paragraphs gives one section with the heading as title and the two texts joined by a newline |
| Processors.Clamp | src/processors/grammar_reviewer.py:18 | the severity is clamped into 1..5: kept when in range, 1 below, 5 above |
| Processors.ClampIdempotent | src/processors/scientific_reviewer.py:21 | clamping twice is clamping once, and 1..5 is left alone |
| Processors.ClampMonotone | src/processors/grammar_reviewer.py:18 | clamping preserves order |
| Processors.SeverityLabels | src/processors/grammar_reviewer.py:31-38 | the five severities have five different labels; anything outside 1..5 is labelled like 3 ("normal") |
| Processors.FromParamsSpec | src/processors/translator.py:14-17 | building from a parameter dict fails exactly for a translator missing a language, and then with a `KeyError` naming "source_lang" if that is missing, else "target_lang"; otherwise the kind and additional prompt are kept, reviewers get the given severity clamped into [1, 5] (3 when absent), and translators keep both languages |
| Processors.TranslatorInstruction | src/processors/translator.py:32-33 | formatting the translator template puts the source and target languages in their two slots |
| Processors.ReviewerPromptLabel | src/processors/reviewer.py:16-24 | every reviewer instruction ends with the label of its severity, "normal" when the severity is out of range |
| Processors.TranslatorPromptInjective | src/processors/translator.py:32-33 | two translators sharing one language send the same instruction only when both languages agree |
| Processors.Postprocess | src/processors/grammar_reviewer.py:40-43 | postprocessing either drops a reply or keeps it unchanged |
| Processors.PostprocessDrops | src/processors/scientific_reviewer.py:48-51 | a reply is dropped exactly by a reviewer whose lower-cased reply is its "nothing found" phrase |
| Processors.PostprocessExact | src/processors/grammar_reviewer.py:41 | the comparison is exact after lower-casing: a trailing full stop keeps the reply |
| Processors.GrammarDropsOwnReply | src/processors/grammar_reviewer.py:40-43 | the grammar reviewer drops its own upper-case "NO SERIOUS ERRORS HERE" reply |
| Processors.GrammarKeepsDotted | src/processors/grammar_reviewer.py:41 | the same sentence with a final full stop is kept unchanged |
| Processors.ScientificDropsOwnReply | src/processors/scientific_reviewer.py:48-51 | the scientific reviewer drops "No Factual Errors Here" in any letter case |
| Processors.DoNotProcessIsThreshold | src/processors/summariser.py:31-32 | a section is skipped exactly when it has fewer words than the processor's minimum: 1 generic, 2 scientific, 6 summariser |
| Processors.OutputSuffixes | src/processors/translator.py:29-30 | a translator's suffix is "translated_" … "_" + target language; two kinds share a suffix only for the two reviewers |
| Processors.SuffixNotTranslated | src/processors/summariser.py:24-25 | a suffix starts with "t" exactly for the translator |
| Processing.ProcessBase | src/processors/base_processor.py:23-31 | the base loop sends one request per section, in order, with the instruction and the content, and keeps the postprocessed replies that are truthy |
| Processing.BaseResultsAppend | src/processors/base_processor.py:25-30 | results of consecutive section lists concatenate |
| Processing.BaseResultsBound | src/processors/base_processor.py:23-31 | at most one result per section; each is a non-empty reply the service gave for some section |
| Processing.BaseDropsNothingFound | src/processors/reviewer.py:26-29 | no reviewer result is the reviewer's "nothing found" phrase |
| Processing.BaseKeepsAccepted | src/processors/base_processor.py:28-30 | postprocessing keeps every result unchanged |
| Processing.ProcessOpenAI | src/processors/base_openai_processor.py:17-35 | the service loop makes one request per section it does not skip, with the instruction followed by ". " and the additional prompt |
| Processing.OpenAIResultsAppend | src/processors/base_openai_processor.py:20-33 | results of consecutive section lists concatenate |
| Processing.OpenAIResultsShape | src/processors/base_openai_processor.py:17-35 | at most one record per section; each has the section's id and either the section's own content or the service's reply, and no style name |
| Processing.RecordsShape | src/processors/base_openai_processor.py:17-35 | for any instruction and skip test, at most one record per section, each with the section's id and either its own content or the service's reply |
| Processing.SentSectionReply | src/processors/base_openai_processor.py:28-33 | a section that is not skipped and gets a non-empty reply becomes one record holding that reply verbatim |
| Processing.SkippedSectionKept | src/processors/base_openai_processor.py:24-26 | a skipped section is passed through with its content under its id |
| Processing.IdlessSectionsShareId | src/processors/base_openai_processor.py:19-21 | sections without an id all get id 0, because the counter is incremented after the loop |
| Processing.OpenAIKeepsNothingFound | src/processors/base_openai_processor.py:29-33 | the service loop never calls `postprocess`: a grammar reviewer's "NO SERIOUS ERRORS HERE" reply is kept |
| Counter.TallySpec | src/processors/reporter.py:36 | the tally's keys are the distinct elements in first-occurrence order, each count is the element's number of occurrences, and every count is positive |
| Counter.DedupMembers | src/processors/reporter.py:36 | the tally's keys are exactly the input's elements, with no repeats |
| Counter.DistinctCount | src/processors/reporter.py:60 | the number of distinct elements is the tally's length and at most the input's length |
| Counter.AllOnceIffDistinct | src/processors/reporter.py:48 | every count is 1 exactly when the input has no repeated element |
| Counter.CountOfAt | src/processors/reporter.py:36 | looking up a tally key gives the count stored at its entry |
| Counter.SortDescSpec | src/processors/reporter.py:139 | the sort by count is descending, a permutation, and stable: entries with equal counts keep their order |
| Counter.SortDescTop | src/processors/reporter.py:139 | the first entry after sorting has a count at least as large as any entry's |
| Counter.MostCommon | src/processors/reporter.py:37 | `most_common(n)` returns n entries, or every entry when there are fewer |
| Counter.TopDominates | src/processors/reporter.py:139-140 | no entry left out of the top n has a larger count than one kept |
| Counter.MostCommonCounts | src/processors/reporter.py:37 | every top entry carries the element's true, positive number of occurrences, and no element is listed twice |
| Counter.PermKeysDistinct | src/processors/reporter.py:37 | sorting the tally's entries, which reorders them, keeps their keys distinct |
| Reporter.TokensSpec | src/processors/reporter.py:127-129 | the words are the non-empty maximal runs of word characters; glued together they are the word characters of the text; there are none exactly when the text has no word character |
| Reporter.SentencesShape | src/processors/reporter.py:131-134 | every sentence is non-empty and trimmed, and has no sentence end followed by whitespace inside it |
| Reporter.SentencesKeepNonSpace | src/processors/reporter.py:131-134 | splitting into sentences loses no non-space character and reorders none |
| Reporter.CleanedSentences | src/processors/reporter.py:45 | re-stripping the split sentences and dropping empty ones changes nothing |
| Reporter.Syllables | src/processors/reporter.py:149-158 | a word of m characters has at most (m + 1) / 2 vowel groups, so never more syllables than characters |
| Reporter.CountSyllables | src/processors/reporter.py:149-158 | the vowel-group loop counts the maximal runs of vowels in the lower-cased word |
| Reporter.NoSyllablesIffNoVowel | src/processors/reporter.py:149-158 | a word has no syllable exactly when it has no vowel |
| Reporter.SumSyllables | src/processors/reporter.py:146-159 | the outer loop sums every word's syllables |
| Reporter.BigramsRoundTrip | src/processors/reporter.py:162-164 | a non-empty word list has one bigram fewer than words; the first components plus the last word, and the first word plus the second components, give the list back |
| Reporter.TopWordsByLengthSpec | src/processors/reporter.py:136-140 | at most n entries, all from the tally and long enough, and no long-enough entry left out has a larger count than one kept |
| Reporter.DiversityAtMostOne | src/processors/reporter.py:60-61 | the number of distinct lower-cased words never exceeds the word count |
| Reporter.Display | src/processors/reporter.py:108 | a sentence under 200 characters is shown whole; one of 200 characters or more as its first 200 characters followed by "..." |
| Reporter.ProcessSections | src/processors/reporter.py:15-24 | the reporter returns exactly one result, the report |
| Reporter.FullTextTokens | src/processors/reporter.py:15-24 | the words of the joined text are the words of each section's title and content, section by section and in order: the blank-line join and the stripping add or remove no word |
| Reporter.WordCountAddsUp | src/processors/reporter.py:15-24 | the report's total word count is the sum of the sections' word counts |
| Reporter.ReportFrame | src/processors/reporter.py:77-125 | the report starts with the header line and the word-count line, whose number reads back as the word count, and ends with a blank line and the footer |
| Reporter.SentenceLinesSpec | src/processors/reporter.py:102-110 | when no sentence repeats, the block is the single "unique" note; otherwise its first quoted line is the most frequent sentence, which occurs at least twice, with its true count |
| Reporter.QuotedLinesRepeated | src/processors/reporter.py:105-109 | every quoted line is a sentence that occurs at least twice, with its true count |
| Archiver.ArchiveTargetSpec | src/document_archiver.py:29-53 | archiving succeeds exactly for "txt" and "docx", otherwise fails with the `ValueError` message; the file is the base name, "_" and the suffix with the format's extension, and the advanced rewrite is chosen exactly for docx output in docx-in-docx mode |
| Archiver.ArchiveTargetExtension | src/document_archiver.py:41 | the output name's extension is the format's |
| Archiver.OutputNameIgnoresDirectory | src/document_archiver.py:29-30 | the output name does not depend on the document's directory |
| Archiver.SaveAsTxt | src/document_archiver.py:39-46 | no file is written exactly when there are no results |
| Archiver.TxtBodyIsBlocks | src/document_archiver.py:43-46 | the text file is one block per result, in order |
| Archiver.TxtBodyPrefix | src/document_archiver.py:43-46 | the file for the first n results is a prefix of the whole file |
| Archiver.TxtBodyLength | src/document_archiver.py:46 | without titles each result adds its length plus 42 characters: two newlines and a 40-character rule |
| Archiver.TxtBodyEndsWithRule | src/document_archiver.py:46 | a non-empty file ends with the rule and a newline |
| Archiver.TxtBodyFirstTitle | src/document_archiver.py:44-46 | with titles the file starts with "Section 1:" and the first result |
| Archiver.PutFacts | src/document_archiver.py:139 | assigning a dict key keeps insertion order for an existing key and appends a new one; the key then maps to the value and other keys are unchanged |
| Archiver.MapSectionsSpec | src/document_archiver.py:135-141 | the mapping's keys are the distinct contents in first-occurrence order; each content maps to the result of its last section, or to itself past the results; other texts are absent |
| Archiver.MapUnchangedIsIdentity | src/document_archiver.py:135-141 | when every result equals its section's content, each key maps to itself |
| Archiver.ReplaceAllAppend | src/document_archiver.py:130-132 | replacing with two mappings in turn is replacing with their concatenation |
| Archiver.ReplaceAllSkipsBlank | src/document_archiver.py:131 | whitespace-only keys play no part in replacement |
| Archiver.ReplaceAllAbsent | src/document_archiver.py:131 | a text containing no key is returned unchanged |
| Archiver.ReplaceAllIdentity | src/document_archiver.py:129-133 | an identity mapping leaves every text unchanged |
| Archiver.ReplaceAllWhole | src/document_archiver.py:129-133 | a text that is exactly a non-blank key becomes that key's value |
| Archiver.GenerateSimple | src/document_archiver.py:56-63 | the simple Word rewrite keeps the paragraph count, the styles and the header and footer sections, leaves every paragraph with one run, and each paragraph reads back its old text with the section mapping's replacements applied |
| Archiver.RewriteBody | src/document_archiver.py:59-62 | each paragraph reads back its old text with the mapping's replacements applied, keeps its style and is left with a single unformatted run, as assigning `p.text` does |
| Archiver.GenerateSimpleUntouched | src/document_archiver.py:59-62 | a paragraph that contains no section content keeps its text |
| Archiver.GenerateSimpleUnchanged | src/document_archiver.py:56-63 | when every result equals its section's content, every paragraph keeps its text |
| Archiver.ByIdSpec | src/document_archiver.py:69 | the id index maps each id to the last record carrying it |
| Archiver.ByIdKeys | src/document_archiver.py:69 | the index has exactly the ids of the records |
| Archiver.ProcessParagraphSpec | src/document_archiver.py:74-101 | a known non-empty style is applied, otherwise the style is kept; blank content leaves the runs; otherwise the paragraph text becomes the content; existing runs keep their count and fonts; a paragraph with no run gets one |
| Archiver.ZoneIdInjective | src/document_archiver.py:108 | different paragraph indices give different ids |
| Archiver.ZoneIdsApart | src/document_archiver.py:118 | ids of the main, header and footer zones never collide |
| Archiver.ApplyZoneAt | src/document_archiver.py:107-112 | a paragraph is rewritten exactly when its id has a record and was not matched earlier |
| Archiver.ApplyZoneMatched | src/document_archiver.py:110-112 | a zone pass adds to the matched set exactly the zone's ids that have records |
| Archiver.ApplySectionsMatched | src/document_archiver.py:115-125 | after the header and footer passes the matched set holds the ids up to the longest header and the longest footer |
| Archiver.ApplySectionsAt | src/document_archiver.py:115-125 | a header or footer paragraph is rewritten exactly when its id has a record and no earlier section reached that index |
| Archiver.GenerateAdvanced | src/document_archiver.py:67-127 | a successful advanced rewrite keeps the styles, the body length, the section count and every header and footer length |
| Archiver.GenerateAdvancedFails | src/document_archiver.py:71-72 | the advanced rewrite fails exactly when the numbers of sections and results differ, with the `ValueError` message |
| Archiver.GenerateAdvancedBody | src/document_archiver.py:106-112 | body paragraph i is rewritten by the record with id "main-i" when there is one, otherwise kept |
| Archiver.GenerateAdvancedZone | src/document_archiver.py:114-125 | a header or footer paragraph is rewritten by its record only when no earlier section's zone reached its index |
| Archiver.AdvancedOnlyFirstSection | src/document_archiver.py:115-125 | a later section's header or footer paragraph at an index the first section also has is never rewritten |
| Cli.LoadProcessorClassSpec | src/main.py:38-62 | the name is accepted exactly when it is one of the listed ones; "" and "GrammarReviewer" give the grammar reviewer; other names fail with the `ValueError` message; no name gives the plain reviewer, so the default name "Reviewer" fails |
| Cli.LoadProcessorClassInjective | src/main.py:38-62 | two names give the same class only when they are equal or are "" and "GrammarReviewer" |
| Cli.ApiKeySpec | src/main.py:70-73 | the key is the command-line key if it is truthy, else the configured one; there is no fallback: when that key is falsy or the placeholder, the "Valid API key not found" `ValueError` is raised; a key that is accepted is truthy |
| Cli.GuardedStepsAreOverrides | src/main.py:75-92 | each guarded step is `override` with its dotted key |
| Cli.ApplyOverridesAppend | src/main.py:75-92 | applying two lists of overrides in turn is applying their concatenation, stopping at the first failure |
| Cli.ApplyOverridesFrame | src/main.py:75-92 | a path that leaves every written path at some segment reads the same after all the overrides |
| Cli.GuardedKeysSplit | src/main.py:75-92 | every guarded key splits back into its two path segments |
| Cli.GuardedKeyNames | src/main.py:81-84 | the keys of the severity and source-language overrides are "processing.severity" and "processing.source_lang" |
| Cli.GuardedGet | src/main.py:75-92 | after the guarded overrides each guarded key reads its command-line value when the guard passed, otherwise its earlier value |
| Cli.SeverityOverride | src/main.py:81-82 | under the severity key (any key that splits into processing/severity) a given severity is in the configuration afterwards even when it is 0 |
| Cli.FalsySourceLangKept | src/main.py:83-84 | an absent or empty source language leaves the configured value under the source-language key in place |
| Cli.ConfigureSpec | src/main.py:66-92 | once the directories are written, `main` fails with the "Valid API key not found" `ValueError` exactly when no usable key is found (any other failure is a `TypeError`); on success the API key path reads the chosen key, and each directory given on the command line, even an empty one, reads its value |
| Cli.ConfigureNoKey | src/main.py:66-73 | the "Valid API key not found" error arises exactly when the key check fails, once the directory writes succeed; every other failure after those writes is a `TypeError` |
| Cli.ConfigureError | src/main.py:66-92 | every failure of the configuration steps other than the "Valid API key not found" `ValueError` is a `TypeError` from one of the writes |
| Cli.ConfigureApiKey | src/main.py:70-92 | after a successful run the API key reads back the chosen key, which none of the guarded overrides touches |
| Cli.ConfigureGetApiKey | src/main.py:70-73 | `get` of any key that splits into openai/api_key, as "openai.api_key" does, returns the chosen key |
| Cli.WriteDirsSpec | src/main.py:67-68 | each directory reads the given value, even an empty one, and keeps its configured value when the option is absent |
| Cli.ConfigureDirs | src/main.py:67-92 | the key step and the guarded overrides leave both directories as written |
| Cli.ConfigureKeyNames | src/main.py:67-73 | the model's three paths join back into "io.input_directory", "io.output_directory" and "openai.api_key" |
| Cli.ConfigureKeysSplit | src/main.py:67-73 | each of these keys splits back into its path |
| Cli.ApplyOverridesError | src/main.py:75-92 | a failing override raises `TypeError` |
| Cli.DocxInDocxSpec | src/main.py:119-131 | docx-in-docx mode is on exactly when the output format is "docx" and some input's extension, lower-cased, is ".docx" |

## Left out

- Reading files is not modelled. The model does not cover opening files, loading YAML, parsing arguments, logging, creating the output directory or `load_text_file`. A document, a directory walk, a text file's contents, the parsed arguments and the loaded configuration are inputs to the functions.
- The completion service is not modelled. `openai_client.py` is not part of this model. The service is a function parameter from (instruction, content) to an optional reply. Retries and model selection are out of scope.
- `CustomPromptProcessor` is not modelled. It is reachable through `Cli.LoadProcessorClass` only as an opaque class. Its `build_prompt` formats a tuple instead of a string.
- The processor wiring in `main` is broken in the source, so each piece is modelled on its own:
  - `BaseOpenAIProcessor.__init__` calls the four-argument `BaseProcessor.__init__` with two arguments.
  - `Reviewer` and `Reporter` take four arguments but are constructed with two.
  - `parse_document` is called with a `docx_in_docx_mode` keyword that it does not accept.
- Text before the first heading is dropped, not gathered into an introductory section (`Parser.LeadingBodyDropped`).
- The reporter's floating-point figures are left out:
  - estimated pages;
  - average sentence length;
  - lexical diversity;
  - the Flesch score;
  - average syllables.
  `Reporter.GenerateReport` takes a function from the exact integer figures to their two-decimal renderings. The integer figures themselves are proved about (`Reporter.DiversityAtMostOne`, `Reporter.SumSyllables`).
- Character classes are approximated in ASCII:
  - `\w` is ASCII letters, digits and `_`;
  - `isalpha` is ASCII letters;
  - `lower` maps only `A`–`Z`.
  Whitespace, by contrast, is the full set of code points that Python's `str.isspace()` accepts.
- Configuration values are limited. YAML nulls, booleans and floats are not `Config.Node` variants. A heading-style list is a list of strings.
- Wrong-typed records are not modelled. A results list of the wrong element type, such as a dict result in text mode or a string record in advanced mode, is not represented. The archiver's functions take the element type each mode expects.
- Header and footer linking is not modelled. Each section's header and footer is its own list of paragraphs. In python-docx, a section whose header or footer is linked to the previous section returns the earlier section's paragraphs, so a rewrite through one section also shows in the sections linked to it. `Archiver.AdvancedOnlyFirstSection` is about the unlinked case.
- The archiver copies are not modelled separately. `map_sections`, `replace_text_in_sections` and `generate_docx` in `base_processor.py` behave identically to the archiver's. One definition models both, and the rows cite the archiver.
- Files.FoundUnique: requires a well-formed walk. Directories are distinct, and file names within a directory are distinct and contain no slash, as `os.walk` produces them. An arbitrary walk given as data could list a file twice.
- Reporter.GenerateReport: the text of the statistics lines between the header and the sentence block is stated only through its frame (`Reporter.ReportFrame`) and the sentence block (`Reporter.SentenceLinesSpec`). Its other lines are not individually specified.
