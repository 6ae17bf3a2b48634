# AMICA / TwitIE text processing, modelled in Dafny

This project models the two text pipelines of the repository.

**Annotation side (`src/amica_processing.py`).** A document is a `.txt`
file with one sentence per line and a brat-style `.ann` file with one
annotation per line: an id like `T3`, a column `label start end`, and the
annotated text. The model covers three steps:

- `convert` turns the two files into a text map (line number ↦ sentence)
  and an annotation map (start offset ↦ annotation). A short line raises
  an `IndexError`, which is caught and leaves the annotation map empty. A
  non-numeric offset raises a `ValueError`, which is not caught.
- `entry_to_data` walks the sentences in key order with a character cursor.
  It collects, for each sentence, the labels of the annotations that start
  inside it, and the macro label: an annotation one character long is a
  macro. It records sentence, labels, macro and scope in the entry.
- `store_csv_json` turns a record's labels and macro into CSV cells.

**Anonymiser side (`src/twitIE_amica.py`).** The model covers three steps:

- `clean` normalises captions.
- `get_entities` groups the named-entity recogniser's response into
  location, person, user-id and URL spans.
- `process_merge` does the anonymising. It replaces every recognised span
  with a placeholder such as `<LOCATION_city>`, `<PERSON_gender_unknown>`,
  `<URL>` or `<USER_ID>`. It records `raw -> placeholder` in one dictionary
  and splits each batch back into sentences on the escaped delimiter
  `" &lt;--&gt; "`.

Python's string operations appear in module `PyStr`: slicing with clamped
and negative indices, `in`, `replace`, `split`/`split(sep)`, `strip`,
`join` and `int()`. Each model file has its own module: `AmicaConvert`,
`AmicaEntries`, `AmicaCsv`, `TwitieClean`, `TwitieEntities` and
`TwitieMerge`. Loops that build a value are methods. Each method is proved
equal to a prefix-recursive function, and the properties are lemmas about
that function. `entry_to_data` fills the entry in place, so `Entry` is a
class whose `data` map the method updates.

Two facts about the code shape the model:

- Outside files whose name contains `ask`, the scope of a sentence is `'?'`
  (src/amica_processing.py:159).
- The `ValueError` of `convert` and the `IndexError` of `entry_to_data`
  (an annotation with a single offset) are not caught, neither there nor by
  `files_to_dict`, so either one aborts the run. The model returns them as
  `Failure`/error outcomes, with the state reached when they were raised.

## Model

| member | source | states |
|---|---|---|
| TwitieClean.Clean | src/twitIE_amica.py:33-54 | one caption per input text, in order, each the cleaned text |
| TwitieClean.BlankPunctuationChars | src/twitIE_amica.py:26-41 | the punctuation substitution keeps the length, turns every removed punctuation character (all of `string.punctuation` except `. , @ ! ? # ' "`) into a space and keeps every other character |
| TwitieClean.AsciiOnlyChars | src/twitIE_amica.py:44 | the ascii encode/decode keeps only ASCII characters and keeps any property the kept characters had |
| TwitieClean.AsciiOnlyKeeps | src/twitIE_amica.py:44 | the ascii encode/decode works character by character: the result for a concatenation is the concatenation of the results |
| TwitieClean.AsciiOnlyAscii | src/twitIE_amica.py:44 | ASCII text passes through the encode/decode unchanged, so with AsciiOnlyKeeps every ASCII character survives, in order |
| TwitieClean.KeepTokensOf | src/twitIE_amica.py:47 | the `tkns != ' '` filter removes nothing from the tokens of `split()` |
| TwitieClean.CleanTextChars | src/twitIE_amica.py:38-50 | a cleaned caption holds only ASCII characters and no removed punctuation |
| TwitieClean.JoinWordsSingleSpaced | src/twitIE_amica.py:47-50 | joining whitespace-free non-empty tokens with one space gives a single-spaced string, with no leading, trailing or doubled space |
| TwitieClean.CleanTextSingleSpaced | src/twitIE_amica.py:41-50 | a cleaned caption is single-spaced |
| TwitieClean.JoinWordsOfSingleSpaced | src/twitIE_amica.py:47-50 | a single-spaced text is the `' '.join` of its `split()` tokens |
| TwitieClean.CleanTextFixpoint | src/twitIE_amica.py:38-50 | a single-spaced ASCII text without removed punctuation is returned unchanged |
| TwitieClean.CleanTextIdempotent | src/twitIE_amica.py:38-50 | cleaning a cleaned caption changes nothing |
| TwitieClean.BlankPunctuation | src/twitIE_amica.py:38-41 | definition of the substitution: each removed punctuation character becomes a space (properties in BlankPunctuationChars) |
| TwitieClean.AsciiOnly | src/twitIE_amica.py:44 | definition of the ascii round trip: non-ASCII characters are dropped (properties in AsciiOnlyChars) |
| TwitieClean.KeepTokens | src/twitIE_amica.py:47 | definition of the `tkns != ' '` filter (KeepTokensOf shows it removes nothing) |
| TwitieClean.CleanText | src/twitIE_amica.py:38-50 | definition of the loop body for one text: substitute, strip, drop non-ASCII, split, filter, join (properties in CleanTextChars, CleanTextSingleSpaced, CleanTextFixpoint, CleanTextIdempotent) |
| TwitieEntities.GetEntities | src/twitIE_amica.py:56-161 | the loop over the entity keys yields exactly the grouped lists of the specification function, or the same error |
| TwitieEntities.GetEntitiesGrouped | src/twitIE_amica.py:78-158 | on success, the location list holds (first index, last index, `locType` or `'na'`) for every Location entity, in key order; persons likewise with `gender`; user ids are the spans of UserID entities; the URL list holds the spans of URL and Organization entities, in key order |
| TwitieEntities.GroupedLocations | src/twitIE_amica.py:79-99 | the location list is the attributed spans of the Location entities |
| TwitieEntities.GroupedPersons | src/twitIE_amica.py:101-122 | the person list is the gender-attributed spans of the Person entities |
| TwitieEntities.GroupedUserIds | src/twitIE_amica.py:124-134 | the user-id list is the spans of the UserID entities |
| TwitieEntities.GroupedUrls | src/twitIE_amica.py:136-158 | the URL list is the spans of the URL and Organization entities, interleaved in key order |
| TwitieEntities.AddEntitiesFails | src/twitIE_amica.py:82-85 | reading one key's entities fails iff one of them has no indices, and the error names that key |
| TwitieEntities.GetEntitiesFails | src/twitIE_amica.py:78-158 | the whole call fails iff some key of a handled kind is missing or has an entity without indices, and the error is that of the first such key: `KeyError` when the key is missing, `IndexError` otherwise |
| TwitieEntities.FailureSticks | src/twitIE_amica.py:78-158 | once a key has raised, the later keys do not change the outcome |
| TwitieEntities.AddEntitiesFailureSticks | src/twitIE_amica.py:82-99 | once an entity has raised, the later entities of that key do not change the outcome |
| TwitieEntities.AddEntitiesEffect | src/twitIE_amica.py:82-99 | a successful key appends exactly its entities' spans to the list its kind selects and leaves the other lists unchanged |
| TwitieEntities.KindOf | src/twitIE_amica.py:79-148 | definition of the `if`/`elif` chain on the key: Location, Person, UserID, URL, Organization tested in that order by substring, anything else ignored |
| TwitieEntities.AttrOr | src/twitIE_amica.py:89-95 | definition of the attribute lookup with the `'na'` default |
| TwitieEntities.AddEntities | src/twitIE_amica.py:82-99 | definition of the inner loop over one key's entities; the first entity with empty `indices` raises (properties in AddEntitiesEffect, AddEntitiesFails) |
| TwitieEntities.AddKey | src/twitIE_amica.py:79-158 | definition of one iteration of the key loop: an ignored key changes nothing, a missing key raises `KeyError` |
| TwitieEntities.EntitiesSpec | src/twitIE_amica.py:78-161 | definition of `get_entities` over the keys in order, the first exception ending it (properties in GetEntitiesGrouped, GetEntitiesFails) |
| TwitieMerge.ProcessMerge | src/twitIE_amica.py:265-365 | the sentence list and the dictionary after all batches equal the merged sentences and the merged dictionary |
| TwitieMerge.CollectReplacements | src/twitIE_amica.py:284-355 | `total_replace` of a batch is its location, person, URL and then user-id replacements, and the dictionary records each of them in that order |
| TwitieMerge.AddLocations | src/twitIE_amica.py:295-310 | one `(text[s:e], placeholder)` per location span, in order, each recorded in the dictionary |
| TwitieMerge.AddPersons | src/twitIE_amica.py:313-328 | one `(text[s:e], placeholder)` per person span, in order, each recorded in the dictionary |
| TwitieMerge.AddUrls | src/twitIE_amica.py:331-340 | one `(text[s:e], "<URL>")` per URL span, in order, each recorded in the dictionary |
| TwitieMerge.AddUserIds | src/twitIE_amica.py:343-355 | one `(text[s:e], "<USER_ID>")` per user-id span whose text is not `i` or `t`, each recorded in the dictionary |
| TwitieMerge.ApplyReplacements | src/twitIE_amica.py:358-360 | the text after applying every `str.replace` of `total_replace` in order |
| TwitieMerge.RecordSnoc | src/twitIE_amica.py:308 | recording one more replacement overwrites just that raw text's entry |
| TwitieMerge.LocationPlaceholderRule | src/twitIE_amica.py:301-304 | the placeholder is `<LOCATION_unknown>` exactly for `na`, `pre`, `post`, `unknown` and missing types, otherwise `<LOCATION_type>`; two known types give the same placeholder iff they are equal |
| TwitieMerge.PersonPlaceholderRule | src/twitIE_amica.py:319-322 | the placeholder is `<PERSON_gender_unknown>` for `na`, `None`, missing and also for a gender literally `gender_unknown`, otherwise `<PERSON_gender>`; two known genders give the same placeholder iff they are equal |
| TwitieMerge.WrapInjective | src/twitIE_amica.py:304 | wrapping with a fixed prefix and `>` is injective |
| TwitieMerge.UserIdReplacementsFilter | src/twitIE_amica.py:343-355 | every user-id replacement maps a text other than `i`/`t` to `<USER_ID>`, and every user-id span whose text is not `i`/`t` gets one |
| TwitieMerge.UserIdRule | src/twitIE_amica.py:343-355 | the same for the user ids of one batch |
| TwitieMerge.PlaceholdersOf | src/twitIE_amica.py:295-340 | location replacements start with `<LOCATION_`, person replacements with `<PERSON_`, URL replacements are `<URL>` |
| TwitieMerge.ShortTokensNotUserIdInBatch | src/twitIE_amica.py:349 | no replacement of a batch maps `i` or `t` to `<USER_ID>` |
| TwitieMerge.RecordLastWrite | src/twitIE_amica.py:308-355 | a key is in the dictionary iff it was there or some replacement has it as raw text; its value is the placeholder of the last such replacement; untouched keys keep their value |
| TwitieMerge.RecordAppend | src/twitIE_amica.py:282-355 | recording two runs of replacements is recording the first, then the second |
| TwitieMerge.MergedHashIsRecord | src/twitIE_amica.py:279-355 | the dictionary after all batches records every batch's replacements in batch order, starting empty |
| TwitieMerge.MergedHashLastWrite | src/twitIE_amica.py:279-355 | a raw text is in the final dictionary iff some batch replaced it, and it maps to the placeholder of its last replacement across all batches |
| TwitieMerge.AllReplacementsShortTokens | src/twitIE_amica.py:349 | across all batches, no replacement maps `i` or `t` to `<USER_ID>` |
| TwitieMerge.ShortTokensNeverUserId | src/twitIE_amica.py:349-353 | in the final dictionary `i` and `t`, if present, never map to `<USER_ID>` |
| TwitieMerge.NoReplacementsIsSplit | src/twitIE_amica.py:358-363 | a batch with no entities other than `i`/`t` user ids comes back as its text split on the escaped delimiter |
| TwitieMerge.NoShortTokenReplacements | src/twitIE_amica.py:349 | user ids that are all `i`/`t` produce no replacement |
| TwitieMerge.BatchSentencesRejoin | src/twitIE_amica.py:358-363 | a batch yields at least one sentence, and joining them with the escaped delimiter gives back the replaced text |
| TwitieMerge.MergedSentencesAppend | src/twitIE_amica.py:363 | the sentence list of two runs of batches is the concatenation of their lists |
| TwitieMerge.DelimiterEscaping | src/twitIE_amica.py:363 | sentences joined with the raw `" <--> "` of line 195 do not split on the escaped delimiter; sentences free of `&` joined with the escaped delimiter split back exactly |
| TwitieMerge.LastIndexOfExists | src/twitIE_amica.py:308-355 | a raw text that occurs among the replacements has a last occurrence |
| TwitieMerge.LocationPlaceholder | src/twitIE_amica.py:301-304 | definition of the location placeholder (properties in LocationPlaceholderRule) |
| TwitieMerge.PersonPlaceholder | src/twitIE_amica.py:319-322 | definition of the person placeholder (properties in PersonPlaceholderRule) |
| TwitieMerge.LocationReplacements | src/twitIE_amica.py:295-310 | definition of the location part of `total_replace` |
| TwitieMerge.PersonReplacements | src/twitIE_amica.py:313-328 | definition of the person part of `total_replace` |
| TwitieMerge.UrlReplacements | src/twitIE_amica.py:331-340 | definition of the URL part of `total_replace` |
| TwitieMerge.UserIdReplacements | src/twitIE_amica.py:343-355 | definition of the user-id part of `total_replace`, skipping `i` and `t` (properties in UserIdReplacementsFilter) |
| TwitieMerge.Replacements | src/twitIE_amica.py:284-355 | definition of `total_replace`: locations, persons, URLs, user ids |
| TwitieMerge.Record | src/twitIE_amica.py:308-353 | definition of the `hash_dict[raw] = replace_with` writes in order (properties in RecordLastWrite, RecordAppend) |
| TwitieMerge.ApplyAll | src/twitIE_amica.py:358-360 | definition of the chain of `str.replace` calls (BatchSentencesRejoin, NoReplacementsIsSplit) |
| TwitieMerge.BatchSentences | src/twitIE_amica.py:358-363 | definition of one batch's sentences: the replaced text split on the escaped delimiter |
| TwitieMerge.MergedSentences | src/twitIE_amica.py:282-363 | definition of `new_sent_list` after the given batches (MergedSentencesAppend) |
| TwitieMerge.MergedHash | src/twitIE_amica.py:279-355 | definition of `hash_dict` after the given batches (MergedHashIsRecord, MergedHashLastWrite) |
| AmicaConvert.KeptLinesAppend | src/amica_processing.py:72-73 | the kept lines of two runs of lines are the concatenation of each run's kept lines |
| AmicaConvert.TextMapKeepsLines | src/amica_processing.py:72-73 | a line that is not a lone `"\n"` is in the text map, numbered by the kept lines before it, with its newlines removed; the keys are exactly `0..n-1` |
| AmicaConvert.KeptLinesStep | src/amica_processing.py:72-73 | one more line adds exactly one sentence, the line without newlines, unless it is a lone `"\n"`, which adds nothing |
| AmicaConvert.TextMapKeysFromLines | src/amica_processing.py:72-73 | every key of the text map is the number of a line that is not a lone `"\n"` |
| AmicaConvert.KeptLines | src/amica_processing.py:73 | definition of `[te.replace('\n', '') for te in txt if te != '\n']` (properties in KeptLinesStep, KeptLinesBound, KeptLinesAll) |
| AmicaConvert.TextMap | src/amica_processing.py:72-73 | definition of the `enumerate` dict over the kept lines (TextMapKeepsLines, TextMapKeysFromLines, TextMapNoBlankLines) |
| AmicaConvert.ParseInts | src/amica_processing.py:78 | definition of `[int(x) for x in …]`, `None` when an `int()` raises |
| AmicaConvert.ParseLine | src/amica_processing.py:76-81 | definition of one annotation line in the evaluation order of Python 3.8 and later: key `int(a[1].split()[1])` first, then `int(a[0][1:])`, the index integers, `a[2]`, the label (ParseAnnLine, ShortLineIndexError) |
| AmicaConvert.Collect | src/amica_processing.py:74-85 | definition of the comprehension over line outcomes: later keys overwrite, the first exception stops it (CollectOutcome, CollectLastWins) |
| AmicaConvert.AnnFrom | src/amica_processing.py:76-81 | definition of the annotation comprehension over the lines (AnnFromLastWins) |
| AmicaConvert.Convert | src/amica_processing.py:57-87 | definition of `convert`: `IndexError` gives an empty annotation map, `ValueError` propagates (ConvertOutcome) |
| AmicaConvert.KeptLinesBound | src/amica_processing.py:72-73 | there are at most as many sentences as lines, and no sentence holds a newline |
| AmicaConvert.TextMapNoBlankLines | src/amica_processing.py:72-73 | without blank lines the text map has exactly the keys `0..n-1`, each the line without its newlines |
| AmicaConvert.KeptLinesAll | src/amica_processing.py:72-73 | without blank lines every line is kept, with `replace('\n', '')` applied |
| AmicaConvert.ParseAnnLine | src/amica_processing.py:76-81 | a well-formed line `T<id>`, `label start end`, `text` parses to key `start`, id, offsets `(start, end)`, the label and the text (`None` when it holds `¶`) |
| AmicaConvert.AnnLineWords | src/amica_processing.py:76 | the second column of a well-formed line splits into exactly the label and the two offsets |
| AmicaConvert.DecimalWord | src/amica_processing.py:76 | a written offset is one non-empty word |
| AmicaConvert.ParseOffsets | src/amica_processing.py:78 | `int()` reads the written offsets back |
| AmicaConvert.ShortLineIndexError | src/amica_processing.py:76-85 | a line with fewer than two columns or fewer than two words in its second column raises `IndexError` |
| AmicaConvert.CollectOutcome | src/amica_processing.py:74-85 | the comprehension builds the map iff every line parses; it ends in `IndexError` or `ValueError` iff the first failing line raised that error |
| AmicaConvert.FirstFailureUnique | src/amica_processing.py:74-85 | there is only one first failing line |
| AmicaConvert.CollectLastWins | src/amica_processing.py:76-81 | a start offset is a key iff some line has it, and it holds the annotation of the last such line |
| AmicaConvert.CollectKeys | src/amica_processing.py:76 | the keys are exactly the start offsets of the lines |
| AmicaConvert.CollectLast | src/amica_processing.py:76-81 | a key holds the annotation of the last line with that start |
| AmicaConvert.AnnFromLastWins | src/amica_processing.py:76-81 | for well-formed lines the map is built, with later lines overwriting earlier ones at the same start |
| AmicaConvert.ConvertOutcome | src/amica_processing.py:57-87 | `convert` fails iff the first failing annotation line raised `ValueError`; otherwise it returns the text map, and the annotation map is empty after an `IndexError` and the built map when every line parses |
| AmicaEntries.Entry.constructor | src/amica_processing.py:184 | a fresh entry has no data |
| AmicaEntries.AddLabelEffect | src/amica_processing.py:151-154 | appending a text to a label extends that label's texts and no other's, adds the label at the end when it is new, and keeps label names distinct |
| AmicaEntries.AddLabelLookup | src/amica_processing.py:151-154 | after the append, the named label's texts gain the text and other labels are unchanged |
| AmicaEntries.AddLabelNames | src/amica_processing.py:151-154 | the label names keep their first-insertion order and stay distinct |
| AmicaEntries.DistinctTail | src/amica_processing.py:151-154 | the tail of distinct names is distinct and lacks the head |
| AmicaEntries.LookupNames | src/amica_processing.py:151-154 | a label has texts iff it is among the names |
| AmicaEntries.EntryToData | src/amica_processing.py:118-166 | the entry's data and the error equal the specification: sentences in key order, each scanned at the running cursor, recorded at its index; an error stops the walk with the earlier records kept |
| AmicaEntries.ScanSentence | src/amica_processing.py:145-157 | the per-character loop gives the scan of the sentence's character range |
| AmicaEntries.ScanFailureSticks | src/amica_processing.py:145-157 | once a character has raised, the rest of the sentence does not change the outcome |
| AmicaEntries.FillErrorSticks | src/amica_processing.py:143-165 | once a sentence has raised, the later sentences do not change data or error |
| AmicaEntries.InsertItemSpec | src/amica_processing.py:143 | inserting into key-sorted items keeps them a sorted permutation plus the new item |
| AmicaEntries.InsertItemPermutes | src/amica_processing.py:143 | insertion adds exactly the new item |
| AmicaEntries.InsertItemSorted | src/amica_processing.py:143 | insertion keeps the items sorted by key |
| AmicaEntries.SortItemsSpec | src/amica_processing.py:143 | `sorted(text_lines.items())` is a permutation of the items, sorted by key, and keeps keys distinct |
| AmicaEntries.SortItemsPermutes | src/amica_processing.py:143 | the sorted items are a permutation, sorted by key |
| AmicaEntries.PermutationKeepsDistinct | src/amica_processing.py:143 | a permutation of items with distinct keys has distinct keys |
| AmicaEntries.MultisetTwice | src/amica_processing.py:143 | an item at two positions occurs at least twice |
| AmicaEntries.MultisetOnce | src/amica_processing.py:143 | with distinct keys every item occurs once |
| AmicaEntries.SortItemsSorted | src/amica_processing.py:143 | items already in increasing key order are left as they are |
| AmicaEntries.ScanFailure | src/amica_processing.py:146-148 | a sentence raises `IndexError` iff an annotation starting in its range has a single offset, and the error is at the first such position |
| AmicaEntries.ScanMacro | src/amica_processing.py:148-149 | the macro is `None` iff no one-character annotation starts in the range; otherwise it is the label of the last one |
| AmicaEntries.ScanLabels | src/amica_processing.py:144-154 | each label's texts are the texts of the non-macro annotations with that label in the range, in position order; names are distinct and each has at least one text |
| AmicaEntries.AddLabelTexts | src/amica_processing.py:151-154 | appending keeps every label's text list non-empty |
| AmicaEntries.ScanNothing | src/amica_processing.py:144-157 | a range with no annotation yields no labels and no macro |
| AmicaEntries.ScanLocal | src/amica_processing.py:145-157 | the scan depends only on the annotations inside the range |
| AmicaEntries.ScanLabelOrder | src/amica_processing.py:144-154 | the label names of a sentence are the labels of its non-macro annotations, each once, in the order of its first annotation |
| AmicaEntries.NonMacroLabelsFirst | src/amica_processing.py:145-154 | there are no non-macro labels iff every annotation in range is a macro; otherwise the first is the label of the lowest-offset non-macro annotation |
| AmicaEntries.FirstSeenMembers | src/amica_processing.py:151-154 | the first-seen order holds exactly the labels that occur |
| AmicaEntries.FirstSeenDistinct | src/amica_processing.py:151-154 | the first-seen order holds each label once |
| AmicaEntries.FirstSeenHead | src/amica_processing.py:151-154 | the first-seen order starts with the first label |
| AmicaEntries.FirstSeenPrefix | src/amica_processing.py:151-154 | later labels never reorder earlier ones: each prefix's first-seen order is a prefix of the whole one |
| AmicaEntries.NonMacroLabels | src/amica_processing.py:145-154 | definition of the labels of the non-macro annotations in range, in offset order |
| AmicaEntries.FirstSeen | src/amica_processing.py:151-154 | definition of the distinct elements in order of first occurrence |
| AmicaEntries.AddLabel | src/amica_processing.py:151-154 | definition of the append with the `KeyError` fallback (AddLabelEffect) |
| AmicaEntries.Lookup | src/amica_processing.py:152 | definition of a label's text list, empty for an absent label |
| AmicaEntries.Names | src/amica_processing.py:221 | definition of the label keys in insertion order |
| AmicaEntries.Step | src/amica_processing.py:146-157 | definition of one character of the inner loop: no annotation, `IndexError`, macro or label (ScanFailure, ScanMacro, ScanLabels) |
| AmicaEntries.Scan | src/amica_processing.py:144-157 | definition of the inner loop over a sentence's characters |
| AmicaEntries.Cursor | src/amica_processing.py:142-158 | definition of the cursor after the given sentences (CursorStep, CursorIsFileOffset, CursorLagsBlankLines) |
| AmicaEntries.Scope | src/amica_processing.py:159 | definition of the scope character (ScopeRule) |
| AmicaEntries.MakeRecord | src/amica_processing.py:160-165 | definition of the record written for one sentence (FillRecords) |
| AmicaEntries.Fill | src/amica_processing.py:142-165 | definition of the outer loop over the items, stopping at the first error (FillKeys, FillRecords, FillErrorSticks) |
| AmicaEntries.InsertItem | src/amica_processing.py:143 | definition of insertion by key (InsertItemSpec) |
| AmicaEntries.SortItems | src/amica_processing.py:143 | definition of `sorted(text_lines.items())` (SortItemsSpec) |
| AmicaEntries.EntryToDataSpec | src/amica_processing.py:118-166 | definition of `entry_to_data` on the sorted items; EntryToData is proved equal to it |
| AmicaEntries.FillLocal | src/amica_processing.py:142-165 | the records depend only on annotations at positions some sentence covers |
| AmicaEntries.CursorStep | src/amica_processing.py:157-158 | the cursor advances by the sentence length plus one per sentence |
| AmicaEntries.CursorMonotone | src/amica_processing.py:157-158 | the cursor advances at least one per sentence |
| AmicaEntries.SeparatorNotCovered | src/amica_processing.py:157-158 | the position skipped after a sentence is covered by no sentence |
| AmicaEntries.SeparatorAnnotationIgnored | src/amica_processing.py:142-158 | an annotation at a skipped position changes nothing |
| AmicaEntries.FillCleanPrefix | src/amica_processing.py:143-165 | a walk without error extends the walk of the preceding sentences by one record for the last sentence |
| AmicaEntries.FillKeys | src/amica_processing.py:143-165 | after a walk without error the keys are the old keys plus the sentence indices, and records at other keys are untouched |
| AmicaEntries.FillRecords | src/amica_processing.py:159-165 | each sentence's record holds the sentence with `¶ ` removed, its scanned labels and macro, and its scope |
| AmicaEntries.ScopeRule | src/amica_processing.py:159 | scope is `'q'` for even and `'a'` for odd indices of files whose name contains `ask`, and `'?'` otherwise |
| AmicaEntries.TextItems | src/amica_processing.py:72-73 | the text map's items are the kept lines numbered from 0 |
| AmicaEntries.TextItemsSorted | src/amica_processing.py:143 | the text map of `convert` is already sorted by key, with distinct keys |
| AmicaEntries.CursorIsFileOffset | src/amica_processing.py:142-158 | when the lines before line `i` are not blank and each ends in its only newline, the cursor on entering sentence `i` is that line's character offset in the `.txt` file, whatever the later lines are |
| AmicaEntries.TextItemsPrefix | src/amica_processing.py:72-73 | with no blank line before line `i`, the first `i` items of the text map are those of the first `i` lines |
| AmicaEntries.BlankLineShiftsCursor | src/amica_processing.py:142-158 | a dropped blank line makes the cursor lag behind the file offset: for `["\n", "ab\n"]` the second line starts at file offset 1 but is scanned from 0 |
| AmicaEntries.CursorLagsBlankLines | src/amica_processing.py:142-158 | for every file whose lines end in their only newline, the cursor after the first `k` lines plus the number of blank lines among them is their file offset |
| AmicaEntries.CursorLineStep | src/amica_processing.py:157-158 | one more line of the file moves the cursor by its sentence length plus one, or not at all when the line is blank |
| AmicaEntries.LineBody | src/amica_processing.py:73 | a line ending in its only newline is stored one character shorter |
| AmicaEntries.BlankLines | src/amica_processing.py:73 | definition of the number of lone `"\n"` lines that the text map drops |
| AmicaEntries.FileOffset | src/amica_processing.py:142 | definition of the character offset of a line in the `.txt` file |
| AmicaCsv.LabelCellRule | src/amica_processing.py:221-223 | no labels gives `Negative`; flattened, the cell is the first label; unflattened, the cell splits on `", "` back into the label names |
| AmicaCsv.JoinEmpty | src/amica_processing.py:223 | a join with `", "` is empty only for no parts or one empty part |
| AmicaCsv.FlatIsFirstLabel | src/amica_processing.py:221-222 | the flattened cell is the cell of the first label alone |
| AmicaCsv.MacroCellRule | src/amica_processing.py:224 | the macro cell is `Negative` iff the macro is missing, empty or itself `Negative`; otherwise it is the macro |
| AmicaCsv.AddLabelWellNamed | src/amica_processing.py:151-154 | appending a non-empty space-free label keeps all names non-empty and space-free |
| AmicaCsv.ParsedLabelIsWord | src/amica_processing.py:80 | a label read by `convert` is a non-empty word |
| AmicaCsv.SentenceLabelCell | src/amica_processing.py:221-223 | when the annotations carry word labels, a sentence's unflattened cell splits back into its label names, or is `Negative` when it has none |
| AmicaCsv.NamesOf | src/amica_processing.py:221 | the label keys are the names of the label entries, in order |
| AmicaCsv.FlatCellIsFirstAnnotation | src/amica_processing.py:221-223 | a sentence's flattened label cell is the label of its first non-macro annotation, `Negative` when that is empty; with no non-macro annotation both cells are `Negative` |
| AmicaCsv.LabelCell | src/amica_processing.py:221-223 | definition of the label cell (LabelCellRule, FlatIsFirstLabel) |
| AmicaCsv.MacroCell | src/amica_processing.py:224 | definition of the macro cell (MacroCellRule) |
| PyStr.SliceIsPiece | src/twitIE_amica.py:307 | `text[s:e]` is a piece of the text, equal to `text[s..e]` for indices in range and empty for reversed ones |
| PyStr.ReplaceIsSplitJoin | src/twitIE_amica.py:360 | `replace` with a non-empty pattern is split on the pattern, then join with the replacement |
| PyStr.ReplaceCharByNothing | src/amica_processing.py:73 | `replace('\n', '')` removes every newline and nothing else |
| PyStr.SplitJoinRoundTrip | src/twitIE_amica.py:363 | `split(sep)` gives at least one piece, and joining the pieces with `sep` restores the string |
| PyStr.JoinSplitRoundTrip | src/amica_processing.py:221 | joining parts that cannot create a separator and splitting again restores the parts |
| PyStr.WordsOfJoin | src/twitIE_amica.py:47-50 | `' '.join` of whitespace-free non-empty words splits back into the same words |
| PyStr.ParseDecimal | src/amica_processing.py:78 | `int(str(n))` is `n` |
| PyStr.ContainsAt | src/amica_processing.py:159 | `sub in s` iff `sub` occurs at some position |
| PyStr.Slice | src/twitIE_amica.py:307 | definition of `s[i:j]` with clamping and negative indices (SliceIsPiece) |
| PyStr.Contains | src/amica_processing.py:159 | definition of `sub in s` (ContainsAt) |
| PyStr.Join | src/twitIE_amica.py:50 | definition of `sep.join(parts)` |
| PyStr.Split | src/twitIE_amica.py:363 | definition of `s.split(sep)` for a non-empty separator (SplitJoinRoundTrip, JoinSplitRoundTrip) |
| PyStr.Replace | src/twitIE_amica.py:360 | definition of `s.replace(a, b)`, including the empty pattern (ReplaceIsSplitJoin, ReplaceCharByNothing) |
| PyStr.Words | src/twitIE_amica.py:47 | definition of `s.split()`: maximal runs of non-whitespace (WordsShape, WordsOfJoin) |
| PyStr.Strip | src/twitIE_amica.py:41 | definition of `s.strip()` |
| PyStr.ParseInt | src/amica_processing.py:76-78 | definition of `int(s)` on decimal strings (ParseDecimal) |

## Left out

- File I/O is not part of this model: reading `.ann`/`.txt` files and directories (`annotations`, `files_to_dict`), writing JSON and CSV, and the CSV quoting. The lines and rows are values.
- `err_check` and `error_check=True` are not modelled. The model covers the default `error_check=False` only.
- The HTTP `process` function, the batching of captions, argparse and pandas are not modelled. The recogniser's responses are inputs to `get_entities` and `process_merge`.
- The regular expression of `clean` is modelled as the set of removed punctuation characters it matches. No regular-expression engine is modelled.
- PyStr.ParseInt: `int()` is modelled for ASCII digits with an optional sign and surrounding whitespace only. Underscores and non-ASCII digits are not accepted.
- An entity without an `indices` field raises `KeyError` at src/twitIE_amica.py:84, 107, 130, 142 or 154. The model's `Entity` always has an `indices` list, so it cannot represent that entity; the recogniser's JSON is not modelled beyond the fields the code reads.
- AmicaConvert.ParseLine: the dict comprehension evaluates the key before the value, as Python 3.8 and later do. Under earlier versions the value is evaluated first, so a line such as `"Tx\tLabel"` raises `ValueError` (the run aborts) instead of `IndexError` (empty annotation map); those versions are not modelled.
- TwitieEntities.AttrOr: entity attributes are modelled as a string or `null` only. Other JSON values would make the string concatenation of `process_merge` raise, and they are not modelled.
- Dictionary insertion order of `hash_dict` and of `entry["data"]` is not modelled, because both are maps. The CSV row order within a file is therefore not modelled either. The order of labels within a record is modelled, as a sequence of label entries.
- AmicaEntries.EntryToData: `text_lines` is given as its list of items, which may be any list with distinct keys. The map `convert` builds is `TextItems`.
- The loops of `process_merge` and `entry_to_data` are split into helper methods, one per inner loop. The order of operations and the updates are the same.
- The sentence text after `replace('¶ ', '')` can still contain `¶ ` (for example `"¶¶  "` leaves `"¶ "`). The model reproduces this and states no property that excludes it.
