# A verified model of the translator's binary codecs and of its remote agent

The repository translates game plugins. One half reads and rewrites binary files: plugin
records with nested groups, script properties, string tables and compiled scripts. The other
half is an agent that runs on a borrowed machine for days: it takes packages of strings, cuts
them into prompts for a language model, places the numbered answers back on the strings, keeps
every result durably and delivers it to a host that may be away, fail, or fall back to an old
backup, while the machine's owner decides when it may work at all.

This project models both halves in Dafny and proves what they are for.

## What is proved

**Plugins.** `VmadFormat` is the format of script properties as data with a printer of its own: of
everything printed, the parser records exactly the string and string-array values in order. `Vmad`
describes that parser as a machine over the remaining bytes. `RewriteIsExact` is a statement about
any bytes whatever: parsing the rewritten data finds as many strings in the same order, the wanted
ones new, all others and every byte between the strings as before, and the only string the
in-bounds guard can skip is a truncated one, which can only be the last. `VmadCode` proves the
cursor-moving parser and the back-to-front splicing against it. `Subrecords` shows that parsing
undoes building exactly when no field is four bytes named XXXX. `FieldRules` says without the
extractor's state which fields of a record hold text, and proves that exactly those are reported.
`Records`, `Plugin` and `PluginCode` carry this through records, compression and nested groups:
extracting after a rewrite equals extracting before with exactly the addressed texts exchanged,
group sizes are right again, unaddressed records are identical byte for byte, and an empty map
changes nothing. `PluginRoundTrip` closes the circle: extract, translate, build the map, rewrite,
extract.

**String tables and scripts.** `StringTable`: what is built parses back, and every distinct
payload is stored once. `LocalizedStrings`: load, set, write, load changes one id and no other,
and the two ways to look a text up never disagree. `Pex`: rewriting a compiled script changes
the chosen entries of its string table, leaves every other entry as it decodes and everything
outside the table alone, and its self-check never turns a rewrite down.

**Masking.** `Masking` and `Tokens`: replacing tokens by placeholders one first occurrence after
another, and restoring all occurrences number by number, gives the text back. `TokenPatterns`
writes the two regular expressions down as they stand in the source, in the backtracking
semantics of `Regex`, and proves that their matches are exactly what is masked.

**Batches.** `Batching`: the three cuts applied one after another take the longest valid batch
every time, and therefore no division of the list into consecutive valid batches is shorter.
`Grouping` and `Scenes`: the regrouping is a stable permutation with one run for each key, scenes
come first and in order of play, and one pass puts every pending line into exactly one batch.

**Answers.** `NumberedAnswer` pairs the printer of numbered lists with their parser, which works
by three regular expressions (`NumberPatterns` ties the parser's searches to them): an answer of m
items to a batch of n >= 2 lines is laid out by position if and only if m = n, and then every text
lands on its own line, behind any thinking too. `Provenance` follows every stored line to one call
of the model, through the repeats and the tournament of candidates, for any model and any judge:
the line left is the end of a chain of winners, without candidates the first answer's, and nothing
else. It says exactly when a line cut by the token ceiling is kept from the finished work;
`UnfinishedAnswer` justifies which line that is.

**Delivery.** `ResultStore` models the tables and the object around them. `Protocol` interleaves
production, delivery, heartbeat, crashes and host rollbacks step by step and proves what every
run keeps, also after a rollback, exactly which runs lose a row, and that from every state a run
can reach, each assignment can still be finished. `Delivery` models the deliver
loop, bounds how long rejected rows can hold up the others, and says exactly which rows they hold
up for good. `Drain` proves that the loop over open assignments ends and how.

**Hours.** `WorkSchedule` says what a schedule as sent promises for a minute and proves that it is
kept, turns the two branches of the window test into intervals, counts a week, and says exactly
when the scan of one week answers the unbounded question. `Residency` models the flags that say
why no model is loaded, with every await a point of interleaving: what each look at the clock
begins, that a machine which slept has its model back in the morning, and when debts end.

## Where the code does less than it seems to

The comments in the source promise the first four without the condition; about the last three they
say no more than that large sizes are handled and that one bad row cannot force endless resends.
The model follows the code. Each is a lemma with a concrete input, beside the exact condition
under which the code does meet the property.

* A numbered answer may print its numbers out of order. The line cut by the token ceiling is then
  not the last filled one, is not marked, and can be stored as translated
  (`Provenance.SwappedCutSlipsThrough`; exactly when, for the first answer, a repeat or a
  candidate: `Provenance.CutIsHeldBackThrough`).
* `next_change` scans one week. With free dates it may answer "never" although a change comes
  later (`WorkSchedule.FreeDatesHideAChange`; exactly when: `WorkSchedule.NextFlipIsRight`).
* The flags "asleep", "handed back for idleness" and "a wake is owed" exclude each other unless an
  idle unload finishes while the pull worker is loading and that load fails
  (`Residency.MixedRunMixes`; exactly when: `Residency.ExclusiveStep` for a step and
  `Residency.AlwaysExclusive` for a run).
* A reply that was on its way when the host fell back marks rows delivered that the host has lost
  (`Protocol.StaleReplyLosesARow`; exactly when: `Protocol.ReplyLosesExactly` for a step,
  `Protocol.LosslessExactly` and `Protocol.OnlyStaleRepliesLose` for a run).
* A four-byte field named XXXX, once written back, is swallowed by the next parse
  (`Subrecords.XxxxFieldIsLost`; exactly when: `Subrecords.BuildThenParse`).
* 200 rejected rows in front hold up every row behind them for good
  (`Delivery.EnoughPoisonBlocks`; exactly which rows: `Delivery.RowGetsOutExactly`).
* A record or field name that is not ASCII makes the rewrite raise, even with nothing to translate,
  because the error handler the code names does not exist (`Plugin.ForeignNameRaises`; exactly when:
  `Plugin.EmptyMapIsIdentity`).

## What is assumed

Foreign code enters as parameters: the compressor with the law that inflating undoes deflating,
the text codec of compiled scripts with the law that decoding twice is decoding once, the tests
for letters and blank text, the language model, the judge, the scorer, Python's character classes
`\w` and `\d`, and the host's answers. Of those two classes `TokenPatterns` needs that the letters
of tag names and the digits 1 to 6 are word characters, and that no decimal digit is a point or
the last character of a printf token. Texts of the binary formats are byte strings. The order
`sorted` produces is given by a stable insertion. A transaction of the store is atomic. An
assignment is dispatched again only with the items it had. One production task and one deliver
loop run at a time. Files are well formed in the sense of `Plugin.WellFormed`: a group's size
counts its header, so it is at least 24.
## Model

| member | source | states |
|---|---|---|
| `Subrecords.BuildThenParse` | scripts/esp_engine.py:108-146 | parsing undoes building if and only if no field is four bytes named XXXX |
| `Subrecords.XxxxFieldIsLost` | scripts/esp_engine.py:108-146 | a file that holds a four-byte field named XXXX behind a size prefix: it is parsed, written back, and gone at the next parse |
| `Subrecords.PrefixIsLost` | scripts/esp_engine.py:108-146 | a built field that looks like a size prefix never reads back |
| `Subrecords.ParseReadsWhatItYields` | scripts/esp_engine.py:108-132 | the fields a parse yields never cost more bytes to write than it has read |
| `Subrecords.ParseSubrecords` | scripts/esp_engine.py:108-132 | the loop over positions returns exactly the fields of the data, or raises where the size prefix is cut off |
| `Subrecords.BuildSubrecords` | scripts/esp_engine.py:135-146 | the loop writes every field in order and raises exactly when one is too large for 32 bits |
| `Bytes.LittleEndian` | scripts/esp_engine.py:74-77 | the least byte of a number comes first |
| `Subrecords.SmallFieldInBytes` | scripts/esp_engine.py:108-146 | a field byte by byte, written so and read so |
| `Subrecords.LargeFieldInBytes` | scripts/esp_engine.py:108-146 | a field of 65536 bytes or more byte by byte, behind its size prefix, written so and read so |
| `Vmad.GapsAndStringsMakeTheData` | scripts/esp_engine.py:208-279 | the recorded strings and the bytes between them make up the data again: nothing is read twice or skipped |
| `Vmad.OnlyTheLastIsClipped` | scripts/esp_engine.py:235-244 | a string that runs past the end of the data can only be the last one recorded |
| `Vmad.RewriteCommutesWithScan` | scripts/esp_engine.py:208-310 | two parser runs in lockstep: scanning rewritten bytes records the same strings with the wanted ones exchanged, and the same bytes between them |
| `Vmad.RewriteIsExact` | scripts/esp_engine.py:208-310 | for any bytes and any texts of at most 65535 bytes: same number, same order, wanted and complete strings new, everything else as before |
| `Vmad.UnwantedChangesNothing` | scripts/esp_engine.py:282-310 | texts for no string of the data leave the data as it is |
| `VmadFormat.PrintedIsRead` | scripts/esp_engine.py:208-279 | for contents written out value by value (version, object format, fragments left aside; scripts with their properties of all eleven types) and whatever follows them, the strings recorded are exactly the string and string-array values in their order, none clipped |
| `VmadCode.Reader.GetLenString` | scripts/esp_engine.py:235-244 | records one string at the cursor and leaves the rest of the scan to come; raises when the prefix is cut off |
| `VmadCode.Reader.ReadProperties` | scripts/esp_engine.py:246-263 | one property of any type moves the cursor so that the strings still to come are those of the scan |
| `VmadCode.Reader.ReadScript` | scripts/esp_engine.py:265-269 | one script, its name, status and properties, likewise |
| `VmadCode.ParseVmadStrings` | scripts/esp_engine.py:208-279 | the cursor-moving parser records exactly the scan, also when it stops early; of printed contents it records exactly their string values |
| `VmadCode.OffsetsRise` | scripts/esp_engine.py:235-244 | strings are recorded at rising offsets and never overlap, so patches may be applied from the back |
| `VmadCode.SplicingRewrites` | scripts/esp_engine.py:292-310 | splicing the patches from the back, each behind its guard, gives exactly the rewritten data |
| `VmadCode.RewriteVmadStrings` | scripts/esp_engine.py:282-310 | returns the rewritten bytes and whether any string was wanted |
| `FieldRules.TranslatableIsListed` | scripts/esp_engine.py:36-70 | a field name stands for text in a record if and only if the table of the source lists the pair, or the name for every record |
| `FieldRules.ExtractedExactly` | scripts/esp_engine.py:315-404 | a text is reported if and only if the rules say so of some field: the table, the settings, perks and notes steered by the fields before, and the strings of script properties |
| `Records.SteeringIsNotText` | scripts/esp_engine.py:315-404 | a field that is extracted never steers the extractor, whatever its content becomes, so rewriting texts cannot change what is extracted later |
| `Records.NewDataExactly` | scripts/esp_engine.py:441-480 | exactly what is written into each field, when nothing is, and when the code raises |
| `Records.FieldSubst` | scripts/esp_engine.py:340-404 | writing a translation into a field changes the texts reported of it as the map says |
| `Records.FieldsSubst` | scripts/esp_engine.py:315-480 | the same for all fields of a record: field indices agree in both walks |
| `Plugin.RecordLayout` | scripts/esp_engine.py:176-203 | where type, size, flags, form id, the rest of the header and the payload of a record stand |
| `Plugin.GroupLayout` | scripts/esp_engine.py:183-203 | where the parts of a group stand, and that its size counts the header |
| `Plugin.CompressionIsTransparent` | scripts/esp_engine.py:162-174 | setting bit 18 and compressing the payload behind its size changes no field and no text of a record |
| `Plugin.RecordSubst` | scripts/esp_engine.py:441-490 | a rewritten record reads back and reports its texts exchanged as the map says; only its payload differs |
| `Plugin.ExtractAfterRewrite` | scripts/esp_engine.py:407-518 | for every well-formed nested plugin, extracting after a rewrite equals extracting before with exactly the addressed texts exchanged, clipped script strings aside |
| `Plugin.OnlySizesRaise` | scripts/esp_engine.py:441-518 | where every record reads and every name is ASCII, with usable translations of reported texts a rewrite fails if and only if some field, record or group has a size that does not fit 32 bits |
| `Plugin.RewriteKeepsShape` | scripts/esp_engine.py:493-518 | groups and records stay in order with headers and ids untouched; unaddressed records are identical |
| `Plugin.EmptyMapIsIdentity` | scripts/esp_engine.py:441-518 | rewriting with an empty map is the identity, or raises, exactly when some record does not read or carries a name that is not ASCII |
| `Plugin.ForeignNameRaises` | scripts/esp_engine.py:454-473 | one empty record with such a name: extraction reports nothing, a rewrite with nothing to translate raises |
| `PluginCode.ExtractStringsFromRecord` | scripts/esp_engine.py:315-404 | the loop over a record's fields reports exactly the texts of the record |
| `PluginCode.ApplyTranslationsToRecord` | scripts/esp_engine.py:441-490 | returns the bytes of the rewritten record, or none exactly when nothing in it changes |
| `PluginCode.Walk` | scripts/esp_engine.py:183-203 | walking the bytes of nested groups visits exactly the records the bytes stand for |
| `PluginCode.RewriteChunk` | scripts/esp_engine.py:496-513 | the recursive copy writes exactly the rewritten nodes, with every group size recomputed |
| `PluginCode.RewriteEsp` | scripts/esp_engine.py:493-518 | the output of a whole file is again a plugin with every size right; with usable translations of reported texts, readable records and ASCII names the code raises exactly when some size does not fit, and with any others exactly when the specified rewrite does |
| `PluginRoundTrip.BuildTransMap` | scripts/esp_engine.py:919-931 | the loop over reported texts builds the map of their non-blank translations |
| `PluginRoundTrip.MapReflects` | scripts/esp_engine.py:919-931 | when no two texts share a place, the map holds for each exactly its own translation, or none when that is blank |
| `PluginRoundTrip.OnlyNamedPlaces` | scripts/esp_engine.py:919-931 | every entry of the map comes from a reported text and its translation |
| `PluginRoundTrip.TranslationRoundTrip` | scripts/esp_engine.py:407-518 | extract, build the map, rewrite, extract: every text in its place, translated where a translation was given, but for a script string cut off by the end of its field, which stays; only a size that does not fit can make the rewrite fail |
| `StringTable.ParseStringsBytes` | scripts/strings_codec.py:73-97 | reads the directory and both kinds of payload, skipping offsets outside the file, and raises on a directory that is cut off |
| `StringTable.ParsedExactly` | scripts/strings_codec.py:73-97 | a file shorter than its header is empty, one whose directory is cut off raises, and any other holds exactly the ids of the readable entries, each with the text its last readable entry points at |
| `StringTable.OneTextFile` | scripts/strings_codec.py:100-123 | a file of one text, byte by byte |
| `StringTable.Distinct` | scripts/strings_codec.py:100-123 | every payload that is used is kept, and kept once |
| `StringTable.BuiltEntries` | scripts/strings_codec.py:100-123 | every directory entry of a built file points at the payload of its id |
| `StringTable.ParseAfterBuild` | scripts/strings_codec.py:73-123 | what is built parses back to the table cut at NULs, which is the table itself if and only if no text contains one |
| `StringTable.BuildStringsBytes` | scripts/strings_codec.py:100-123 | the loop with its dictionary of offsets writes ids in ascending order over one copy of each distinct payload, and raises exactly when a number does not fit 32 bits |
| `LocalizedStrings.LoadIsCoherent` | scripts/strings_codec.py:211-226 | after loading, every id is filed under the last file that has it |
| `LocalizedStrings.KindsAreRead` | scripts/strings_codec.py:211-226 | each kind of file is read in its own format, a missing one as empty, and an id in several belongs to the last of them |
| `LocalizedStrings.TextIsMerged` | scripts/strings_codec.py:231-239 | looking an id up and looking into the merged table always agree |
| `LocalizedStrings.SetChangesOne` | scripts/strings_codec.py:241-248 | setting a text changes one id of the merged table and no other; an unknown id changes nothing |
| `LocalizedStrings.LoadAfterWrite` | scripts/strings_codec.py:211-262 | loading what was written gives the tables with each text cut at its first NUL, when a kind without entries has none on disk either |
| `LocalizedStrings.SetSurvivesTheDisk` | scripts/strings_codec.py:211-262 | load, set, write, load: the new text under that id, every other id as before |
| `LocalizedStrings.Strings.GetText` | scripts/strings_codec.py:231-233 | the text of an id is its text in the merged table |
| `LocalizedStrings.Strings.GetMerged` | scripts/strings_codec.py:235-239 | merging the tables file by file gives the merged table |
| `LocalizedStrings.Strings.SetText` | scripts/strings_codec.py:241-248 | sets the text in the file the id belongs to and says whether the id was known |
| `LocalizedStrings.Strings.WriteFiles` | scripts/strings_codec.py:250-262 | writes every non-empty table and leaves the other files alone |
| `LocalizedStrings.LoadStrings` | scripts/strings_codec.py:211-226 | the object holds what the files hold, filed coherently |
| `Pex.HeaderIsLocal` | scripts/pex_engine.py:47-55 | where the table starts is decided by the bytes before it alone |
| `Pex.PrintedScriptParses` | scripts/pex_engine.py:43-67 | every script written out as the format says (magic, versions, game, time, three names, count, texts) parses to its texts |
| `Pex.OnlyScriptsParse` | scripts/pex_engine.py:47-51 | data that does not begin with the magic number, byte by byte, is neither parsed nor rewritten |
| `Pex.RebuiltParses` | scripts/pex_engine.py:58-111 | a rebuilt script parses to exactly the new texts, with header and tail untouched |
| `Pex.RewriteKeepsTheScript` | scripts/pex_engine.py:86-111 | same count and order, replaced texts at their indices, and elsewhere the entry itself if and only if its bytes decode to themselves |
| `Pex.RewriteRaisesExactly` | scripts/pex_engine.py:78-111 | nothing to replace leaves a script as it is; otherwise the rewrite raises if and only if some new or decoded text has 65536 bytes or more |
| `Pex.ParseStringTable` | scripts/pex_engine.py:58-67 | the advancing cursor returns the table's entries and the stretch it occupies |
| `Pex.BuildStringTable` | scripts/pex_engine.py:78-83 | the loop writes the count and every length-prefixed text, and raises when one does not fit |
| `Pex.RewritePexStrings` | scripts/pex_engine.py:86-111 | with its self-check in place the code still returns exactly the rewrite: the check never turns one down |
| `Masking.MaskingPlaces` | scripts/esp_engine.py:549-556 | replacing first occurrences one by one puts every placeholder where its token stood |
| `Masking.RestoringUnmasks` | scripts/esp_engine.py:583-597 | replacing all occurrences number by number puts every token back between its gaps |
| `Masking.CutUpIsWell` | scripts/esp_engine.py:549-555 | the tokens found from left to right and the texts between them make up the text, and no token starts between two |
| `TokenPatterns.TagMatches` | scripts/esp_engine.py:524-527 | the first regular expression as written has a match at a place if and only if the matcher takes a tag there, and then ends where it does |
| `TokenPatterns.TokenMatches` | scripts/esp_engine.py:530-536 | the same of the second regular expression and game tokens |
| `TokenPatterns.MasksThePatterns` | scripts/esp_engine.py:539-560 | what is masked are the texts of exactly the matches of the first expression, and of the second in the text whose tags are hidden already |
| `Tokens.TagsAreRegular` | scripts/esp_engine.py:524-527 | a formatting tag is recognised from its own characters and cannot end inside a placeholder |
| `Tokens.GameTokensAreRegular` | scripts/esp_engine.py:530-536 | a game token is recognised from its own characters; a dollar token, which may swallow a placeholder, starts wherever a dollar sign precedes anything but white space |
| `Tokens.FoldExactly` | scripts/esp_engine.py:524-536 | letters are compared without case: the alphabet, the four further letters Python takes for one of it, and nothing else |
| `Tokens.MaskingIsUndone` | scripts/esp_engine.py:539-599 | for every text without a placeholder or an arrow of its own, restoring what was prepared gives the text |
| `Tokens.EchoIsStripped` | scripts/esp_engine.py:563-576 | what follows the last arrow, trimmed, is kept alone if and only if it is not empty and more than 15 in a hundred of its characters are Cyrillic |
| `Tokens.PrepareForAi` | scripts/esp_engine.py:539-560 | both masking loops for every text |
| `Tokens.RestoreFromAi` | scripts/esp_engine.py:579-599 | both restoring loops for every pair of translation and tokens, as many as the shorter list has |
| `Tokens.RoundTrip` | scripts/esp_engine.py:539-599 | a whole list sent and put back unchanged is itself again |
| `Batching.SegmentFits` | remote_worker/offline_translate.py:305-321 | every stretch of a batch that fits the limits fits them too |
| `Batching.ValidExactly` | remote_worker/offline_translate.py:305-321 | the limits on a batch in numbers: 32 lines, 2000 characters, 6 blocks of known names, 12 lines of talk, and one speaker, style, record type, field type and, where mods are split, mod |
| `Batching.PlanBatch` | remote_worker/offline_translate.py:521-537 | takes as many lines as the character budget and the item cap allow, and one at least |
| `Batching.CutKey` | remote_worker/offline_translate.py:904-912 | the longest leading stretch of one key, ended also by a line of a live scene |
| `Batching.FitContext` | remote_worker/offline_translate.py:305-321 | the longest leading stretch whose names and conversation fit one prompt, and one line at least |
| `Batching.NextBatch` | remote_worker/offline_translate.py:895-914 | the three cuts after one another give a valid batch that ends with the work, before a live scene, or where one line more would break a limit; without live scenes it is the longest valid one |
| `Batching.LongestIsLongest` | remote_worker/offline_translate.py:895-914 | no valid batch at the head of the list is longer than the one taken |
| `Batching.GreedyDivides` | remote_worker/offline_translate.py:851-914 | the batches taken are consecutive, valid, and together the whole list |
| `Batching.GreedyIsOptimal` | remote_worker/offline_translate.py:851-914 | they are as few as in any division of the list into consecutive valid batches |
| `Grouping.GroupedIsStable` | remote_worker/offline_translate.py:179-189 | inside a group nothing changes places |
| `Grouping.GroupedIsPermutation` | remote_worker/offline_translate.py:179-189 | nothing is lost or doubled by grouping |
| `Grouping.GroupedHasRuns` | remote_worker/offline_translate.py:179-189 | every key stands in one run |
| `Grouping.GroupInOrder` | remote_worker/offline_translate.py:179-189 | the dictionary of lists, read out in order of first appearance, is that grouping |
| `Scenes.CountLiveScenes` | remote_worker/offline_translate.py:236-250 | the counting loop returns exactly the scenes with two pending lines or more |
| `Scenes.LiveExactly` | remote_worker/offline_translate.py:236-250 | a scene is live if and only if it has a name and two lines anywhere in the work |
| `Scenes.LiveSurvivesReordering` | remote_worker/offline_translate.py:839-841 | reordering the work makes no scene live or dead, so asking again after grouping is sound |
| `Scenes.SortedIsInOrder` | remote_worker/offline_translate.py:271-272 | lines of a scene come by place and then by string id |
| `Scenes.SortedIsStable` | remote_worker/offline_translate.py:271-272 | lines of equal place and id stay as they stood |
| `Scenes.SceneOrderIsPermutation` | remote_worker/offline_translate.py:253-273 | nothing is lost or doubled |
| `Scenes.ScenesComeFirst` | remote_worker/offline_translate.py:253-273 | live scenes first, each in one run and in order of play; then the rest, grouped as always |
| `Scenes.GroupScenes` | remote_worker/offline_translate.py:253-273 | the code's dictionaries and lists produce that order |
| `Scenes.SceneBatchExactly` | remote_worker/offline_translate.py:881-890 | the limits on a batch of a scene in numbers: ten lines, the cap, six blocks of known names, one live scene |
| `Scenes.NextScene` | remote_worker/offline_translate.py:881-890 | consecutive lines of one live scene, at most ten or the configured cap if that is less, and as many as these limits allow |
| `Scenes.Pass` | remote_worker/offline_translate.py:851-914 | the batches of a pass are consecutive, together the whole list, and each is one scene or one key within the limits and as long as they allow; without scenes they are the greedy division |
| `Scenes.Plan` | remote_worker/offline_translate.py:831-914 | every pending line is in exactly one batch of the pass, in the order of grouping or of scenes |
| `NumberedAnswer.DecodeOfOneLine` | remote_worker/prompt/builder.py:125-126 | a text put on one line comes back by decoding the newline marks, without its carriage returns |
| `NumberPatterns.SearchesThePatterns` | remote_worker/prompt/parser.py:15-96 | the three regular expressions as written: the parser finds exactly their matches from left to right, with number and text, and between them what a split leaves |
| `NumberedAnswer.AnswerBehindThinking` | remote_worker/prompt/parser.py:18-28 | an answer behind thinking gives the same texts, the same extra items and the same decision as without, whatever was thought |
| `NumberedAnswer.ParseExactly` | remote_worker/prompt/parser.py:31-65 | what every line gets: the first text of its number when all numbers are there, else what stands between its last number and the next; a single line without a text the whole answer |
| `NumberedAnswer.HitsOfNumbered` | remote_worker/prompt/parser.py:14-15 | each pattern finds one match for every line of a printed list, with its number |
| `NumberedAnswer.SplitNumbers` | remote_worker/prompt/parser.py:80-96 | the splitting fallback finds the numbers the search finds |
| `NumberedAnswer.ShorterLeavesBlank` | remote_worker/prompt/parser.py:31-65 | a shorter list leaves the last place empty, fallback included |
| `NumberedAnswer.ExtraIsExact` | remote_worker/prompt/parser.py:68-77 | a printed list shows extra items exactly when it has more items than lines were asked |
| `NumberedAnswer.GuardIsExact` | remote_worker/offline_translate.py:985-1007 | an answer of m items is laid out on n lines if and only if m = n, and then every text is on its own line |
| `NumberedAnswer.GuardIsExactBehindThinking` | remote_worker/offline_translate.py:985-1007 | the same behind any thinking, whose own numbered lines count for nothing |
| `NumberedAnswer.MultilineParse` | remote_worker/prompt/parser.py:80-96 | the loop over the pieces keeps the last text of every number asked for |
| `NumberedAnswer.ParseNumberedOutput` | remote_worker/prompt/parser.py:31-65 | the loops with their fallbacks compute the parsed list |
| `Provenance.LineReasons` | remote_worker/offline_translate.py:484-500 | only the last filled line of an answer that hit the ceiling is marked as cut; unknown reasons stay unknown |
| `Provenance.RetranslateSingly` | remote_worker/offline_translate.py:732-790 | every line carries text, reason and trace of its own call; lines after a stop are empty |
| `Provenance.FirstLines` | remote_worker/offline_translate.py:971-1013 | the first answer by position when the guard accepts it, one call for each line otherwise |
| `Provenance.FirstLineExactly` | remote_worker/offline_translate.py:971-1013 | for any answer whatever, exactly which text, reason and trace a line has before any candidates |
| `Provenance.CountDecides` | remote_worker/offline_translate.py:971-1013 | a printed list of the right length is laid out line by line; of any other length every line has a call of its own, or none after a stop |
| `Provenance.PlayOff` | remote_worker/offline_translate.py:1040-1073 | the line left is decided by the different texts in the order of their calls: with two or more, the end of a chain from the first in which each next text replaces the winner if and only if the judge prefers it, with the reason and trace of the call that gave it first; with fewer, the first answer's line |
| `Provenance.DecidedOnce` | remote_worker/offline_translate.py:1040-1073 | only one line can be left that way |
| `Provenance.PreferredWins` | remote_worker/offline_translate.py:1040-1073 | a text the judge prefers to every other, with none preferred to it, is the one kept |
| `Provenance.ChosenIsDecided` | remote_worker/offline_translate.py:1040-1073 | the champion of the pool is that line |
| `Provenance.OneRival` | remote_worker/offline_translate.py:1024-1073 | of a stored row: with one candidate of another text the judge is asked about the first text against it, and decides which is stored, with the trace of its call |
| `Provenance.ChosenIsExplained` | remote_worker/offline_translate.py:1024-1073 | whatever the judge says, the chosen line is some call's line at that position |
| `Provenance.ProduceBatch` | remote_worker/offline_translate.py:962-1143 | for any model, judge and score, every stored row is what the tournament of its calls leaves, or nothing where that is blank: text, finish reason and trace from one call; without candidates the first answer's line; cut rows count 60 at most and are never stored as translated, and are kept from the finished work if and only if the ceiling shows or they score low |
| `Provenance.CutIsMarked` | remote_worker/offline_translate.py:484-500 | the cut line is marked if and only if no later line has a text |
| `Provenance.OrderedCutIsMarked` | remote_worker/offline_translate.py:484-500 | when no printed number exceeds the last one, the cut line is always marked |
| `Provenance.CutIsHeldBack` | remote_worker/offline_translate.py:1107-1117 | in an accepted batch of two lines or more the cut line of the first answer is kept from the finished work if and only if it is the last line or scores low |
| `Provenance.CutAloneIsHeldBack` | remote_worker/offline_translate.py:777-789 | a line repeated alone and cut is kept back unless the answer also had further items |
| `Provenance.OnlyLineIsHeldBack` | remote_worker/offline_translate.py:997-999 | so is the only line of a batch of one |
| `Provenance.CutIsHeldBackThrough` | remote_worker/offline_translate.py:484-500 | for the first answer, a repeat or a candidate alike: the cut line is kept back if and only if the ceiling shows (no further items where one line was asked for, no later filled line otherwise) or it scores low |
| `UnfinishedAnswer.OnlyTheCutLineGrows` | remote_worker/prompt/parser.py:31-96 | whatever text would still have followed on the last line of an answer, every line of the batch but the cut one is as it would have been |
| `Provenance.SwappedCutSlipsThrough` | remote_worker/offline_translate.py:484-500 | an answer in swapped order whose cut line is stored as translated |
| `ResultStore.Store.AddAssignment` | remote_worker/result_store.py:301-360 | adds the assignment and its rows and never touches what is there |
| `ResultStore.Store.ApplyReconcile` | remote_worker/remote_server.py:1013-1028 | the host's verdicts change the states of the known assignments they name, to complete or abandoned, and nothing else: no row is lost |
| `ResultStore.Store.AssignmentProgress` | remote_worker/result_store.py:397-405 | done reaches total exactly when nothing is pending |
| `ResultStore.Store.WriteResult` | remote_worker/result_store.py:409-462 | a fresh number, the row and the done mark together, or only the disk-full flag |
| `ResultStore.Store.MarkDeliveredSeqs` | remote_worker/result_store.py:575-589 | marks exactly the given rows |
| `ResultStore.Store.MarkUndeliveredSince` | remote_worker/result_store.py:607-618 | re-arms exactly the rows past a number |
| `ResultStore.Store.PruneConfirmed` | remote_worker/result_store.py:660-685 | removes exactly the delivered rows behind the margin |
| `Protocol.WhoChangesWhat` | remote_worker/remote_server.py:1180-1410 | for every step what alone can change the host's rows, acknowledgements, the open post, the pass, the prune bound, the store, and what a crash takes |
| `Protocol.NumbersStep` | remote_worker/result_store.py:409-462 | no step reuses a number or changes which result a number stands for |
| `Protocol.OnceStep` | remote_worker/result_store.py:362-462 | a manifest row is done if and only if a result was made for it, and none has two |
| `Protocol.AcknowledgedStep` | remote_worker/remote_server.py:1294-1322 | a row is marked delivered, and pruned, only after the host has acknowledged it |
| `Protocol.CompleteIsAcknowledged` | remote_worker/remote_server.py:1324-1334 | complete and nothing undelivered means the host has acknowledged every row |
| `Protocol.DoneStep` | remote_worker/remote_server.py:1013-1028 | a done is posted only for assignments the host closed itself or whose every row it has acknowledged |
| `Protocol.EveryRunKeeps` | remote_worker/remote_server.py:1284-1410 | all of this in every state of every run, rollbacks and crashes included |
| `Protocol.AlwaysCanFinish` | remote_worker/remote_server.py:1180-1410 | from every state of every run each known assignment can still be finished: its rows made, sent and acknowledged, its done answered; and if nothing was lost before, the host then holds every result |
| `Protocol.NoRollbackNoLoss` | remote_worker/remote_server.py:1294-1322 | without a rollback every result ever made is with the host or stored and waiting |
| `Protocol.MarginRestores` | remote_worker/result_store.py:607-685 | if the host holds every row up to rs, and rs is at most 1000 behind the highest confirmed number, re-arming from rs leaves every row the host lacks stored and waiting |
| `Protocol.LosslessStep` | remote_worker/remote_server.py:1180-1322 | no step but a rollback or a stale reply loses a row, prunes included |
| `Protocol.StaleComesFromRollback` | remote_worker/remote_server.py:1305-1316 | only a rollback makes a reply on its way stale |
| `Protocol.LosslessForGood` | remote_worker/remote_server.py:1180-1322 | once every row is with the host or waiting and no stale reply is on its way, no run without another rollback loses a row |
| `Protocol.MarginHoldsForGood` | remote_worker/remote_server.py:1180-1322 | after any history, re-arming within the margin with no stale reply on its way makes every later run without another rollback lossless |
| `Protocol.ReplyLosesExactly` | remote_worker/remote_server.py:1305-1316 | an arriving reply keeps every row with the host or waiting if and only if the host still has what the reply says it saved |
| `Protocol.LosesExactly` | remote_worker/remote_server.py:1180-1322 | a step loses a row if and only if it is a stale reply or a rollback that drops a row no longer waiting |
| `Protocol.LosslessExactly` | remote_worker/remote_server.py:1180-1322 | over every run, rollbacks and crashes included: every state keeps every result with the host or waiting if and only if no step is one of those two |
| `Protocol.OnlyStaleRepliesLose` | remote_worker/remote_server.py:1180-1322 | over every run without another rollback: if and only if no reply arrives while it is stale |
| `Protocol.StaleReplyLosesARow` | remote_worker/remote_server.py:1305-1316 | a run of eight steps in which a stale reply loses a row |
| `Delivery.DeliverLoop.PostBatches` | remote_worker/remote_server.py:1299-1316 | one post for each assignment; exactly the rows of successful posts that did not fail are marked, and the highest of all confirmed numbers is kept |
| `Delivery.DeliverLoop.Cycle` | remote_worker/remote_server.py:1294-1334 | one whole cycle: posts, the sixtieth prune, the done signals; with nothing in between it is a run of the protocol |
| `Delivery.DeliverLoop.AnnounceFinished` | remote_worker/remote_server.py:1324-1334 | exactly the complete, undelivered-free and unannounced assignments are announced |
| `Delivery.DeliverLoop.RejectedCycles` | remote_worker/remote_server.py:1293-1334 | the loop itself, k cycles long, against a host that confirms whatever numbers it likes: rows and highest number are those of k specified cycles, and only rejected rows are left waiting as soon as k (200 - f) reaches N |
| `Delivery.FirstTakes` | remote_worker/result_store.py:557-564 | the first rows are as many waiting rows as there are, up to the limit |
| `Delivery.FirstComeFirst` | remote_worker/result_store.py:557-564 | no row that waits and is not among them stands before one of them |
| `Delivery.CycleProgress` | remote_worker/remote_server.py:1298-1316 | a reachable cycle delivers at least 200 - b of the other rows before any number, or all of them, b rejected rows waiting there |
| `Delivery.PoisonRowsDoNotBlock` | remote_worker/remote_server.py:1298-1316 | with f < 200 rejected rows all N others are delivered once k cycles have k (200 - f) >= N, whatever is pruned in between |
| `Delivery.CeilIsEnough` | remote_worker/remote_server.py:1298-1316 | ceil(N / (200 - f)) cycles are enough |
| `Delivery.RowGetsOutExactly` | remote_worker/remote_server.py:1298-1316 | a row that is not rejected is delivered at last if and only if fewer than 200 rejected rows wait before it; b such rows delay the n others up to it by at most ceil(n / (200 - b)) cycles |
| `Delivery.AllGetOutExactly` | remote_worker/remote_server.py:1298-1316 | all other rows get out if and only if fewer than 200 rejected rows wait before the last of them |
| `Delivery.EnoughPoisonBlocks` | remote_worker/remote_server.py:1298-1316 | no number of cycles delivers any row if and only if all of the first 200 are rejected; then the same rows stay in front for good |
| `Drain.AttemptCounts` | remote_worker/remote_server.py:1468-1498 | the number of tries of a job is its count of attempts without a row since its last one, closed windows left out |
| `Drain.AttemptCosts` | remote_worker/remote_server.py:1468-1498 | every attempt that gains a row or counts uses up one of those a job may cost |
| `Drain.Queue.Next` | remote_worker/remote_server.py:1451-1463 | the first open job with work left; exactly the finished ones before it are marked complete |
| `Drain.DrainOpenAssignments` | remote_worker/remote_server.py:1438-1501 | once the window stays open it ends with no job open, complete exactly those fully done, stalled only after three counted attempts in a row without a row; jobs are worked through in order, each ends with the rows it had and those its attempts brought, within three attempts for each missing row and three for each job |
| `WorkSchedule.Normalize` | remote_worker/work_schedule.py:53-89 | keeps exactly the windows that cover something and falls back to always when none is left |
| `WorkSchedule.NormalizedStays` | remote_worker/work_schedule.py:53-89 | cleaning up twice changes nothing, as the code does at every question |
| `WorkSchedule.CoversIsInterval` | remote_worker/work_schedule.py:102-124 | both branches together: some opening of the window lies less than its duration back |
| `WorkSchedule.WeeklyWindow` | remote_worker/work_schedule.py:102-124 | only the minute of the week matters |
| `WorkSchedule.WeekIsDaysTimesDuration` | remote_worker/work_schedule.py:102-124 | every week, wherever it begins, holds days times duration covered minutes |
| `WorkSchedule.PromiseIsKept` | remote_worker/work_schedule.py:53-145 | the cleaned-up schedule keeps what the one on the wire promises: never when paused, always without a mode or a usable window, on free days, inside the windows of a schedule and outside those of a busy machine |
| `WorkSchedule.IsWorking` | remote_worker/work_schedule.py:127-145 | the answer is what the schedule on the wire promises, for every mode, with free days before windows |
| `WorkSchedule.FirstFlip` | remote_worker/work_schedule.py:180-185 | a returned minute is the first change, and none returned means none within the scan |
| `WorkSchedule.NextChange` | remote_worker/work_schedule.py:170-186 | the scan minute by minute returns the first minute within a week at which the promise changes, or none when it keeps for that week |
| `WorkSchedule.NeverFlipsExactly` | remote_worker/work_schedule.py:170-186 | the answer never changes again if and only if the windows say the same all week and, should they say no, no free date is left |
| `WorkSchedule.NextFlipIsRight` | remote_worker/work_schedule.py:170-186 | what each of the two results of the scan is worth |
| `WorkSchedule.NoFreeDatesNoMistake` | remote_worker/work_schedule.py:170-186 | without free dates the scan returns nothing if and only if nothing will ever change |
| `WorkSchedule.FreeDatesHideAChange` | remote_worker/work_schedule.py:170-186 | a schedule with eight free days for which the scan is wrong |
| `Residency.DelayGrows` | remote_worker/remote_server.py:1674-1690 | more failures never mean a shorter pause |
| `Residency.DelayDoubles` | remote_worker/remote_server.py:1674-1690 | the pause is 30 seconds after the first failure and doubles up to 600 |
| `Residency.ServerState.OweAnotherWake` | remote_worker/remote_server.py:1674-1690 | one more failure, and the next attempt after the doubled pause, at most 600 seconds |
| `Residency.ServerState.WakeEnds` | remote_worker/remote_server.py:1693-1732 | a success clears every flag and debt; a failure leaves the machine awake and owing |
| `Residency.ServerState.IdleUnloadEnds` | remote_worker/remote_server.py:1659-1671 | handed back on purpose, nothing owed |
| `Residency.ServerState.Tick` | remote_worker/remote_server.py:1790-1838 | decides and changes before it waits exactly what the law of a tick says |
| `Residency.TickExactly` | remote_worker/remote_server.py:1790-1838 | for every state: when a look at the clock begins a wake, a night's unload or an idle unload, when it owes one more wake, and what it clears |
| `Residency.EventsExactly` | remote_worker/remote_server.py:1633-1840 | for every event what becomes of the model, of the handing back and of what is remembered, and that only what is under way can end |
| `Residency.MorningWakes` | remote_worker/remote_server.py:1790-1838 | a machine that slept, or whose next attempt is due, and that remembers its model is loading it from the first look at the clock in the open window until the load ends, whatever else happens, and a load that succeeds leaves no flag and no debt |
| `Residency.RestartLoads` | remote_worker/remote_server.py:1773-1785 | so does a restarted agent that remembers a model; one that remembers none begins and owes nothing |
| `Residency.ServerState.EnsureModelForWork` | remote_worker/remote_server.py:1735-1770 | when a chunk of work may put the model back |
| `Residency.ExclusiveStep` | remote_worker/remote_server.py:1633-1840 | a step keeps the three reasons for having no model apart if and only if it is not a failing wake of the pull worker under an idle unload |
| `Residency.AlwaysExclusive` | remote_worker/remote_server.py:1633-1840 | over every run: they are apart in every state if and only if no step is such a failing wake |
| `Residency.ApartIsEnough` | remote_worker/remote_server.py:1633-1840 | it is enough that no idle unload finishes while the pull worker is loading |
| `Residency.OwedStays` | remote_worker/remote_server.py:1674-1732 | what is owed stays owed, with a pause that never shrinks and never exceeds 600 seconds, until a success, an off-hours tick or an idle unload |
| `Residency.OwedLasts` | remote_worker/remote_server.py:1674-1732 | over every run in which nothing settles it: the debt is there, no failure is forgotten, the next attempt is at most 600 seconds away and put off only by a further failure |
| `Residency.NightOwesNothing` | remote_worker/remote_server.py:1784-1811 | every off-hours tick ends without a model and with nothing owed |
| `Residency.DarkStep` | remote_worker/remote_server.py:1633-1840 | in a closed window only a load of the host or a wake begun before brings a model, and only such a wake, failing, brings a debt; a chunk of work brings neither |
| `Residency.DarkLasts` | remote_worker/remote_server.py:1633-1840 | without those, and as long as the window stays closed, every run keeps the machine without model and debt |
| `Residency.WorkRespectsTheClock` | remote_worker/remote_server.py:1735-1770 | a chunk begins to load a model if and only if the window is open, none is loaded, one is remembered, and no wake has failed unless the model was handed back; where none is remembered it owes one more wake; at all other times it changes nothing |
| `Residency.WakesBeginInHours` | remote_worker/remote_server.py:1735-1770 | over every run: the pull worker is loading a model if and only if it began to at such a moment and has not ended since |
| `Residency.MixedRunMixes` | remote_worker/remote_server.py:1659-1770 | a run of six steps that ends handed back and owing at once |

## Left out

- `VmadCode.RewriteVmadStrings`: for a text of more than 65535 bytes only the returned flag is stated, because whether the code raises depends on which guards the other patches pass.
- `Delivery.DeliverLoop.Cycle`: is one uninterrupted cycle; what may happen between its posts is in `Protocol`.
- `ResultStore.Store.ApplyReconcile`: does not cancel the running pass of a reassigned assignment; that is the step `EndPass` of `Protocol`.
- `UnfinishedAnswer.OnlyTheCutLineGrows`: speaks of answers without white space at their ends and without thinking, cut inside a line that does not end in a bare number; a bare number could still become the number of another line.
- `NumberedAnswer.GuardIsExact`: digits are the ASCII ones, although the pattern also takes other decimal digits; the limit Python puts on the length of a number is not modelled.
- `Tokens.StripEcho`: the comparison with 15 percent is made in whole numbers.
- Localized plugins: extraction through the string files and the rewriting of the string files from a plugin.
- A file that ends inside a header, or a group whose size is below 24, on which the walk over the file would not end.
- Character encodings, the fallback chain between them and the choice of output encoding.
- Parsing of times and dates written as text, and daylight saving: a schedule starts from minutes and day numbers.
- Prompt wording, context assembly, quality scores, and the parsing of the judge's one-letter answers.
- The order in which SQLite returns rows where no ORDER BY is given, schema migration, traces and the checkpoint after a prune.
- Whether production resumes after a full disk: the run loop waits for a flag that only a successful write clears.
- HTTP, sockets, discovery, downloads, subprocesses, logging and the user interface: only their outcomes appear, as choices of the environment.
- The host's own code, which appears only as the set of rows it holds and the answers it gives.
