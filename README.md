# Movie-script mappers in Dafny

This project models the map side of a Hadoop job that analyses movie-script
dialogue. Each input line has the form `CHARACTER: dialogue text`. Three
mappers read such lines:

- **CharacterWordMapper** writes `(character + "#" + word, 1)` for every
  word of the dialogue.
- **UniqueWordsMapper** writes `(character, word)` for every word of the
  dialogue.
- **HadoopCountersMapper** keeps five job counters and a `HashSet` of every
  word it has seen. For each accepted line it writes two records:
  `WORDS_PROCESSED` carries the line's word count, and
  `UNIQUE_WORDS_IDENTIFIED` carries the size of the set after the line.

All three mappers split a line at its first `:`, trim both sides, and cut
the dialogue with `java.util.StringTokenizer`. They then strip every
character outside `a-zA-Z` from each token, lower-case it, and drop tokens
that end up empty.

Modules, one per file:

| file | module | contents |
|---|---|---|
| `java_string.dfy` | `JavaString` | `String.trim()`, `split(":", 2)`, ASCII `toUpperCase`/`toLowerCase`, `replaceAll("[^a-zA-Z]", "")` |
| `string_tokenizer.dfy` | `Tokenizer` | `StringTokenizer` with its default delimiters, as a class over a position, with a pure `Fragments` specification |
| `dialogue.dfy` | `Dialogue` | speaker and speech of a line, word normalisation, the words of a dialogue |
| `character_word_mapper.dfy` | `CharacterWordMapper` | `Emissions(line)` and the looping `Map` method proved equal to it |
| `unique_words_mapper.dfy` | `UniqueWordsMapper` | the same, for `(character, word)` pairs |
| `hadoop_counters_mapper.dfy` | `HadoopCounters` | the stateful mapper class, the pure one-line step `MapLine`, and the consistency invariant over runs |
| `mapper_agreement.dfy` | `MapperAgreement` | what the three mappers agree on for the same line |

Inside the model, `context.write` appends to an output sequence. The
counters of `HadoopCountersMapper` are `nat` fields of the mapper object,
next to its `uniqueWords` set. Each `map` method with a
`while (tokenizer.hasMoreTokens())` loop is a Dafny method with the same
loop. Each is proved to produce what a pure function of the line (and, for
the counters mapper, of the old state) prescribes.

Two behaviours follow the code rather than the intent one might read into
it:

- `TOTAL_UNIQUE_WORDS_IDENTIFIED` grows on every accepted line by the
  *current* size of the set. It is therefore a running sum of sizes, not
  the number of distinct words (`HadoopCountersMapper.java:59-61`).
  `RepeatedLineCountedTwice` and `RunningSumExample` show the difference.
  `Consistent` bounds the counter between the set size and
  `lines * |set|`.
- `CharacterWordMapper` and `UniqueWordsMapper` keep the case of the
  character name. Only `HadoopCountersMapper` upper-cases it.

## Model

| member | source | states |
|---|---|---|
| JavaString.Trim | src/main/java/com/movie/script/HadoopCountersMapper.java:28 | `String.trim()`: never longer than its input; TrimSpec and TrimOfSlice state what it keeps and drops |
| JavaString.TrimSpec | src/main/java/com/movie/script/HadoopCountersMapper.java:28 | `trim()` keeps the window between the first and last characters above `' '`; it is empty iff every character is `<= ' '`; only such characters lie before and after it |
| JavaString.TrimOfSlice | src/main/java/com/movie/script/HadoopCountersMapper.java:28 | any slice bounded by trimmable prefix and suffix and by non-trimmable end characters is the trimmed string |
| JavaString.TrimIdempotent | src/main/java/com/movie/script/HadoopCountersMapper.java:36-37 | trimming an already trimmed string changes nothing |
| JavaString.IndexOf | src/main/java/com/movie/script/HadoopCountersMapper.java:33 | the index found holds the character and none occurs before it; -1 exactly when it is absent |
| JavaString.Split2 | src/main/java/com/movie/script/HadoopCountersMapper.java:33 | `split(":", 2)`: one part equal to the string iff there is no separator; otherwise two parts that rebuild the string around a separator, and the first part has none |
| JavaString.Split2AtFirst | src/main/java/com/movie/script/analysis/CharacterWordMapper.java:20 | only the first separator cuts; later ones stay in the second part |
| JavaString.Split2First | src/main/java/com/movie/script/analysis/UniqueWordsMapper.java:18 | the cut is at the first separator position, and the parts are the text before and after it |
| JavaString.Split2At | src/main/java/com/movie/script/analysis/UniqueWordsMapper.java:18 | any position holding the first separator is the cut |
| JavaString.UpperChar | src/main/java/com/movie/script/HadoopCountersMapper.java:36 | the result is never lower case; a lower-case letter moves by -32; anything else is unchanged |
| JavaString.ToUpperCase | src/main/java/com/movie/script/HadoopCountersMapper.java:36 | same length, with each character upper-cased in place |
| JavaString.LowerChar | src/main/java/com/movie/script/HadoopCountersMapper.java:46 | the result is never upper case; an upper-case letter moves by +32; anything else is unchanged |
| JavaString.ToLowerCase | src/main/java/com/movie/script/HadoopCountersMapper.java:46 | same length, with each character lower-cased in place |
| JavaString.KeepLetters | src/main/java/com/movie/script/HadoopCountersMapper.java:46 | `replaceAll("[^a-zA-Z]", "")`: never longer than its input; KeepLettersSpec and KeepLettersAppend state its result |
| JavaString.KeepLettersSpec | src/main/java/com/movie/script/HadoopCountersMapper.java:46 | `replaceAll("[^a-zA-Z]", "")` leaves only letters, every letter of the input still occurs in the result, and the result is empty iff there was no letter |
| JavaString.KeepLettersAppend | src/main/java/com/movie/script/analysis/CharacterWordMapper.java:26 | letter filtering distributes over concatenation |
| Tokenizer.Fragments | src/main/java/com/movie/script/HadoopCountersMapper.java:43-46 | the tokens `StringTokenizer` hands out, in order; FragmentsAreTokens, FragmentsOfFragment, FragmentsOfDelimiters and FragmentsAtDelimiter determine it, and the tokenizer class is proved to hand out exactly these |
| Tokenizer.SkipDelimiters | src/main/java/com/movie/script/HadoopCountersMapper.java:45 | returns the first non-delimiter at or after the position; everything skipped is a delimiter |
| Tokenizer.ScanToken | src/main/java/com/movie/script/HadoopCountersMapper.java:46 | returns the first delimiter at or after the position, or the end; everything scanned is not a delimiter |
| Tokenizer.FragmentsAreTokens | src/main/java/com/movie/script/HadoopCountersMapper.java:43-46 | every token is non-empty and holds no space, tab, newline, carriage return or form feed |
| Tokenizer.FragmentsOfFragment | src/main/java/com/movie/script/analysis/CharacterWordMapper.java:23 | a string without delimiters is exactly one token |
| Tokenizer.FragmentsOfDelimiters | src/main/java/com/movie/script/analysis/CharacterWordMapper.java:25 | a string made only of delimiters has no token |
| Tokenizer.FragmentsAtDelimiter | src/main/java/com/movie/script/analysis/CharacterWordMapper.java:23-25 | a delimiter splits the token sequence: the tokens of `a + [d] + b` are those of `a` followed by those of `b` |
| Tokenizer.StringTokenizer.constructor | src/main/java/com/movie/script/HadoopCountersMapper.java:43 | a new tokenizer still has to hand out every token of the string |
| Tokenizer.StringTokenizer.HasMoreTokens | src/main/java/com/movie/script/HadoopCountersMapper.java:45 | true iff a token remains |
| Tokenizer.StringTokenizer.NextToken | src/main/java/com/movie/script/HadoopCountersMapper.java:46 | hands out the next token in order and removes it from what remains |
| Dialogue.Speaker | src/main/java/com/movie/script/analysis/CharacterWordMapper.java:20-21 | `parts[0].trim()` after `split(":", 2)`; SpeakerAndSpeech and TrimmedLine state its value |
| Dialogue.Speech | src/main/java/com/movie/script/analysis/CharacterWordMapper.java:20-22 | `parts[1].trim()` after `split(":", 2)`; SpeakerAndSpeech and TrimmedLine state its value |
| Dialogue.SpeakerAndSpeech | src/main/java/com/movie/script/analysis/CharacterWordMapper.java:20-22 | for `name + ":" + text` with no ':' in name, the speaker is `trim(name)` and the speech is `trim(text)`, whatever colons the text holds |
| Dialogue.ColonSurvivesTrim | src/main/java/com/movie/script/HadoopCountersMapper.java:28-30 | the trimmed line contains ':' iff the raw line does |
| Dialogue.TrimmedLine | src/main/java/com/movie/script/HadoopCountersMapper.java:28-37 | trimming the whole line first changes neither the speaker nor the speech |
| Dialogue.Normalize | src/main/java/com/movie/script/analysis/CharacterWordMapper.java:26 | the letter filter followed by lower-casing; NormalizeSpec states its result |
| Dialogue.Survivors | src/main/java/com/movie/script/analysis/CharacterWordMapper.java:25-27 | the normalised tokens that stay non-empty, in order; SurvivorsAreWords, SurvivorsAppend and SurvivorsStep state it |
| Dialogue.Words | src/main/java/com/movie/script/analysis/CharacterWordMapper.java:23-27 | the words of a dialogue; WordsAreWords, WordsOfFragment, WordsAtDelimiter and WordsOfLetterless state them |
| Dialogue.NormalizeSpec | src/main/java/com/movie/script/analysis/CharacterWordMapper.java:26-27 | a normalised token is all lower-case letters; it is empty iff the token had no letter |
| Dialogue.SurvivorsAreWords | src/main/java/com/movie/script/analysis/UniqueWordsMapper.java:23-24 | every surviving token is a non-empty lower-case word |
| Dialogue.WordsAreWords | src/main/java/com/movie/script/analysis/UniqueWordsMapper.java:22-24 | every word of a dialogue is non-empty lower-case ASCII |
| Dialogue.WordsOfFragment | src/main/java/com/movie/script/analysis/CharacterWordMapper.java:26-27 | a token yields one word if it holds a letter, and none otherwise |
| Dialogue.WordsAtDelimiter | src/main/java/com/movie/script/analysis/CharacterWordMapper.java:23-25 | the words on the two sides of a delimiter follow one another |
| Dialogue.WordsOfLetterless | src/main/java/com/movie/script/analysis/CharacterWordMapper.java:26-27 | text without a letter has no word |
| Dialogue.LetterlessTokenDropped | src/main/java/com/movie/script/analysis/CharacterWordMapper.java:26-27 | a token such as "123" or "--" between delimiters drops out and leaves the surrounding words unchanged |
| Dialogue.SurvivorsAppend | src/main/java/com/movie/script/analysis/UniqueWordsMapper.java:22-27 | filtering tokens distributes over concatenation |
| Dialogue.SurvivorsStep | src/main/java/com/movie/script/HadoopCountersMapper.java:45-50 | one loop step adds the token's word exactly when it is non-empty |
| Dialogue.Elements | src/main/java/com/movie/script/HadoopCountersMapper.java:48 | the words a `HashSet` holds after adding a sequence of words; ElementsMembership, ElementsAppend and ElementsSize state it |
| Dialogue.ElementsMembership | src/main/java/com/movie/script/HadoopCountersMapper.java:48 | a word is in the set of words iff it occurs in the sequence |
| Dialogue.ElementsAppend | src/main/java/com/movie/script/HadoopCountersMapper.java:48 | `uniqueWords.add(token)` adds exactly that word |
| Dialogue.ElementsSize | src/main/java/com/movie/script/HadoopCountersMapper.java:46-49 | there are never more distinct words than words |
| CharacterWordMapper.Emissions | src/main/java/com/movie/script/analysis/CharacterWordMapper.java:17-33 | what one `map` call writes; `CharacterWordMapper.Map` is proved to write it, and NoColonNoEmission, EmissionShape and EmissionsFollowWords state it |
| CharacterWordMapper.Keyed | src/main/java/com/movie/script/analysis/CharacterWordMapper.java:28-29 | one record per word, with key `character + "#" + word` and value 1 |
| CharacterWordMapper.KeyedAppend | src/main/java/com/movie/script/analysis/CharacterWordMapper.java:28-29 | one more word appends one more record |
| CharacterWordMapper.Map | src/main/java/com/movie/script/analysis/CharacterWordMapper.java:17-33 | the tokenizer loop writes exactly `Emissions(line)` |
| CharacterWordMapper.NoColonNoEmission | src/main/java/com/movie/script/analysis/CharacterWordMapper.java:19 | a line without ':' writes nothing |
| CharacterWordMapper.EmissionShape | src/main/java/com/movie/script/analysis/CharacterWordMapper.java:26-29 | every value is 1; every key is the case-kept trimmed speaker, '#', and a non-empty lower-case word |
| CharacterWordMapper.EmissionsFollowWords | src/main/java/com/movie/script/analysis/CharacterWordMapper.java:25-31 | one record per word of the trimmed dialogue, in order, repeats kept |
| CharacterWordMapper.LetterlessDialogueWritesNothing | src/main/java/com/movie/script/analysis/CharacterWordMapper.java:23-27 | a dialogue with no letter writes nothing |
| UniqueWordsMapper.Emissions | src/main/java/com/movie/script/analysis/UniqueWordsMapper.java:15-29 | what one `map` call writes; `UniqueWordsMapper.Map` is proved to write it, and NoColonNoEmission, EmissionShape and EmissionsFollowWords state it |
| UniqueWordsMapper.Attributed | src/main/java/com/movie/script/analysis/UniqueWordsMapper.java:25 | one `(character, word)` pair per word, in order |
| UniqueWordsMapper.AttributedAppend | src/main/java/com/movie/script/analysis/UniqueWordsMapper.java:25 | one more word appends one more pair |
| UniqueWordsMapper.Map | src/main/java/com/movie/script/analysis/UniqueWordsMapper.java:15-29 | the tokenizer loop writes exactly `Emissions(line)` |
| UniqueWordsMapper.NoColonNoEmission | src/main/java/com/movie/script/analysis/UniqueWordsMapper.java:17 | a line without ':' writes nothing |
| UniqueWordsMapper.EmissionShape | src/main/java/com/movie/script/analysis/UniqueWordsMapper.java:18-24 | every pair carries the trimmed, case-kept text before the first ':' and a non-empty lower-case word |
| UniqueWordsMapper.EmissionsFollowWords | src/main/java/com/movie/script/analysis/UniqueWordsMapper.java:22-27 | one pair per word of the trimmed dialogue, in order, repeats kept |
| HadoopCounters.Accepted | src/main/java/com/movie/script/HadoopCountersMapper.java:28-30 | the guard of `map`, used by MapLine; AcceptedIff states when it holds |
| HadoopCounters.MapLine | src/main/java/com/movie/script/HadoopCountersMapper.java:27-63 | the new state after one `map` call; HadoopCountersMapper.Map is proved to reach it, and RejectedLineChangesNothing, AcceptedLine and MapLineKeepsConsistent state it |
| HadoopCounters.Announced | src/main/java/com/movie/script/HadoopCountersMapper.java:39-41 | the name and the two counters set before the loop; the Announce method is proved to reach it |
| HadoopCounters.Collected | src/main/java/com/movie/script/HadoopCountersMapper.java:43-51 | the set after the tokenizer loop; AddWords is proved to reach it |
| HadoopCounters.Reported | src/main/java/com/movie/script/HadoopCountersMapper.java:53-61 | the two writes and two counters after the loop; the Report method is proved to reach it |
| HadoopCounters.AcceptedIff | src/main/java/com/movie/script/HadoopCountersMapper.java:28-30 | the guard (trimmed line non-empty and containing ':') holds iff the raw line contains ':' |
| HadoopCounters.RejectedLineChangesNothing | src/main/java/com/movie/script/HadoopCountersMapper.java:28-30 | a line without ':' changes no counter, no set and no output |
| HadoopCounters.MapLineSteps | src/main/java/com/movie/script/HadoopCountersMapper.java:33-37 | on an accepted line the `parts.length < 2` return never fires, and the name and dialogue are the speaker and speech of the raw line |
| HadoopCounters.AcceptedLine | src/main/java/com/movie/script/HadoopCountersMapper.java:28-61 | every field after an accepted line: lines +1, speakers +1, upper-cased name, characters + dialogue length, set ∪ words, words + count, two records in order, unique total + new set size |
| HadoopCounters.LinesAndSpeakersTogether | src/main/java/com/movie/script/HadoopCountersMapper.java:31-40 | TOTAL_LINES_PROCESSED and NUMBER_OF_CHARACTERS_SPEAKING each grow by 1 exactly when the line holds ':' |
| HadoopCounters.CharacterIsUpperCase | src/main/java/com/movie/script/HadoopCountersMapper.java:36 | the recorded name has no lower-case letter |
| HadoopCounters.UniqueWordsGrow | src/main/java/com/movie/script/HadoopCountersMapper.java:46-49 | the set only grows, by at most the line's word count, and only by non-empty lower-case words |
| HadoopCounters.TotalAppend | src/main/java/com/movie/script/HadoopCountersMapper.java:54-61 | summing the records of one key over output with two more records adds their values |
| HadoopCounters.Run | src/main/java/com/movie/script/HadoopCountersMapper.java:27-63 | `map` applied to every line of a split in turn; RunKeepsConsistent and RunConsistent state the invariant it keeps |
| HadoopCounters.InitialConsistent | src/main/java/com/movie/script/HadoopCountersMapper.java:21-24 | a fresh mapper satisfies the invariant |
| HadoopCounters.AcceptedStepKeepsConsistent | src/main/java/com/movie/script/HadoopCountersMapper.java:53-61 | an accepted step keeps the invariant |
| HadoopCounters.MapLineKeepsConsistent | src/main/java/com/movie/script/HadoopCountersMapper.java:27-63 | one `map` call keeps the invariant: lines = speakers, two records per line, the record totals equal the word and unique counters, `|set| <= words`, `|set| <= unique total <= lines * |set|`, and the set holds only words |
| HadoopCounters.RunKeepsConsistent | src/main/java/com/movie/script/HadoopCountersMapper.java:27-63 | any sequence of `map` calls keeps the invariant |
| HadoopCounters.RunConsistent | src/main/java/com/movie/script/HadoopCountersMapper.java:21-63 | the invariant holds after any input split |
| HadoopCounters.RepeatedLineCountedTwice | src/main/java/com/movie/script/HadoopCountersMapper.java:59-61 | a line read twice adds no word the second time, yet adds the set size to the unique total again |
| HadoopCounters.OneWordLine | src/main/java/com/movie/script/HadoopCountersMapper.java:43-51 | the line "A:hi" says exactly one distinct word |
| HadoopCounters.RunningSumExample | src/main/java/com/movie/script/HadoopCountersMapper.java:59-61 | after "A:hi" twice, the set has 1 word while TOTAL_UNIQUE_WORDS_IDENTIFIED is 2 |
| HadoopCounters.HadoopCountersMapper.constructor | src/main/java/com/movie/script/HadoopCountersMapper.java:21-24 | a new mapper starts with zero counters, an empty set and no output |
| HadoopCounters.HadoopCountersMapper.Map | src/main/java/com/movie/script/HadoopCountersMapper.java:27-63 | the new state is `MapLine` of the old state and the line |
| HadoopCounters.HadoopCountersMapper.Announce | src/main/java/com/movie/script/HadoopCountersMapper.java:39-41 | sets the name, +1 speaker, + dialogue length to characters |
| HadoopCounters.HadoopCountersMapper.AddWords | src/main/java/com/movie/script/HadoopCountersMapper.java:43-51 | the loop's `count` is the number of words of the dialogue, and the set gains exactly those words |
| HadoopCounters.HadoopCountersMapper.Report | src/main/java/com/movie/script/HadoopCountersMapper.java:53-61 | appends WORDS_PROCESSED then UNIQUE_WORDS_IDENTIFIED with count and set size, and adds both to their counters |
| MapperAgreement.CountsAgreeWithCharacterWords | src/main/java/com/movie/script/analysis/CharacterWordMapper.java:20-27 | for a line with ':', the counters mapper's count and WORDS_PROCESSED record equal the number of records CharacterWordMapper writes; its name is that mapper's speaker upper-cased |
| MapperAgreement.UniqueWordsFollowCharacterWords | src/main/java/com/movie/script/analysis/UniqueWordsMapper.java:20-25 | same number of writes, and each CharacterWordMapper key is the pair's character, '#', and the pair's word |
| MapperAgreement.CollectedWordsAreWrittenWords | src/main/java/com/movie/script/HadoopCountersMapper.java:46-49 | the words the counters mapper adds to its set are exactly the words UniqueWordsMapper writes for the line |

## Left out

- `MovieScriptAnalysis.java` is not part of this model. It wires the jobs together, writes files and exits.
- The reducers and the dialogue-length mapper are not part of this model. Their sources are not shown.
- The Hadoop framework is not modelled: input splitting, shuffle and sort, parallel map tasks, and the summing of counters across tasks. Each mapper object is modelled as seeing its lines one after another.
- `Context` is reduced to an append-only output sequence plus counter fields. The map key (`LongWritable`/`Object`) is ignored, as the mappers ignore it.
- The reuse of `Text`/`IntWritable` objects (`word`, `characterWord`, `wordCount`, `one`) is not modelled. Each write records the value at the time of writing. The `character` field of the counters mapper is kept as state.
- `trim`, `toUpperCase` and `toLowerCase` are ASCII only. Locale- and Unicode-dependent case mapping is left out. Strings are sequences of characters, so `dialogue.length()` counts characters, not UTF-16 code units.
- The counters are unbounded `nat`s. The model does not capture overflow of the Java `int count`/`long` counters, or of `uniqueWords.size()`.
- `StringTokenizer` is modelled with its default delimiter set only. Its `returnDelims` and `delimsChanged` machinery is not used by these mappers. Its position caching (`hasMoreTokens()` stores the next position and the following `nextToken()` reuses it) is not modelled: the cached position equals the recomputed one, so the tokens handed out are the same.
- Tokenizer.StringTokenizer.NextToken: requires a token to remain. `nextToken()` on an exhausted tokenizer throws `NoSuchElementException`, which the mappers never reach, because every call is guarded by `hasMoreTokens()`.
- HadoopCounters.HadoopCountersMapper.Map is split into the private steps `Announce`, `AddWords` and `Report`. They follow the three blocks of the Java method, which has no such helpers.
