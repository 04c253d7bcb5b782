/**
 * HadoopCountersMapper: for every accepted line it bumps five job counters,
 * adds the line's words to a set that lives as long as the mapper object,
 * and writes two records: the line's word count and the size of that set.
 *
 * The counters and the written records belong to the task context in the
 * framework; here they are fields of the mapper, next to the `uniqueWords`
 * set and the reused `character` text.
 */
module HadoopCounters {
  import opened JavaString
  import opened Tokenizer
  import opened Dialogue

  const WordsProcessedKey: string := "WORDS_PROCESSED"
  const UniqueWordsKey: string := "UNIQUE_WORDS_IDENTIFIED"

  /** One `context.write(new Text(key), wordCount)`. */
  datatype Record = Record(key: string, value: nat)

  /** Everything a mapper object carries from one `map` call to the next. */
  datatype Snapshot = Snapshot(
    totalLinesProcessed: nat,
    totalWordsProcessed: nat,
    totalCharactersProcessed: nat,
    totalUniqueWordsIdentified: nat,
    numberOfCharactersSpeaking: nat,
    uniqueWords: set<string>,
    character: string,
    output: seq<Record>)

  const Initial: Snapshot := Snapshot(0, 0, 0, 0, 0, {}, "", [])

  /** The guard of `map`: the trimmed line is non-empty and holds a ':'. */
  predicate Accepted(value: string) {
    var line := Trim(value);
    line != [] && ':' in line
  }

  /** Lines 39-41 of `map`: record the speaker and count the dialogue's characters. */
  function Announced(s: Snapshot, characterName: string, dialogue: string): Snapshot {
    s.(character := characterName,
       numberOfCharactersSpeaking := s.numberOfCharactersSpeaking + 1,
       totalCharactersProcessed := s.totalCharactersProcessed + |dialogue|)
  }

  /** The tokenizer loop of `map`: every word of the dialogue joins `uniqueWords`. */
  function Collected(s: Snapshot, dialogue: string): Snapshot {
    s.(uniqueWords := s.uniqueWords + Elements(Words(dialogue)))
  }

  /** The two writes of `map`: the line's word count, then the size of `uniqueWords`. */
  function Reported(s: Snapshot, count: nat): Snapshot {
    s.(output := s.output + [Record(WordsProcessedKey, count), Record(UniqueWordsKey, |s.uniqueWords|)],
       totalWordsProcessed := s.totalWordsProcessed + count,
       totalUniqueWordsIdentified := s.totalUniqueWordsIdentified + |s.uniqueWords|)
  }

  /** The effect of one `map(key, value, context)` call. */
  function MapLine(s: Snapshot, value: string): Snapshot {
    if !Accepted(value) then s
    else
      var line := Trim(value);
      var s := s.(totalLinesProcessed := s.totalLinesProcessed + 1);
      var parts := Split2(line, ':');
      if |parts| < 2 then s
      else
        var dialogue := Trim(parts[1]);
        Reported(Collected(Announced(s, ToUpperCase(Trim(parts[0])), dialogue), dialogue), |Words(dialogue)|)
  }

  /** A line is accepted exactly when it holds a ':' (a blank line holds none). */
  lemma AcceptedIff(value: string)
    ensures Accepted(value) <==> ':' in value
  {
    ColonSurvivesTrim(value);
  }

  /** A line without ':' changes no counter, writes nothing and leaves `uniqueWords` alone. */
  lemma RejectedLineChangesNothing(s: Snapshot, value: string)
    requires ':' !in value
    ensures MapLine(s, value) == s
  {
    AcceptedIff(value);
  }

  /**
   * An accepted line runs `map` to its end: the `parts.length < 2` return
   * never fires. The name is the other mappers' speaker in upper case, and
   * every counter moves by what the dialogue those mappers read contains.
   */
  lemma AcceptedLine(s: Snapshot, value: string)
    requires ':' in value
    ensures var r, words := MapLine(s, value), Words(Speech(value));
      && r.totalLinesProcessed == s.totalLinesProcessed + 1
      && r.numberOfCharactersSpeaking == s.numberOfCharactersSpeaking + 1
      && r.character == ToUpperCase(Speaker(value))
      && r.totalCharactersProcessed == s.totalCharactersProcessed + |Speech(value)|
      && r.uniqueWords == s.uniqueWords + Elements(words)
      && r.totalWordsProcessed == s.totalWordsProcessed + |words|
      && r.output == s.output + [Record(WordsProcessedKey, |words|), Record(UniqueWordsKey, |r.uniqueWords|)]
      && r.totalUniqueWordsIdentified == s.totalUniqueWordsIdentified + |r.uniqueWords|
  {
    MapLineSteps(s, value);
  }

  /** The three steps of an accepted line, read off the untrimmed line. */
  lemma MapLineSteps(s: Snapshot, value: string)
    requires ':' in value
    ensures var dialogue := Speech(value);
      MapLine(s, value) == Reported(Collected(Announced(
        s.(totalLinesProcessed := s.totalLinesProcessed + 1),
        ToUpperCase(Speaker(value)), dialogue), dialogue), |Words(dialogue)|)
  {
    TrimmedLine(value);
    var parts := Split2(Trim(value), ':');
    assert |parts| == 2;
    assert Trim(parts[0]) == Speaker(value);
    assert Trim(parts[1]) == Speech(value);
  }

  /**
   * The two counters that every accepted line bumps move together: each
   * grows by one exactly when the line holds a ':'.
   */
  lemma LinesAndSpeakersTogether(s: Snapshot, value: string)
    ensures var r := MapLine(s, value);
      && r.totalLinesProcessed == s.totalLinesProcessed + (if ':' in value then 1 else 0)
      && r.numberOfCharactersSpeaking == s.numberOfCharactersSpeaking + (if ':' in value then 1 else 0)
  {
    if ':' in value {
      AcceptedLine(s, value);
    } else {
      RejectedLineChangesNothing(s, value);
    }
  }

  /** The name the counters mapper records has no lower-case letter left. */
  lemma CharacterIsUpperCase(s: Snapshot, value: string)
    requires ':' in value
    ensures forall i :: 0 <= i < |MapLine(s, value).character| ==> !IsLower(MapLine(s, value).character[i])
  {
    AcceptedLine(s, value);
  }

  /**
   * `uniqueWords` only grows; what it gains are words of the line, each a
   * non-empty run of lower-case letters, and never more than the line's
   * word count.
   */
  lemma UniqueWordsGrow(s: Snapshot, value: string)
    ensures var r := MapLine(s, value);
      && s.uniqueWords <= r.uniqueWords
      && |r.uniqueWords| <= |s.uniqueWords| + (r.totalWordsProcessed - s.totalWordsProcessed)
      && forall w :: w in r.uniqueWords - s.uniqueWords ==> IsWord(w)
  {
    if ':' in value {
      AcceptedLine(s, value);
      var words := Words(Speech(value));
      ElementsSize(words);
      WordsAreWords(Speech(value));
      forall w | w in Elements(words) ensures IsWord(w) {
        ElementsMembership(words, w);
      }
      assert |s.uniqueWords + Elements(words)| <= |s.uniqueWords| + |Elements(words)|;
    } else {
      RejectedLineChangesNothing(s, value);
    }
  }

  // ---------------------------------------------------------------------------
  // One map task: `map` applied to every line of its input split in turn

  function Run(s: Snapshot, lines: seq<string>): Snapshot
    decreases |lines|
  {
    if lines == [] then s else Run(MapLine(s, lines[0]), lines[1..])
  }

  /** The sum of the values written under `key`: what a reducer would add up. */
  function Total(key: string, out: seq<Record>): nat
    decreases |out|
  {
    if out == [] then 0
    else
      var last := out[|out| - 1];
      Total(key, out[..|out| - 1]) + (if last.key == key then last.value else 0)
  }

  lemma TotalAppend(key: string, out: seq<Record>, a: Record, b: Record)
    ensures Total(key, out + [a, b])
         == Total(key, out) + (if a.key == key then a.value else 0) + (if b.key == key then b.value else 0)
  {
    assert (out + [a, b])[..|out| + 1] == out + [a];
    assert (out + [a])[..|out|] == out;
  }

  /**
   * What holds of the counters and the records after any sequence of lines:
   * lines and speakers are counted alike; two records per accepted line; the
   * records under each key add up to the matching counter; the set is never
   * larger than the number of words seen, and the unique-words counter is a
   * running sum of set sizes, so it lies between the final size and the
   * final size times the number of lines; every member of the set is a word.
   */
  ghost predicate Consistent(s: Snapshot) {
    && s.totalLinesProcessed == s.numberOfCharactersSpeaking
    && |s.output| == 2 * s.totalLinesProcessed
    && Total(WordsProcessedKey, s.output) == s.totalWordsProcessed
    && Total(UniqueWordsKey, s.output) == s.totalUniqueWordsIdentified
    && |s.uniqueWords| <= s.totalWordsProcessed
    && |s.uniqueWords| <= s.totalUniqueWordsIdentified <= s.totalLinesProcessed * |s.uniqueWords|
    && forall w :: w in s.uniqueWords ==> IsWord(w)
  }

  lemma InitialConsistent()
    ensures Consistent(Initial)
  {
  }

  /** One accepted line, described only by what it adds, keeps `Consistent`. */
  lemma AcceptedStepKeepsConsistent(s: Snapshot, r: Snapshot, n: nat)
    requires Consistent(s)
    requires r.totalLinesProcessed == s.totalLinesProcessed + 1
    requires r.numberOfCharactersSpeaking == s.numberOfCharactersSpeaking + 1
    requires s.uniqueWords <= r.uniqueWords && |r.uniqueWords| <= |s.uniqueWords| + n
    requires forall w :: w in r.uniqueWords - s.uniqueWords ==> IsWord(w)
    requires r.totalWordsProcessed == s.totalWordsProcessed + n
    requires r.output == s.output + [Record(WordsProcessedKey, n), Record(UniqueWordsKey, |r.uniqueWords|)]
    requires r.totalUniqueWordsIdentified == s.totalUniqueWordsIdentified + |r.uniqueWords|
    ensures Consistent(r)
  {
    TotalAppend(WordsProcessedKey, s.output, Record(WordsProcessedKey, n), Record(UniqueWordsKey, |r.uniqueWords|));
    TotalAppend(UniqueWordsKey, s.output, Record(WordsProcessedKey, n), Record(UniqueWordsKey, |r.uniqueWords|));
    SubsetSize(s.uniqueWords, r.uniqueWords);
    RunningSumBound(s.totalLinesProcessed, |s.uniqueWords|, |r.uniqueWords|);
  }

  /** Adding a size `c` at least the old size `b` keeps a sum of `a` sizes under `(a + 1) * c`. */
  lemma RunningSumBound(a: nat, b: nat, c: nat)
    requires b <= c
    ensures a * b + c <= (a + 1) * c
  {
    assert a * b <= a * c;
  }

  lemma SubsetSize(a: set<string>, b: set<string>)
    requires a <= b
    ensures |a| <= |b|
  {
    assert b == a + (b - a);
  }

  /** `map` keeps `Consistent`. */
  lemma MapLineKeepsConsistent(s: Snapshot, value: string)
    requires Consistent(s)
    ensures Consistent(MapLine(s, value))
  {
    if ':' in value {
      AcceptedLine(s, value);
      UniqueWordsGrow(s, value);
      AcceptedStepKeepsConsistent(s, MapLine(s, value), |Words(Speech(value))|);
    } else {
      RejectedLineChangesNothing(s, value);
    }
  }

  lemma {:induction false} RunKeepsConsistent(s: Snapshot, lines: seq<string>)
    requires Consistent(s)
    ensures Consistent(Run(s, lines))
    decreases |lines|
  {
    if lines != [] {
      MapLineKeepsConsistent(s, lines[0]);
      RunKeepsConsistent(MapLine(s, lines[0]), lines[1..]);
    }
  }

  /** A fresh mapper stays `Consistent` whatever lines it is given. */
  lemma RunConsistent(lines: seq<string>)
    ensures Consistent(Run(Initial, lines))
  {
    RunKeepsConsistent(Initial, lines);
  }

  /**
   * The unique-words counter is not the number of distinct words: a line
   * seen twice adds no word to the set the second time, yet the counter
   * grows by the set's size again.
   */
  lemma RepeatedLineCountedTwice(s: Snapshot, value: string)
    requires ':' in value
    ensures var once := MapLine(s, value);
      var twice := MapLine(once, value);
      && twice.uniqueWords == once.uniqueWords
      && twice.totalUniqueWordsIdentified == once.totalUniqueWordsIdentified + |once.uniqueWords|
  {
    var once := MapLine(s, value);
    AcceptedLine(s, value);
    AcceptedLine(once, value);
  }

  /** The line "A:hi" says exactly one word. */
  lemma OneWordLine()
    ensures ':' in "A:hi" && |Elements(Words(Speech("A:hi")))| == 1
  {
    assert "A:hi" == "A" + [':'] + "hi";
    SpeakerAndSpeech("A", "hi");
    TrimOfSlice("hi", 0, 2);
    assert "hi"[0..2] == "hi";
    assert IsLetter("hi"[0]);
    WordsOfFragment("hi");
    var w := Normalize("hi");
    assert [w][..0] == [];
    assert Elements([w]) == {w};
  }

  /** Reading "A:hi" twice leaves one word in the set and 2 in the unique-words counter. */
  lemma RunningSumExample()
    ensures var twice := MapLine(MapLine(Initial, "A:hi"), "A:hi");
      |twice.uniqueWords| == 1 && twice.totalUniqueWordsIdentified == 2
  {
    OneWordLine();
    AcceptedLine(Initial, "A:hi");
    RepeatedLineCountedTwice(Initial, "A:hi");
  }

  class HadoopCountersMapper {
    var totalLinesProcessed: nat
    var totalWordsProcessed: nat
    var totalCharactersProcessed: nat
    var totalUniqueWordsIdentified: nat
    var numberOfCharactersSpeaking: nat
    var uniqueWords: set<string>
    var character: string
    var output: seq<Record>

    function State(): Snapshot
      reads this
    {
      Snapshot(totalLinesProcessed, totalWordsProcessed, totalCharactersProcessed,
               totalUniqueWordsIdentified, numberOfCharactersSpeaking,
               uniqueWords, character, output)
    }

    /** A fresh mapper task: every counter zero, no word seen, nothing written. */
    constructor ()
      ensures State() == Initial
    {
      totalLinesProcessed, totalWordsProcessed, totalCharactersProcessed := 0, 0, 0;
      totalUniqueWordsIdentified, numberOfCharactersSpeaking := 0, 0;
      uniqueWords, character, output := {}, "", [];
    }

    /**
     * `map(key, value, context)`. A rejected line changes nothing; an
     * accepted one counts the line, splits it at its first ':', and then
     * announces the upper-cased speaker, collects the dialogue's words and
     * reports the two figures.
     */
    method Map(value: string)
      modifies this
      ensures State() == MapLine(old(State()), value)
    {
      var line := Trim(value);
      if line != [] && ':' in line {
        totalLinesProcessed := totalLinesProcessed + 1;

        var parts := Split2(line, ':');
        if |parts| < 2 {
          return;
        }

        var characterName := ToUpperCase(Trim(parts[0]));
        var dialogue := Trim(parts[1]);
        Announce(characterName, dialogue);
        var count := AddWords(dialogue);
        Report(count);
      }
    }

    /** `character.set(characterName)` and the two counters that follow it. */
    method Announce(characterName: string, dialogue: string)
      modifies this
      ensures State() == Announced(old(State()), characterName, dialogue)
    {
      character := characterName;
      numberOfCharactersSpeaking := numberOfCharactersSpeaking + 1;
      totalCharactersProcessed := totalCharactersProcessed + |dialogue|;
    }

    /** The two writes and the two counters after the loop. */
    method Report(count: nat)
      modifies this
      ensures State() == Reported(old(State()), count)
    {
      output := output + [Record(WordsProcessedKey, count)];
      totalWordsProcessed := totalWordsProcessed + count;

      output := output + [Record(UniqueWordsKey, |uniqueWords|)];
      totalUniqueWordsIdentified := totalUniqueWordsIdentified + |uniqueWords|;
      assert output == old(output) + [Record(WordsProcessedKey, count), Record(UniqueWordsKey, |uniqueWords|)];
    }

    /**
     * The tokenizer loop of `map`: add every word of the dialogue to
     * `uniqueWords` and count the words, repeated ones included.
     */
    method AddWords(dialogue: string) returns (count: nat)
      modifies this`uniqueWords
      ensures count == |Words(dialogue)|
      ensures uniqueWords == old(uniqueWords) + Elements(Words(dialogue))
    {
      var tokenizer := new StringTokenizer(dialogue);
      count := 0;
      ghost var words := Words(dialogue);
      ghost var spoken: seq<string> := [];
      while tokenizer.HasMoreTokens()
        invariant tokenizer.Valid()
        invariant words == spoken + Survivors(tokenizer.Remaining())
        invariant count == |spoken|
        invariant uniqueWords == old(uniqueWords) + Elements(spoken)
        decreases |tokenizer.Remaining()|
      {
        ghost var before := tokenizer.Remaining();
        var token := tokenizer.NextToken();
        var word := Normalize(token);
        SurvivorsStep(words, spoken, before, token, tokenizer.Remaining());
        if word != [] {
          ElementsAppend(old(uniqueWords), spoken, word);
          uniqueWords := uniqueWords + {word};
          count := count + 1;
          spoken := spoken + [word];
        }
      }
      assert spoken + [] == spoken;
    }
  }
}
