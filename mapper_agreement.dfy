/**
 * The three mappers read the same line in the same way. The counters
 * mapper trims the whole line before splitting it and upper-cases the
 * name, yet it counts exactly the words the other two write, and the set
 * it collects holds exactly the words the unique-words mapper pairs with
 * the speaker.
 */
module MapperAgreement {
  import opened JavaString
  import opened Dialogue
  import HadoopCounters
  import CW = CharacterWordMapper
  import UW = UniqueWordsMapper

  /**
   * For a line with ':', the counters mapper's word count (its
   * WORDS_PROCESSED record and the growth of TOTAL_WORDS_PROCESSED) is the
   * number of records the character-word mapper writes, its character is
   * that mapper's speaker in upper case, and TOTAL_CHARACTERS_PROCESSED
   * grows by the length of the dialogue that mapper tokenises.
   */
  lemma CountsAgreeWithCharacterWords(s: HadoopCounters.Snapshot, value: string)
    requires ':' in value
    ensures var r := HadoopCounters.MapLine(s, value);
      var n := |CW.Emissions(value)|;
      && r.totalWordsProcessed == s.totalWordsProcessed + n
      && |r.output| == |s.output| + 2
      && r.output[|s.output|] == HadoopCounters.Record(HadoopCounters.WordsProcessedKey, n)
      && r.character == ToUpperCase(Speaker(value))
      && r.totalCharactersProcessed == s.totalCharactersProcessed + |Speech(value)|
  {
    HadoopCounters.AcceptedLine(s, value);
  }

  /**
   * For the same line, the unique-words mapper writes one pair per record
   * of the character-word mapper, in the same order, and each key of the
   * latter is the pair's character, '#', and the pair's word.
   */
  lemma UniqueWordsFollowCharacterWords(line: string)
    ensures |UW.Emissions(line)| == |CW.Emissions(line)|
    ensures forall i :: 0 <= i < |CW.Emissions(line)| ==>
      CW.Emissions(line)[i].key == UW.Emissions(line)[i].character + "#" + UW.Emissions(line)[i].word
  {
  }

  /**
   * The words the counters mapper adds to `uniqueWords` for a line are
   * exactly the words the unique-words mapper writes for it.
   */
  lemma CollectedWordsAreWrittenWords(s: HadoopCounters.Snapshot, value: string)
    requires ':' in value
    ensures HadoopCounters.MapLine(s, value).uniqueWords
         == s.uniqueWords + (set p | p in UW.Emissions(value) :: p.word)
  {
    HadoopCounters.AcceptedLine(s, value);
    var words := Words(Speech(value));
    var out := UW.Emissions(value);
    forall w ensures w in Elements(words) <==> w in (set p | p in out :: p.word) {
      ElementsMembership(words, w);
      if w in words {
        var i :| 0 <= i < |words| && words[i] == w;
        assert out[i] in out;
      }
    }
  }
}
