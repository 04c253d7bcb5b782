/**
 * UniqueWordsMapper: for every word a character speaks on a line, write the
 * pair (character, word). Duplicates are left for the reduce side; the
 * character name keeps its case; a line without ':' writes nothing.
 */
module UniqueWordsMapper {
  import opened JavaString
  import opened Tokenizer
  import opened Dialogue

  /** One `context.write(character, word)`. */
  datatype Spoken = Spoken(character: string, word: string)

  function Attributed(character: string, words: seq<string>): (out: seq<Spoken>)
    ensures |out| == |words|
    ensures forall i :: 0 <= i < |words| ==> out[i] == Spoken(character, words[i])
  {
    seq(|words|, i requires 0 <= i < |words| => Spoken(character, words[i]))
  }

  lemma AttributedAppend(character: string, words: seq<string>, w: string)
    ensures Attributed(character, words + [w]) == Attributed(character, words) + [Spoken(character, w)]
  {
  }

  /** Everything one call of `map` writes for `line`, in order. */
  function Emissions(line: string): seq<Spoken> {
    if ':' in line then Attributed(Speaker(line), Words(Speech(line))) else []
  }

  /**
   * `map`: set the character to the trimmed text before the first ':',
   * then write it with every token of the trimmed rest that keeps a letter.
   */
  method Map(line: string) returns (written: seq<Spoken>)
    ensures written == Emissions(line)
  {
    written := [];
    if ':' in line {
      var parts := Split2(line, ':');
      var character := Trim(parts[0]);
      var tokenizer := new StringTokenizer(Trim(parts[1]));
      ghost var dialogue := Trim(parts[1]);
      ghost var spoken: seq<string> := [];
      while tokenizer.HasMoreTokens()
        invariant tokenizer.Valid()
        invariant Words(dialogue) == spoken + Survivors(tokenizer.Remaining())
        invariant written == Attributed(character, spoken)
        decreases |tokenizer.Remaining()|
      {
        ghost var before := tokenizer.Remaining();
        var token := tokenizer.NextToken();
        var word := Normalize(token);
        SurvivorsStep(Words(dialogue), spoken, before, token, tokenizer.Remaining());
        if word != [] {
          AttributedAppend(character, spoken, word);
          written := written + [Spoken(character, word)];
          spoken := spoken + [word];
        }
      }
      assert spoken + [] == spoken;
    }
  }

  /** A line without ':' writes nothing. */
  lemma NoColonNoEmission(line: string)
    requires ':' !in line
    ensures Emissions(line) == []
  {
  }

  /**
   * Every pair carries the trimmed text before the first ':', case kept,
   * and a non-empty word of lower-case letters.
   */
  lemma EmissionShape(line: string, i: nat)
    requires i < |Emissions(line)|
    ensures ':' in line
    ensures Emissions(line)[i].character == Trim(Split2(line, ':')[0])
    ensures IsWord(Emissions(line)[i].word)
  {
    WordsAreWords(Speech(line));
  }

  /**
   * One pair per word, in order, repeated words written again: the words
   * written are exactly the words of the dialogue.
   */
  lemma EmissionsFollowWords(name: string, text: string)
    requires ':' !in name
    ensures var out := Emissions(name + [':'] + text);
      && |out| == |Words(Trim(text))|
      && forall i :: 0 <= i < |out| ==> out[i] == Spoken(Trim(name), Words(Trim(text))[i])
  {
    SpeakerAndSpeech(name, text);
  }
}
