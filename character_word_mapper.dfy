/**
 * CharacterWordMapper: for every word a character speaks on a line, write
 * the key `character + "#" + word` with the value 1. The character name
 * keeps its case; a line without ':' writes nothing.
 */
module CharacterWordMapper {
  import opened JavaString
  import opened Tokenizer
  import opened Dialogue

  /** One `context.write(characterWord, one)`. */
  datatype Emission = Emission(key: string, value: int)

  function Keyed(character: string, words: seq<string>): (out: seq<Emission>)
    ensures |out| == |words|
    ensures forall i :: 0 <= i < |words| ==> out[i] == Emission(character + "#" + words[i], 1)
  {
    seq(|words|, i requires 0 <= i < |words| => Emission(character + "#" + words[i], 1))
  }

  lemma KeyedAppend(character: string, words: seq<string>, w: string)
    ensures Keyed(character, words + [w]) == Keyed(character, words) + [Emission(character + "#" + w, 1)]
  {
  }

  /** Everything one call of `map` writes for `line`, in order. */
  function Emissions(line: string): seq<Emission> {
    if ':' in line then Keyed(Speaker(line), Words(Speech(line))) else []
  }

  /**
   * `map`: split at the first ':', trim both sides, then walk the tokens
   * of the dialogue and write one record per token that keeps a letter.
   */
  method Map(line: string) returns (written: seq<Emission>)
    ensures written == Emissions(line)
  {
    written := [];
    if ':' in line {
      var parts := Split2(line, ':');
      var character := Trim(parts[0]);
      var dialogue := Trim(parts[1]);
      var tokenizer := new StringTokenizer(dialogue);
      ghost var spoken: seq<string> := [];
      while tokenizer.HasMoreTokens()
        invariant tokenizer.Valid()
        invariant Words(dialogue) == spoken + Survivors(tokenizer.Remaining())
        invariant written == Keyed(character, spoken)
        decreases |tokenizer.Remaining()|
      {
        ghost var before := tokenizer.Remaining();
        var token := tokenizer.NextToken();
        var word := Normalize(token);
        SurvivorsStep(Words(dialogue), spoken, before, token, tokenizer.Remaining());
        if word != [] {
          KeyedAppend(character, spoken, word);
          written := written + [Emission(character + "#" + word, 1)];
          spoken := spoken + [word];
        }
      }
      assert spoken + [] == spoken;
    }
  }

  /** A line without ':' writes nothing. */
  lemma NoColonNoEmission(line: string)
    requires ':' !in line
    ensures Emissions(line) == []
  {
  }

  /**
   * Every record has value 1 and the key `character + "#" + w`, where the
   * character is the trimmed text before the first ':' in its original case
   * and `w` is a non-empty word of lower-case letters; the word can be read
   * back from the key.
   */
  lemma EmissionShape(line: string, i: nat)
    requires i < |Emissions(line)|
    ensures ':' in line
    ensures var e := Emissions(line)[i];
      && e.value == 1
      && |Speaker(line)| < |e.key|
      && e.key[..|Speaker(line)| + 1] == Speaker(line) + "#"
      && IsWord(e.key[|Speaker(line)| + 1..])
  {
    WordsAreWords(Speech(line));
    var c := Speaker(line);
    var w := Words(Speech(line))[i];
    var key := c + "#" + w;
    assert key[..|c| + 1] == c + "#";
    assert key[|c| + 1..] == w;
  }

  /**
   * One record per word of the dialogue, in left-to-right order and with
   * repeated words written again.
   */
  lemma EmissionsFollowWords(name: string, text: string)
    requires ':' !in name
    ensures var out := Emissions(name + [':'] + text);
      var words := Words(Trim(text));
      && |out| == |words|
      && forall i :: 0 <= i < |out| ==> out[i].key == Trim(name) + "#" + words[i]
  {
    SpeakerAndSpeech(name, text);
  }

  /** A dialogue with no letter at all, such as "123 --", writes nothing. */
  lemma LetterlessDialogueWritesNothing(line: string)
    requires ':' in line
    requires forall c :: c in Split2(line, ':')[1] ==> !IsLetter(c)
    ensures Emissions(line) == []
  {
    var text := Split2(line, ':')[1];
    var d := Trim(text);
    TrimSpec(text);
    assert forall i :: 0 <= i < |d| ==> d[i] in text by {
      forall i | 0 <= i < |d| ensures d[i] in text {
        assert d[i] == text[Lead(text) + i];
      }
    }
    WordsOfLetterless(d);
  }
}
