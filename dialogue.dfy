/**
 * What the three mappers share: cutting a line at its first ':' into a
 * speaker and a dialogue, and reducing the dialogue to words (each
 * StringTokenizer token stripped of non-letters and lower-cased, empty
 * results dropped).
 */
module Dialogue {
  import opened JavaString
  import opened Tokenizer

  /** `parts[0].trim()` after `line.split(":", 2)`. */
  function Speaker(line: string): string
    requires ':' in line
  {
    Trim(Split2(line, ':')[0])
  }

  /** `parts[1].trim()` after `line.split(":", 2)`. */
  function Speech(line: string): string
    requires ':' in line
  {
    Trim(Split2(line, ':')[1])
  }

  /**
   * "JOHN: He said: hi" speaks as JOHN and says "He said: hi": only the
   * first ':' separates, and both sides are trimmed.
   */
  lemma SpeakerAndSpeech(name: string, text: string)
    requires ':' !in name
    ensures ':' in name + [':'] + text
    ensures Speaker(name + [':'] + text) == Trim(name)
    ensures Speech(name + [':'] + text) == Trim(text)
  {
    assert (name + [':'] + text)[|name|] == ':';
    Split2AtFirst(name, ':', text);
  }

  /** ':' is never trimmed, so trimming a line neither adds nor removes a ':'. */
  lemma ColonSurvivesTrim(value: string)
    ensures ':' in Trim(value) <==> ':' in value
  {
    TrimSpec(value);
    LeadSpec(value);
    var t := Trim(value);
    var lead := Lead(value);
    if ':' in value {
      var k :| 0 <= k < |value| && value[k] == ':';
      assert !IsTrimmable(value[k]);
      assert lead <= k < lead + |t|;
      assert t[k - lead] == ':';
    }
    if ':' in t {
      var i :| 0 <= i < |t| && t[i] == ':';
      assert value[lead + i] == ':';
    }
  }

  /** The name cut from the trimmed line trims to the name cut from the whole line. */
  lemma TrimmedName(value: string, t: string, lead: nat, end: nat, k: nat)
    requires lead <= k < end <= |value| && t == value[lead..end]
    requires forall i :: 0 <= i < lead ==> IsTrimmable(value[i])
    ensures Trim(t[..k - lead]) == Trim(value[..k])
  {
    var name := value[..k];
    assert t[..k - lead] == name[lead..];
    forall i | 0 <= i < lead ensures IsTrimmable(name[i]) {
      assert name[i] == value[i];
    }
    TrimDropLeading(name, lead);
  }

  /** The dialogue cut from the trimmed line trims to the dialogue cut from the whole line. */
  lemma TrimmedText(value: string, t: string, lead: nat, end: nat, k: nat)
    requires lead <= k < end <= |value| && t == value[lead..end]
    requires forall i :: end <= i < |value| ==> IsTrimmable(value[i])
    ensures Trim(t[k - lead + 1..]) == Trim(value[k + 1..])
  {
    var text := value[k + 1..];
    var m := end - (k + 1);
    assert t[k - lead + 1..] == text[..m];
    forall i | m <= i < |text| ensures IsTrimmable(text[i]) {
      assert text[i] == value[k + 1 + i];
    }
    TrimDropTrailing(text, m);
  }

  /**
   * Trimming the whole line before splitting it, as the counters mapper
   * does, changes neither the speaker nor the dialogue that the other two
   * mappers read from the untrimmed line.
   */
  lemma TrimmedLine(value: string)
    requires ':' in value
    ensures ':' in Trim(value)
    ensures Speaker(Trim(value)) == Speaker(value)
    ensures Speech(Trim(value)) == Speech(value)
  {
    ColonInWindow(value);
    var t := Trim(value);
    var lead, end := Lead(value), Lead(value) + |t|;
    var k := |Split2(value, ':')[0]|;
    FirstColonOfWindow(value, t, lead, end, k);
    assert t[k - lead] == ':';
    SplitsAgree(value, t, lead, end, k);
  }

  /** The first ':' of a line lies between its leading and its trailing trimmable characters. */
  lemma ColonInWindow(value: string)
    requires ':' in value
    ensures var k, lead, end := |Split2(value, ':')[0]|, Lead(value), Lead(value) + |Trim(value)|;
      && lead <= k < end <= |value|
      && Trim(value) == value[lead..end]
      && value[k] == ':' && (forall i :: 0 <= i < k ==> value[i] != ':')
      && (forall i :: 0 <= i < lead ==> IsTrimmable(value[i]))
      && (forall i :: end <= i < |value| ==> IsTrimmable(value[i]))
      && Split2(value, ':') == [value[..k], value[k + 1..]]
  {
    Split2First(value, ':');
    TrimSpec(value);
    LeadSpec(value);
    var k := |Split2(value, ':')[0]|;
    assert !IsTrimmable(value[k]);
  }

  lemma FirstColonOfWindow(value: string, t: string, lead: nat, end: nat, k: nat)
    requires lead <= k < end <= |value| && t == value[lead..end]
    requires value[k] == ':' && forall i :: 0 <= i < k ==> value[i] != ':'
    ensures Split2(t, ':') == [t[..k - lead], t[k - lead + 1..]]
  {
    assert forall i :: 0 <= i < |t| ==> t[i] == value[lead + i];
    Split2At(t, ':', k - lead);
  }

  lemma SplitsAgree(value: string, t: string, lead: nat, end: nat, k: nat)
    requires lead <= k < end <= |value| && t == value[lead..end]
    requires ':' in value && ':' in t
    requires forall i :: 0 <= i < lead ==> IsTrimmable(value[i])
    requires forall i :: end <= i < |value| ==> IsTrimmable(value[i])
    requires Split2(value, ':') == [value[..k], value[k + 1..]]
    requires Split2(t, ':') == [t[..k - lead], t[k - lead + 1..]]
    ensures Speaker(t) == Speaker(value) && Speech(t) == Speech(value)
  {
    TrimmedName(value, t, lead, end, k);
    TrimmedText(value, t, lead, end, k);
  }

  /** A token after `replaceAll("[^a-zA-Z]", "").toLowerCase()`. */
  function Normalize(fragment: string): (w: string)
    ensures |w| <= |fragment|
  {
    ToLowerCase(KeepLetters(fragment))
  }

  /**
   * A normalised token is made of lower-case letters only, and it is empty
   * exactly when the token holds no letter at all.
   */
  lemma NormalizeSpec(fragment: string)
    ensures forall i :: 0 <= i < |Normalize(fragment)| ==> IsLower(Normalize(fragment)[i])
    ensures Normalize(fragment) == [] <==> forall i :: 0 <= i < |fragment| ==> !IsLetter(fragment[i])
  {
    KeepLettersSpec(fragment);
  }

  /** A word as the mappers emit it: non-empty, lower-case ASCII letters only. */
  predicate IsWord(w: string) {
    w != [] && forall i :: 0 <= i < |w| ==> IsLower(w[i])
  }

  /** The tokens that stay non-empty after normalisation, normalised, in order. */
  function Survivors(tokens: seq<string>): (words: seq<string>)
    ensures |words| <= |tokens|
    decreases |tokens|
  {
    if tokens == [] then []
    else
      var w := Normalize(tokens[0]);
      (if w == [] then [] else [w]) + Survivors(tokens[1..])
  }

  /** Everything that survives normalisation is a word. */
  lemma {:induction false} SurvivorsAreWords(tokens: seq<string>)
    ensures forall k :: 0 <= k < |Survivors(tokens)| ==> IsWord(Survivors(tokens)[k])
    decreases |tokens|
  {
    if tokens != [] {
      NormalizeSpec(tokens[0]);
      SurvivorsAreWords(tokens[1..]);
    }
  }

  /** The words of a dialogue. */
  function Words(dialogue: string): seq<string> {
    Survivors(Fragments(dialogue))
  }

  /** Every word of a dialogue is a non-empty run of lower-case letters. */
  lemma WordsAreWords(dialogue: string)
    ensures forall k :: 0 <= k < |Words(dialogue)| ==> IsWord(Words(dialogue)[k])
  {
    SurvivorsAreWords(Fragments(dialogue));
  }

  /** The distinct words of a sequence of words. */
  function Elements(words: seq<string>): set<string>
    decreases |words|
  {
    if words == [] then {} else Elements(words[..|words| - 1]) + {words[|words| - 1]}
  }

  lemma {:induction false} ElementsMembership(words: seq<string>, w: string)
    ensures w in Elements(words) <==> w in words
    decreases |words|
  {
    if words != [] {
      var n := |words| - 1;
      ElementsMembership(words[..n], w);
      assert words == words[..n] + [words[n]];
    }
  }

  /** Normalising a sequence of tokens distributes over concatenation. */
  lemma {:induction false} SurvivorsAppend(a: seq<string>, b: seq<string>)
    ensures Survivors(a + b) == Survivors(a) + Survivors(b)
    decreases |a|
  {
    if a == [] {
      assert a + b == b;
    } else {
      assert (a + b)[0] == a[0];
      assert (a + b)[1..] == a[1..] + b;
      SurvivorsAppend(a[1..], b);
    }
  }

  /** A token yields one word when it holds a letter and none otherwise ("123", "--"). */
  lemma WordsOfFragment(f: string)
    requires IsFragment(f)
    ensures (exists i :: 0 <= i < |f| && IsLetter(f[i])) ==> Words(f) == [Normalize(f)]
    ensures (forall i :: 0 <= i < |f| ==> !IsLetter(f[i])) ==> Words(f) == []
  {
    FragmentsOfFragment(f);
    NormalizeSpec(f);
    assert [f][1..] == [];
  }

  /** A delimiter separates the words of the text on its two sides. */
  lemma WordsAtDelimiter(a: string, d: char, b: string)
    requires IsDelimiter(d)
    ensures Words(a + [d] + b) == Words(a) + Words(b)
  {
    FragmentsAtDelimiter(a, d, b);
    SurvivorsAppend(Fragments(a), Fragments(b));
  }

  /** Seeing one more word adds it to the words seen so far. */
  lemma ElementsAppend(seen: set<string>, words: seq<string>, w: string)
    ensures seen + Elements(words + [w]) == (seen + Elements(words)) + {w}
  {
    assert (words + [w])[..|words|] == words;
  }

  /** There are never more distinct words than words. */
  lemma {:induction false} ElementsSize(words: seq<string>)
    ensures |Elements(words)| <= |words|
    decreases |words|
  {
    if words != [] {
      var n := |words| - 1;
      ElementsSize(words[..n]);
    }
  }

  /**
   * One step of the mappers' loops: the words already handled, followed by
   * the words of the next token and then of the tokens after it, are all
   * the words.
   */
  lemma SurvivorsStep(all: seq<string>, spoken: seq<string>, tokens: seq<string>, token: string, rest: seq<string>)
    requires all == spoken + Survivors(tokens)
    requires [token] + rest == tokens
    ensures Normalize(token) == [] ==> all == spoken + Survivors(rest)
    ensures Normalize(token) != [] ==> all == (spoken + [Normalize(token)]) + Survivors(rest)
  {
    assert tokens[0] == token && tokens[1..] == rest;
  }

  /** Text without a letter has no word. */
  lemma {:induction false} WordsOfLetterless(s: string)
    requires forall i :: 0 <= i < |s| ==> !IsLetter(s[i])
    ensures Words(s) == []
    decreases |s|
  {
    if s != [] {
      if IsDelimiter(s[0]) {
        WordsOfLetterless(s[1..]);
      } else {
        var n := ScanToken(s, 0);
        NormalizeSpec(s[..n]);
        WordsOfLetterless(s[n..]);
        assert Fragments(s)[1..] == Fragments(s[n..]);
      }
    }
  }

  /**
   * A token with no letter, such as "123" or "--", drops out: between two
   * delimiters it leaves the words of the text around it unchanged.
   */
  lemma LetterlessTokenDropped(a: string, d: char, token: string, e: char, b: string)
    requires IsDelimiter(d) && IsDelimiter(e)
    requires forall i :: 0 <= i < |token| ==> !IsLetter(token[i])
    ensures Words(a + [d] + token + [e] + b) == Words(a) + Words(b)
  {
    var r := token + [e] + b;
    assert a + [d] + token + [e] + b == a + [d] + r;
    WordsAtDelimiter(a, d, r);
    WordsAtDelimiter(token, e, b);
    WordsOfLetterless(token);
    assert Words(r) == Words(b);
  }
}
