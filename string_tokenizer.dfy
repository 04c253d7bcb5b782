/**
 * java.util.StringTokenizer with its default delimiter set, as the mappers
 * use it: `new StringTokenizer(dialogue)`, then `hasMoreTokens()` and
 * `nextToken()` until the dialogue is exhausted.
 *
 * `Fragments` is the specification: the maximal runs of non-delimiters,
 * left to right. The class walks a position through the string as the
 * library does and is proved to hand out exactly those runs.
 */
module Tokenizer {

  /** The default delimiters " \t\n\r\f". */
  predicate IsDelimiter(c: char) {
    c == ' ' || c == '\t' || c == '\n' || c == '\r' || c == '\U{C}'
  }

  /** A token: non-empty and free of delimiters. */
  predicate IsFragment(f: string) {
    f != [] && forall i :: 0 <= i < |f| ==> !IsDelimiter(f[i])
  }

  /** The first position at or after `pos` that does not hold a delimiter. */
  function SkipDelimiters(s: string, pos: nat): (p: nat)
    requires pos <= |s|
    ensures pos <= p <= |s|
    ensures forall i :: pos <= i < p ==> IsDelimiter(s[i])
    ensures p < |s| ==> !IsDelimiter(s[p])
    decreases |s| - pos
  {
    if pos < |s| && IsDelimiter(s[pos]) then SkipDelimiters(s, pos + 1) else pos
  }

  /** The first position at or after `pos` that holds a delimiter (or the end). */
  function ScanToken(s: string, pos: nat): (p: nat)
    requires pos <= |s|
    ensures pos <= p <= |s|
    ensures forall i :: pos <= i < p ==> !IsDelimiter(s[i])
    ensures p < |s| ==> IsDelimiter(s[p])
    decreases |s| - pos
  {
    if pos < |s| && !IsDelimiter(s[pos]) then ScanToken(s, pos + 1) else pos
  }

  /** The tokens of `s`, left to right. */
  function Fragments(s: string): (fs: seq<string>)
    ensures |fs| <= |s|
    decreases |s|
  {
    if s == [] then []
    else if IsDelimiter(s[0]) then Fragments(s[1..])
    else
      var n := ScanToken(s, 0);
      [s[..n]] + Fragments(s[n..])
  }

  /** Every token is non-empty and holds no delimiter. */
  lemma {:induction false} FragmentsAreTokens(s: string)
    ensures forall k :: 0 <= k < |Fragments(s)| ==> IsFragment(Fragments(s)[k])
    decreases |s|
  {
    if s != [] {
      if IsDelimiter(s[0]) {
        FragmentsAreTokens(s[1..]);
      } else {
        var n := ScanToken(s, 0);
        FragmentsAreTokens(s[n..]);
        assert Fragments(s)[1..] == Fragments(s[n..]);
      }
    }
  }

  /** A string without delimiters is one token. */
  lemma FragmentsOfFragment(f: string)
    requires IsFragment(f)
    ensures Fragments(f) == [f]
  {
    assert ScanToken(f, 0) == |f|;
    assert f[..|f|] == f;
    assert f[|f|..] == [];
  }

  /** A string made only of delimiters has no token. */
  lemma {:induction false} FragmentsOfDelimiters(s: string)
    requires forall i :: 0 <= i < |s| ==> IsDelimiter(s[i])
    ensures Fragments(s) == []
    decreases |s|
  {
    if s != [] {
      FragmentsOfDelimiters(s[1..]);
    }
  }

  /**
   * A delimiter separates: the tokens of `a + [d] + b` are the tokens of
   * `a` followed by the tokens of `b`. With the two lemmas above this
   * determines `Fragments` completely.
   */
  lemma {:induction false} FragmentsAtDelimiter(a: string, d: char, b: string)
    requires IsDelimiter(d)
    ensures Fragments(a + [d] + b) == Fragments(a) + Fragments(b)
    decreases |a|
  {
    var s := a + [d] + b;
    if a == [] {
      assert s[1..] == b;
    } else if IsDelimiter(a[0]) {
      assert s[1..] == a[1..] + [d] + b;
      FragmentsAtDelimiter(a[1..], d, b);
    } else {
      var n := ScanToken(s, 0);
      var m := ScanToken(a, 0);
      assert s[|a|] == d;
      assert forall i :: 0 <= i < |a| ==> s[i] == a[i];
      assert n == m;
      assert s[..n] == a[..m];
      assert s[n..] == a[m..] + [d] + b;
      FragmentsAtDelimiter(a[m..], d, b);
    }
  }

  /** Scanning a suffix finds the same token end as scanning the whole string. */
  lemma ScanTokenOfSuffix(s: string, p: nat)
    requires p <= |s|
    ensures ScanToken(s[p..], 0) == ScanToken(s, p) - p
  {
    var t := s[p..];
    var e := ScanToken(s, p);
    assert ScanToken(t, 0) == e - p;
  }

  /** Leading delimiters contribute no token. */
  lemma {:induction false} FragmentsSkip(s: string, pos: nat)
    requires pos <= |s|
    ensures Fragments(s[pos..]) == Fragments(s[SkipDelimiters(s, pos)..])
    decreases |s| - pos
  {
    if pos < |s| && IsDelimiter(s[pos]) {
      assert s[pos..][1..] == s[pos + 1..];
      FragmentsSkip(s, pos + 1);
    }
  }

  /** At a non-delimiter, the next token runs up to the next delimiter. */
  lemma FragmentsAt(s: string, p: nat)
    requires p < |s| && !IsDelimiter(s[p])
    ensures Fragments(s[p..]) == [s[p..ScanToken(s, p)]] + Fragments(s[ScanToken(s, p)..])
  {
    var t := s[p..];
    ScanTokenOfSuffix(s, p);
    var e := ScanToken(s, p);
    assert t[..e - p] == s[p..e];
    assert t[e - p..] == s[e..];
  }

  /**
   * The library object: the string and the position of the next unread
   * character. `Remaining()` is what it still has to hand out.
   */
  class StringTokenizer {
    const str: string
    var currentPosition: nat

    ghost predicate Valid()
      reads this
    {
      currentPosition <= |str|
    }

    ghost function Remaining(): seq<string>
      reads this
      requires Valid()
    {
      Fragments(str[currentPosition..])
    }

    constructor (s: string)
      ensures Valid() && str == s
      ensures Remaining() == Fragments(s)
    {
      str := s;
      currentPosition := 0;
      assert s[0..] == s;
    }

    /** `hasMoreTokens()`: is there a non-delimiter at or after the position? */
    function HasMoreTokens(): (more: bool)
      reads this
      requires Valid()
      ensures more <==> Remaining() != []
    {
      var p := SkipDelimiters(str, currentPosition);
      FragmentsSkip(str, currentPosition);
      if p < |str| then FragmentsAt(str, p); true else false
    }

    /** `nextToken()`: skip delimiters, then return the run up to the next one. */
    method NextToken() returns (token: string)
      requires Valid() && Remaining() != []
      modifies this
      ensures Valid()
      ensures [token] + Remaining() == old(Remaining())
      ensures IsFragment(token)
    {
      var start := SkipDelimiters(str, currentPosition);
      FragmentsSkip(str, currentPosition);
      FragmentsAt(str, start);
      currentPosition := ScanToken(str, start);
      token := str[start..currentPosition];
    }
  }
}
