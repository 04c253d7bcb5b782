/**
 * The java.lang.String operations the three mappers rely on: `trim()`,
 * `contains`/`indexOf` on one character, `split(":", 2)`, ASCII
 * `toUpperCase()`/`toLowerCase()` and `replaceAll("[^a-zA-Z]", "")`.
 * Strings are sequences of characters.
 */
module JavaString {

  /** `String.trim()` removes every character whose code is at most U+0020. */
  predicate IsTrimmable(c: char) {
    c <= ' '
  }

  predicate IsUpper(c: char) {
    'A' <= c <= 'Z'
  }

  predicate IsLower(c: char) {
    'a' <= c <= 'z'
  }

  /** The class `[a-zA-Z]` of the mappers' regular expression. */
  predicate IsLetter(c: char) {
    IsUpper(c) || IsLower(c)
  }

  // ---------------------------------------------------------------------------
  // trim()

  /** Number of trimmable characters at the start of `s`. */
  function Lead(s: string): (n: nat)
    ensures n <= |s|
    decreases |s|
  {
    if s == [] || !IsTrimmable(s[0]) then 0 else 1 + Lead(s[1..])
  }

  /** `Lead(s)` stops at the first character that `trim()` keeps. */
  lemma {:induction false} LeadSpec(s: string)
    ensures forall i :: 0 <= i < Lead(s) ==> IsTrimmable(s[i])
    ensures Lead(s) < |s| ==> !IsTrimmable(s[Lead(s)])
    decreases |s|
  {
    if s != [] && IsTrimmable(s[0]) {
      LeadSpec(s[1..]);
      forall i | 0 < i < Lead(s) ensures IsTrimmable(s[i]) {
        assert s[i] == s[1..][i - 1];
      }
    }
  }

  /** Number of trimmable characters at the end of `s`. */
  function Trail(s: string): (n: nat)
    ensures n <= |s|
    decreases |s|
  {
    if s == [] || !IsTrimmable(s[|s| - 1]) then 0 else 1 + Trail(s[..|s| - 1])
  }

  /** `Trail(s)` stops at the last character that `trim()` keeps. */
  lemma {:induction false} TrailSpec(s: string)
    ensures forall i :: |s| - Trail(s) <= i < |s| ==> IsTrimmable(s[i])
    ensures Trail(s) < |s| ==> !IsTrimmable(s[|s| - 1 - Trail(s)])
    decreases |s|
  {
    if s != [] && IsTrimmable(s[|s| - 1]) {
      var p := s[..|s| - 1];
      TrailSpec(p);
      forall i | |s| - Trail(s) <= i < |s| - 1 ensures IsTrimmable(s[i]) {
        assert s[i] == p[i];
      }
    }
  }

  /**
   * `s.trim()`: the slice of `s` left after dropping the trimmable
   * characters at both ends (see `TrimSpec`).
   */
  function Trim(s: string): (r: string)
    ensures |r| <= |s|
  {
    var st := Lead(s);
    if st == |s| then []
    else
      LeadSpec(s);
      TrailSpec(s);
      assert !IsTrimmable(s[st]);
      s[st..|s| - Trail(s)]
  }

  /**
   * What `trim()` promises: the result is empty exactly when every
   * character is trimmable, otherwise it starts and ends with a kept
   * character; it is the slice of `s` that starts after the leading
   * trimmable characters, and only trimmable characters follow it.
   */
  lemma TrimSpec(s: string)
    ensures Trim(s) == [] <==> forall i :: 0 <= i < |s| ==> IsTrimmable(s[i])
    ensures Trim(s) != [] ==> !IsTrimmable(Trim(s)[0]) && !IsTrimmable(Trim(s)[|Trim(s)| - 1])
    ensures Lead(s) + |Trim(s)| <= |s| && Trim(s) == s[Lead(s)..Lead(s) + |Trim(s)|]
    ensures forall k :: 0 <= k < Lead(s) ==> IsTrimmable(s[k])
    ensures forall k :: Lead(s) + |Trim(s)| <= k < |s| ==> IsTrimmable(s[k])
  {
    LeadSpec(s);
    TrailSpec(s);
  }

  /**
   * The trimmed form of `s` is determined by where its first and last
   * non-trimmable characters are: any slice of `s` bounded by them is it.
   */
  lemma TrimOfSlice(s: string, i: nat, j: nat)
    requires i <= j <= |s|
    requires forall k :: 0 <= k < i ==> IsTrimmable(s[k])
    requires forall k :: j <= k < |s| ==> IsTrimmable(s[k])
    requires i < j ==> !IsTrimmable(s[i]) && !IsTrimmable(s[j - 1])
    ensures Trim(s) == s[i..j]
  {
    TrimSpec(s);
    LeadSpec(s);
    var r := Trim(s);
    if i == j {
      assert forall k :: 0 <= k < |s| ==> IsTrimmable(s[k]) by {
        forall k | 0 <= k < |s| ensures IsTrimmable(s[k]) {
          if k < i { } else { assert j <= k; }
        }
      }
    } else {
      assert Lead(s) == i;
      assert r != [];
      var e := i + |r|;
      assert s[e - 1] == r[|r| - 1];
    }
  }

  /** Trimming twice is trimming once. */
  lemma TrimIdempotent(s: string)
    ensures Trim(Trim(s)) == Trim(s)
  {
    TrimSpec(s);
    var r := Trim(s);
    TrimOfSlice(r, 0, |r|);
    assert r[0..|r|] == r;
  }

  /** Trailing trimmable characters do not change the trimmed form. */
  lemma TrimDropTrailing(s: string, m: nat)
    requires m <= |s|
    requires forall k :: m <= k < |s| ==> IsTrimmable(s[k])
    ensures Trim(s[..m]) == Trim(s)
  {
    var t := s[..m];
    TrimSpec(t);
    LeadSpec(t);
    var r := Trim(t);
    var i := Lead(t);
    if r == [] {
      assert forall k :: 0 <= k < |s| ==> IsTrimmable(s[k]) by {
        forall k | 0 <= k < |s| ensures IsTrimmable(s[k]) {
          if k < m { assert t[k] == s[k]; }
        }
      }
      TrimOfSlice(s, 0, 0);
    } else {
      var j := i + |r|;
      assert s[i] == t[i] == r[0];
      assert s[j - 1] == t[j - 1] == r[|r| - 1];
      forall k | 0 <= k < i ensures IsTrimmable(s[k]) {
        assert t[k] == s[k];
      }
      forall k | j <= k < |s| ensures IsTrimmable(s[k]) {
        if k < m { assert t[k] == s[k]; }
      }
      TrimOfSlice(s, i, j);
      assert t[i..j] == s[i..j];
    }
  }

  /** Leading trimmable characters do not change the trimmed form. */
  lemma TrimDropLeading(s: string, a: nat)
    requires a <= |s|
    requires forall k :: 0 <= k < a ==> IsTrimmable(s[k])
    ensures Trim(s[a..]) == Trim(s)
  {
    var t := s[a..];
    TrimSpec(t);
    LeadSpec(t);
    var r := Trim(t);
    var i, j := Lead(t), Lead(t) + |r|;
    ShiftTrimmable(s, a, 0, i);
    ShiftTrimmable(s, a, j, |t|);
    if r == [] {
      assert forall k :: 0 <= k < |s| ==> IsTrimmable(s[k]) by {
        forall k | 0 <= k < |s| ensures IsTrimmable(s[k]) {
          if k >= a { assert t[k - a] == s[k]; }
        }
      }
      TrimOfSlice(s, 0, 0);
    } else {
      assert s[a + i] == t[i] == r[0];
      assert s[a + j - 1] == t[j - 1] == r[|r| - 1];
      TrimOfSlice(s, a + i, a + j);
      assert t[i..j] == s[a + i..a + j];
    }
  }

  /** A trimmable stretch of a suffix is a trimmable stretch of the whole string. */
  lemma ShiftTrimmable(s: string, a: nat, lo: nat, hi: nat)
    requires a <= |s| && lo <= hi <= |s| - a
    requires forall k :: lo <= k < hi ==> IsTrimmable(s[a..][k])
    ensures forall k :: a + lo <= k < a + hi ==> IsTrimmable(s[k])
  {
    forall k | a + lo <= k < a + hi ensures IsTrimmable(s[k]) {
      assert s[a..][k - a] == s[k];
    }
  }

  // ---------------------------------------------------------------------------
  // indexOf(c) and split(":", 2)

  /** `s.indexOf(c)`: the first position of `c`, or -1 when `c` does not occur. */
  function IndexOf(s: string, c: char): (k: int)
    ensures -1 <= k < |s|
    ensures k == -1 <==> c !in s
    ensures k >= 0 ==> s[k] == c && c !in s[..k]
    decreases |s|
  {
    if s == [] then -1
    else if s[0] == c then 0
    else
      var k := IndexOf(s[1..], c);
      if k == -1 then -1
      else
        assert s[..k + 1] == [s[0]] + s[1..][..k];
        k + 1
  }

  /**
   * `s.split(sep, 2)` for a one-character separator: the whole string when
   * `sep` does not occur, otherwise the text before the FIRST `sep` and
   * everything after it (which may contain further separators).
   */
  function Split2(s: string, sep: char): (parts: seq<string>)
    ensures 1 <= |parts| <= 2
    ensures |parts| == 2 <==> sep in s
    ensures |parts| == 1 ==> parts[0] == s
    ensures |parts| == 2 ==> s == parts[0] + [sep] + parts[1] && sep !in parts[0]
  {
    var k := IndexOf(s, sep);
    if k < 0 then [s]
    else
      assert s == s[..k] + [sep] + s[k + 1..];
      [s[..k], s[k + 1..]]
  }

  /**
   * Only the first separator splits: whatever follows it, including more
   * separators, is the second part.
   */
  lemma Split2AtFirst(x: string, sep: char, y: string)
    requires sep !in x
    ensures Split2(x + [sep] + y, sep) == [x, y]
  {
    var s := x + [sep] + y;
    var parts := Split2(s, sep);
    assert s[|x|] == sep;
    assert |parts| == 2;
    var p := parts[0];
    assert |p| == |x|;
    assert p == s[..|p|] == x;
    assert parts[1] == s[|x| + 1..] == y;
  }

  /** The first part ends at the first `sep`; the second part is everything after it. */
  lemma Split2First(s: string, sep: char)
    requires sep in s
    ensures var k := |Split2(s, sep)[0]|;
      && k < |s| && s[k] == sep
      && (forall i :: 0 <= i < k ==> s[i] != sep)
      && Split2(s, sep) == [s[..k], s[k + 1..]]
  {
    var parts := Split2(s, sep);
    var k := |parts[0]|;
    assert s[k] == sep;
    assert forall i :: 0 <= i < k ==> s[i] == parts[0][i];
    assert s[..k] == parts[0];
    assert s[k + 1..] == parts[1];
  }

  /** Any position holding the first `sep` is where `split(sep, 2)` cuts. */
  lemma Split2At(s: string, sep: char, k: nat)
    requires k < |s| && s[k] == sep
    requires forall i :: 0 <= i < k ==> s[i] != sep
    ensures Split2(s, sep) == [s[..k], s[k + 1..]]
  {
    assert s == s[..k] + [sep] + s[k + 1..];
    Split2AtFirst(s[..k], sep, s[k + 1..]);
  }

  // ---------------------------------------------------------------------------
  // toUpperCase(), toLowerCase(), replaceAll("[^a-zA-Z]", "") on ASCII

  /** ASCII `Character.toUpperCase`: a lower-case letter moves down by 32, nothing else moves. */
  function UpperChar(c: char): (u: char)
    ensures !IsLower(u)
    ensures IsLetter(u) <==> IsLetter(c)
    ensures IsLower(c) ==> u as int == c as int - 32
    ensures !IsLower(c) ==> u == c
  {
    if IsLower(c) then (c as int - 32) as char else c
  }

  /** ASCII `Character.toLowerCase`: an upper-case letter moves up by 32, nothing else moves. */
  function LowerChar(c: char): (l: char)
    ensures !IsUpper(l)
    ensures IsLetter(l) <==> IsLetter(c)
    ensures IsUpper(c) ==> l as int == c as int + 32
    ensures !IsUpper(c) ==> l == c
  {
    if IsUpper(c) then (c as int + 32) as char else c
  }

  /** `s.toUpperCase()` restricted to ASCII, character by character. */
  function ToUpperCase(s: string): (r: string)
    ensures |r| == |s|
    ensures forall i :: 0 <= i < |s| ==> r[i] == UpperChar(s[i])
  {
    seq(|s|, i requires 0 <= i < |s| => UpperChar(s[i]))
  }

  /** `s.toLowerCase()` restricted to ASCII, character by character. */
  function ToLowerCase(s: string): (r: string)
    ensures |r| == |s|
    ensures forall i :: 0 <= i < |s| ==> r[i] == LowerChar(s[i])
  {
    seq(|s|, i requires 0 <= i < |s| => LowerChar(s[i]))
  }

  /** `s.replaceAll("[^a-zA-Z]", "")`: the letters of `s`, in order (see `KeepLettersSpec`). */
  function KeepLetters(s: string): (r: string)
    ensures |r| <= |s|
    decreases |s|
  {
    if s == [] then []
    else if IsLetter(s[0]) then [s[0]] + KeepLetters(s[1..])
    else KeepLetters(s[1..])
  }

  /** Only letters remain, none is lost, and a string with no letter becomes empty. */
  lemma {:induction false} KeepLettersSpec(s: string)
    ensures forall i :: 0 <= i < |KeepLetters(s)| ==> IsLetter(KeepLetters(s)[i])
    ensures forall c :: c in s && IsLetter(c) ==> c in KeepLetters(s)
    ensures KeepLetters(s) == [] <==> forall i :: 0 <= i < |s| ==> !IsLetter(s[i])
    decreases |s|
  {
    if s != [] {
      KeepLettersSpec(s[1..]);
      assert forall c :: c in s ==> c == s[0] || c in s[1..];
      assert forall i :: 1 <= i < |s| ==> s[i] == s[1..][i - 1];
    }
  }

  /** Removing non-letters distributes over concatenation. */
  lemma {:induction false} KeepLettersAppend(a: string, b: string)
    ensures KeepLetters(a + b) == KeepLetters(a) + KeepLetters(b)
    decreases |a|
  {
    if a != [] {
      assert (a + b)[1..] == a[1..] + b;
      KeepLettersAppend(a[1..], b);
    } else {
      assert a + b == b;
    }
  }
}
