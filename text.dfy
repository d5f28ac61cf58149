/** The ASCII part of Python's `str` behaviour that the card tools rely on:
    character classes, `lower()`, `in`, `find`, `replace`, `split()`,
    `strip()`, `isdigit()`/`int()` and `join`. */
module Text {
  import opened Wrappers

  /** `str.isspace()` on ASCII: blank, tab, the line breaks and the four
      information separators \x1c-\x1f, all of which `split()` and `\s` treat
      as whitespace. */
  predicate IsSpace(c: char) {
    c == ' ' || c == '\t' || c == '\n' || c == '\r' || c == '\U{0B}' || c == '\U{0C}'
    || ('\U{1C}' <= c <= '\U{1F}')
  }

  predicate IsUpper(c: char) { 'A' <= c <= 'Z' }

  predicate IsLowerLetter(c: char) { 'a' <= c <= 'z' }

  predicate IsLetter(c: char) { IsUpper(c) || IsLowerLetter(c) }

  predicate IsDigit(c: char) { '0' <= c <= '9' }

  function LowerChar(c: char): (d: char)
    ensures !IsUpper(d)
    ensures IsUpper(c) ==> IsLowerLetter(d)
    ensures !IsUpper(c) ==> d == c
  {
    if IsUpper(c) then (c as int + 32) as char else c
  }

  /** `str.lower()` */
  function Lower(s: string): (r: string)
    ensures |r| == |s|
    ensures forall i :: 0 <= i < |s| ==> r[i] == LowerChar(s[i])
  {
    if s == [] then [] else [LowerChar(s[0])] + Lower(s[1..])
  }

  lemma LowerAppend(a: string, b: string)
    ensures Lower(a + b) == Lower(a) + Lower(b)
  {
    assert forall i :: 0 <= i < |a + b| ==> Lower(a + b)[i] == (Lower(a) + Lower(b))[i];
  }

  /** A string with no upper-case letter is its own lower-case form. */
  lemma LowerIdentity(s: string)
    requires forall c <- s :: !IsUpper(c)
    ensures Lower(s) == s
  {
  }

  // ---------------------------------------------------------------------
  // Substrings: Python's `sub in s` and `s.find(sub)`

  /** `sub` stands at index `j` of `s`. */
  predicate OccursAt(s: string, sub: string, j: nat) {
    j + |sub| <= |s| && s[j..j + |sub|] == sub
  }

  /** The first index at or after `k` where `sub` occurs, if any. */
  function FindFrom(s: string, sub: string, k: nat): (r: Option<nat>)
    decreases |s| - k
    ensures r.Some? ==> k <= r.value && OccursAt(s, sub, r.value)
    ensures r.Some? ==> forall j :: k <= j < r.value ==> !OccursAt(s, sub, j)
    ensures r.None? ==> forall j :: k <= j ==> !OccursAt(s, sub, j)
  {
    if k + |sub| > |s| then None
    else if s[k..k + |sub|] == sub then Some(k)
    else FindFrom(s, sub, k + 1)
  }

  /** `s.find(sub)`: the first occurrence of `sub` in `s`. */
  function Find(s: string, sub: string): (r: Option<nat>)
    ensures r.Some? ==> OccursAt(s, sub, r.value)
    ensures r.Some? ==> forall j: nat :: j < r.value ==> !OccursAt(s, sub, j)
    ensures r.None? ==> forall j: nat :: !OccursAt(s, sub, j)
  {
    FindFrom(s, sub, 0)
  }

  /** Python's `sub in s`. */
  predicate HasSubstring(s: string, sub: string) {
    Find(s, sub).Some?
  }

  lemma HasSubstringIff(s: string, sub: string)
    ensures HasSubstring(s, sub) <==> exists j: nat :: OccursAt(s, sub, j)
  {
  }

  // ---------------------------------------------------------------------
  // str.replace

  /** `s.replace(pat, rep)`: every occurrence of `pat`, scanning left to
      right without overlap, is replaced by `rep`. */
  function ReplaceAll(s: string, pat: string, rep: string): string
    requires pat != []
    decreases |s|
  {
    if |s| < |pat| then s
    else if s[..|pat|] == pat then rep + ReplaceAll(s[|pat|..], pat, rep)
    else [s[0]] + ReplaceAll(s[1..], pat, rep)
  }

  /** A string without the pattern is left as it is. */
  lemma {:induction false} ReplaceAllAbsent(s: string, pat: string, rep: string)
    requires pat != []
    requires forall j: nat :: !OccursAt(s, pat, j)
    ensures ReplaceAll(s, pat, rep) == s
    decreases |s|
  {
    if |s| >= |pat| {
      assert !OccursAt(s, pat, 0);
      forall j: nat ensures !OccursAt(s[1..], pat, j) {
        assert !OccursAt(s, pat, j + 1);
        if j + |pat| <= |s| - 1 {
          assert s[1..][j..j + |pat|] == s[j + 1..j + 1 + |pat|];
        }
      }
      ReplaceAllAbsent(s[1..], pat, rep);
    }
  }

  /** Replacing one character by another acts position by position. */
  lemma {:induction false} ReplaceCharAt(s: string, a: char, b: char)
    ensures |ReplaceAll(s, [a], [b])| == |s|
    ensures forall i :: 0 <= i < |s| ==>
      ReplaceAll(s, [a], [b])[i] == if s[i] == a then b else s[i]
    decreases |s|
  {
    if s != [] {
      ReplaceCharAt(s[1..], a, b);
      assert s[..1] == [a] <==> s[0] == a;
    }
  }

  // ---------------------------------------------------------------------
  // str.split() with no argument

  /** Length of the run of non-blank characters that starts `s`. */
  function WordLength(s: string): (n: nat)
    ensures n <= |s|
    ensures forall j :: 0 <= j < n ==> !IsSpace(s[j])
    ensures n < |s| ==> IsSpace(s[n])
    ensures s != [] && !IsSpace(s[0]) ==> n > 0
  {
    if s == [] || IsSpace(s[0]) then 0 else 1 + WordLength(s[1..])
  }

  /** `s.split()`: the maximal runs of non-whitespace characters, in order. */
  function Split(s: string): (words: seq<string>)
    ensures forall w <- words :: w != [] && forall c <- w :: !IsSpace(c)
    decreases |s|
  {
    if s == [] then []
    else if IsSpace(s[0]) then Split(s[1..])
    else
      var n := WordLength(s);
      [s[..n]] + Split(s[n..])
  }

  function Concat(words: seq<string>): string {
    if words == [] then [] else words[0] + Concat(words[1..])
  }

  /** The characters of `s` that are not whitespace, in order. */
  function RemoveSpaces(s: string): (r: string)
    ensures forall c <- r :: !IsSpace(c)
  {
    if s == [] then []
    else (if IsSpace(s[0]) then [] else [s[0]]) + RemoveSpaces(s[1..])
  }

  lemma {:induction false} RemoveSpacesAppend(a: string, b: string)
    ensures RemoveSpaces(a + b) == RemoveSpaces(a) + RemoveSpaces(b)
    decreases |a|
  {
    if a == [] {
      assert a + b == b;
    } else {
      assert (a + b)[1..] == a[1..] + b;
      RemoveSpacesAppend(a[1..], b);
    }
  }

  lemma {:induction false} RemoveSpacesNone(s: string)
    requires forall c <- s :: !IsSpace(c)
    ensures RemoveSpaces(s) == s
    decreases |s|
  {
    if s != [] {
      RemoveSpacesNone(s[1..]);
    }
  }

  /** Splitting loses exactly the whitespace: the words, put back together,
      are the input without its blanks. */
  lemma {:induction false} SplitConcat(s: string)
    ensures Concat(Split(s)) == RemoveSpaces(s)
    decreases |s|
  {
    if s == [] {
    } else if IsSpace(s[0]) {
      SplitConcat(s[1..]);
    } else {
      var n := WordLength(s);
      SplitConcat(s[n..]);
      assert s == s[..n] + s[n..];
      RemoveSpacesAppend(s[..n], s[n..]);
      RemoveSpacesNone(s[..n]);
      assert Split(s) == [s[..n]] + Split(s[n..]);
      assert ([s[..n]] + Split(s[n..]))[1..] == Split(s[n..]);
    }
  }

  lemma {:induction false} WordLengthOf(w: string, rest: string)
    requires forall c <- w :: !IsSpace(c)
    requires rest == [] || IsSpace(rest[0])
    ensures WordLength(w + rest) == |w|
    decreases |w|
  {
    if w == [] {
      assert w + rest == rest;
    } else {
      assert (w + rest)[1..] == w[1..] + rest;
      assert forall c <- w[1..] :: c in w;
      WordLengthOf(w[1..], rest);
    }
  }

  /** A word followed by whitespace or by nothing is split off whole. */
  lemma SplitWord(w: string, rest: string)
    requires w != [] && forall c <- w :: !IsSpace(c)
    requires rest == [] || IsSpace(rest[0])
    ensures Split(w + rest) == [w] + Split(rest)
  {
    WordLengthOf(w, rest);
    assert (w + rest)[0] == w[0] && w[0] in w;
    assert (w + rest)[..|w|] == w && (w + rest)[|w|..] == rest;
  }

  /** `split()` finds the words back that a single blank joined: the runs
      it cuts are exactly the maximal ones. */
  lemma {:induction false} SplitJoin(words: seq<string>)
    requires forall w <- words :: w != [] && forall c <- w :: !IsSpace(c)
    ensures Split(Join(words, " ")) == words
    decreases |words|
  {
    if |words| == 1 {
      assert words[0] in words;
      SplitWord(words[0], []);
      assert words[0] + [] == words[0];
    } else if |words| > 1 {
      var w, rest := words[0], Join(words[1..], " ");
      assert w in words;
      assert forall v <- words[1..] :: v in words;
      assert Join(words, " ") == w + (" " + rest);
      SplitWord(w, " " + rest);
      assert (" " + rest)[1..] == rest;
      SplitJoin(words[1..]);
    }
  }

  // ---------------------------------------------------------------------
  // str.strip() with no argument

  function TrimLeadingSpaces(s: string): (r: string)
    ensures |r| <= |s| && r == s[|s| - |r|..]
    ensures r == [] || !IsSpace(r[0])
  {
    if s != [] && IsSpace(s[0]) then TrimLeadingSpaces(s[1..]) else s
  }

  function TrimTrailingSpaces(s: string): (r: string)
    ensures |r| <= |s| && r == s[..|r|]
    ensures r == [] || !IsSpace(r[|r| - 1])
  {
    if s != [] && IsSpace(s[|s| - 1]) then TrimTrailingSpaces(s[..|s| - 1]) else s
  }

  /** Only whitespace is removed from the front. */
  lemma {:induction false} LeadingSpacesDropped(s: string)
    ensures forall i :: 0 <= i < |s| - |TrimLeadingSpaces(s)| ==> IsSpace(s[i])
    decreases |s|
  {
    if s != [] && IsSpace(s[0]) {
      LeadingSpacesDropped(s[1..]);
      assert forall i :: 1 <= i < |s| ==> s[i] == s[1..][i - 1];
    }
  }

  /** Only whitespace is removed from the back. */
  lemma {:induction false} TrailingSpacesDropped(s: string)
    ensures forall i :: |TrimTrailingSpaces(s)| <= i < |s| ==> IsSpace(s[i])
    decreases |s|
  {
    if s != [] && IsSpace(s[|s| - 1]) {
      TrailingSpacesDropped(s[..|s| - 1]);
    }
  }

  /** `s.strip()` */
  function Strip(s: string): string {
    TrimTrailingSpaces(TrimLeadingSpaces(s))
  }

  // ---------------------------------------------------------------------
  // Prefixes, suffixes, digits

  predicate StartsWith(s: string, prefix: string) {
    prefix <= s
  }

  predicate EndsWith(s: string, suffix: string) {
    |suffix| <= |s| && s[|s| - |suffix|..] == suffix
  }

  /** `s.isdigit()` on ASCII: non-empty and all decimal digits. */
  predicate IsDigits(s: string) {
    s != [] && forall c <- s :: IsDigit(c)
  }

  /** `int(s)` for a string of decimal digits. */
  function DigitsValue(s: string): (n: nat)
    requires forall c <- s :: IsDigit(c)
    decreases |s|
  {
    if s == [] then 0
    else
      var last := s[|s| - 1];
      assert last in s && IsDigit(last);
      DigitsValue(s[..|s| - 1]) * 10 + (last as int - '0' as int)
  }

  /** The decimal digits of `n`, most significant first. */
  function NatToString(n: nat): (s: string)
    ensures IsDigits(s)
    decreases n
  {
    var d := [('0' as int + n % 10) as char];
    if n < 10 then d else NatToString(n / 10) + d
  }

  /** `str(n)` for a Python int. */
  function IntToString(n: int): (s: string)
    ensures s != [] && forall c <- s :: IsDigit(c) || c == '-'
  {
    if n < 0 then "-" + NatToString(-n) else NatToString(n)
  }

  /** Printing a natural number and reading it back gives the number. */
  lemma {:induction false} NatToStringRoundTrip(n: nat)
    ensures DigitsValue(NatToString(n)) == n
    decreases n
  {
    var s := NatToString(n);
    if n >= 10 {
      NatToStringRoundTrip(n / 10);
      assert s[..|s| - 1] == NatToString(n / 10);
    }
  }

  /** `sep.join(parts)` */
  function Join(parts: seq<string>, sep: string): string {
    if parts == [] then []
    else if |parts| == 1 then parts[0]
    else parts[0] + sep + Join(parts[1..], sep)
  }
}
