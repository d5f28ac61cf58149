/** `card_name_to_file_name`: the sanitiser that turns a card name into the
    `safe_name` and image `file_name` keys of every card record. The same
    body appears in the card-data preparation script and in the image
    downloader; this one definition models both. */
module FileNames {
  import opened Text
  import opened Hyphens

  /** The characters the comprehension keeps: ASCII letters, digits, '-'
      and '_'. */
  predicate IsFileNameChar(c: char) {
    IsLetter(c) || IsDigit(c) || c == '-' || c == '_'
  }

  /** What a finished name may hold: the kept characters after `lower()`. */
  predicate IsSafeChar(c: char) {
    IsLowerLetter(c) || IsDigit(c) || c == '-' || c == '_'
  }

  /** `"".join([c for c in s if c in "a..zA..Z0..9-_"])` */
  function KeepFileNameChars(s: string): (r: string)
    ensures forall c <- r :: IsFileNameChar(c)
  {
    if s == [] then []
    else (if IsFileNameChar(s[0]) then [s[0]] else []) + KeepFileNameChars(s[1..])
  }

  /** The two trimming loops followed by `strip("-")`. */
  function Trimmed(s: string): string {
    StripHyphens(TrimTrailingHyphens(TrimLeadingHyphens(s)))
  }

  /** The part of `card_name_to_file_name` before the trimming: spaces
      become hyphens, other characters are filtered, hyphen runs collapse. */
  function Collapsed(name: string): string {
    Collapse(KeepFileNameChars(ReplaceAll(name, " ", "-")))
  }

  /** The result of `card_name_to_file_name(name)`. */
  function FileName(name: string): string {
    Lower(Trimmed(Collapsed(name)))
  }

  /** The sanitiser as the source runs it: a replace, a filtering
      comprehension, then three `while` loops and a final strip and lower. */
  method CardNameToFileName(name: string) returns (fileName: string)
    ensures fileName == FileName(name)
  {
    var s := ReplaceAll(name, " ", "-");
    s := KeepFileNameChars(s);
    ghost var kept := s;
    while HasSubstring(s, "--")
      invariant Collapse(s) == Collapse(kept)
      decreases |s|
    {
      DoubleHyphenIff(s);
      HalveShrinks(s);
      HalvePreservesCollapse(s, false);
      s := HalveHyphens(s);
    }
    DoubleHyphenIff(s);
    CollapseFixpoint(s, false);
    ghost var collapsed := s;
    while s != [] && s[0] == '-'
      invariant TrimLeadingHyphens(s) == TrimLeadingHyphens(collapsed)
    {
      s := s[1..];
    }
    ghost var led := s;
    while s != [] && s[|s| - 1] == '-'
      invariant TrimTrailingHyphens(s) == TrimTrailingHyphens(led)
    {
      s := s[..|s| - 1];
    }
    fileName := Lower(StripHyphens(s));
    assert Trimmed(collapsed) == StripHyphens(s);
  }

  // ---------------------------------------------------------------------
  // What every file name satisfies

  /** The trimmings leave a contiguous piece of their input with no
      hyphen at either end; `strip("-")` then has nothing left to do. */
  lemma {:induction false} TrimmedPiece(s: string) returns (i: nat, j: nat)
    ensures i <= j <= |s| && Trimmed(s) == s[i..j]
    ensures Trimmed(s) == TrimTrailingHyphens(TrimLeadingHyphens(s))
    ensures Trimmed(s) == [] || (Trimmed(s)[0] != '-' && Trimmed(s)[|Trimmed(s)| - 1] != '-')
  {
    var a := TrimLeadingHyphens(s);
    var b := TrimTrailingHyphens(a);
    TrimLeadingFacts(s);
    TrimTrailingFacts(a);
    assert b == [] || b[0] == a[0];
    assert TrimLeadingHyphens(b) == b;
    assert TrimTrailingHyphens(b) == b;
    assert StripHyphens(b) == b;
    assert Trimmed(s) == b;
    i, j := |s| - |a|, |s| - |a| + |b|;
    assert a == s[i..];
    assert b == a[..|b|];
    assert b == s[i..j];
  }

  /** Only lower-case ASCII letters, digits, '-' and '_' survive. */
  lemma {:induction false} FileNameCharset(name: string)
    ensures forall c <- FileName(name) :: IsSafeChar(c)
  {
    var kept := KeepFileNameChars(ReplaceAll(name, " ", "-"));
    CollapseChars(kept, false);
    var collapsed := Collapsed(name);
    assert forall c <- collapsed :: IsFileNameChar(c);
    var i, j := TrimmedPiece(collapsed);
    var t := Trimmed(collapsed);
    forall k | 0 <= k < |t| ensures IsFileNameChar(t[k]) {
      assert t[k] == collapsed[i + k];
    }
    forall c <- FileName(name) ensures IsSafeChar(c) {
      var k :| 0 <= k < |Lower(t)| && Lower(t)[k] == c;
    }
  }

  /** Lower-casing moves no hyphen. */
  lemma {:induction false} LowerHyphens(b: string)
    requires NoDoubleHyphen(b)
    requires b == [] || (b[0] != '-' && b[|b| - 1] != '-')
    ensures NoDoubleHyphen(Lower(b))
    ensures Lower(b) == [] || (Lower(b)[0] != '-' && Lower(b)[|b| - 1] != '-')
  {
    var r := Lower(b);
    forall k | 0 <= k < |b| ensures r[k] == '-' <==> b[k] == '-' {
    }
  }

  /** No "--" anywhere, and no hyphen at either end. */
  lemma {:induction false} FileNameHyphens(name: string)
    ensures NoDoubleHyphen(FileName(name))
    ensures FileName(name) == [] || (FileName(name)[0] != '-' && FileName(name)[|FileName(name)| - 1] != '-')
  {
    var collapsed := Collapsed(name);
    CollapseHasNoDoubleHyphen(KeepFileNameChars(ReplaceAll(name, " ", "-")), false);
    var i, j := TrimmedPiece(collapsed);
    var b := Trimmed(collapsed);
    forall k | 0 <= k < |b| - 1 ensures !(b[k] == '-' && b[k + 1] == '-') {
      assert b[k] == collapsed[i + k] && b[k + 1] == collapsed[i + k + 1];
    }
    LowerHyphens(b);
  }

  // ---------------------------------------------------------------------
  // What the sanitiser keeps

  /** A character of a name that always reaches the file name (up to case). */
  predicate IsWordChar(c: char) {
    IsLetter(c) || IsDigit(c) || c == '_'
  }

  function KeepWordChars(s: string): (r: string)
    ensures forall c <- r :: IsWordChar(c)
  {
    if s == [] then []
    else (if IsWordChar(s[0]) then [s[0]] else []) + KeepWordChars(s[1..])
  }

  lemma {:induction false} DroppedHyphensAreWordChars(s: string)
    ensures DropHyphens(KeepFileNameChars(ReplaceAll(s, " ", "-"))) == KeepWordChars(s)
    decreases |s|
  {
    if s != [] {
      DroppedHyphensAreWordChars(s[1..]);
      StartsWithSpace(s);
      var c := if s[0] == ' ' then '-' else s[0];
      var rest := KeepFileNameChars(ReplaceAll(s[1..], " ", "-"));
      assert ReplaceAll(s, " ", "-") == [c] + ReplaceAll(s[1..], " ", "-");
      assert ([c] + ReplaceAll(s[1..], " ", "-"))[1..] == ReplaceAll(s[1..], " ", "-");
      DropHyphensAppend(if IsFileNameChar(c) then [c] else [], rest);
    }
  }

  lemma StartsWithSpace(s: string)
    requires s != []
    ensures s[..1] == " " <==> s[0] == ' '
  {
    if s[0] == ' ' {
      assert s[..1] == " ";
    }
  }

  /** Deleting the hyphens from a file name gives the name lower-cased with
      everything outside [A-Za-z0-9_] removed, in order: hyphens are the only
      thing the sanitiser adds, merges or trims. */
  lemma {:induction false} FileNameKeepsText(name: string)
    ensures DropHyphens(FileName(name)) == Lower(KeepWordChars(name))
  {
    var kept := KeepFileNameChars(ReplaceAll(name, " ", "-"));
    var collapsed := Collapse(kept);
    var a := TrimLeadingHyphens(collapsed);
    var b := TrimTrailingHyphens(a);
    var i, j := TrimmedPiece(collapsed);
    DroppedHyphensAreWordChars(name);
    DropHyphensCollapse(kept, false);
    TrimLeadingKeepsText(collapsed);
    TrimTrailingKeepsText(a);
    DropHyphensLower(b);
  }

  // ---------------------------------------------------------------------
  // Idempotence

  lemma {:induction false} KeepAllFileNameChars(s: string)
    requires forall c <- s :: IsFileNameChar(c)
    ensures KeepFileNameChars(s) == s
    decreases |s|
  {
    if s != [] {
      KeepAllFileNameChars(s[1..]);
    }
  }

  /** A name of safe characters without a double hyphen is its own
      collapsed form. */
  lemma CollapsedStable(y: string)
    requires forall c <- y :: IsSafeChar(c)
    requires NoDoubleHyphen(y)
    ensures Collapsed(y) == y
  {
    forall j: nat ensures !OccursAt(y, " ", j) {
      if j < |y| {
        assert y[j] in y;
        assert y[j..j + 1][0] == y[j];
      }
    }
    ReplaceAllAbsent(y, " ", "-");
    KeepAllFileNameChars(y);
    CollapseFixpoint(y, false);
  }

  /** A name that neither starts nor ends with '-' is its own trimmed
      form. */
  lemma TrimmedStable(y: string)
    requires y == [] || (y[0] != '-' && y[|y| - 1] != '-')
    ensures Trimmed(y) == y
  {
    var i, j := TrimmedPiece(y);
    assert TrimLeadingHyphens(y) == y;
    assert TrimTrailingHyphens(y) == y;
  }

  /** Sanitising a file name again changes nothing. */
  lemma FileNameIdempotent(name: string)
    ensures FileName(FileName(name)) == FileName(name)
  {
    var y := FileName(name);
    FileNameCharset(name);
    FileNameHyphens(name);
    CollapsedStable(y);
    TrimmedStable(y);
    LowerIdentity(y);
  }
}
