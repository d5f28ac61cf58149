/** `card_name_to_filename` from the image extractor: a second, different
    sanitiser that masks a fixed list of characters with '-', collapses
    hyphen runs and trims at most one trailing '-' and then one trailing
    '.', keeping case. */
module ExtractNames {
  import opened Text
  import opened Hyphens

  /** The `not_allowed` list, in the order the loop visits it. */
  const NotAllowed: seq<char> :=
    [' ', '\\', '/', ':', '*', '?', '"', '<', '>', '|', '\'', '(', ')', ',',
     '!', '@', '#', '$', '%', '^', '&', '`', '~']

  /** `s` with every character of `chars` replaced by '-'. */
  function MaskChars(s: string, chars: seq<char>): string {
    seq(|s|, i requires 0 <= i < |s| => if s[i] in chars then '-' else s[i])
  }

  /** `if s.endswith("-"): s = s[:-1]` */
  function DropTrailingHyphen(s: string): string {
    if EndsWith(s, "-") then s[..|s| - 1] else s
  }

  /** `if s.endswith("."): s = s[:-1]` */
  function DropTrailingDot(s: string): string {
    if EndsWith(s, ".") then s[..|s| - 1] else s
  }

  /** The file name before its extension. */
  function Stem(name: string): string {
    DropTrailingDot(DropTrailingHyphen(Collapse(MaskChars(name, NotAllowed))))
  }

  /** The result of `card_name_to_filename(name)`. */
  function ImageFileName(name: string): string {
    Stem(name) + ".webp"
  }

  /** The sanitiser as the source runs it: one `replace` per forbidden
      character, the collapse loop, then two conditional trims. */
  method CardNameToFilename(name: string) returns (fileName: string)
    ensures fileName == ImageFileName(name)
  {
    var path := name;
    for k := 0 to |NotAllowed|
      invariant path == MaskChars(name, NotAllowed[..k])
    {
      MaskOneMore(name, NotAllowed[..k], NotAllowed[k]);
      assert NotAllowed[..k + 1] == NotAllowed[..k] + [NotAllowed[k]];
      path := ReplaceAll(path, [NotAllowed[k]], "-");
    }
    assert NotAllowed[..|NotAllowed|] == NotAllowed;
    ghost var masked := path;
    while HasSubstring(path, "--")
      invariant Collapse(path) == Collapse(masked)
      decreases |path|
    {
      DoubleHyphenIff(path);
      HalveShrinks(path);
      HalvePreservesCollapse(path, false);
      path := HalveHyphens(path);
    }
    DoubleHyphenIff(path);
    CollapseFixpoint(path, false);
    if EndsWith(path, "-") {
      path := path[..|path| - 1];
    }
    if EndsWith(path, ".") {
      path := path[..|path| - 1];
    }
    fileName := path + ".webp";
  }

  /** One more `replace(c, "-")` extends the mask by `c`; '-' itself is never
      masked, so earlier replacements are not disturbed. */
  lemma MaskOneMore(s: string, chars: seq<char>, c: char)
    requires c != '-'
    ensures ReplaceAll(MaskChars(s, chars), [c], "-") == MaskChars(s, chars + [c])
  {
    ReplaceCharAt(MaskChars(s, chars), c, '-');
  }

  // ---------------------------------------------------------------------
  // Properties of the result

  /** Every image file name ends with ".webp". */
  lemma ImageFileNameExtension(name: string)
    ensures EndsWith(ImageFileName(name), ".webp")
    ensures |ImageFileName(name)| == |Stem(name)| + 5
  {
    var r := ImageFileName(name);
    assert r[|r| - 5..] == ".webp";
  }

  /** The two trims take a prefix of the collapsed string. */
  lemma {:induction false} StemIsPrefix(name: string)
    ensures Stem(name) <= Collapse(MaskChars(name, NotAllowed))
    ensures |Collapse(MaskChars(name, NotAllowed))| - 2 <= |Stem(name)|
  {
  }

  /** No forbidden character is left: each was replaced by '-'. */
  lemma {:induction false} StemHasNoForbiddenChar(name: string)
    ensures forall c <- Stem(name) :: c !in NotAllowed
  {
    var masked := MaskChars(name, NotAllowed);
    CollapseChars(masked, false);
    StemIsPrefix(name);
    var stem := Stem(name);
    forall c <- stem ensures c !in NotAllowed {
      var i :| 0 <= i < |stem| && stem[i] == c;
      assert c == Collapse(masked)[i];
      assert c in masked;
    }
  }

  /** No "--" is left. */
  lemma {:induction false} StemHasNoDoubleHyphen(name: string)
    ensures NoDoubleHyphen(Stem(name))
  {
    CollapseHasNoDoubleHyphen(MaskChars(name, NotAllowed), false);
    StemIsPrefix(name);
    var collapsed := Collapse(MaskChars(name, NotAllowed));
    var stem := Stem(name);
    forall j | 0 <= j < |stem| - 1 ensures !(stem[j] == '-' && stem[j + 1] == '-') {
      assert stem[j] == collapsed[j] && stem[j + 1] == collapsed[j + 1];
    }
  }

  /** The stem is never longer than the name. */
  lemma {:induction false} StemNotLonger(name: string)
    ensures |Stem(name)| <= |name|
  {
    CollapseChars(MaskChars(name, NotAllowed), false);
    StemIsPrefix(name);
  }

  /** A name that starts with '-' or a forbidden character gives a stem
      starting with '-', unless the trims leave nothing: leading hyphens
      are never trimmed. */
  lemma {:induction false} StemKeepsLeadingHyphen(name: string)
    requires name != [] && (name[0] == '-' || name[0] in NotAllowed)
    requires Stem(name) != []
    ensures Stem(name)[0] == '-'
  {
    var masked := MaskChars(name, NotAllowed);
    assert masked[0] == '-';
    CollapseChars(masked, false);
    StemIsPrefix(name);
  }

  /** Only one hyphen and then one dot are trimmed from the end, so a
      name ending in "-." keeps its hyphen. */
  lemma TrimsOnlyOnce()
    ensures Stem("a-.") == "a-"
    ensures Stem("a--") == "a"
  {
    StemHyphenDot();
    StemDoubleHyphen();
  }

  /** "a-." and "a--" hold no forbidden character. */
  lemma MaskedSamples()
    ensures MaskChars("a-.", NotAllowed) == "a-."
    ensures MaskChars("a--", NotAllowed) == "a--"
  {
  }

  lemma StemHyphenDot()
    ensures Stem("a-.") == "a-"
  {
    MaskedSamples();
    assert "a-."[1..] == "-.";
    assert "-."[1..] == ".";
    assert Collapse("a-.") == "a-.";
  }

  lemma StemDoubleHyphen()
    ensures Stem("a--") == "a"
  {
    MaskedSamples();
    assert "a--"[1..] == "--";
    assert "--"[1..] == "-";
    assert Collapse("a--") == "a-";
  }

  /** The text between the hyphens survives unchanged, case included: only
      the forbidden characters, hyphens and at most one final '.' go. */
  lemma {:induction false} StemKeepsText(name: string)
    ensures DropHyphens(Stem(name)) + (if EndsWith(DropTrailingHyphen(Collapse(MaskChars(name, NotAllowed))), ".") then "." else "")
         == DropHyphens(MaskChars(name, NotAllowed))
  {
    var masked := MaskChars(name, NotAllowed);
    var collapsed := Collapse(masked);
    DropHyphensCollapse(masked, false);
    var undashed := DropTrailingHyphen(collapsed);
    HyphenTrimInvisible(collapsed);
    DotTrimRestored(undashed);
  }

  /** Trimming a final hyphen does not change the text between hyphens. */
  lemma HyphenTrimInvisible(s: string)
    ensures DropHyphens(DropTrailingHyphen(s)) == DropHyphens(s)
  {
    if EndsWith(s, "-") {
      assert s == DropTrailingHyphen(s) + "-";
      DropHyphensAppend(DropTrailingHyphen(s), "-");
    }
  }

  /** Trimming a final '.' loses exactly that '.'. */
  lemma DotTrimRestored(s: string)
    ensures DropHyphens(DropTrailingDot(s)) + (if EndsWith(s, ".") then "." else "") == DropHyphens(s)
  {
    if EndsWith(s, ".") {
      assert s == DropTrailingDot(s) + ".";
      DropHyphensAppend(DropTrailingDot(s), ".");
    }
  }
}
