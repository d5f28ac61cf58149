/** Hyphen handling shared by both file-name sanitisers: the
    `while "--" in s: s = s.replace("--", "-")` loop, its fixpoint, and
    hyphen trimming. */
module Hyphens {
  import opened Text

  /** No two adjacent hyphens. */
  predicate NoDoubleHyphen(s: string) {
    forall j :: 0 <= j < |s| - 1 ==> !(s[j] == '-' && s[j + 1] == '-')
  }

  /** `"--" in s` */
  lemma DoubleHyphenIff(s: string)
    ensures HasSubstring(s, "--") <==> !NoDoubleHyphen(s)
  {
    if !NoDoubleHyphen(s) {
      var j :| 0 <= j < |s| - 1 && s[j] == '-' && s[j + 1] == '-';
      assert s[j..j + 2] == "--";
      assert OccursAt(s, "--", j);
    }
    if HasSubstring(s, "--") {
      var j := Find(s, "--").value;
      assert s[j..j + 2][0] == s[j] && s[j..j + 2][1] == s[j + 1];
    }
  }

  /** One execution of `s.replace("--", "-")`. */
  function HalveHyphens(s: string): string {
    ReplaceAll(s, "--", "-")
  }

  /** The string with every maximal run of hyphens shortened to a single
      hyphen; `afterHyphen` says the output so far ends with one. */
  function CollapseAfter(s: string, afterHyphen: bool): string {
    if s == [] then []
    else if s[0] == '-' then (if afterHyphen then [] else "-") + CollapseAfter(s[1..], true)
    else [s[0]] + CollapseAfter(s[1..], false)
  }

  /** Every run of hyphens in `s` shortened to one hyphen. */
  function Collapse(s: string): string {
    CollapseAfter(s, false)
  }

  lemma StartsWithDoubleHyphen(s: string)
    requires |s| >= 2
    ensures s[..2] == "--" <==> s[0] == '-' && s[1] == '-'
  {
    if s[0] == '-' && s[1] == '-' {
      assert s[..2] == "--";
    }
  }

  /** One `replace` pass does not change what the runs collapse to. */
  lemma {:induction false} HalvePreservesCollapse(s: string, afterHyphen: bool)
    ensures CollapseAfter(HalveHyphens(s), afterHyphen) == CollapseAfter(s, afterHyphen)
    decreases |s|
  {
    if |s| >= 2 {
      StartsWithDoubleHyphen(s);
      if s[..2] == "--" {
        HalvePreservesCollapse(s[2..], true);
        var t := HalveHyphens(s[2..]);
        assert HalveHyphens(s) == "-" + t;
        assert ("-" + t)[1..] == t;
        assert s[1..][1..] == s[2..];
      } else {
        HalvePreservesCollapse(s[1..], s[0] == '-');
        assert HalveHyphens(s) == [s[0]] + HalveHyphens(s[1..]);
        assert ([s[0]] + HalveHyphens(s[1..]))[1..] == HalveHyphens(s[1..]);
      }
    }
  }

  /** A pass over a string holding "--" makes it strictly shorter, so the
      loop terminates. */
  lemma {:induction false} HalveShrinks(s: string)
    ensures |HalveHyphens(s)| <= |s|
    ensures !NoDoubleHyphen(s) ==> |HalveHyphens(s)| < |s|
    decreases |s|
  {
    if |s| >= 2 {
      StartsWithDoubleHyphen(s);
      HalveShrinks(s[2..]);
      HalveShrinks(s[1..]);
      if s[..2] != "--" && !NoDoubleHyphen(s) {
        var j :| 0 <= j < |s| - 1 && s[j] == '-' && s[j + 1] == '-';
        assert j > 0;
        assert s[1..][j - 1] == '-' && s[1..][j] == '-';
      }
    }
  }

  /** A string without "--" is its own collapse. */
  lemma {:induction false} CollapseFixpoint(s: string, afterHyphen: bool)
    requires NoDoubleHyphen(s)
    requires afterHyphen ==> s == [] || s[0] != '-'
    ensures CollapseAfter(s, afterHyphen) == s
    decreases |s|
  {
    if s != [] {
      CollapseFixpoint(s[1..], s[0] == '-');
    }
  }

  /** The collapse never holds "--", and after a hyphen it does not start
      with one. */
  lemma {:induction false} CollapseHasNoDoubleHyphen(s: string, afterHyphen: bool)
    ensures NoDoubleHyphen(CollapseAfter(s, afterHyphen))
    ensures afterHyphen ==> CollapseAfter(s, afterHyphen) == [] || CollapseAfter(s, afterHyphen)[0] != '-'
    decreases |s|
  {
    if s != [] {
      CollapseHasNoDoubleHyphen(s[1..], s[0] == '-');
    }
  }

  /** Collapsing only drops hyphens: every character it keeps comes from the
      input, and the first character survives. */
  lemma {:induction false} CollapseChars(s: string, afterHyphen: bool)
    ensures |CollapseAfter(s, afterHyphen)| <= |s|
    ensures forall c <- CollapseAfter(s, afterHyphen) :: c in s
    ensures s != [] && (s[0] != '-' || !afterHyphen) ==>
      CollapseAfter(s, afterHyphen) != [] && CollapseAfter(s, afterHyphen)[0] == s[0]
    decreases |s|
  {
    if s != [] {
      CollapseChars(s[1..], s[0] == '-');
    }
  }

  // ---------------------------------------------------------------------
  // Hyphens removed

  /** `s` with every hyphen deleted. */
  function DropHyphens(s: string): (r: string)
    ensures '-' !in r
  {
    if s == [] then []
    else (if s[0] == '-' then [] else [s[0]]) + DropHyphens(s[1..])
  }

  lemma {:induction false} DropHyphensAppend(a: string, b: string)
    ensures DropHyphens(a + b) == DropHyphens(a) + DropHyphens(b)
    decreases |a|
  {
    if a == [] {
      assert a + b == b;
    } else {
      assert (a + b)[1..] == a[1..] + b;
      DropHyphensAppend(a[1..], b);
    }
  }

  lemma {:induction false} DropHyphensCollapse(s: string, afterHyphen: bool)
    ensures DropHyphens(CollapseAfter(s, afterHyphen)) == DropHyphens(s)
    decreases |s|
  {
    if s != [] {
      DropHyphensCollapse(s[1..], s[0] == '-');
      var rest := CollapseAfter(s[1..], s[0] == '-');
      if s[0] == '-' {
        DropHyphensAppend(if afterHyphen then [] else "-", rest);
      } else {
        DropHyphensAppend([s[0]], rest);
      }
    }
  }

  /** Lower-casing and deleting hyphens commute. */
  lemma {:induction false} DropHyphensLower(s: string)
    ensures DropHyphens(Lower(s)) == Lower(DropHyphens(s))
    decreases |s|
  {
    if s != [] {
      DropHyphensLower(s[1..]);
      assert Lower(s) == [LowerChar(s[0])] + Lower(s[1..]);
      assert ([LowerChar(s[0])] + Lower(s[1..]))[1..] == Lower(s[1..]);
      LowerAppend(if s[0] == '-' then [] else [s[0]], DropHyphens(s[1..]));
    }
  }

  // ---------------------------------------------------------------------
  // Trimming hyphens

  /** `while s.startswith("-"): s = s[1:]` */
  function TrimLeadingHyphens(s: string): string {
    if s != [] && s[0] == '-' then TrimLeadingHyphens(s[1..]) else s
  }

  /** `while s.endswith("-"): s = s[:-1]` */
  function TrimTrailingHyphens(s: string): string {
    if s != [] && s[|s| - 1] == '-' then TrimTrailingHyphens(s[..|s| - 1]) else s
  }

  /** Trimming the front drops a run of hyphens and stops at a non-hyphen. */
  lemma {:induction false} TrimLeadingFacts(s: string)
    ensures |TrimLeadingHyphens(s)| <= |s|
    ensures TrimLeadingHyphens(s) == s[|s| - |TrimLeadingHyphens(s)|..]
    ensures TrimLeadingHyphens(s) == [] || TrimLeadingHyphens(s)[0] != '-'
    ensures forall i :: 0 <= i < |s| - |TrimLeadingHyphens(s)| ==> s[i] == '-'
    decreases |s|
  {
    if s != [] && s[0] == '-' {
      TrimLeadingFacts(s[1..]);
    }
  }

  /** Trimming the back drops a run of hyphens and stops at a non-hyphen. */
  lemma {:induction false} TrimTrailingFacts(s: string)
    ensures |TrimTrailingHyphens(s)| <= |s|
    ensures TrimTrailingHyphens(s) == s[..|TrimTrailingHyphens(s)|]
    ensures TrimTrailingHyphens(s) == [] || TrimTrailingHyphens(s)[|TrimTrailingHyphens(s)| - 1] != '-'
    ensures forall i :: |TrimTrailingHyphens(s)| <= i < |s| ==> s[i] == '-'
    decreases |s|
  {
    if s != [] && s[|s| - 1] == '-' {
      TrimTrailingFacts(s[..|s| - 1]);
    }
  }

  /** `s.strip("-")` */
  function StripHyphens(s: string): string {
    TrimTrailingHyphens(TrimLeadingHyphens(s))
  }

  /** Trimming removes hyphens only. */
  lemma TrimLeadingKeepsText(s: string)
    ensures DropHyphens(TrimLeadingHyphens(s)) == DropHyphens(s)
  {
    var l := TrimLeadingHyphens(s);
    TrimLeadingFacts(s);
    var gone := s[..|s| - |l|];
    assert s == gone + l;
    DropHyphensAppend(gone, l);
    AllHyphensDrop(gone);
  }

  lemma TrimTrailingKeepsText(s: string)
    ensures DropHyphens(TrimTrailingHyphens(s)) == DropHyphens(s)
  {
    var t := TrimTrailingHyphens(s);
    TrimTrailingFacts(s);
    var gone := s[|t|..];
    assert s == t + gone;
    DropHyphensAppend(t, gone);
    AllHyphensDrop(gone);
  }

  lemma {:induction false} AllHyphensDrop(s: string)
    requires forall i :: 0 <= i < |s| ==> s[i] == '-'
    ensures DropHyphens(s) == []
    decreases |s|
  {
    if s != [] {
      AllHyphensDrop(s[1..]);
    }
  }
}
