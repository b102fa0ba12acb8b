/**
 * The clean-up that turns a generated text into a short-code suggestion:
 *
 *   trim, lower-case, every character outside [a-z0-9] becomes `-`,
 *   runs of `-` become one `-`, a leading and a trailing `-` are removed,
 *   and the result is cut to its first 30 characters.
 *
 * Each step is one function; `Clean` is their composition, and `CleanAll` maps
 * it over the generated items.
 */
module Slug {

  /** The longest suggestion kept by the final cut. */
  const MaxSuggestionLength: nat := 30

  /** JavaScript's WhiteSpace and LineTerminator code points, the characters `String.prototype.trim` removes. */
  const JsWhitespace: set<char> := {
    '\U{0009}', '\U{000A}', '\U{000B}', '\U{000C}', '\U{000D}', '\U{0020}', '\U{00A0}', '\U{1680}',
    '\U{2000}', '\U{2001}', '\U{2002}', '\U{2003}', '\U{2004}', '\U{2005}', '\U{2006}', '\U{2007}',
    '\U{2008}', '\U{2009}', '\U{200A}', '\U{2028}', '\U{2029}', '\U{202F}', '\U{205F}', '\U{3000}',
    '\U{FEFF}'
  }

  predicate IsJsWhitespace(c: char) {
    c in JsWhitespace
  }

  /** The class `[a-z0-9]`. */
  predicate IsAlnum(c: char) {
    'a' <= c <= 'z' || '0' <= c <= '9'
  }

  /** The characters a cleaned suggestion may contain. */
  predicate IsSlugChar(c: char) {
    IsAlnum(c) || c == '-'
  }

  /** Every character of `s` is in `[a-z0-9-]`. */
  predicate AllSlugChars(s: string) {
    forall i :: 0 <= i < |s| ==> IsSlugChar(s[i])
  }

  /** A dash at `i` followed by a dash at `i + 1`. */
  predicate DashPairAt(s: string, i: int)
    requires 0 <= i < |s| - 1
  {
    s[i] == '-' && s[i + 1] == '-'
  }

  /** No `--` anywhere in `s`. */
  predicate NoDoubleDash(s: string) {
    forall i :: 0 <= i < |s| - 1 ==> !DashPairAt(s, i)
  }

  /** A well-formed suggestion: lower-case letters and digits in dash-separated groups. */
  predicate IsSlug(s: string) {
    && AllSlugChars(s)
    && NoDoubleDash(s)
    && (|s| > 0 ==> s[0] != '-' && s[|s| - 1] != '-')
  }

  /** The letters and digits of `s`, in order. */
  function Alnums(s: string): string {
    if s == [] then [] else (if IsAlnum(s[0]) then [s[0]] else []) + Alnums(s[1..])
  }

  // ---------------------------------------------------------------- the steps

  /** Removes leading white space. */
  function TrimStart(s: string): string {
    if |s| > 0 && IsJsWhitespace(s[0]) then TrimStart(s[1..]) else s
  }

  /** Removes trailing white space. */
  function TrimEnd(s: string): string {
    if |s| > 0 && IsJsWhitespace(s[|s| - 1]) then TrimEnd(s[..|s| - 1]) else s
  }

  /** `String.prototype.trim`. */
  function Trim(s: string): string {
    TrimEnd(TrimStart(s))
  }

  /** `toLowerCase` on one character, restricted to ASCII. */
  function LowerChar(c: char): char {
    if 'A' <= c <= 'Z' then (c as int + 32) as char else c
  }

  /** `toLowerCase`, restricted to ASCII. */
  function ToLowerAscii(s: string): string {
    if s == [] then [] else [LowerChar(s[0])] + ToLowerAscii(s[1..])
  }

  /** `replace(/[^a-z0-9]/g, '-')`. */
  function DashNonAlnum(s: string): string {
    if s == [] then [] else [if IsAlnum(s[0]) then s[0] else '-'] + DashNonAlnum(s[1..])
  }

  /** `replace(/-+/g, '-')`: every run of dashes becomes a single dash. */
  function CollapseDashes(s: string): string {
    if |s| <= 1 then s
    else if s[0] == '-' && s[1] == '-' then CollapseDashes(s[1..])
    else [s[0]] + CollapseDashes(s[1..])
  }

  /** `replace(/^-|-$/g, '')`: a dash at the start and a dash at the end are removed. */
  function StripDashes(s: string): string {
    var a := if |s| > 0 && s[0] == '-' then s[1..] else s;
    if |a| > 0 && a[|a| - 1] == '-' then a[..|a| - 1] else a
  }

  /** `slice(0, 30)`. */
  function Cut(s: string): string {
    if |s| <= MaxSuggestionLength then s else s[..MaxSuggestionLength]
  }

  /** Everything before the final cut. */
  function Normalize(s: string): string {
    StripDashes(CollapseDashes(DashNonAlnum(ToLowerAscii(Trim(s)))))
  }

  /** The whole chain applied to one generated text. */
  function Clean(s: string): (r: string)
    ensures |r| <= MaxSuggestionLength
  {
    Cut(Normalize(s))
  }

  /** One generated item of the text-generation reply. */
  datatype Generation = Generation(generatedText: string)

  /** `data.map(...)`: one cleaned suggestion per generated item, in the same order. */
  function CleanAll(items: seq<Generation>): (r: seq<string>)
    ensures |r| == |items|
    ensures forall i :: 0 <= i < |items| ==> r[i] == Clean(items[i].generatedText)
  {
    if items == [] then [] else [Clean(items[0].generatedText)] + CleanAll(items[1..])
  }

  // ---------------------------------------------------------------- what each step does

  /** Trimming the start removes exactly the leading white space. */
  lemma {:induction false} TrimStartSpec(s: string)
    ensures var r := TrimStart(s);
      && |r| <= |s| && r == s[|s| - |r|..]
      && (forall i :: 0 <= i < |s| - |r| ==> IsJsWhitespace(s[i]))
      && (r == [] || !IsJsWhitespace(r[0]))
  {
    if |s| > 0 && IsJsWhitespace(s[0]) {
      TrimStartSpec(s[1..]);
      var r := TrimStart(s[1..]);
      assert s[1..][|s| - 1 - |r|..] == s[|s| - |r|..];
    }
  }

  /** Trimming the end removes exactly the trailing white space. */
  lemma {:induction false} TrimEndSpec(s: string)
    ensures var r := TrimEnd(s);
      && |r| <= |s| && r == s[..|r|]
      && (forall i :: |r| <= i < |s| ==> IsJsWhitespace(s[i]))
      && (r == [] || !IsJsWhitespace(r[|r| - 1]))
  {
    if |s| > 0 && IsJsWhitespace(s[|s| - 1]) {
      TrimEndSpec(s[..|s| - 1]);
      var r := TrimEnd(s[..|s| - 1]);
      assert s[..|s| - 1][..|r|] == s[..|r|];
    }
  }

  /** Lower-casing maps `A`-`Z` to `a`-`z` one character at a time and keeps every other character. */
  lemma {:induction false} ToLowerAsciiSpec(s: string)
    ensures var r := ToLowerAscii(s);
      && |r| == |s|
      && (forall i :: 0 <= i < |s| && 'A' <= s[i] <= 'Z' ==> r[i] as int == s[i] as int + 32)
      && (forall i :: 0 <= i < |s| && !('A' <= s[i] <= 'Z') ==> r[i] == s[i])
  {
    if s != [] {
      ToLowerAsciiSpec(s[1..]);
      var r := ToLowerAscii(s);
      assert forall i :: 0 < i < |s| ==> r[i] == ToLowerAscii(s[1..])[i - 1];
    }
  }

  /** Dashing replaces every character outside `[a-z0-9]` by `-` and keeps the others. */
  lemma {:induction false} DashNonAlnumSpec(s: string)
    ensures var r := DashNonAlnum(s);
      && |r| == |s|
      && (forall i :: 0 <= i < |s| ==> r[i] == if IsAlnum(s[i]) then s[i] else '-')
      && AllSlugChars(r)
  {
    if s != [] {
      DashNonAlnumSpec(s[1..]);
      var r := DashNonAlnum(s);
      assert forall i :: 0 < i < |s| ==> r[i] == DashNonAlnum(s[1..])[i - 1];
    }
  }

  /** Collapsing leaves no `--`, keeps the first and last character, and brings in no new character. */
  lemma {:induction false} CollapseDashesSpec(s: string)
    ensures var r := CollapseDashes(s);
      && NoDoubleDash(r)
      && |r| <= |s|
      && (|s| > 0 ==> |r| > 0 && r[0] == s[0] && r[|r| - 1] == s[|s| - 1])
      && (AllSlugChars(s) ==> AllSlugChars(r))
  {
    if |s| > 1 {
      CollapseDashesSpec(s[1..]);
      var rest := CollapseDashes(s[1..]);
      if !(s[0] == '-' && s[1] == '-') {
        var r := [s[0]] + rest;
        assert forall i :: 0 < i < |r| - 1 ==> DashPairAt(r, i) == DashPairAt(rest, i - 1);
        assert forall i :: 0 < i < |r| ==> r[i] == rest[i - 1];
      }
    }
  }

  /** Stripping removes at most one dash at each end; on a text without `--` no dash is left at either end. */
  lemma StripDashesSpec(s: string)
    ensures var r := StripDashes(s);
      && |r| <= |s|
      && (AllSlugChars(s) ==> AllSlugChars(r))
      && (NoDoubleDash(s) ==> NoDoubleDash(r) && (r == [] || (r[0] != '-' && r[|r| - 1] != '-')))
  {
    var a := if |s| > 0 && s[0] == '-' then s[1..] else s;
    var r := StripDashes(s);
    var lo := |s| - |a|;
    assert r == s[lo..lo + |r|];
    assert NoDoubleDash(s) && |s| >= 2 ==> !DashPairAt(s, 0) && !DashPairAt(s, |s| - 2);
    NoDoubleDashSlice(s, lo, lo + |r|);
  }

  /** Stripping takes off one dash at each end where there is one, and nothing else. */
  lemma StripDashesEnds(s: string)
    ensures var r := StripDashes(s);
      var lo := if s != [] && s[0] == '-' then 1 else 0;
      && lo + |r| <= |s| <= lo + |r| + 1
      && r == s[lo..lo + |r|]
      && (lo + |r| < |s| ==> s[|s| - 1] == '-')
      && (lo < |s| && s[|s| - 1] == '-' ==> lo + |r| + 1 == |s|)
  {
  }

  /** The number of dashes `s` starts with. */
  function LeadingDashes(s: string): (n: nat)
    ensures n <= |s|
    ensures forall i :: 0 <= i < n ==> s[i] == '-'
    ensures n < |s| ==> s[n] != '-'
  {
    if s != [] && s[0] == '-' then 1 + LeadingDashes(s[1..]) else 0
  }

  /** Every maximal run of dashes replaced by one dash, every other character kept, in order. */
  function SqueezeRuns(s: string): string
    decreases |s|
  {
    if s == [] then []
    else if s[0] != '-' then [s[0]] + SqueezeRuns(s[1..])
    else ['-'] + SqueezeRuns(s[LeadingDashes(s)..])
  }

  /** A text that starts with a run of dashes collapses to one dash followed by the collapse of what follows the run. */
  lemma {:induction false} CollapseLeadingRun(s: string)
    requires s != [] && s[0] == '-'
    ensures CollapseDashes(s) == ['-'] + CollapseDashes(s[LeadingDashes(s)..])
    decreases |s|
  {
    if |s| > 1 && s[1] == '-' {
      CollapseLeadingRun(s[1..]);
      assert s[1..][LeadingDashes(s[1..])..] == s[LeadingDashes(s)..];
    }
  }

  /** `replace(/-+/g, '-')` squeezes each run of dashes to exactly one dash and keeps everything else. */
  lemma {:induction false} CollapseDashesSqueezes(s: string)
    ensures CollapseDashes(s) == SqueezeRuns(s)
    decreases |s|
  {
    if s != [] {
      if s[0] != '-' {
        CollapseDashesSqueezes(s[1..]);
      } else {
        CollapseLeadingRun(s);
        CollapseDashesSqueezes(s[LeadingDashes(s)..]);
      }
    }
  }

  /** A slice of a text without `--` has no `--`. */
  lemma NoDoubleDashSlice(s: string, lo: int, hi: int)
    requires 0 <= lo <= hi <= |s|
    ensures NoDoubleDash(s) ==> NoDoubleDash(s[lo..hi])
  {
    var t := s[lo..hi];
    assert forall i :: 0 <= i < |t| - 1 ==> DashPairAt(t, i) == DashPairAt(s, lo + i);
  }

  /** The cut keeps the prefix of at most 30 characters, all of a text short enough. */
  lemma CutSpec(s: string)
    ensures var r := Cut(s);
      && |r| <= MaxSuggestionLength && |r| <= |s|
      && r == s[..|r|]
      && (|s| <= MaxSuggestionLength ==> r == s)
  {
  }

  // ---------------------------------------------------------------- properties

  /** Before the cut the text is already well formed: `[a-z0-9-]` only, no `--`, no dash at either end. */
  lemma NormalizeShape(s: string)
    ensures IsSlug(Normalize(s))
  {
    var d := DashNonAlnum(ToLowerAscii(Trim(s)));
    var c := CollapseDashes(d);
    DashNonAlnumSpec(ToLowerAscii(Trim(s)));
    CollapseDashesSpec(d);
    StripDashesSpec(c);
  }

  /** Every suggestion is made of `[a-z0-9-]`, has no `--`, does not start with `-` and has at most 30 characters. */
  lemma CleanShape(s: string)
    ensures var r := Clean(s);
      && AllSlugChars(r)
      && NoDoubleDash(r)
      && (|r| > 0 ==> r[0] != '-')
      && |r| <= MaxSuggestionLength
  {
    var n := Normalize(s);
    var r := Cut(n);
    NormalizeShape(s);
    CutSpec(n);
    NoDoubleDashSlice(n, 0, |r|);
    assert forall i :: 0 <= i < |r| ==> r[i] == n[i];
  }

  /** When the text before the cut has at most 30 characters, the suggestion does not end with `-` either. */
  lemma CleanShortNoTrailingDash(s: string)
    requires |Normalize(s)| <= MaxSuggestionLength
    ensures IsSlug(Clean(s))
  {
    NormalizeShape(s);
    CutSpec(Normalize(s));
  }

  /** Past 30 characters, the suggestion of a well-formed text is its first 30 characters. */
  lemma CleanCutsSlug(t: string)
    requires IsSlug(t) && |t| > MaxSuggestionLength
    ensures Clean(t) == t[..MaxSuggestionLength]
  {
    SlugUnchanged(t);
  }

  /**
   * A longer text can end with `-` after the cut: 29 copies of a letter or digit `x`, a dash and
   * one more letter or digit `y` is a well-formed 31-character text whose suggestion is its first
   * 30 characters, ending with the dash.
   */
  lemma CleanMayEndWithDash(x: char, y: char)
    requires IsAlnum(x) && IsAlnum(y)
    ensures var r := Clean(seq(29, _ => x) + ['-', y]);
      |r| == MaxSuggestionLength && r[|r| - 1] == '-'
  {
    var t := seq(29, _ => x) + ['-', y];
    assert |t| == 31 && t[29] == '-' && t[30] == y;
    assert forall i :: 0 <= i < 29 ==> t[i] == x;
    assert IsSlug(t);
    CleanCutsSlug(t);
  }

  /** No character of a suggestion is white space. */
  lemma SlugCharNotSpace(c: char)
    requires IsSlugChar(c)
    ensures !IsJsWhitespace(c)
  {
  }

  /** Trimming leaves a text that starts and ends with something other than white space as it is. */
  lemma TrimKeeps(s: string)
    requires s == [] || (!IsJsWhitespace(s[0]) && !IsJsWhitespace(s[|s| - 1]))
    ensures Trim(s) == s
  {
    assert TrimStart(s) == s;
  }

  /** Lower-casing leaves a text without `A`-`Z` as it is. */
  lemma {:induction false} LowerKeeps(s: string)
    requires forall i :: 0 <= i < |s| ==> !('A' <= s[i] <= 'Z')
    ensures ToLowerAscii(s) == s
  {
    if s != [] {
      LowerKeeps(s[1..]);
      assert s == [s[0]] + s[1..];
    }
  }

  /** Dashing leaves a text made of `[a-z0-9-]` as it is. */
  lemma {:induction false} DashKeeps(s: string)
    requires AllSlugChars(s)
    ensures DashNonAlnum(s) == s
  {
    if s != [] {
      DashKeeps(s[1..]);
      assert s == [s[0]] + s[1..];
    }
  }

  /** Collapsing changes nothing where there is no `--`. */
  lemma {:induction false} CollapseKeeps(s: string)
    requires NoDoubleDash(s)
    ensures CollapseDashes(s) == s
  {
    if |s| > 1 {
      assert !DashPairAt(s, 0);
      NoDoubleDashSlice(s, 1, |s|);
      assert s[1..|s|] == s[1..];
      CollapseKeeps(s[1..]);
      assert s == [s[0]] + s[1..];
    }
  }

  /** Stripping leaves a text that neither starts nor ends with `-` as it is. */
  lemma StripKeeps(s: string)
    requires s == [] || (s[0] != '-' && s[|s| - 1] != '-')
    ensures StripDashes(s) == s
  {
  }

  /** The steps before the cut leave a well-formed suggestion of any length as it is. */
  lemma SlugUnchanged(s: string)
    requires IsSlug(s)
    ensures Normalize(s) == s
  {
    if s != [] {
      SlugCharNotSpace(s[0]);
      SlugCharNotSpace(s[|s| - 1]);
    }
    TrimKeeps(s);
    LowerKeeps(s);
    DashKeeps(s);
    CollapseKeeps(s);
    StripKeeps(s);
  }

  /** A well-formed suggestion of at most 30 characters is its own clean-up. */
  lemma CleanKeepsSlugs(s: string)
    requires IsSlug(s) && |s| <= MaxSuggestionLength
    ensures Clean(s) == s
  {
    SlugUnchanged(s);
  }

  /** The letters and digits of a concatenation are those of its parts. */
  lemma {:induction false} AlnumsAppend(a: string, b: string)
    ensures Alnums(a + b) == Alnums(a) + Alnums(b)
  {
    var t := a + b;
    if a == [] {
      assert t == b;
    } else {
      assert t[0] == a[0];
      assert t[1..] == a[1..] + b;
      AlnumsAppend(a[1..], b);
      assert Alnums(t) == (if IsAlnum(a[0]) then [a[0]] else []) + Alnums(a[1..] + b);
    }
  }

  /** Replacing other characters by dashes keeps the letters and digits. */
  lemma {:induction false} DashNonAlnumAlnums(s: string)
    ensures Alnums(DashNonAlnum(s)) == Alnums(s)
  {
    if s != [] {
      DashNonAlnumAlnums(s[1..]);
    }
  }

  /** Collapsing dashes keeps the letters and digits. */
  lemma {:induction false} CollapseAlnums(s: string)
    ensures Alnums(CollapseDashes(s)) == Alnums(s)
  {
    if |s| > 1 {
      CollapseAlnums(s[1..]);
      if !(s[0] == '-' && s[1] == '-') {
        AlnumsAppend([s[0]], CollapseDashes(s[1..]));
      }
    }
  }

  /** Removing a leading and a trailing dash keeps the letters and digits. */
  lemma StripAlnums(s: string)
    ensures Alnums(StripDashes(s)) == Alnums(s)
  {
    var a := if |s| > 0 && s[0] == '-' then s[1..] else s;
    if |s| > 0 && s[0] == '-' {
      assert s == [s[0]] + a;
      AlnumsAppend([s[0]], a);
    }
    if |a| > 0 && a[|a| - 1] == '-' {
      assert a == a[..|a| - 1] + [a[|a| - 1]];
      AlnumsAppend(a[..|a| - 1], [a[|a| - 1]]);
    }
  }

  /** The steps before the cut keep the letters and digits of the trimmed, lower-cased text, in order. */
  lemma NormalizeAlnums(s: string)
    ensures Alnums(Normalize(s)) == Alnums(ToLowerAscii(Trim(s)))
  {
    var l := ToLowerAscii(Trim(s));
    var d := DashNonAlnum(l);
    var c := CollapseDashes(d);
    DashNonAlnumAlnums(l);
    CollapseAlnums(d);
    StripAlnums(c);
  }

  /**
   * The suggestion keeps the letters and digits of the lower-cased, trimmed text in their order,
   * all of them when the text before the cut has at most 30 characters, a prefix of them otherwise.
   */
  lemma CleanKeepsAlnums(s: string)
    ensures var all := Alnums(ToLowerAscii(Trim(s)));
      && Alnums(Clean(s)) <= all
      && (|Normalize(s)| <= MaxSuggestionLength ==> Alnums(Clean(s)) == all)
  {
    var n := Normalize(s);
    NormalizeAlnums(s);
    var r := Cut(n);
    CutSpec(n);
    assert n == r + n[|r|..];
    AlnumsAppend(r, n[|r|..]);
  }

  /** Every cleaned item has the shape of `CleanShape`. */
  lemma CleanAllShape(items: seq<Generation>)
    ensures forall i :: 0 <= i < |items| ==>
      var r := CleanAll(items)[i];
      && AllSlugChars(r)
      && NoDoubleDash(r)
      && (|r| > 0 ==> r[0] != '-')
      && |r| <= MaxSuggestionLength
  {
    forall i | 0 <= i < |items| {
      CleanShape(items[i].generatedText);
    }
  }
}
