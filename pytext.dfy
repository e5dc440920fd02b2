/**
 * The parts of Python's `str` behaviour that the services rely on:
 * `isspace` (also what the regular-expression class `\s` matches),
 * `strip`, `title`, `lower`, and SQLite's `UPPER`.
 * Letter case is modelled for ASCII letters only.
 */
module PyText {

  /** Python's `str.isspace` for one character; `\s` in a `str` pattern matches the same set. */
  predicate IsSpace(c: char) {
    ('\t' <= c <= '\r') || ('\U{1C}' <= c <= ' ') || c == '\U{85}' || c == '\U{A0}'
    || c == '\U{1680}' || ('\U{2000}' <= c <= '\U{200A}') || c == '\U{2028}' || c == '\U{2029}'
    || c == '\U{202F}' || c == '\U{205F}' || c == '\U{3000}'
  }

  predicate IsUpper(c: char) { 'A' <= c <= 'Z' }
  predicate IsLower(c: char) { 'a' <= c <= 'z' }
  predicate IsLetter(c: char) { IsUpper(c) || IsLower(c) }

  function ToUpper(c: char): (r: char)
    ensures IsLetter(c) ==> IsUpper(r)
    ensures !IsLower(c) ==> r == c
    ensures IsLetter(r) == IsLetter(c)
  {
    if IsLower(c) then (c as int - 'a' as int + 'A' as int) as char else c
  }

  function ToLower(c: char): (r: char)
    ensures IsLetter(c) ==> IsLower(r)
    ensures !IsUpper(c) ==> r == c
    ensures IsLetter(r) == IsLetter(c)
  {
    if IsUpper(c) then (c as int - 'A' as int + 'a' as int) as char else c
  }

  /** `s.upper()` / SQLite's `UPPER(s)`. */
  function Upper(s: string): (r: string)
    ensures |r| == |s|
  {
    seq(|s|, i requires 0 <= i < |s| => ToUpper(s[i]))
  }

  /** `s.lower()`. */
  function Lower(s: string): (r: string)
    ensures |r| == |s|
  {
    seq(|s|, i requires 0 <= i < |s| => ToLower(s[i]))
  }

  /**
   * What `UPPER` and `lower()` do to each character: ASCII letters take the
   * target case, every other character is kept, and upper-casing loses
   * nothing that lower-casing would keep.
   */
  lemma CaseMaps(s: string)
    ensures forall i :: 0 <= i < |s| ==> IsLetter(s[i]) ==> IsUpper(Upper(s)[i]) && IsLower(Lower(s)[i])
    ensures forall i :: 0 <= i < |s| ==> !IsLetter(s[i]) ==> Upper(s)[i] == s[i] && Lower(s)[i] == s[i]
    ensures Lower(Upper(s)) == Lower(s)
  {
  }

  /** Every character of `s` in `[lo, hi)` is whitespace. */
  predicate SpacesBetween(s: string, lo: int, hi: int)
    requires 0 <= lo && hi <= |s|
  {
    forall j :: lo <= j < hi ==> IsSpace(s[j])
  }

  /** Neither end of `s` is a whitespace character. */
  predicate Trimmed(s: string) {
    s == [] || (!IsSpace(s[0]) && !IsSpace(s[|s| - 1]))
  }

  /** The end of the whitespace run that starts at `i`. */
  function SpaceRunEnd(s: string, i: nat): (r: nat)
    requires i <= |s|
    ensures i <= r <= |s|
    ensures forall j :: i <= j < r ==> IsSpace(s[j])
    ensures r < |s| ==> !IsSpace(s[r])
    decreases |s| - i
  {
    if i < |s| && IsSpace(s[i]) then SpaceRunEnd(s, i + 1) else i
  }

  /** The start of the whitespace run that ends at `hi`, not going below `lo`. */
  function SpaceRunBack(s: string, lo: nat, hi: nat): (r: nat)
    requires lo <= hi <= |s|
    ensures lo <= r <= hi
    ensures forall j :: r <= j < hi ==> IsSpace(s[j])
    ensures r > lo ==> !IsSpace(s[r - 1])
    decreases hi
  {
    if hi > lo && IsSpace(s[hi - 1]) then SpaceRunBack(s, lo, hi - 1) else hi
  }

  /** How many whitespace characters `s.strip()` drops at the front. */
  function LeadingSpaces(s: string): (k: nat)
    ensures k <= |s|
    ensures forall i :: 0 <= i < k ==> IsSpace(s[i])
    ensures k < |s| ==> !IsSpace(s[k])
  {
    SpaceRunEnd(s, 0)
  }

  /** `s.strip()`: `s` is some whitespace, then `r`, then some whitespace, and `r` is trimmed. */
  function Strip(s: string): (r: string)
    ensures Trimmed(r)
    ensures LeadingSpaces(s) + |r| <= |s| && r == s[LeadingSpaces(s)..LeadingSpaces(s) + |r|]
    ensures forall i :: LeadingSpaces(s) + |r| <= i < |s| ==> IsSpace(s[i])
  {
    var k := LeadingSpaces(s);
    var e := SpaceRunBack(s, k, |s|);
    assert k < e ==> s[k..e][0] == s[k] && s[k..e][e - k - 1] == s[e - 1];
    s[k..e]
  }

  /** A trimmed string is its own `strip()`. */
  lemma StripTrimmed(s: string)
    requires Trimmed(s)
    ensures Strip(s) == s
  {
    assert LeadingSpaces(s) == 0;
    assert SpaceRunBack(s, 0, |s|) == |s|;
    assert s[0..|s|] == s;
  }

  /**
   * The character of `s.title()` at position `i`: a letter that follows a
   * letter is lower-cased, any other letter is upper-cased, and every other
   * character is kept.
   */
  function TitleAt(s: string, i: nat): char
    requires i < |s|
  {
    if !IsLetter(s[i]) then s[i]
    else if i > 0 && IsLetter(s[i - 1]) then ToLower(s[i])
    else ToUpper(s[i])
  }

  /** `s.title()`, computed left to right remembering whether the previous character was a letter. */
  function TitleFrom(s: string, afterLetter: bool): (r: string)
    ensures |r| == |s|
  {
    if s == [] then []
    else
      var c := if !IsLetter(s[0]) then s[0] else if afterLetter then ToLower(s[0]) else ToUpper(s[0]);
      [c] + TitleFrom(s[1..], IsLetter(s[0]))
  }

  /** Whether the character before position `k` of `s` is a letter. */
  function AfterLetter(s: string, k: nat): bool
    requires k <= |s|
  {
    k > 0 && IsLetter(s[k - 1])
  }

  /** The left-to-right scan from position `k` agrees with `TitleAt` at every later position. */
  lemma {:induction false} TitleFromAt(s: string, k: nat)
    requires k <= |s|
    ensures forall i :: k <= i < |s| ==> TitleFrom(s[k..], AfterLetter(s, k))[i - k] == TitleAt(s, i)
    decreases |s| - k
  {
    if k < |s| {
      TitleFromAt(s, k + 1);
      assert s[k..][1..] == s[k + 1..];
      forall i | k < i < |s|
        ensures TitleFrom(s[k..], AfterLetter(s, k))[i - k] == TitleAt(s, i)
      {
        assert TitleFrom(s[k..], AfterLetter(s, k))[i - k] == TitleFrom(s[k + 1..], AfterLetter(s, k + 1))[i - k - 1];
      }
    }
  }

  /** `s.title()`: same length, and every position as `TitleAt` describes it. */
  function Title(s: string): (r: string)
    ensures |r| == |s|
    ensures forall i :: 0 <= i < |s| ==> r[i] == TitleAt(s, i)
  {
    TitleFromAt(s, 0);
    assert s[0..] == s;
    TitleFrom(s, false)
  }

  /** Every letter is upper case exactly when it does not follow a letter. */
  predicate IsTitleCased(s: string) {
    forall i :: 0 <= i < |s| ==> TitleCasedAt(s, i)
  }

  predicate TitleCasedAt(s: string, i: nat)
    requires i < |s|
  {
    IsLetter(s[i]) ==> if i > 0 && IsLetter(s[i - 1]) then IsLower(s[i]) else IsUpper(s[i])
  }

  /** `title` changes letter case only: letters stay letters and nothing else moves. */
  lemma TitleKeepsShape(s: string)
    ensures forall i :: 0 <= i < |s| ==> IsLetter(Title(s)[i]) == IsLetter(s[i])
    ensures forall i :: 0 <= i < |s| ==> IsSpace(Title(s)[i]) == IsSpace(s[i])
    ensures Lower(Title(s)) == Lower(s)
  {
    var t := Title(s);
    forall i | 0 <= i < |s|
      ensures IsLetter(t[i]) == IsLetter(s[i]) && IsSpace(t[i]) == IsSpace(s[i]) && ToLower(t[i]) == ToLower(s[i])
    {
      assert t[i] == TitleAt(s, i);
    }
  }

  lemma TitleIsTitleCased(s: string)
    ensures IsTitleCased(Title(s))
  {
    var t := Title(s);
    TitleKeepsShape(s);
    forall i | 0 <= i < |t| ensures TitleCasedAt(t, i) {
      assert t[i] == TitleAt(s, i);
    }
  }

  /** Title-casing a string that is already title-cased changes nothing. */
  lemma TitleFixesTitleCased(s: string)
    requires IsTitleCased(s)
    ensures Title(s) == s
  {
    var t := Title(s);
    forall i | 0 <= i < |s| ensures t[i] == s[i] {
      assert t[i] == TitleAt(s, i);
      assert TitleCasedAt(s, i);
    }
  }

  lemma TitleIdempotent(s: string)
    ensures Title(Title(s)) == Title(s)
  {
    TitleIsTitleCased(s);
    TitleFixesTitleCased(Title(s));
  }

  /** Upper-casing forgets what `title` did: `s.title().upper() == s.upper()`. */
  lemma UpperOfTitle(s: string)
    ensures Upper(Title(s)) == Upper(s)
  {
    var t := Title(s);
    forall i | 0 <= i < |s| ensures ToUpper(t[i]) == ToUpper(s[i]) {
      assert t[i] == TitleAt(s, i);
    }
  }

  /** Words separated by a non-letter are title-cased independently. */
  lemma TitleSplits(a: string, b: string)
    requires a == [] || !IsLetter(a[|a| - 1])
    ensures Title(a + b) == Title(a) + Title(b)
  {
    var s := a + b;
    var t := Title(s);
    var u := Title(a) + Title(b);
    forall i | 0 <= i < |s| ensures t[i] == u[i] {
      assert t[i] == TitleAt(s, i);
      if i < |a| {
        assert u[i] == TitleAt(a, i);
      } else {
        assert u[i] == TitleAt(b, i - |a|);
      }
    }
  }

  /** A trimmed, title-cased string is left unchanged by both `strip` and `title`. */
  lemma CanonicalIsFixed(s: string)
    requires Trimmed(s) && IsTitleCased(s)
    ensures Strip(s) == s && Title(s) == s
  {
    StripTrimmed(s);
    TitleFixesTitleCased(s);
  }

  /** `title` keeps a trimmed string trimmed. */
  lemma TitleKeepsTrimmed(s: string)
    requires Trimmed(s)
    ensures Trimmed(Title(s))
  {
    TitleKeepsShape(s);
  }

  /** `s.strip().title()`: trimmed, title-cased, and `s` stripped up to letter case. */
  function StripTitle(s: string): (r: string)
    ensures Trimmed(r) && IsTitleCased(r)
    ensures |r| <= |s| && Lower(r) == Lower(Strip(s))
  {
    TitleKeepsTrimmed(Strip(s));
    TitleIsTitleCased(Strip(s));
    TitleKeepsShape(Strip(s));
    Title(Strip(s))
  }
}
