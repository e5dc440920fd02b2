/**
 * The soil agent: normalisation of the district and state names a client
 * sends (`query_soil_data`), the row-match rule against the soil table, and
 * the shape of the `get_soil_data_by_district` response.
 *
 * The two `re.sub` calls are modelled by scanning functions, and each is
 * proved to cut the text at the leftmost position from which the regular
 * expression matches, which is what `re.sub` removes for these end-anchored
 * patterns.
 */
module SoilAgent {
  import opened Wrappers
  import opened PyText
  import opened Lookup

  // ---------------------------------------------------------------------
  // Scanning helpers
  // ---------------------------------------------------------------------

  /** No character of `s` in `[lo, hi)` is a newline. */
  predicate NoNewlineBetween(s: string, lo: int, hi: int)
    requires 0 <= lo && hi <= |s|
  {
    forall j :: lo <= j < hi ==> s[j] != '\n'
  }

  /** Index of the last non-whitespace character of `s`, or -1 when there is none. */
  function LastNonSpace(s: string): (r: int)
    ensures -1 <= r < |s|
    ensures r >= 0 ==> !IsSpace(s[r])
    ensures SpacesBetween(s, r + 1, |s|)
  {
    if s == [] then -1
    else if !IsSpace(s[|s| - 1]) then |s| - 1
    else
      var r := LastNonSpace(s[..|s| - 1]);
      assert forall j :: r < j < |s| - 1 ==> s[..|s| - 1][j] == s[j];
      r
  }

  /** Start of the line holding position `k`: just after the last newline before `k`. */
  function LineStart(s: string, k: nat): (r: nat)
    requires k <= |s|
    ensures r <= k
    ensures NoNewlineBetween(s, r, k)
    ensures r > 0 ==> s[r - 1] == '\n'
  {
    if k == 0 then 0
    else if s[k - 1] == '\n' then k
    else LineStart(s, k - 1)
  }

  /** The first index in `[lo, hi)` that holds `(`, or `hi` when there is none. */
  function FirstOpenParen(s: string, lo: nat, hi: nat): (r: nat)
    requires lo <= hi <= |s|
    ensures lo <= r <= hi
    ensures r < hi ==> s[r] == '('
    ensures forall j :: lo <= j < r ==> s[j] != '('
    decreases hi - lo
  {
    if lo == hi then hi
    else if s[lo] == '(' then lo
    else FirstOpenParen(s, lo + 1, hi)
  }

  // ---------------------------------------------------------------------
  // Step 1: re.sub(r'\s*\(.*\)\s*$', '', district, flags=re.IGNORECASE)
  // ---------------------------------------------------------------------

  /**
   * The pattern `\s*\(.*\)\s*$` matches `s` from position `i` to its end:
   * whitespace, `(`, any characters but a newline, `)`, whitespace.
   */
  ghost predicate TrailingGroupAt(s: string, i: nat)
    requires i <= |s|
  {
    exists k, m :: i <= k < m < |s| && SpacesBetween(s, i, k) && s[k] == '('
      && NoNewlineBetween(s, k + 1, m) && s[m] == ')' && SpacesBetween(s, m + 1, |s|)
  }

  /**
   * Where the trailing parenthetical group starts: the text must end (up to
   * whitespace) in `)`, the group opens at the first `(` on that line, and the
   * whitespace before that `(` goes with it. `|s|` when there is no group.
   */
  function GroupCut(s: string): (i: nat)
    ensures i <= |s|
  {
    var last := LastNonSpace(s);
    if last < 0 || s[last] != ')' then |s|
    else
      var k := FirstOpenParen(s, LineStart(s, last), last);
      if k == last then |s| else SpaceRunBack(s, 0, k)
  }

  /**
   * The first `re.sub` of `query_soil_data`: the text is cut at the leftmost
   * position from which the pattern matches, and kept whole when it matches
   * nowhere.
   */
  function StripTrailingGroup(s: string): (r: string)
    ensures r == s[..GroupCut(s)]
    ensures |r| < |s| ==> TrailingGroupAt(s, |r|)
    ensures forall i :: 0 <= i <= |s| && TrailingGroupAt(s, i) ==> |r| <= i
  {
    GroupCutMatches(s);
    GroupCutNoEarlierMatch(s);
    s[..GroupCut(s)]
  }

  /** A match must close at the last non-whitespace character and open on that character's line. */
  lemma TrailingGroupShape(s: string, k: nat, m: nat)
    requires k < m < |s| && s[k] == '(' && NoNewlineBetween(s, k + 1, m)
    requires s[m] == ')' && SpacesBetween(s, m + 1, |s|)
    ensures m == LastNonSpace(s)
    ensures LineStart(s, m) <= k
  {
    LastNonSpaceAt(s, m);
    LineStartBefore(s, k, m);
  }

  /** The last non-whitespace character is the one followed only by whitespace. */
  lemma {:induction false} LastNonSpaceAt(s: string, m: nat)
    requires m < |s| && !IsSpace(s[m]) && SpacesBetween(s, m + 1, |s|)
    ensures LastNonSpace(s) == m
  {
    if m < |s| - 1 {
      var t := s[..|s| - 1];
      assert t[m] == s[m];
      assert SpacesBetween(t, m + 1, |t|) by {
        forall j | m + 1 <= j < |t| ensures IsSpace(t[j]) {
          assert t[j] == s[j];
        }
      }
      LastNonSpaceAt(t, m);
    }
  }

  /** A line holding positions `k` to `m` starts no later than `k`. */
  lemma {:induction false} LineStartBefore(s: string, k: nat, m: nat)
    requires k <= m < |s| && s[k] != '\n' && NoNewlineBetween(s, k + 1, m)
    ensures LineStart(s, m) <= k
  {
    if m > k {
      assert s[m - 1] != '\n';
      LineStartBefore(s, k, m - 1);
    }
  }

  /** No match of the pattern starts before `GroupCut`. */
  lemma GroupCutNoEarlierMatch(s: string)
    ensures forall i :: 0 <= i <= |s| && TrailingGroupAt(s, i) ==> GroupCut(s) <= i
  {
    forall i | 0 <= i <= |s| && TrailingGroupAt(s, i) ensures GroupCut(s) <= i {
      GroupCutBeforeMatch(s, i);
    }
  }

  /** When `GroupCut` cuts, the pattern matches from the cut. */
  lemma GroupCutMatches(s: string)
    ensures GroupCut(s) < |s| ==> TrailingGroupAt(s, GroupCut(s))
  {
    var cut := GroupCut(s);
    var last := LastNonSpace(s);
    if cut < |s| {
      var k := FirstOpenParen(s, LineStart(s, last), last);
      assert NoNewlineBetween(s, k + 1, last);
      assert TrailingGroupAt(s, cut);
    }
  }

  /** No match starts before `GroupCut`. */
  lemma GroupCutBeforeMatch(s: string, i: nat)
    requires i <= |s| && TrailingGroupAt(s, i)
    ensures GroupCut(s) <= i
  {
    var k, m :| i <= k < m < |s| && SpacesBetween(s, i, k) && s[k] == '('
      && NoNewlineBetween(s, k + 1, m) && s[m] == ')' && SpacesBetween(s, m + 1, |s|);
    TrailingGroupShape(s, k, m);
    var k0 := FirstOpenParen(s, LineStart(s, m), m);
    assert k0 <= k;
    SpaceRunBackAtMost(s, if k0 < i then k0 else i, k0);
  }

  /** A whitespace run ending at `k` reaches back at least to `i` when `[i, k)` is all whitespace. */
  lemma {:induction false} SpaceRunBackAtMost(s: string, i: nat, k: nat)
    requires i <= k <= |s| && SpacesBetween(s, i, k)
    ensures SpaceRunBack(s, 0, k) <= i
  {
    if i < k {
      assert IsSpace(s[k - 1]);
      SpaceRunBackAtMost(s, i, k - 1);
    }
  }

  /**
   * The rule in words: when the last non-whitespace character is `)` and a
   * `(` occurs before it on the same line, everything from the whitespace
   * before the first such `(` is dropped; otherwise nothing is.
   */
  lemma TrailingGroupRule(s: string)
    ensures var last := LastNonSpace(s);
      if last >= 0 && s[last] == ')' && (exists k :: LineStart(s, last) <= k < last && s[k] == '(') then
        var k := FirstOpenParen(s, LineStart(s, last), last);
        k < last && StripTrailingGroup(s) == s[..SpaceRunBack(s, 0, k)] && SpacesBetween(s, SpaceRunBack(s, 0, k), k)
      else
        StripTrailingGroup(s) == s
  {
    assert s[..|s|] == s;
  }

  /** On a single line ending in `)`, the cut is the whitespace run before the first `(`. */
  lemma GroupCutAtFirstParen(s: string, k: nat)
    requires k + 1 < |s| && s[|s| - 1] == ')' && s[k] == '('
    requires NoNewlineBetween(s, 0, |s| - 1)
    requires forall j :: 0 <= j < k ==> s[j] != '('
    ensures GroupCut(s) == SpaceRunBack(s, 0, k)
  {
    var m := |s| - 1;
    LastNonSpaceAt(s, m);
    LineStartBefore(s, 0, m);
    assert FirstOpenParen(s, 0, m) == k;
  }

  // ---------------------------------------------------------------------
  // Step 2: re.sub(r'\s+(Tehsil|Tahsil|Taluka|Mandal|District|Subdivision)$', '', ..., flags=re.IGNORECASE)
  // ---------------------------------------------------------------------

  /** The administrative words of the second pattern, in its order. */
  const AdminWords: seq<string> := ["Tehsil", "Tahsil", "Taluka", "Mandal", "District", "Subdivision"]

  /** `t` ends with `w` up to letter case, with a whitespace character just before it. */
  predicate EndsWithWordAfterSpace(t: string, w: string) {
    |w| < |t| && Lower(t[|t| - |w|..]) == Lower(w) && IsSpace(t[|t| - |w| - 1])
  }

  /** The first word of `words`, from index `n` on, that `t` ends with after a space; `|words|` if none. */
  function MatchedWord(t: string, words: seq<string>, n: nat): (r: nat)
    requires n <= |words|
    ensures n <= r <= |words|
    ensures r < |words| ==> EndsWithWordAfterSpace(t, words[r])
    ensures forall q :: n <= q < r ==> !EndsWithWordAfterSpace(t, words[q])
    decreases |words| - n
  {
    if n == |words| then n
    else if EndsWithWordAfterSpace(t, words[n]) then n
    else MatchedWord(t, words, n + 1)
  }

  /**
   * The pattern `\s+(Tehsil|...|Subdivision)$` matches `t` from position `i`
   * to its end (for a `t` that does not end in a newline, where `$` is the end).
   */
  ghost predicate AdminWordAt(t: string, i: nat)
    requires i <= |t|
  {
    exists j, n :: i < j <= |t| && 0 <= n < |AdminWords| && SpacesBetween(t, i, j) && Lower(t[j..]) == Lower(AdminWords[n])
  }

  /** Where the first of `words` that ends `t` after whitespace starts, with that whitespace; `|t|` if none does. */
  function WordCut(t: string, words: seq<string>): (i: nat)
    ensures i <= |t|
  {
    var n := MatchedWord(t, words, 0);
    if n == |words| then |t| else SpaceRunBack(t, 0, |t| - |words[n]|)
  }

  /** Where the trailing administrative word and the whitespace before it start; `|t|` if there is none. */
  function AdminCut(t: string): (i: nat)
    ensures i <= |t|
  {
    WordCut(t, AdminWords)
  }

  /**
   * The second `re.sub` of `query_soil_data`: the text is cut at the
   * leftmost position from which the pattern matches, and kept whole when it
   * matches nowhere.
   */
  function StripAdminWord(t: string): (r: string)
    ensures r == t[..AdminCut(t)]
    ensures |r| < |t| ==> AdminWordAt(t, |r|)
    ensures forall i :: 0 <= i <= |t| && AdminWordAt(t, i) ==> |r| <= i
  {
    AdminCutMatches(t);
    AdminCutNoEarlierMatch(t);
    t[..AdminCut(t)]
  }

  /** `Lower(w)` is `l` when it is so letter by letter. */
  lemma LowerIs(w: string, l: string)
    requires |w| == |l| && forall i :: 0 <= i < |w| ==> ToLower(w[i]) == l[i]
    ensures Lower(w) == l
  {
  }

  lemma LowerAdminWords()
    ensures Lower(AdminWords[0]) == "tehsil" && Lower(AdminWords[1]) == "tahsil"
    ensures Lower(AdminWords[2]) == "taluka" && Lower(AdminWords[3]) == "mandal"
    ensures Lower(AdminWords[4]) == "district" && Lower(AdminWords[5]) == "subdivision"
  {
    LowerIs(AdminWords[0], "tehsil");
    LowerIs(AdminWords[1], "tahsil");
    LowerIs(AdminWords[2], "taluka");
    LowerIs(AdminWords[3], "mandal");
    LowerIs(AdminWords[4], "district");
    LowerIs(AdminWords[5], "subdivision");
  }

  /** No administrative word is, up to case, a suffix of another. */
  lemma AdminWordsSuffixFree(n1: nat, n2: nat)
    requires n1 < |AdminWords| && n2 < |AdminWords| && n1 != n2
    requires |AdminWords[n1]| <= |AdminWords[n2]|
    ensures Lower(AdminWords[n2])[|AdminWords[n2]| - |AdminWords[n1]|..] != Lower(AdminWords[n1])
  {
    LowerAdminWords();
    var a := Lower(AdminWords[n1]);
    var b := Lower(AdminWords[n2]);
    if a[|a| - 1] != b[|b| - 1] {
      assert b[|b| - |a|..][|a| - 1] == b[|b| - 1];
    } else {
      assert |a| == |b| && b[|b| - |a|..] == b;
    }
  }

  /** At most one administrative word can end `t`. */
  lemma AdminWordUnique(t: string, n1: nat, n2: nat)
    requires n1 < |AdminWords| && n2 < |AdminWords|
    requires |AdminWords[n1]| <= |t| && Lower(t[|t| - |AdminWords[n1]|..]) == Lower(AdminWords[n1])
    requires |AdminWords[n2]| <= |t| && Lower(t[|t| - |AdminWords[n2]|..]) == Lower(AdminWords[n2])
    ensures n1 == n2
  {
    if n1 != n2 {
      var a, b := n1, n2;
      if |AdminWords[a]| > |AdminWords[b]| {
        a, b := n2, n1;
      }
      var la, lb := |AdminWords[a]|, |AdminWords[b]|;
      assert Lower(t[|t| - la..]) == Lower(t[|t| - lb..])[lb - la..] by {
        assert t[|t| - la..] == t[|t| - lb..][lb - la..];
      }
      AdminWordsSuffixFree(a, b);
    }
  }

  /** No match of the second pattern starts before `AdminCut`. */
  lemma AdminCutNoEarlierMatch(t: string)
    ensures forall i :: 0 <= i <= |t| && AdminWordAt(t, i) ==> AdminCut(t) <= i
  {
    forall i | 0 <= i <= |t| && AdminWordAt(t, i) ensures AdminCut(t) <= i {
      var j, n' :| i < j <= |t| && 0 <= n' < |AdminWords| && SpacesBetween(t, i, j) && Lower(t[j..]) == Lower(AdminWords[n']);
      AdminMatchBound(t, i, j, n');
    }
  }

  /** When `AdminCut` cuts, the second pattern matches from the cut. */
  lemma AdminCutMatches(t: string)
    ensures AdminCut(t) < |t| ==> AdminWordAt(t, AdminCut(t))
  {
    var cut := AdminCut(t);
    var n := MatchedWord(t, AdminWords, 0);
    if n < |AdminWords| {
      var j := |t| - |AdminWords[n]|;
      assert SpacesBetween(t, cut, j);
      assert AdminWordAt(t, cut);
    }
  }

  /** One match of the second pattern, from `i`, cannot start before `AdminCut`. */
  lemma AdminMatchBound(t: string, i: nat, j: nat, n': nat)
    requires i < j <= |t| && n' < |AdminWords| && SpacesBetween(t, i, j) && Lower(t[j..]) == Lower(AdminWords[n'])
    ensures AdminCut(t) <= i
  {
    assert |t[j..]| == |AdminWords[n']|;
    assert IsSpace(t[j - 1]);
    assert EndsWithWordAfterSpace(t, AdminWords[n']);
    var n := MatchedWord(t, AdminWords, 0);
    assert n <= n';
    AdminWordUnique(t, n, n');
    var cut := SpaceRunBack(t, 0, j);
    if cut > 0 {
      assert !IsSpace(t[cut - 1]);
    }
  }

  /**
   * The rule in words: exactly one trailing administrative word, matched up
   * to case and preceded by whitespace, is removed together with that
   * whitespace; the text before it is kept as it is.
   */
  lemma AdminWordRule(t: string)
    ensures var r := StripAdminWord(t);
      || r == t
      || exists n :: 0 <= n < |AdminWords| && |r| < |t| - |AdminWords[n]|
           && SpacesBetween(t, |r|, |t| - |AdminWords[n]|) && Lower(t[|t| - |AdminWords[n]|..]) == Lower(AdminWords[n])
    ensures StripAdminWord(t) == t <==> forall n :: 0 <= n < |AdminWords| ==> !EndsWithWordAfterSpace(t, AdminWords[n])
  {
    WordRule(t, AdminWords);
  }

  /** `WordCut` removes one word of `words` with the whitespace before it, or nothing when no word ends `t`. */
  lemma WordRule(t: string, words: seq<string>)
    ensures var c := WordCut(t, words);
      || c == |t|
      || exists n :: 0 <= n < |words| && c < |t| - |words[n]|
           && SpacesBetween(t, c, |t| - |words[n]|) && Lower(t[|t| - |words[n]|..]) == Lower(words[n])
    ensures t[..WordCut(t, words)] == t <==> forall n :: 0 <= n < |words| ==> !EndsWithWordAfterSpace(t, words[n])
  {
    var n := MatchedWord(t, words, 0);
    var c := WordCut(t, words);
    if n < |words| {
      var j := |t| - |words[n]|;
      assert SpacesBetween(t, c, j);
      assert |t[..c]| != |t|;
    } else {
      assert t[..|t|] == t;
    }
  }

  // ---------------------------------------------------------------------
  // The lookup keys
  // ---------------------------------------------------------------------

  /** `district_query`: group strip, strip, admin-word strip, strip, title. */
  function DistrictKey(district: string): (r: string)
    ensures Trimmed(r) && IsTitleCased(r)
    ensures |r| <= |district|
  {
    StripTitle(StripAdminWord(Strip(StripTrailingGroup(district))))
  }

  /** Both keys are trimmed and title-cased, so title-casing them again changes nothing. */
  lemma KeysAreCanonical(district: string, state: string)
    ensures Trimmed(DistrictKey(district)) && IsTitleCased(DistrictKey(district))
    ensures Title(DistrictKey(district)) == DistrictKey(district)
    ensures Trimmed(StripTitle(state)) && IsTitleCased(StripTitle(state))
    ensures Title(StripTitle(state)) == StripTitle(state)
  {
    var d := Strip(StripAdminWord(Strip(StripTrailingGroup(district))));
    TitleKeepsTrimmed(d);
    TitleIsTitleCased(d);
    TitleIdempotent(d);
    TitleKeepsTrimmed(Strip(state));
    TitleIsTitleCased(Strip(state));
    TitleIdempotent(Strip(state));
  }

  /** The district key is, up to letter case, a contiguous piece of the raw input, so never longer. */
  lemma DistrictKeyIsPieceOfInput(district: string)
    ensures |DistrictKey(district)| <= |district|
    ensures exists i, j :: 0 <= i <= j <= |district| && Lower(DistrictKey(district)) == Lower(district[i..j])
  {
    var i, d := CleanedDistrictIsPiece(district);
    assert DistrictKey(district) == Title(d);
    TitledPiece(district, d, i);
  }

  /** The district before title-casing, and where it sits in the raw input. */
  lemma CleanedDistrictIsPiece(district: string) returns (i: nat, d: string)
    ensures d == Strip(StripAdminWord(Strip(StripTrailingGroup(district))))
    ensures i + |d| <= |district| && d == district[i..i + |d|]
  {
    var g := StripTrailingGroup(district);
    var b := Strip(g);
    var a := StripAdminWord(b);
    d := Strip(a);
    var k1 := StrippedPrefixIsPiece(district, GroupCut(district), g, b);
    var k2 := StrippedPrefixIsPiece(b, AdminCut(b), a, d);
    i := PieceOfPiece(district, b, k1, d, k2);
  }

  /** A prefix of `b`, stripped, is a slice of `b`. */
  lemma StrippedPrefixIsPiece(b: string, cut: nat, c: string, r: string) returns (k: nat)
    requires cut <= |b| && c == b[..cut] && r == Strip(c)
    ensures k + |r| <= |b| && r == b[k..k + |r|]
  {
    k := LeadingSpaces(c);
    forall j | 0 <= j < |r| ensures r[j] == b[k + j] {
      assert r[j] == c[k + j];
    }
  }

  /** A slice of a slice of `s` is a slice of `s`. */
  lemma PieceOfPiece(s: string, b: string, k1: nat, d: string, k2: nat) returns (k: nat)
    requires k1 + |b| <= |s| && b == s[k1..k1 + |b|]
    requires k2 + |d| <= |b| && d == b[k2..k2 + |d|]
    ensures k + |d| <= |s| && d == s[k..k + |d|]
  {
    k := k1 + k2;
    forall j | 0 <= j < |d| ensures d[j] == s[k + j] {
      assert d[j] == b[k2 + j];
    }
  }

  lemma TitledPiece(s: string, d: string, i: nat)
    requires i + |d| <= |s| && d == s[i..i + |d|]
    ensures |Title(d)| <= |s| && Lower(Title(d)) == Lower(s[i..i + |d|])
  {
    TitleKeepsShape(d);
  }

  // ---------------------------------------------------------------------
  // Computing the cuts on a given name
  // ---------------------------------------------------------------------

  /** A name that does not end (before trailing whitespace) in `)` keeps every character. */
  lemma NoGroupWithoutClosingParen(s: string)
    requires s != [] && !IsSpace(s[|s| - 1]) && s[|s| - 1] != ')'
    ensures StripTrailingGroup(s) == s
  {
    assert LastNonSpace(s) == |s| - 1;
    assert s[..|s|] == s;
  }

  /**
   * When the first listed word that ends the name is word `n`, exactly that
   * word and the whitespace run before it are removed.
   */
  lemma AdminWordCutAt(t: string, n: nat)
    requires n < |AdminWords| && EndsWithWordAfterSpace(t, AdminWords[n])
    requires forall q :: 0 <= q < n ==> !EndsWithWordAfterSpace(t, AdminWords[q])
    requires |t| - |AdminWords[n]| - 1 == 0 || !IsSpace(t[|t| - |AdminWords[n]| - 2])
    ensures AdminCut(t) == |t| - |AdminWords[n]| - 1
    ensures StripAdminWord(t) == t[..|t| - |AdminWords[n]| - 1]
  {
    var r := MatchedWord(t, AdminWords, 0);
    assert r <= n;
    assert r == n;
    var k := |t| - |AdminWords[n]|;
    assert SpaceRunBack(t, 0, k - 1) == k - 1;
  }

  /** A name that ends in none of the listed words keeps every character. */
  lemma NoAdminWord(t: string)
    requires forall q :: 0 <= q < |AdminWords| ==> !EndsWithWordAfterSpace(t, AdminWords[q])
    ensures StripAdminWord(t) == t
  {
    assert MatchedWord(t, AdminWords, 0) == |AdminWords|;
    assert t[..|t|] == t;
  }

  // ---------------------------------------------------------------------
  // The soil table and the lookup
  // ---------------------------------------------------------------------

  /**
   * One row of `soil_data`. `District` and `Region` may be SQL NULL; the
   * averages are nullable REAL columns.
   */
  datatype SoilRow = SoilRow(
    district: Option<string>, region: Option<string>,
    nAvg: Option<real>, pAvg: Option<real>, kAvg: Option<real>, phAvg: Option<real>)

  /** `SoilDataOutput`: nitrogen, phosphorus, potassium and pH. */
  datatype SoilData = SoilData(n: Option<real>, p: Option<real>, k: Option<real>, ph: Option<real>)

  /**
   * The `WHERE` clause: `UPPER(District) = UPPER(?) AND Region = ?`. A NULL
   * column never compares equal; `UPPER` folds ASCII letters only.
   */
  predicate RowMatches(row: SoilRow, districtKey: string, stateKey: string) {
    row.district.Some? && row.region.Some?
    && Upper(row.district.value) == Upper(districtKey)
    && row.region.value == stateKey
  }

  /** The `WHERE` clause as a test on one row. */
  function SoilClause(districtKey: string, stateKey: string): SoilRow -> bool {
    row => RowMatches(row, districtKey, stateKey)
  }

  /**
   * The district is compared ignoring ASCII letter case, the state exactly:
   * district keys that agree once upper-cased match the same rows, while a
   * row matches at most one state key.
   */
  lemma RowMatchCaseRules(row: SoilRow, d1: string, d2: string, s1: string, s2: string)
    ensures Upper(d1) == Upper(d2) ==> (RowMatches(row, d1, s1) <==> RowMatches(row, d2, s1))
    ensures RowMatches(row, d1, s1) && RowMatches(row, d2, s2) ==> Upper(d1) == Upper(d2) && s1 == s2
  {
  }

  /** The selected columns of a row. */
  function Averages(row: SoilRow): SoilData {
    SoilData(row.nAvg, row.pAvg, row.kAvg, row.phAvg)
  }

  /**
   * `query_soil_data`. `db` is `None` when the database file is missing, the
   * connection fails or the query raises; all of these return `None`.
   */
  function QuerySoilData(db: Option<seq<SoilRow>>, district: string, state: string): (r: Option<SoilData>)
    ensures db.None? ==> r.None?
    ensures db.Some? ==>
      (r.Some? <==> exists i :: 0 <= i < |db.value| && RowMatches(db.value[i], DistrictKey(district), StripTitle(state)))
    ensures r.Some? ==> exists i :: IsFirst(db.value, SoilClause(DistrictKey(district), StripTitle(state)), i)
                                    && r.value == Averages(db.value[i])
  {
    match db
    case None => None
    case Some(rows) =>
      var i := First(rows, SoilClause(DistrictKey(district), StripTitle(state)));
      if i < |rows| then Some(Averages(rows[i])) else None
  }

  // ---------------------------------------------------------------------
  // The endpoint
  // ---------------------------------------------------------------------

  const StatusOK := "OK"
  const StatusNotFound := "DistrictOrStateNotFoundInDB"

  /** `SoilResponse`. */
  datatype SoilResponse = SoilResponse(district: string, state: string, soilData: SoilData, status: string)

  /**
   * `get_soil_data_by_district`. The echoed names are only stripped and
   * title-cased, not cleaned the way the lookup keys are.
   */
  function GetSoilDataByDistrict(db: Option<seq<SoilRow>>, district: string, state: string): (resp: SoilResponse)
    ensures resp.district == StripTitle(district) && resp.state == StripTitle(state)
    ensures resp.status == StatusOK || resp.status == StatusNotFound
    ensures resp.status == StatusOK <==>
      db.Some? && exists i :: 0 <= i < |db.value| && RowMatches(db.value[i], DistrictKey(district), StripTitle(state))
    ensures resp.status == StatusOK ==>
      exists i :: IsFirst(db.value, SoilClause(DistrictKey(district), StripTitle(state)), i)
                  && resp.soilData == Averages(db.value[i])
    ensures resp.status == StatusNotFound ==> resp.soilData == SoilData(None, None, None, None)
  {
    var soilResult := QuerySoilData(db, district, state);
    var echo := StripTitle(district);
    match soilResult
    case Some(data) => SoilResponse(echo, StripTitle(state), data, StatusOK)
    case None => SoilResponse(echo, StripTitle(state), SoilData(None, None, None, None), StatusNotFound)
  }

  /** A missing or failing database gives the same answer as a table without the district. */
  lemma MissingDatabaseLooksLikeMissingRow(district: string, state: string)
    ensures GetSoilDataByDistrict(None, district, state) == GetSoilDataByDistrict(Some([]), district, state)
    ensures GetSoilDataByDistrict(None, district, state).status == StatusNotFound
  {
  }
}
