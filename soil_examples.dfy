/**
 * Worked examples of the district normaliser of `SoilAgent` on concrete
 * names, including inputs on which it is not idempotent and inputs whose
 * group or word survives because of the order of the two strips.
 */
module SoilExamples {
  import opened Wrappers
  import opened PyText
  import opened SoilAgent

  // ---------------------------------------------------------------------
  // Worked examples
  // ---------------------------------------------------------------------

  /** A word whose spelling differs at position `p` from the end of `t` is not matched. */
  lemma WordMismatch(t: string, n: nat, p: nat)
    requires n < |AdminWords| && p < |AdminWords[n]|
    requires |AdminWords[n]| < |t| ==> ToLower(t[|t| - |AdminWords[n]| + p]) != ToLower(AdminWords[n][p])
    ensures !EndsWithWordAfterSpace(t, AdminWords[n])
  {
    var w := AdminWords[n];
    if |w| < |t| {
      assert Lower(t[|t| - |w|..])[p] != Lower(w)[p];
    }
  }

  /** The four six-letter words cannot end a text whose sixth-last letter is `s`. */
  lemma SixLetterWordsMismatch(t: string)
    requires |t| > 6 && ToLower(t[|t| - 6]) == 's'
    ensures forall q :: 0 <= q < 4 ==> !EndsWithWordAfterSpace(t, AdminWords[q])
  {
    WordMismatch(t, 0, 0);
    WordMismatch(t, 1, 0);
    WordMismatch(t, 2, 0);
    WordMismatch(t, 3, 0);
  }

  lemma PuneRuralGroupCut(s: string)
    requires s == "Pune (Rural)"
    ensures StripTrailingGroup(s) == "Pune"
  {
    GroupCutAtFirstParen(s, 5);
    assert IsSpace(s[4]) && !IsSpace(s[3]);
    assert SpaceRunBack(s, 0, 5) == 4;
  }

  lemma PuneRuralNoSpaceGroupCut(s: string)
    requires s == "Pune(Rural)"
    ensures StripTrailingGroup(s) == "Pune"
  {
    GroupCutAtFirstParen(s, 4);
    assert !IsSpace(s[3]);
    assert SpaceRunBack(s, 0, 4) == 4;
  }

  lemma PuneIsCanonical()
    ensures Strip("Pune") == "Pune" && StripAdminWord("Pune") == "Pune" && Title("Pune") == "Pune"
  {
    var s := "Pune";
    assert IsTitleCased(s) by {
      forall i | 0 <= i < |s| ensures TitleCasedAt(s, i) {
      }
    }
    CanonicalIsFixed(s);
    NoAdminWord(s);
  }

  /** `"Pune (Rural)"` and `"Pune(Rural)"` both give the key `"Pune"`. */
  lemma ExampleGroupStripped()
    ensures DistrictKey("Pune (Rural)") == "Pune"
    ensures DistrictKey("Pune(Rural)") == "Pune"
  {
    PuneRuralGroupCut("Pune (Rural)");
    PuneRuralNoSpaceGroupCut("Pune(Rural)");
    PuneIsCanonical();
  }

  lemma PuneRuralDistrictWord()
    ensures StripAdminWord("Pune (Rural) District") == "Pune (Rural)"
  {
    var t := "Pune (Rural) District";
    SixLetterWordsMismatch(t);
    assert Lower(t[13..]) == Lower(AdminWords[4]);
    AdminWordCutAt(t, 4);
  }

  lemma PuneRuralDistrictUntouched()
    ensures StripTrailingGroup("Pune (Rural) District") == "Pune (Rural) District"
    ensures Strip("Pune (Rural) District") == "Pune (Rural) District"
  {
    NoGroupWithoutClosingParen("Pune (Rural) District");
    StripTrimmed("Pune (Rural) District");
  }

  lemma PuneRuralIsStripped()
    ensures Strip("Pune (Rural)") == "Pune (Rural)"
  {
    StripTrimmed("Pune (Rural)");
  }

  lemma PuneRuralIsTitled()
    ensures Title("Pune (Rural)") == "Pune (Rural)"
  {
    var s := "Pune (Rural)";
    assert IsTitleCased(s) by {
      forall i | 0 <= i < |s| ensures TitleCasedAt(s, i) {
      }
    }
    CanonicalIsFixed(s);
  }

  /**
   * The group strip runs before the word strip, so in `"Pune (Rural) District"`
   * the group is not yet trailing when it is looked for: the key is
   * `"Pune (Rural)"`, not `"Pune"`.
   */
  lemma ExampleStepOrder()
    ensures DistrictKey("Pune (Rural) District") == "Pune (Rural)"
  {
    PuneRuralDistrictUntouched();
    PuneRuralDistrictWord();
    PuneRuralIsStripped();
    PuneRuralIsTitled();
  }

  lemma NashikDistrictDistrictWord()
    ensures StripAdminWord("Nashik District District") == "Nashik District"
  {
    var t := "Nashik District District";
    SixLetterWordsMismatch(t);
    assert Lower(t[16..]) == Lower(AdminWords[4]);
    AdminWordCutAt(t, 4);
  }

  lemma NashikDistrictDistrictUntouched()
    ensures StripTrailingGroup("Nashik District District") == "Nashik District District"
    ensures Strip("Nashik District District") == "Nashik District District"
  {
    NoGroupWithoutClosingParen("Nashik District District");
    StripTrimmed("Nashik District District");
  }

  lemma NashikDistrictWord()
    ensures StripAdminWord("Nashik District") == "Nashik"
  {
    var t := "Nashik District";
    assert t[9] == 's';
    SixLetterWordsMismatch(t);
    assert t[7..] == AdminWords[4];
    assert IsSpace(t[6]) && !IsSpace(t[5]);
    AdminWordCutAt(t, 4);
  }

  lemma NashikDistrictUntouched()
    ensures StripTrailingGroup("Nashik District") == "Nashik District"
    ensures Strip("Nashik District") == "Nashik District"
  {
    NoGroupWithoutClosingParen("Nashik District");
    StripTrimmed("Nashik District");
  }

  lemma NashikDistrictIsTitled()
    ensures Title("Nashik District") == "Nashik District"
  {
    var s := "Nashik District";
    assert IsTitleCased(s) by {
      forall i | 0 <= i < |s| ensures TitleCasedAt(s, i) {
      }
    }
    CanonicalIsFixed(s);
  }

  lemma NashikIsCanonical()
    ensures Strip("Nashik") == "Nashik" && Title("Nashik") == "Nashik"
  {
    var s := "Nashik";
    assert IsTitleCased(s) by {
      forall i | 0 <= i < |s| ensures TitleCasedAt(s, i) {
      }
    }
    CanonicalIsFixed(s);
  }

  /** Only one trailing word goes: `"Nashik District District"` gives `"Nashik District"`. */
  lemma ExampleOneWordOnly()
    ensures DistrictKey("Nashik District District") == "Nashik District"
  {
    NashikDistrictDistrictUntouched();
    NashikDistrictDistrictWord();
    NashikDistrictUntouched();
    NashikDistrictIsTitled();
  }

  /**
   * The normaliser is not idempotent: applied to its own result
   * `"Nashik District"` it strips one more word.
   */
  lemma NormalizerNotIdempotent()
    ensures DistrictKey(DistrictKey("Nashik District District")) == "Nashik"
    ensures DistrictKey(DistrictKey("Nashik District District")) != DistrictKey("Nashik District District")
  {
    ExampleOneWordOnly();
    NashikDistrictUntouched();
    NashikDistrictWord();
    NashikIsCanonical();
  }

  lemma BareWordKeptByWordStrip()
    ensures StripAdminWord("District") == "District"
  {
    var t := "District";
    SixLetterWordsMismatch(t);
    WordMismatch(t, 4, 0);
    WordMismatch(t, 5, 0);
    NoAdminWord(t);
  }

  lemma BareWordIsCanonical()
    ensures StripTrailingGroup("District") == "District"
    ensures Strip("District") == "District" && Title("District") == "District"
  {
    NoGroupWithoutClosingParen("District");
    var s := "District";
    assert IsTitleCased(s) by {
      forall i | 0 <= i < |s| ensures TitleCasedAt(s, i) {
      }
    }
    CanonicalIsFixed(s);
  }

  /** A bare `"District"` has no whitespace before the word, so it is kept. */
  lemma ExampleBareWordKept()
    ensures DistrictKey("District") == "District"
  {
    BareWordKeptByWordStrip();
    BareWordIsCanonical();
  }

  lemma XTehsilWord()
    ensures StripAdminWord("X (a) Tehsil") == "X (a)"
  {
    var t := "X (a) Tehsil";
    assert t[6..] == AdminWords[0];
    assert IsSpace(t[5]) && !IsSpace(t[4]);
    AdminWordCutAt(t, 0);
  }

  lemma XTehsilUntouched()
    ensures StripTrailingGroup("X (a) Tehsil") == "X (a) Tehsil"
    ensures Strip("X (a) Tehsil") == "X (a) Tehsil"
  {
    NoGroupWithoutClosingParen("X (a) Tehsil");
    StripTrimmed("X (a) Tehsil");
  }

  lemma XaStripped()
    ensures Strip("X (a)") == "X (a)"
  {
    StripTrimmed("X (a)");
  }

  lemma XaTitled()
    ensures Title("X (a)") == "X (A)"
  {
    var s := "X (a)";
    forall i | 0 <= i < |s| ensures Title(s)[i] == "X (A)"[i] {
      assert Title(s)[i] == TitleAt(s, i);
    }
  }

  lemma XAGroup()
    ensures StripTrailingGroup("X (A)") == "X"
  {
    var s := "X (A)";
    assert !IsSpace(s[4]);
    assert LastNonSpace(s) == 4;
    assert LineStart(s, 4) == 0;
    assert FirstOpenParen(s, 0, 4) == 2;
    assert SpaceRunBack(s, 0, 2) == 1;
  }

  lemma XWordKept()
    ensures StripAdminWord("X") == "X"
  {
    NoAdminWord("X");
  }

  lemma XIsCanonical()
    ensures Strip("X") == "X" && Title("X") == "X"
  {
    var s := "X";
    assert IsTitleCased(s) by {
      forall i | 0 <= i < |s| ensures TitleCasedAt(s, i) {
      }
    }
    CanonicalIsFixed(s);
  }

  /**
   * A second pass can also strip a group that title-casing has not touched
   * but that became trailing only when the word went: `"X (a) Tehsil"` gives
   * `"X (A)"`, which gives `"X"`.
   */
  lemma NormalizerNotIdempotentOnGroups()
    ensures DistrictKey("X (a) Tehsil") == "X (A)"
    ensures DistrictKey("X (A)") == "X"
  {
    XTehsilUntouched();
    XTehsilWord();
    XaStripped();
    XaTitled();
    XAGroup();
    XWordKept();
    XIsCanonical();
  }

  /**
   * The response echoes `title(strip(district))`, not the key the lookup used:
   * for `"Pune (Rural)"` the table is searched for `"Pune"` but the answer
   * names `"Pune (Rural)"`.
   */
  lemma EchoIsNotTheLookupKey(db: Option<seq<SoilRow>>, state: string)
    ensures DistrictKey("Pune (Rural)") == "Pune"
    ensures GetSoilDataByDistrict(db, "Pune (Rural)", state).district == "Pune (Rural)"
  {
    ExampleGroupStripped();
    PuneRuralIsStripped();
    PuneRuralIsTitled();
  }
}
