/**
 * Worked examples of the geocoded district cleanup of `WeatherAgent`, which
 * removes far less than the soil agent's normaliser.
 */
module WeatherExamples {
  import opened PyText
  import opened WeatherAgent

  lemma NashikTitled(a: string)
    requires a == "nashik "
    ensures Title(a) == "Nashik "
  {
    forall i | 0 <= i < |a| ensures Title(a)[i] == "Nashik "[i] {
      assert Title(a)[i] == TitleAt(a, i);
    }
  }

  lemma DistrictTitled(b: string)
    requires b == "district"
    ensures Title(b) == "District"
  {
    forall i | 0 <= i < |b| ensures Title(b)[i] == "District"[i] {
      assert Title(b)[i] == TitleAt(b, i);
    }
  }

  lemma NashikDistrictTitled(s: string, a: string, b: string)
    requires a == "nashik " && b == "district" && s == a + b
    ensures StripTitle(s) == "Nashik" + DistrictSuffix
  {
    StripTrimmed(s);
    TitleSplits(a, b);
    NashikTitled(a);
    DistrictTitled(b);
    assert "Nashik " + "District" == "Nashik" + DistrictSuffix;
  }

  lemma NashikDistrictCleaned(s: string)
    requires s == "nashik " + "district"
    ensures CleanGeoDistrict(s) == "Nashik"
  {
    NashikDistrictTitled(s, "nashik ", "district");
    CleanGeoDistrictDrops(s, "Nashik");
  }

  /** The lower-case word is title-cased first and then removed with its space. */
  lemma ExampleSuffixRemoved()
    ensures CleanGeoDistrict("nashik district") == "Nashik"
  {
    NashikDistrictCleaned("nashik district");
  }

  lemma NashikTehsilIsCanonical(s: string)
    requires s == "Nashik Tehsil"
    ensures StripTitle(s) == s
  {
    assert IsTitleCased(s) by {
      forall i | 0 <= i < |s| ensures TitleCasedAt(s, i) {
      }
    }
    CanonicalIsFixed(s);
  }

  lemma NashikTehsilKept(s: string)
    requires s == "Nashik Tehsil"
    ensures CleanGeoDistrict(s) == s
  {
    NashikTehsilIsCanonical(s);
    assert !EndsWithDistrict(s) by {
      assert s[|s| - |DistrictSuffix|] != DistrictSuffix[0];
    }
  }

  /** Only `" District"` is removed; other administrative words stay. */
  lemma ExampleOtherWordKept()
    ensures CleanGeoDistrict("Nashik Tehsil") == "Nashik Tehsil"
  {
    NashikTehsilKept("Nashik Tehsil");
  }

  lemma PuneDistrictIsCanonical(s: string, base: string)
    requires base == "Pune " && s == base + DistrictSuffix
    ensures StripTitle(s) == base + DistrictSuffix
  {
    assert IsTitleCased(s) by {
      forall i | 0 <= i < |s| ensures TitleCasedAt(s, i) {
      }
    }
    CanonicalIsFixed(s);
  }

  lemma PuneDistrictCleaned(s: string, base: string)
    requires base == "Pune " && s == base + DistrictSuffix
    ensures CleanGeoDistrict(s) == base
  {
    PuneDistrictIsCanonical(s, base);
    CleanGeoDistrictDrops(s, base);
  }

  /** The result is not stripped again: a double space before the word leaves one behind. */
  lemma ExampleNotStrippedAgain()
    ensures CleanGeoDistrict("Pune  District") == "Pune "
  {
    PuneDistrictCleaned("Pune  District", "Pune ");
  }

  /** A bare `"District"` has no space before it and is kept. */
  lemma ExampleBareWordKept()
    ensures CleanGeoDistrict("District") == "District"
  {
    var s := "District";
    assert IsTitleCased(s) by {
      forall i | 0 <= i < |s| ensures TitleCasedAt(s, i) {
      }
    }
    CanonicalIsFixed(s);
    assert !EndsWithDistrict(s);
  }
}
