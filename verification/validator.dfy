/**
 * The server's checks on a request's city: case-insensitive comparison, the
 * fixed set of ten supported cities, and the five forbidden characters.
 * Each check has a specification over the C string's contents and a method
 * that walks a NUL-terminated buffer the way the server's loop does.
 */
module Validator {
  import opened Bytes

  /** `tolower` of the "C" locale, by definition: 'A'..'Z' move to 'a'..'z', every other byte stays. */
  function ToLower(c: Byte): Byte {
    if 'A' as int <= c <= 'Z' as int then c + 32 else c
  }

  /** Equal length, and equal position by position once both sides are lower-cased. */
  predicate EqualsIgnoreCase(a: seq<Byte>, b: seq<Byte>) {
    |a| == |b| && forall i :: 0 <= i < |a| ==> ToLower(a[i]) == ToLower(b[i])
  }

  /** Every string equals itself ignoring case. */
  lemma EqualsIgnoreCaseReflexive(a: seq<Byte>)
    ensures EqualsIgnoreCase(a, a)
  {
  }

  /** The comparison does not depend on argument order. */
  lemma EqualsIgnoreCaseSymmetric(a: seq<Byte>, b: seq<Byte>)
    ensures EqualsIgnoreCase(a, b) <==> EqualsIgnoreCase(b, a)
  {
  }

  /**
   * `equals_ignore_case`: walks both strings while neither has reached its
   * terminator, fails at the first case-insensitive mismatch, and succeeds
   * only when both end together. Only `b` needs a terminator: the walk
   * stops by the end of `b`, so a longer `a` is never read past its end.
   * An `a` without terminator then never matches.
   */
  method EqualsIgnoreCaseC(a: seq<Byte>, b: seq<Byte>) returns (eq: bool)
    requires CText(b).Some?
    requires CText(a).Some? || |a| > |CText(b).value|
    ensures eq <==> CText(a).Some? && EqualsIgnoreCase(CText(a).value, CText(b).value)
  {
    ghost var tb := CText(b).value;
    var i := 0;
    while a[i] != NUL && b[i] != NUL
      invariant i <= |tb| && i < |a|
      invariant CText(a).Some? ==> i <= |CText(a).value|
      invariant forall j :: 0 <= j < i ==> a[j] != NUL && ToLower(a[j]) == ToLower(b[j])
      decreases |tb| - i
    {
      if ToLower(a[i]) != ToLower(b[i]) {
        assert CText(a).Some? ==> ToLower(CText(a).value[i]) != ToLower(tb[i]);
        return false;
      }
      i := i + 1;
    }
    eq := a[i] == NUL && b[i] == NUL;
    if eq {
      assert CText(a).Some? && |CText(a).value| == i == |tb|;
    } else if a[i] == NUL {
      assert |CText(a).value| == i < |tb|;
    } else if CText(a).Some? {
      assert |tb| == i < |CText(a).value|;
    }
  }

  /** The ten cities the server serves, in its lookup order. */
  function SupportedCities(): (cities: seq<seq<Byte>>)
    ensures |cities| == 10
    ensures forall k :: 0 <= k < |cities| ==> IsCString(cities[k])
  {
    [Ascii("Bari"), Ascii("Roma"), Ascii("Milano"), Ascii("Napoli"), Ascii("Torino"),
     Ascii("Palermo"), Ascii("Genova"), Ascii("Bologna"), Ascii("Firenze"), Ascii("Venezia")]
  }

  /** Case-insensitively equal to one of the ten names, exactly: no trimming, no prefix match. */
  predicate IsSupportedCity(city: seq<Byte>) {
    exists k :: 0 <= k < |SupportedCities()| && EqualsIgnoreCase(city, SupportedCities()[k])
  }

  /** The length of the longest supported name. */
  const LONGEST_CITY: nat := 7

  lemma LongestCity()
    ensures forall k :: 0 <= k < |SupportedCities()| ==> |SupportedCities()[k]| <= LONGEST_CITY
  {
  }

  /**
   * `is_supported_city`: tries the ten names in order with
   * `equals_ignore_case`. A buffer longer than every name needs no
   * terminator: the comparison stops within the name, and a city without
   * terminator is supported by no name.
   */
  method IsSupportedCityC(city: seq<Byte>) returns (ok: bool)
    requires CText(city).Some? || |city| > LONGEST_CITY
    ensures ok <==> CText(city).Some? && IsSupportedCity(CText(city).value)
  {
    var cities := SupportedCities();
    LongestCity();
    var k := 0;
    while k < |cities|
      invariant k <= |cities|
      invariant forall j :: 0 <= j < k ==> !(CText(city).Some? && EqualsIgnoreCase(CText(city).value, cities[j]))
    {
      CTextOfPadded(cities[k], 1);
      assert cities[k] + Zeros(1) == cities[k] + [NUL];
      var eq := EqualsIgnoreCaseC(city, cities[k] + [NUL]);
      if eq {
        return true;
      }
      k := k + 1;
    }
    return false;
  }

  /** The characters the server refuses in a city name: tab, '@', '#', '$', '%'. */
  predicate IsForbidden(c: Byte) {
    c == TAB || c == '@' as int || c == '#' as int || c == '$' as int || c == '%' as int
  }

  /** Some byte of the city is one of the five forbidden characters. */
  predicate HasInvalidChars(city: seq<Byte>) {
    exists i :: 0 <= i < |city| && IsForbidden(city[i])
  }

  /**
   * `city_has_invalid_chars`: scans up to the terminator for a forbidden
   * byte. The scan stops at the first forbidden byte, so a buffer without
   * terminator is read within its bounds whenever it holds one.
   */
  method CityHasInvalidCharsC(city: seq<Byte>) returns (bad: bool)
    requires CText(city).Some? || HasInvalidChars(city)
    ensures CText(city).Some? ==> (bad <==> HasInvalidChars(CText(city).value))
    ensures CText(city).None? ==> bad
  {
    var i := 0;
    while city[i] != NUL
      invariant i < |city|
      invariant CText(city).Some? ==> i <= |CText(city).value|
      invariant forall j :: 0 <= j < i ==> !IsForbidden(city[j])
      invariant CText(city).None? ==> exists j :: i <= j < |city| && IsForbidden(city[j])
      decreases |city| - i
    {
      if IsForbidden(city[i]) {
        assert CText(city).Some? ==> IsForbidden(CText(city).value[i]);
        return true;
      }
      i := i + 1;
    }
    assert i == |CText(city).value|;
    return false;
  }

  /** A trailing space is not trimmed, the empty name matches nothing, and unknown names are refused. */
  lemma UnsupportedCityExamples()
    ensures !IsSupportedCity(Ascii("Roma ")) && !IsSupportedCity(Ascii(""))
    ensures !IsSupportedCity(Ascii("Atlantide"))
  {
  }

  /** Upper-case, lower-case and mixed-case spellings of a supported name are all supported. */
  lemma SupportedCityExamples()
    ensures IsSupportedCity(Ascii("ROMA")) && IsSupportedCity(Ascii("roma"))
    ensures IsSupportedCity(Ascii("vEnEzIa"))
  {
    assert EqualsIgnoreCase(Ascii("ROMA"), SupportedCities()[1]);
    assert EqualsIgnoreCase(Ascii("roma"), SupportedCities()[1]);
    assert EqualsIgnoreCase(Ascii("vEnEzIa"), SupportedCities()[9]);
  }
}
