/**
 * The configuration and location logic of the JobSpy extractor: reading its
 * settings from environment values, parsing the site list, normalising
 * country names, deciding whether a location is only a country, choosing a
 * city for Glassdoor, and splitting one search into the queries it runs.
 *
 * Environment values are parameters (`Option<string>`, `None` when the
 * variable is unset); the scraping itself is not modelled, only the queries
 * that would be handed to it.
 */
module ScrapeJobs {
  import opened Wrappers
  import opened Text

  // ---------------------------------------------------------------------
  // Tables
  // ---------------------------------------------------------------------

  /** Alternative spellings of a country, by their normalised form. */
  const CountryAliases: map<string, string> := map[
    "uk" := "united kingdom",
    "united kingdom" := "united kingdom",
    "us" := "united states",
    "usa" := "united states",
    "united states" := "united states",
    "türkiye" := "turkey",
    "czech republic" := "czechia"
  ]

  /** The city Glassdoor is searched in when the location names only the country. */
  const GlassdoorCountryToCity: map<string, string> := map[
    "australia" := "Sydney",
    "austria" := "Vienna",
    "belgium" := "Brussels",
    "brazil" := "Sao Paulo",
    "canada" := "Toronto",
    "france" := "Paris",
    "germany" := "Berlin",
    "hong kong" := "Hong Kong",
    "india" := "Bengaluru",
    "ireland" := "Dublin",
    "italy" := "Milan",
    "mexico" := "Mexico City",
    "netherlands" := "Amsterdam",
    "new zealand" := "Auckland",
    "singapore" := "Singapore",
    "spain" := "Madrid",
    "switzerland" := "Zurich",
    "united kingdom" := "London",
    "united states" := "New York",
    "vietnam" := "Ho Chi Minh City"
  ]

  /** The keys of the city table made of two words. */
  const TwoWordCityKeys: seq<string> := ["hong kong", "new zealand", "united kingdom", "united states"]

  /** The spellings `_env_bool` reads as true, after stripping and lower-casing. */
  const TrueSpellings: seq<string> := ["1", "true", "yes", "y", "on"]

  const Glassdoor: string := "glassdoor"

  // ---------------------------------------------------------------------
  // Environment values
  // ---------------------------------------------------------------------

  /**
   * `_env_str`: the value when it is set and not blank, unstripped;
   * otherwise the default. A non-blank default therefore always gives a
   * non-blank setting.
   */
  function EnvStr(value: Option<string>, default: string): (r: string)
    ensures value.Some? && !IsBlank(value.value) ==> r == value.value
    ensures value.None? || IsBlank(value.value) ==> r == default
    ensures !IsBlank(default) ==> !IsBlank(r)
  {
    if value.Some? && value.value != [] && !IsBlank(value.value) then value.value else default
  }

  /**
   * `_env_int`: the integer the value spells; the default when the value is
   * unset, blank, or not an integer.
   */
  function EnvInt(value: Option<string>, default: int): (r: int)
    ensures value.None? || IsBlank(value.value) ==> r == default
    ensures value.Some? && ParseInt(value.value).Some? ==> r == ParseInt(value.value).value
    ensures value.Some? && ParseInt(value.value).None? ==> r == default
  {
    if value.None? || IsBlank(value.value) then default
    else
      match ParseInt(value.value)
      case Some(n) => n
      case None => default
  }

  /**
   * `_env_bool`: the default when unset or blank; otherwise true exactly for
   * the accepted spellings of "true", in any case and with any surrounding
   * whitespace, and false for every other value.
   */
  function EnvBool(value: Option<string>, default: bool): (r: bool)
    ensures value.None? || IsBlank(value.value) ==> r == default
    ensures value.Some? && !IsBlank(value.value) ==> (r <==> Lower(Strip(value.value)) in TrueSpellings)
  {
    if value.None? || IsBlank(value.value) then default
    else Lower(Strip(value.value)) in TrueSpellings
  }

  /**
   * Setting an integer variable to `str(n)` reads back `n`, whatever the
   * default, as long as `int()` accepts that many digits; beyond that the
   * default is used.
   */
  lemma EnvIntRoundTrip(n: int, default: int)
    ensures |NatToString(Abs(n))| <= MaxStrDigits ==> EnvInt(Some(IntToString(n)), default) == n
    ensures |NatToString(Abs(n))| > MaxStrDigits ==> EnvInt(Some(IntToString(n)), default) == default
  {
    ParseIntToString(n);
  }

  /** An information separator before the number makes `int()` fail, so the default is used. */
  lemma EnvIntInformationSeparator()
    ensures EnvInt(Some("\U{1C}5"), 7) == 7
  {
    assert IsInformationSeparator("\U{1C}5"[0]);
  }

  /** A set, non-blank boolean variable never falls back to the default. */
  lemma EnvBoolIgnoresDefault(value: string)
    requires !IsBlank(value)
    ensures EnvBool(Some(value), true) == EnvBool(Some(value), false)
  {
  }

  /** The spellings the boolean examples use, stripped and lower-cased. */
  lemma StripPaddedYes()
    ensures Strip(" Yes ") == "Yes"
  {
    assert " Yes " == " " + "Yes" + " ";
    StripPadded(" ", "Yes", " ");
  }

  lemma YesSpelling()
    ensures Lower("Yes") == "yes" && "yes" in TrueSpellings
  {
  }

  lemma OnSpelling()
    ensures Strip("ON") == "ON" && Lower("ON") == "on" && "on" in TrueSpellings
  {
    StripTrimmed("ON");
  }

  lemma EnabledSpelling()
    ensures Strip("enabled") == "enabled" && Lower("enabled") == "enabled" && "enabled" !in TrueSpellings
  {
    StripTrimmed("enabled");
  }

  /** Case and surrounding whitespace do not matter. */
  lemma EnvBoolPaddedYes()
    ensures EnvBool(Some(" Yes "), false)
  {
    StripPaddedYes();
    YesSpelling();
  }

  lemma EnvBoolUpperOn()
    ensures EnvBool(Some("ON"), false)
  {
    OnSpelling();
  }

  /** A set value that is no spelling of "true" reads as false, not as the default. */
  lemma EnvBoolOtherWord()
    ensures !EnvBool(Some("enabled"), true)
  {
    EnabledSpelling();
  }

  /** Whitespace only counts as unset. */
  lemma EnvBoolBlank()
    ensures EnvBool(Some("  "), true) && EnvBool(None, true)
  {
    assert AllSpace("  ");
  }

  // ---------------------------------------------------------------------
  // Site list
  // ---------------------------------------------------------------------

  /** An entry of a parsed site list: non-empty, comma-free, no surrounding whitespace. */
  predicate IsSiteEntry(s: string) {
    s != [] && ',' !in s && IsTrimmed(s)
  }

  /** A piece of the list, stripped, unless it is blank. */
  function KeepSite(piece: string): seq<string> {
    if IsBlank(piece) then [] else [Strip(piece)]
  }

  /** The stripped pieces that are not blank, in order. */
  function KeepSites(pieces: seq<string>): seq<string> {
    if pieces == [] then [] else KeepSite(pieces[0]) + KeepSites(pieces[1..])
  }

  /** Keeping the non-blank comma-free pieces gives site entries only. */
  lemma {:induction false} KeepSitesEntries(pieces: seq<string>)
    requires forall i :: 0 <= i < |pieces| ==> ',' !in pieces[i]
    ensures forall i :: 0 <= i < |KeepSites(pieces)| ==> IsSiteEntry(KeepSites(pieces)[i])
    decreases |pieces|
  {
    if pieces != [] {
      KeepSitesEntries(pieces[1..]);
      if !IsBlank(pieces[0]) {
        var s := Strip(pieces[0]);
        assert ',' !in s;
      }
    }
  }

  /** `_parse_sites`: split on commas, strip every piece, drop the blank ones. */
  function ParseSites(raw: string): (r: seq<string>)
    ensures forall i :: 0 <= i < |r| ==> IsSiteEntry(r[i])
  {
    var pieces := Split(raw, ',');
    KeepSitesEntries(pieces);
    KeepSites(pieces)
  }

  lemma {:induction false} KeepSitesAppend(a: seq<string>, b: seq<string>)
    ensures KeepSites(a + b) == KeepSites(a) + KeepSites(b)
    decreases |a|
  {
    if a != [] {
      assert (a + b)[0] == a[0] && (a + b)[1..] == a[1..] + b;
      KeepSitesAppend(a[1..], b);
      assert KeepSites(a + b) == KeepSite(a[0]) + KeepSites(a[1..] + b);
    } else {
      assert a + b == b;
    }
  }

  lemma KeepSiteOfEntry(x: string)
    requires IsSiteEntry(x)
    ensures KeepSite(x) == [x]
  {
    StripTrimmed(x);
  }

  lemma {:induction false} KeepSitesOfEntries(xs: seq<string>)
    requires forall i :: 0 <= i < |xs| ==> IsSiteEntry(xs[i])
    ensures KeepSites(xs) == xs
    decreases |xs|
  {
    if xs != [] {
      KeepSiteOfEntry(xs[0]);
      assert forall i :: 0 <= i < |xs[1..]| ==> xs[1..][i] == xs[i + 1];
      KeepSitesOfEntries(xs[1..]);
      assert KeepSites(xs) == KeepSite(xs[0]) + KeepSites(xs[1..]);
      assert xs == [xs[0]] + xs[1..];
    }
  }

  /** Parsing respects order: the sites before a comma come first, then those after it. */
  lemma ParseSitesAppend(a: string, b: string)
    ensures ParseSites(a + "," + b) == ParseSites(a) + ParseSites(b)
  {
    SplitAppend(a, b, ',');
    KeepSitesAppend(Split(a, ','), Split(b, ','));
  }

  /** Joining site entries with commas and parsing gives the same entries back. */
  lemma ParseSitesJoin(xs: seq<string>)
    requires forall i :: 0 <= i < |xs| ==> IsSiteEntry(xs[i])
    ensures ParseSites(Join(xs, ",")) == xs
  {
    if xs == [] {
      assert Split([], ',') == [[]];
    } else {
      SplitJoin(xs, ',');
      KeepSitesOfEntries(xs);
    }
  }

  /** Round trip: re-parsing the comma-joined result of a parse changes nothing. */
  lemma ParseSitesRoundTrip(raw: string)
    ensures ParseSites(Join(ParseSites(raw), ",")) == ParseSites(raw)
  {
    ParseSitesJoin(ParseSites(raw));
  }

  /**
   * A list without commas names at most one site: its stripped text, or
   * none when it is blank.
   */
  lemma ParseSitesPiece(piece: string)
    requires ',' !in piece
    ensures ParseSites(piece) == if IsBlank(piece) then [] else [Strip(piece)]
  {
    SplitNoSeparator(piece, ',');
    assert [piece][1..] == [];
    assert KeepSites([piece]) == KeepSite(piece) + KeepSites([]);
  }

  /** Only commas and whitespace: the inputs that name no site. */
  predicate OnlyCommasAndSpace(s: string) {
    forall i :: 0 <= i < |s| ==> s[i] == ',' || IsSpace(s[i])
  }

  lemma BlankCons(c: char, x: string)
    ensures IsBlank([c] + x) <==> IsSpace(c) && IsBlank(x)
  {
    var s := [c] + x;
    assert forall i :: 0 <= i < |x| ==> s[i + 1] == x[i];
    if AllSpace(s) {
      assert IsSpace(s[0]);
      forall i | 0 <= i < |x| ensures IsSpace(x[i]) {
        assert x[i] == s[i + 1];
      }
    }
    if IsSpace(c) && AllSpace(x) {
      forall i | 0 <= i < |s| ensures IsSpace(s[i]) {
        if i > 0 {
          assert s[i] == x[i - 1];
        }
      }
    }
  }

  lemma OnlyCommasAndSpaceCons(s: string)
    requires s != []
    ensures OnlyCommasAndSpace(s) <==> (s[0] == ',' || IsSpace(s[0])) && OnlyCommasAndSpace(s[1..])
  {
    assert forall i :: 0 < i < |s| ==> s[i] == s[1..][i - 1];
  }

  /** No site is parsed exactly when the input holds nothing but commas and whitespace. */
  lemma {:induction false} ParseSitesEmpty(raw: string)
    ensures ParseSites(raw) == [] <==> OnlyCommasAndSpace(raw)
    decreases |raw|
  {
    if raw == [] {
      assert IsBlank([]);
    } else {
      ParseSitesEmpty(raw[1..]);
      OnlyCommasAndSpaceCons(raw);
      var t := Split(raw[1..], ',');
      if raw[0] == ',' {
        assert Split(raw, ',') == [[]] + t;
        assert IsBlank([]);
      } else {
        assert Split(raw, ',') == [[raw[0]] + t[0]] + t[1..];
        assert KeepSites(t) == KeepSite(t[0]) + KeepSites(t[1..]);
        BlankCons(raw[0], t[0]);
      }
    }
  }

  lemma DefaultSitesAreEntries()
    ensures IsSiteEntry("indeed") && IsSiteEntry("linkedin")
  {
  }

  /** The default setting names Indeed and LinkedIn. */
  lemma ParseDefaultSites()
    ensures ParseSites("indeed,linkedin") == ["indeed", "linkedin"]
  {
    DefaultSitesAreEntries();
    assert Join(["indeed", "linkedin"], ",") == "indeed,linkedin";
    ParseSitesJoin(["indeed", "linkedin"]);
  }

  lemma PaddedLinkedin()
    ensures ',' !in " linkedin" && !IsBlank(" linkedin") && Strip(" linkedin") == "linkedin"
  {
    assert " linkedin" == " " + "linkedin" + [];
    StripPadded(" ", "linkedin", []);
  }

  lemma ParseIndeed()
    ensures ParseSites("indeed") == ["indeed"]
  {
    StripTrimmed("indeed");
    ParseSitesPiece("indeed");
  }

  lemma ParsePaddedLinkedin()
    ensures ParseSites(" linkedin") == ["linkedin"]
  {
    PaddedLinkedin();
    ParseSitesPiece(" linkedin");
  }

  /** A space after the comma is stripped from the site name. */
  lemma ParseSitesSpaceAfterComma()
    ensures ParseSites("indeed, linkedin") == ["indeed", "linkedin"]
  {
    IndeedCommaLinkedin();
    ParseIndeed();
    ParsePaddedLinkedin();
    ParseSitePair("indeed, linkedin", "indeed", " linkedin", "indeed", "linkedin");
  }

  lemma IndeedCommaLinkedin()
    ensures "indeed, linkedin" == "indeed" + "," + " linkedin"
  {
  }

  /** Two pieces that each name one site name both, in order. */
  lemma ParseSitePair(raw: string, a: string, b: string, x: string, y: string)
    requires raw == a + "," + b && ParseSites(a) == [x] && ParseSites(b) == [y]
    ensures ParseSites(raw) == [x, y]
  {
    ParseSitesAppend(a, b);
  }

  /** Inputs with no text between the commas name no site. */
  lemma ParseBlankSites()
    ensures ParseSites(" , ,") == []
  {
    assert OnlyCommasAndSpace(" , ,");
    ParseSitesEmpty(" , ,");
  }

  // ---------------------------------------------------------------------
  // Countries
  // ---------------------------------------------------------------------

  /** A normalised country token: lower-case, with single spaces between words only. */
  predicate IsCountryToken(s: string) {
    IsCollapsed(s) && AllLowered(s)
  }

  /** A non-empty word of ASCII lower-case letters. */
  predicate IsLetterWord(s: string) {
    s != [] && forall c :: c in s ==> 'a' <= c <= 'z'
  }

  /** A single letter word is a token. */
  lemma LetterWordIsToken(s: string)
    requires IsLetterWord(s)
    ensures IsCountryToken(s)
  {
    forall i | 0 <= i < |s| ensures IsLowered(s[i]) && !IsSpace(s[i]) {
      assert s[i] in s;
    }
  }

  /** Two letter words with one space between them make a token. */
  lemma TwoLetterWordsAreToken(a: string, b: string)
    requires IsLetterWord(a) && IsLetterWord(b)
    ensures IsCountryToken(a + " " + b)
  {
    var s := a + " " + b;
    forall i | 0 <= i < |s| ensures IsLowered(s[i]) && (i != |a| ==> 'a' <= s[i] <= 'z') {
      if i < |a| {
        assert s[i] == a[i] && a[i] in a;
      } else if i > |a| {
        assert s[i] == b[i - |a| - 1] && b[i - |a| - 1] in b;
      }
    }
    assert s[|a|] == ' ' && 0 < |a| < |s| - 1;
    assert IsCollapsed(s);
  }

  lemma TwoWordTokens()
    ensures IsCountryToken("united kingdom") && IsCountryToken("united states")
  {
    assert "united kingdom" == "united" + " " + "kingdom";
    TwoLetterWordsAreToken("united", "kingdom");
    assert "united states" == "united" + " " + "states";
    TwoLetterWordsAreToken("united", "states");
  }

  lemma MoreTwoWordTokens()
    ensures IsCountryToken("hong kong") && IsCountryToken("new zealand")
  {
    assert "hong kong" == "hong" + " " + "kong";
    TwoLetterWordsAreToken("hong", "kong");
    assert "new zealand" == "new" + " " + "zealand";
    TwoLetterWordsAreToken("new", "zealand");
  }

  /** Every alias target is a non-empty token, and is either no alias or an alias of itself. */
  lemma AliasTargetsStable()
    ensures forall k :: k in CountryAliases ==>
      IsCountryToken(CountryAliases[k]) && CountryAliases[k] != [] &&
      (CountryAliases[k] in CountryAliases ==> CountryAliases[CountryAliases[k]] == CountryAliases[k])
  {
    TwoWordTokens();
    LetterWordIsToken("turkey");
    LetterWordIsToken("czechia");
  }

  /** Strip, lower-case, and collapse runs of whitespace to one space. */
  function CollapseCountry(value: string): (r: string)
    ensures IsCountryToken(r)
    ensures r == [] <==> IsBlank(value)
  {
    var lowered := Lower(Strip(value));
    CollapseLowered(lowered);
    LowerAllSpace(Strip(value));
    Collapse(lowered)
  }

  /** A token is its own collapse. */
  lemma CollapseCountryToken(t: string)
    requires IsCountryToken(t)
    ensures CollapseCountry(t) == t
  {
    StripTrimmed(t);
    CollapseCollapsed(t);
  }

  /** Whitespace around the value does not matter: the collapse drops it anyway. */
  lemma CollapseCountryLower(value: string)
    ensures CollapseCountry(value) == Collapse(Lower(value))
  {
    CollapseLowerStrip(value);
  }

  /**
   * A run of whitespace inside a name, of any length and kind, becomes one
   * space, and the text on either side is normalised on its own.
   */
  lemma CollapseCountryAroundSpace(a: string, ws: string, b: string)
    requires !IsBlank(a) && !IsBlank(b) && ws != [] && AllSpace(ws)
    ensures CollapseCountry(a + ws + b) == CollapseCountry(a) + " " + CollapseCountry(b)
  {
    CollapseCountryLower(a + ws + b);
    CollapseCountryLower(a);
    CollapseCountryLower(b);
    CollapseLowerAroundSpace(a, ws, b);
  }

  /**
   * `_normalize_country_token`: the collapsed, lower-case form, replaced by
   * its canonical name when it is a known alias. The result is a token, and
   * it is empty exactly when the input is blank.
   */
  function NormalizeCountryToken(value: string): (r: string)
    ensures IsCountryToken(r)
    ensures r == [] <==> IsBlank(value)
  {
    var normalized := CollapseCountry(value);
    AliasTargetsStable();
    if normalized in CountryAliases then CountryAliases[normalized] else normalized
  }

  /** Normalising twice is normalising once. */
  lemma NormalizeIdempotent(value: string)
    ensures NormalizeCountryToken(NormalizeCountryToken(value)) == NormalizeCountryToken(value)
  {
    var r := NormalizeCountryToken(value);
    CollapseCountryToken(r);
    AliasTargetsStable();
  }

  /** A token that is no alias normalises to itself. */
  lemma NormalizeToken(t: string)
    requires IsCountryToken(t) && t !in CountryAliases
    ensures NormalizeCountryToken(t) == t
  {
    CollapseCountryToken(t);
  }

  /** A word that strips to itself and lower-cases to a token collapses to that token. */
  lemma CollapseWord(pre: string, core: string, post: string, w: string)
    requires AllSpace(pre) && AllSpace(post) && core != [] && IsTrimmed(core)
    requires Lower(core) == w && IsCountryToken(w)
    ensures CollapseCountry(pre + core + post) == w
  {
    StripPadded(pre, core, post);
    CollapseCollapsed(w);
  }

  /** The country names the examples use: trimmed, and lower-casing each gives a token. */
  lemma CountryWordFacts()
    ensures IsTrimmed("UK") && Lower("UK") == "uk" && IsCountryToken("uk")
    ensures IsTrimmed("USA") && Lower("USA") == "usa" && IsCountryToken("usa")
  {
    LetterWordIsToken("uk");
    LetterWordIsToken("usa");
  }

  /** The words of "United Kingdom": trimmed, and lower-casing each gives a token. */
  lemma UnitedKingdomFacts()
    ensures IsTrimmed("United") && Lower("United") == "united" && IsCountryToken("united")
    ensures IsTrimmed("Kingdom") && Lower("Kingdom") == "kingdom" && IsCountryToken("kingdom")
  {
    LetterWordIsToken("united");
    LetterWordIsToken("kingdom");
  }

  /** The city names the examples use: trimmed, and lower-casing each gives a token. */
  lemma CityWordFacts()
    ensures IsTrimmed("London") && Lower("London") == "london" && IsCountryToken("london")
    ensures IsTrimmed("Manchester") && Lower("Manchester") == "manchester" && IsCountryToken("manchester")
  {
    LetterWordIsToken("london");
    LetterWordIsToken("manchester");
  }

  lemma TurkiyeTrimmed()
    ensures IsTrimmed("TÜRKIYE")
  {
  }

  lemma TurkiyeLower()
    ensures Lower("TÜRKIYE") == "türkiye"
  {
  }

  lemma TurkiyeToken()
    ensures IsCountryToken("türkiye")
  {
    var s := "türkiye";
    forall i | 0 <= i < |s| ensures IsLowered(s[i]) && !IsSpace(s[i]) {
    }
  }

  lemma TurkiyeWord()
    ensures IsTrimmed("TÜRKIYE") && Lower("TÜRKIYE") == "türkiye" && IsCountryToken("türkiye")
  {
    TurkiyeTrimmed();
    TurkiyeLower();
    TurkiyeToken();
  }

  /** A value whose collapsed form is an alias normalises to the alias target. */
  lemma NormalizeAlias(value: string, t: string, target: string)
    requires CollapseCountry(value) == t && t in CountryAliases && CountryAliases[t] == target
    ensures NormalizeCountryToken(value) == target
  {
  }

  /** A value whose collapsed form is no alias normalises to that form. */
  lemma NormalizeNonAlias(value: string, t: string)
    requires CollapseCountry(value) == t && t !in CountryAliases
    ensures NormalizeCountryToken(value) == t
  {
  }

  /** The entries of the alias table the examples use. */
  lemma AliasFacts()
    ensures "uk" in CountryAliases && CountryAliases["uk"] == "united kingdom"
    ensures "united kingdom" in CountryAliases && CountryAliases["united kingdom"] == "united kingdom"
    ensures "usa" in CountryAliases && CountryAliases["usa"] == "united states"
    ensures "türkiye" in CountryAliases && CountryAliases["türkiye"] == "turkey"
    ensures "london" !in CountryAliases && "manchester" !in CountryAliases
  {
  }

  lemma CollapseUk()
    ensures CollapseCountry("UK") == "uk"
  {
    CountryWordFacts();
    assert "UK" == [] + "UK" + [];
    CollapseWord([], "UK", [], "uk");
  }

  lemma NormalizeUk()
    ensures NormalizeCountryToken("UK") == "united kingdom"
  {
    CollapseUk();
    AliasFacts();
    NormalizeAlias("UK", "uk", "united kingdom");
  }

  lemma CollapsePaddedUsa()
    ensures CollapseCountry("  USA ") == "usa"
  {
    CountryWordFacts();
    assert "  USA " == "  " + "USA" + " ";
    CollapseWord("  ", "USA", " ", "usa");
  }

  /** Surrounding whitespace and case are ignored before the alias lookup. */
  lemma NormalizePaddedUsa()
    ensures NormalizeCountryToken("  USA ") == "united states"
  {
    CollapsePaddedUsa();
    AliasFacts();
    NormalizeAlias("  USA ", "usa", "united states");
  }

  lemma CollapseTurkiye()
    ensures CollapseCountry("TÜRKIYE") == "türkiye"
  {
    TurkiyeWord();
    assert "TÜRKIYE" == [] + "TÜRKIYE" + [];
    CollapseWord([], "TÜRKIYE", [], "türkiye");
  }

  /** Lower-casing covers the Latin-1 letters of the alias table. */
  lemma NormalizeTurkiye()
    ensures NormalizeCountryToken("TÜRKIYE") == "turkey"
  {
    CollapseTurkiye();
    AliasFacts();
    NormalizeAlias("TÜRKIYE", "türkiye", "turkey");
  }

  lemma CollapseLondon()
    ensures CollapseCountry("London") == "london"
  {
    CityWordFacts();
    assert "London" == [] + "London" + [];
    CollapseWord([], "London", [], "london");
  }

  /** A name that is no alias is only collapsed and lower-cased. */
  lemma NormalizeLondon()
    ensures NormalizeCountryToken("London") == "london"
  {
    CollapseLondon();
    AliasFacts();
    NormalizeNonAlias("London", "london");
  }

  lemma CollapseUnited()
    ensures CollapseCountry("United") == "united" && !IsBlank("United")
  {
    UnitedKingdomFacts();
    StripTrimmed("United");
    assert "United" == [] + "United" + [];
    CollapseWord([], "United", [], "united");
  }

  lemma CollapseKingdom()
    ensures CollapseCountry("Kingdom") == "kingdom" && !IsBlank("Kingdom")
  {
    UnitedKingdomFacts();
    StripTrimmed("Kingdom");
    assert "Kingdom" == [] + "Kingdom" + [];
    CollapseWord([], "Kingdom", [], "kingdom");
  }

  lemma UnitedTabKingdomParts()
    ensures "United \t Kingdom" == "United" + " \t " + "Kingdom"
    ensures " \t " != [] && AllSpace(" \t ")
    ensures "united" + " " + "kingdom" == "united kingdom"
  {
  }

  /** Two names with whitespace between them collapse to their collapsed forms, one space apart. */
  lemma CollapseTwoNames(value: string, a: string, ws: string, b: string, x: string, y: string)
    requires value == a + ws + b && ws != [] && AllSpace(ws)
    requires !IsBlank(a) && !IsBlank(b) && CollapseCountry(a) == x && CollapseCountry(b) == y
    ensures CollapseCountry(value) == x + " " + y
  {
    CollapseCountryAroundSpace(a, ws, b);
  }

  /** A tab between two words collapses to one space. */
  lemma CollapseUnitedTabKingdom()
    ensures CollapseCountry("United \t Kingdom") == "united kingdom"
  {
    UnitedTabKingdomParts();
    CollapseUnited();
    CollapseKingdom();
    CollapseTwoNames("United \t Kingdom", "United", " \t ", "Kingdom", "united", "kingdom");
  }

  /** Inner whitespace, case and the alias table together: the full name of the UK. */
  lemma NormalizeUnitedTabKingdom()
    ensures NormalizeCountryToken("United \t Kingdom") == "united kingdom"
  {
    CollapseUnitedTabKingdom();
    AliasFacts();
    NormalizeAlias("United \t Kingdom", "united kingdom", "united kingdom");
  }

  /**
   * `_is_country_level_location`: the location names just the country, that
   * is, both normalise to the same non-empty token. Blank arguments are never
   * country-level.
   */
  function IsCountryLevelLocation(location: string, countryIndeed: string): (r: bool)
    ensures r <==> NormalizeCountryToken(location) != [] && NormalizeCountryToken(location) == NormalizeCountryToken(countryIndeed)
  {
    if IsBlank(location) || IsBlank(countryIndeed) then false
    else NormalizeCountryToken(location) == NormalizeCountryToken(countryIndeed)
  }

  lemma CountryLevelSymmetric(a: string, b: string)
    ensures IsCountryLevelLocation(a, b) == IsCountryLevelLocation(b, a)
  {
  }

  lemma CountryLevelTransitive(a: string, b: string, c: string)
    requires IsCountryLevelLocation(a, b) && IsCountryLevelLocation(b, c)
    ensures IsCountryLevelLocation(a, c)
  {
  }

  /** Every non-blank location is country-level with respect to itself. */
  lemma CountryLevelReflexive(a: string)
    ensures IsCountryLevelLocation(a, a) <==> !IsBlank(a)
  {
  }

  /** A country alias is country-level against the canonical name. */
  lemma CountryLevelUk()
    ensures IsCountryLevelLocation("UK", "united kingdom")
  {
    NormalizeUk();
    NormalizeIdempotent("UK");
  }

  /** A city is not country-level. */
  lemma CityNotCountryLevel()
    ensures !IsCountryLevelLocation("London", "UK")
  {
    NormalizeUk();
    NormalizeLondon();
  }

  /** A spelled-out country with odd spacing is country-level against its short name. */
  lemma CountryLevelWithTab()
    ensures IsCountryLevelLocation("United \t Kingdom", "UK")
  {
    NormalizeUnitedTabKingdom();
    NormalizeUk();
  }


  // ---------------------------------------------------------------------
  // Glassdoor
  // ---------------------------------------------------------------------

  /** Every key of the city table but four is a single letter word. */
  lemma CityKeyWords()
    ensures forall k :: k in GlassdoorCountryToCity && k !in TwoWordCityKeys ==> IsLetterWord(k)
  {
  }

  /** Every key of the city table is a token. */
  lemma CityKeysAreTokens()
    ensures forall k :: k in GlassdoorCountryToCity ==> IsCountryToken(k)
  {
    TwoWordTokens();
    MoreTwoWordTokens();
    CityKeyWords();
    forall k | k in GlassdoorCountryToCity && k !in TwoWordCityKeys
      ensures IsCountryToken(k)
    {
      LetterWordIsToken(k);
    }
  }

  /** No key of the city table is an alias of another country. */
  lemma CityKeysNotAliased()
    ensures forall k :: k in GlassdoorCountryToCity && k in CountryAliases ==> CountryAliases[k] == k
  {
  }

  /** Every city in the table is non-blank. */
  lemma CitiesNonBlank()
    ensures forall k :: k in GlassdoorCountryToCity ==> !IsBlank(GlassdoorCountryToCity[k])
  {
    forall k | k in GlassdoorCountryToCity ensures !IsBlank(GlassdoorCountryToCity[k]) {
      var city := GlassdoorCountryToCity[k];
      assert !IsSpace(city[0]);
    }
  }

  /**
   * `_glassdoor_city_for_country`: normalise `countryIndeed` when it is
   * non-empty (even if it is only whitespace), `location` otherwise, and look
   * the token up. Any city found is a non-blank value of the table.
   */
  function GlassdoorCityForCountry(countryIndeed: string, location: string): (r: Option<string>)
    ensures r.Some? <==> NormalizeCountryToken(if countryIndeed != [] then countryIndeed else location) in GlassdoorCountryToCity
    ensures r.Some? ==> r.value in GlassdoorCountryToCity.Values && !IsBlank(r.value)
  {
    var countryKey := NormalizeCountryToken(if countryIndeed != [] then countryIndeed else location);
    CitiesNonBlank();
    if countryKey in GlassdoorCountryToCity then Some(GlassdoorCountryToCity[countryKey]) else None
  }

  /** Every key of the city table is a non-empty token that normalises to itself. */
  lemma NormalizeCityKey(k: string)
    requires k in GlassdoorCountryToCity
    ensures k != [] && NormalizeCountryToken(k) == k
  {
    CityKeysAreTokens();
    CityKeysNotAliased();
    CollapseCountryToken(k);
  }

  /** The lookup finds the city of the token the chosen name normalises to. */
  lemma GlassdoorCityFound(countryIndeed: string, location: string, t: string, city: string)
    requires NormalizeCountryToken(if countryIndeed != [] then countryIndeed else location) == t
    requires t in GlassdoorCountryToCity && GlassdoorCountryToCity[t] == city
    ensures GlassdoorCityForCountry(countryIndeed, location) == Some(city)
  {
  }

  /** Naming a country of the table by its table key finds that country's city. */
  lemma GlassdoorCityOfKey(country: string, location: string)
    requires country in GlassdoorCountryToCity
    ensures GlassdoorCityForCountry(country, location) == Some(GlassdoorCountryToCity[country])
  {
    NormalizeCityKey(country);
    GlassdoorCityFound(country, location, country, GlassdoorCountryToCity[country]);
  }

  /** The entries of the city table the examples use. */
  lemma CityFacts()
    ensures "united kingdom" in GlassdoorCountryToCity && GlassdoorCountryToCity["united kingdom"] == "London"
    ensures "united states" in GlassdoorCountryToCity && GlassdoorCountryToCity["united states"] == "New York"
    ensures "germany" in GlassdoorCountryToCity && GlassdoorCountryToCity["germany"] == "Berlin"
    ensures [] !in GlassdoorCountryToCity
  {
  }

  lemma GlassdoorCityUk()
    ensures GlassdoorCityForCountry("UK", "") == Some("London")
  {
    NormalizeUk();
    CityFacts();
    GlassdoorCityFound("UK", "", "united kingdom", "London");
  }

  lemma CollapseUsa()
    ensures CollapseCountry("usa") == "usa"
  {
    CountryWordFacts();
    assert "usa" == [] + "usa" + [];
    CollapseWord([], "usa", [], "usa");
  }

  lemma GlassdoorCityUsa()
    ensures GlassdoorCityForCountry("usa", "Boston") == Some("New York")
  {
    CollapseUsa();
    AliasFacts();
    NormalizeAlias("usa", "usa", "united states");
    CityFacts();
    GlassdoorCityFound("usa", "Boston", "united states", "New York");
  }

  /** An empty country falls back to the location. */
  lemma GlassdoorCityFromLocation()
    ensures GlassdoorCityForCountry("", "germany") == Some("Berlin")
  {
    CityFacts();
    NormalizeCityKey("germany");
    GlassdoorCityFound("", "germany", "germany", "Berlin");
  }

  /** A whitespace-only country is non-empty, so it is used, and finds nothing. */
  lemma GlassdoorCityBlankCountry()
    ensures GlassdoorCityForCountry(" ", "germany") == None
  {
    assert AllSpace(" ");
    CityFacts();
  }


  // ---------------------------------------------------------------------
  // The queries `main` runs
  // ---------------------------------------------------------------------

  /** One call of the scraper: the sites it covers and the `location` keyword, if passed. */
  datatype Query = Query(sites: seq<string>, location: Option<string>)

  /** `_scrape_for_sites` passes `location` only when it is not blank. */
  function LocationArgument(location: string): (r: Option<string>)
    ensures r.Some? <==> !IsBlank(location)
    ensures r.Some? ==> r.value == location
  {
    if location != [] && !IsBlank(location) then Some(location) else None
  }

  /** The configured sites without Glassdoor, in their order and with their repetitions. */
  function NonGlassdoorSites(sites: seq<string>): (r: seq<string>)
    ensures Glassdoor !in r
    ensures multiset(r) == multiset(sites)[Glassdoor := 0]
  {
    if sites == [] then []
    else
      var rest := NonGlassdoorSites(sites[1..]);
      assert sites == [sites[0]] + sites[1..];
      (if sites[0] == Glassdoor then [] else [sites[0]]) + rest
  }

  /** Exactly the configured sites other than Glassdoor survive. */
  lemma NonGlassdoorSitesMembers(sites: seq<string>)
    ensures forall s :: s in NonGlassdoorSites(sites) <==> s in sites && s != Glassdoor
  {
    var others := NonGlassdoorSites(sites);
    forall s ensures s in others <==> s in sites && s != Glassdoor {
      assert s in others <==> s in multiset(others);
      assert s in sites <==> s in multiset(sites);
    }
  }

  /** Dropping Glassdoor keeps the order: it acts on each part of a list separately. */
  lemma {:induction false} NonGlassdoorSitesAppend(a: seq<string>, b: seq<string>)
    ensures NonGlassdoorSites(a + b) == NonGlassdoorSites(a) + NonGlassdoorSites(b)
    decreases |a|
  {
    if a == [] {
      assert a + b == b;
    } else {
      assert (a + b)[1..] == a[1..] + b;
      NonGlassdoorSitesAppend(a[1..], b);
    }
  }

  /** A list without Glassdoor is kept as it is. */
  lemma {:induction false} NonGlassdoorSitesUnchanged(sites: seq<string>)
    requires Glassdoor !in sites
    ensures NonGlassdoorSites(sites) == sites
    decreases |sites|
  {
    if sites != [] {
      NonGlassdoorSitesUnchanged(sites[1..]);
      assert sites == [sites[0]] + sites[1..];
    }
  }

  /**
   * The location the Glassdoor query uses: the table's city when the
   * location is country-level and the country has a city, the configured
   * location otherwise.
   */
  function GlassdoorLocation(location: string, countryIndeed: string): (r: string)
    ensures IsCountryLevelLocation(location, countryIndeed) && GlassdoorCityForCountry(countryIndeed, location).Some? ==>
      r == GlassdoorCityForCountry(countryIndeed, location).value
    ensures !IsCountryLevelLocation(location, countryIndeed) || GlassdoorCityForCountry(countryIndeed, location).None? ==>
      r == location
    ensures !IsBlank(location) ==> !IsBlank(r)
  {
    if IsCountryLevelLocation(location, countryIndeed) then
      match GlassdoorCityForCountry(countryIndeed, location)
      case Some(city) => if city != [] then city else location
      case None => location
    else location
  }

  /**
   * The calls in the order `main` makes them: one for the sites other than
   * Glassdoor when there are any, then one for Glassdoor alone when it is
   * configured.
   */
  function Calls(others: seq<string>, otherLocation: Option<string>, withGlassdoor: bool, glassdoorLocation: Option<string>): (r: seq<Query>)
    requires Glassdoor !in others
    ensures |r| <= 2
    ensures forall i :: 0 <= i < |r| ==> r[i].sites != []
    ensures forall i, j :: 0 <= i < j < |r| ==> multiset(r[i].sites) !! multiset(r[j].sites)
    ensures forall i :: 0 <= i < |r| && Glassdoor in r[i].sites ==> i == |r| - 1 && r[i] == Query([Glassdoor], glassdoorLocation)
    ensures forall i :: 0 <= i < |r| && Glassdoor !in r[i].sites ==> i == 0 && r[i] == Query(others, otherLocation)
  {
    var general := Query(others, otherLocation);
    var glassdoor := Query([Glassdoor], glassdoorLocation);
    if others == [] then
      if withGlassdoor then [glassdoor] else []
    else
      if withGlassdoor then [general, glassdoor] else [general]
  }

  /**
   * The scraper calls `main` makes: one for every configured site other than
   * Glassdoor, together and with the configured location, when there is any;
   * then one for Glassdoor alone, with its own location, when it is
   * configured. No site is searched twice.
   */
  function QueryPlan(sites: seq<string>, location: string, countryIndeed: string): (r: seq<Query>)
    ensures |r| <= 2
    ensures forall i :: 0 <= i < |r| ==> r[i].sites != []
    ensures forall i, j :: 0 <= i < j < |r| ==> multiset(r[i].sites) !! multiset(r[j].sites)
    ensures forall i :: 0 <= i < |r| && Glassdoor in r[i].sites ==>
      i == |r| - 1 && r[i] == Query([Glassdoor], LocationArgument(GlassdoorLocation(location, countryIndeed)))
    ensures forall i :: 0 <= i < |r| && Glassdoor !in r[i].sites ==>
      i == 0 && r[i] == Query(NonGlassdoorSites(sites), LocationArgument(location))
  {
    Calls(NonGlassdoorSites(sites), LocationArgument(location),
      Glassdoor in sites, LocationArgument(GlassdoorLocation(location, countryIndeed)))
  }

  /** The sites of a list of queries, in order. */
  function SitesOf(qs: seq<Query>): seq<string> {
    if qs == [] then [] else qs[0].sites + SitesOf(qs[1..])
  }

  /** The calls search the other sites, in their order, then Glassdoor when it is included. */
  lemma CallsSites(others: seq<string>, otherLocation: Option<string>, withGlassdoor: bool, glassdoorLocation: Option<string>)
    requires Glassdoor !in others
    ensures SitesOf(Calls(others, otherLocation, withGlassdoor, glassdoorLocation)) ==
      others + (if withGlassdoor then [Glassdoor] else [])
  {
    var r := Calls(others, otherLocation, withGlassdoor, glassdoorLocation);
    if |r| == 2 {
      assert SitesOf(r[1..]) == [Glassdoor];
    } else if |r| == 1 {
      assert SitesOf(r) == r[0].sites + [];
    }
  }

  /**
   * The plan searches the configured sites other than Glassdoor, in their
   * order and with their repetitions, then Glassdoor once when it is
   * configured at all.
   */
  lemma QueryPlanSites(sites: seq<string>, location: string, countryIndeed: string)
    ensures SitesOf(QueryPlan(sites, location, countryIndeed)) ==
      NonGlassdoorSites(sites) + (if Glassdoor in sites then [Glassdoor] else [])
  {
    CallsSites(NonGlassdoorSites(sites), LocationArgument(location),
      Glassdoor in sites, LocationArgument(GlassdoorLocation(location, countryIndeed)));
  }

  /** Every configured site is searched, and no other site is. */
  lemma QueryPlanCovers(sites: seq<string>, location: string, countryIndeed: string)
    ensures forall s :: s in sites <==> s in SitesOf(QueryPlan(sites, location, countryIndeed))
  {
    QueryPlanSites(sites, location, countryIndeed);
    NonGlassdoorSitesMembers(sites);
  }

  /** Each site is searched as often as it is configured, except Glassdoor, which is searched once. */
  lemma QueryPlanCounts(sites: seq<string>, location: string, countryIndeed: string)
    ensures multiset(SitesOf(QueryPlan(sites, location, countryIndeed))) ==
      multiset(sites)[Glassdoor := if Glassdoor in sites then 1 else 0]
  {
    QueryPlanSites(sites, location, countryIndeed);
  }

  /** With a non-blank location every query passes a location to the scraper. */
  lemma PlanAlwaysPassesLocation(sites: seq<string>, location: string, countryIndeed: string)
    requires !IsBlank(location)
    ensures forall i :: 0 <= i < |QueryPlan(sites, location, countryIndeed)| ==>
      QueryPlan(sites, location, countryIndeed)[i].location.Some?
  {
  }

  /** The locations the examples use are passed on to the scraper. */
  lemma ArgumentFacts()
    ensures !IsBlank("UK") && LocationArgument("UK") == Some("UK")
    ensures LocationArgument("London") == Some("London")
    ensures LocationArgument("Manchester") == Some("Manchester")
  {
    StripTrimmed("UK");
    StripTrimmed("London");
    StripTrimmed("Manchester");
  }

  /** The default settings give one query, for Indeed and LinkedIn in the UK. */
  lemma PlanWithoutGlassdoor()
    ensures QueryPlan(["indeed", "linkedin"], "UK", "UK") == [Query(["indeed", "linkedin"], Some("UK"))]
  {
    NonGlassdoorSitesUnchanged(["indeed", "linkedin"]);
    ArgumentFacts();
  }

  lemma GlassdoorLocationUk()
    ensures GlassdoorLocation("UK", "UK") == "London"
  {
    ArgumentFacts();
    CountryLevelReflexive("UK");
    GlassdoorCityUk();
    assert GlassdoorCityForCountry("UK", "UK") == GlassdoorCityForCountry("UK", "");
  }

  /** A plan is the calls made for its parts. */
  lemma QueryPlanOfParts(sites: seq<string>, location: string, countryIndeed: string,
                         others: seq<string>, otherLocation: Option<string>, withGlassdoor: bool, glassdoorLocation: Option<string>)
    requires NonGlassdoorSites(sites) == others && LocationArgument(location) == otherLocation
    requires (Glassdoor in sites) == withGlassdoor
    requires LocationArgument(GlassdoorLocation(location, countryIndeed)) == glassdoorLocation
    ensures Glassdoor !in others
    ensures QueryPlan(sites, location, countryIndeed) == Calls(others, otherLocation, withGlassdoor, glassdoorLocation)
  {
  }

  /** The site lists the examples use, with Glassdoor taken out. */
  lemma SiteListFacts()
    ensures NonGlassdoorSites(["indeed", "glassdoor"]) == ["indeed"] && Glassdoor in ["indeed", "glassdoor"]
    ensures NonGlassdoorSites(["glassdoor"]) == [] && Glassdoor in ["glassdoor"]
  {
  }

  /** Glassdoor searched "in the UK" is searched in London instead. */
  lemma PlanWithGlassdoor()
    ensures QueryPlan(["indeed", "glassdoor"], "UK", "UK") ==
      [Query(["indeed"], Some("UK")), Query(["glassdoor"], Some("London"))]
  {
    SiteListFacts();
    ArgumentFacts();
    GlassdoorLocationUk();
    QueryPlanOfParts(["indeed", "glassdoor"], "UK", "UK", ["indeed"], Some("UK"), true, Some("London"));
  }

  lemma GlassdoorLocationManchester()
    ensures GlassdoorLocation("Manchester", "UK") == "Manchester"
  {
    CityWordFacts();
    assert "Manchester" == [] + "Manchester" + [];
    CollapseWord([], "Manchester", [], "manchester");
    AliasFacts();
    NormalizeNonAlias("Manchester", "manchester");
    NormalizeUk();
  }

  /** A city-level location is kept for Glassdoor. */
  lemma PlanGlassdoorCity()
    ensures QueryPlan(["glassdoor"], "Manchester", "UK") == [Query(["glassdoor"], Some("Manchester"))]
  {
    SiteListFacts();
    GlassdoorLocationManchester();
    ArgumentFacts();
    QueryPlanOfParts(["glassdoor"], "Manchester", "UK", [], LocationArgument("Manchester"), true, Some("Manchester"));
  }


  // ---------------------------------------------------------------------
  // Settings read by `main`
  // ---------------------------------------------------------------------

  datatype Config = Config(
    sites: seq<string>,
    searchTerm: string,
    location: string,
    resultsWanted: int,
    hoursOld: int,
    countryIndeed: string,
    linkedinFetchDescription: bool,
    isRemote: bool,
    termIndex: int,
    termTotal: int)

  /** `os.getenv(name)` over an environment given as a map. */
  function Lookup(env: map<string, string>, name: string): Option<string> {
    if name in env then Some(env[name]) else None
  }

  lemma DefaultsNotBlank()
    ensures !IsBlank("UK") && !IsBlank("web developer")
  {
    StripTrimmed("UK");
    StripTrimmed("web developer");
  }

  /**
   * The settings `main` reads, each with its default. Location and country
   * are never blank, because their defaults are not.
   */
  function ReadConfig(env: map<string, string>): (c: Config)
    ensures !IsBlank(c.location) && !IsBlank(c.countryIndeed) && !IsBlank(c.searchTerm)
    ensures forall i :: 0 <= i < |c.sites| ==> IsSiteEntry(c.sites[i])
  {
    DefaultsNotBlank();
    Config(
      sites := ParseSites(EnvStr(Lookup(env, "JOBSPY_SITES"), "indeed,linkedin")),
      searchTerm := EnvStr(Lookup(env, "JOBSPY_SEARCH_TERM"), "web developer"),
      location := EnvStr(Lookup(env, "JOBSPY_LOCATION"), "UK"),
      resultsWanted := EnvInt(Lookup(env, "JOBSPY_RESULTS_WANTED"), 200),
      hoursOld := EnvInt(Lookup(env, "JOBSPY_HOURS_OLD"), 72),
      countryIndeed := EnvStr(Lookup(env, "JOBSPY_COUNTRY_INDEED"), "UK"),
      linkedinFetchDescription := EnvBool(Lookup(env, "JOBSPY_LINKEDIN_FETCH_DESCRIPTION"), true),
      isRemote := EnvBool(Lookup(env, "JOBSPY_IS_REMOTE"), false),
      termIndex := EnvInt(Lookup(env, "JOBSPY_TERM_INDEX"), 1),
      termTotal := EnvInt(Lookup(env, "JOBSPY_TERM_TOTAL"), 1))
  }

  /** The queries `main` runs for an environment. */
  function MainQueries(env: map<string, string>): (r: seq<Query>)
    ensures forall i :: 0 <= i < |r| ==> r[i].location.Some?
  {
    var c := ReadConfig(env);
    PlanAlwaysPassesLocation(c.sites, c.location, c.countryIndeed);
    QueryPlan(c.sites, c.location, c.countryIndeed)
  }

  /** With nothing set, `main` searches Indeed and LinkedIn for web developers in the UK. */
  lemma DefaultConfig()
    ensures ReadConfig(map[]) == Config(["indeed", "linkedin"], "web developer", "UK", 200, 72, "UK", true, false, 1, 1)
    ensures MainQueries(map[]) == [Query(["indeed", "linkedin"], Some("UK"))]
  {
    ParseDefaultSites();
    PlanWithoutGlassdoor();
  }
}
