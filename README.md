# JobSpy extractor configuration, in Dafny

A model of the configuration and location logic of the JobSpy job-board
extractor in job-ops (`extractors/jobspy/scrape_jobs.py`), with proofs of
its properties. The extractor reads its settings from environment
variables: the sites, search term, location, Indeed country, result and age
limits, and flags. It parses the comma-separated site list and runs the
scraper once, for all the sites other than Glassdoor together, when there
are any. Then, when Glassdoor is configured, it runs the scraper once more
for Glassdoor alone. If the
location names only the country, that Glassdoor run uses the city
`GLASSDOOR_COUNTRY_TO_CITY` lists for that country, when it lists one, and
keeps the location otherwise.

Files:

- `wrappers.dfy`: module `Wrappers`, the `Option` type for Python's `X | None`.
- `text.dfy`: module `Text`, the Python `str` operations the extractor uses.
  These are `isspace`, `strip`, `lower`, `split(sep)`, `split()`, `" ".join`
  and base-10 `int()`, stated over Dafny strings.
- `scrape_jobs.dfy`: module `ScrapeJobs`, which holds:
  - the alias and city tables;
  - `_env_str`, `_env_int` and `_env_bool`;
  - `_parse_sites`, `_normalize_country_token`, `_is_country_level_location`
    and `_glassdoor_city_for_country`;
  - the rule that passes `location` to the scraper only when it is not blank;
  - the calls `main` makes, as a pure function from the settings to a list
    of queries.

An environment value is a parameter of type `Option<string>`. `None` stands
for an unset variable. `ReadConfig` takes the whole environment as a
`map<string, string>`.

## Model

| member | source | states |
|---|---|---|
| Text.IsSpace | extractors/jobspy/scrape_jobs.py:45 | space, tab, newline and carriage return are whitespace, and no whitespace character is a digit, a comma, an underscore, a sign, or changed by lower-casing |
| Text.IsBlank | extractors/jobspy/scrape_jobs.py:45 | `not s.strip()` holds exactly when every character of `s` is whitespace, or there are none |
| Text.Strip | extractors/jobspy/scrape_jobs.py:45 | `strip()` returns a string with no whitespace at either end, made only of characters of the input, and empty exactly when the input is all whitespace |
| Text.StripPadded | extractors/jobspy/scrape_jobs.py:62 | `strip()` removes exactly the whitespace around a non-blank core and keeps the core |
| Text.StripParts | extractors/jobspy/scrape_jobs.py:45 | every string is the whitespace `strip()` removes at the front, then the stripped string, then the whitespace it removes at the end |
| Text.StripIdempotent | extractors/jobspy/scrape_jobs.py:71 | stripping twice is the same as stripping once, so an entry that is already stripped stays as it is |
| Text.Lower | extractors/jobspy/scrape_jobs.py:62 | the model's `lower()`, which maps ASCII and Latin-1 capitals to their small letters one for one: the result has the input's length, has whitespace exactly where the input has it, has no ASCII or Latin-1 capital left, and equals the input when the input has none |
| Text.Split | extractors/jobspy/scrape_jobs.py:71 | `split(",")` always returns at least one piece, and no piece contains the separator |
| Text.Join | extractors/jobspy/scrape_jobs.py:75 | `sep.join(parts)` starts with the first part |
| Text.JoinAppend | extractors/jobspy/scrape_jobs.py:75 | joining two non-empty lists one after the other puts one separator between their joins |
| Text.JoinSplit | extractors/jobspy/scrape_jobs.py:71 | joining the pieces of `split(sep)` with `sep` gives back the original string |
| Text.SplitJoin | extractors/jobspy/scrape_jobs.py:71 | `split(sep)` undoes `sep.join(parts)` when no part contains the separator |
| Text.SplitAppend | extractors/jobspy/scrape_jobs.py:71 | splitting `a + sep + b` gives the pieces of `a` followed by the pieces of `b` |
| Text.Words | extractors/jobspy/scrape_jobs.py:75 | `split()` returns non-empty words with no whitespace in them, and no words at all exactly when the input is all whitespace |
| Text.WordsAroundSpace | extractors/jobspy/scrape_jobs.py:75 | a non-empty run of whitespace separates words: the words of `a + ws + b` are those of `a`, then those of `b` |
| Text.WordsSingle | extractors/jobspy/scrape_jobs.py:75 | a non-empty string with no whitespace is a single word, itself |
| Text.WordsPadded | extractors/jobspy/scrape_jobs.py:75 | whitespace around a string adds no word |
| Text.Collapse | extractors/jobspy/scrape_jobs.py:75 | `" ".join(s.split())` has whitespace only as single spaces between two words, and is empty exactly when `s` is all whitespace |
| Text.JoinWordsCollapsed | extractors/jobspy/scrape_jobs.py:75 | a collapsed string is its own words joined by single spaces |
| Text.CollapsePadded | extractors/jobspy/scrape_jobs.py:75 | whitespace around a string does not change its collapsed form |
| Text.CollapseAroundSpace | extractors/jobspy/scrape_jobs.py:75 | for two non-blank strings, any non-empty run of whitespace between them collapses to one space |
| Text.CollapseLowerStrip | extractors/jobspy/scrape_jobs.py:75 | stripping before lower-casing and collapsing changes nothing |
| Text.CollapseLowerAroundSpace | extractors/jobspy/scrape_jobs.py:75 | lower-casing then collapsing two non-blank strings with whitespace between them gives their forms joined by one space |
| Text.CollapseCollapsed | extractors/jobspy/scrape_jobs.py:75 | collapsing an already collapsed string changes nothing |
| Text.ParseInt | extractors/jobspy/scrape_jobs.py:53 | `int(s)` can only succeed on a string that is not blank and holds no information separator (U+001C to U+001F): `strip()` removes those, but `int()` does not skip them |
| Text.ParseDigits | extractors/jobspy/scrape_jobs.py:53 | a string of ASCII digits reads as the number it spells when it has at most 4300 digits, and is rejected when it has more |
| Text.ParseNegativeDigits | extractors/jobspy/scrape_jobs.py:53 | a minus sign followed by ASCII digits reads as the negated number when there are at most 4300 digits, and is rejected otherwise |
| Text.ParseIntToString | extractors/jobspy/scrape_jobs.py:53 | `int(str(n)) == n` for every integer `n` whose decimal form has at most 4300 digits, negative ones included; with more digits `int()` rejects the string |
| Text.ParseIntStrip | extractors/jobspy/scrape_jobs.py:50-53 | `int()` ignores whitespace around the number when no information separator is present, and rejects any string that holds one |
| ScrapeJobs.EnvStr | extractors/jobspy/scrape_jobs.py:43-45 | returns the value, unstripped, when it is set and not blank, and the default otherwise; a non-blank default always gives a non-blank result |
| ScrapeJobs.EnvInt | extractors/jobspy/scrape_jobs.py:48-55 | returns the default when the value is unset, blank or not an integer, and the parsed integer otherwise |
| ScrapeJobs.EnvIntRoundTrip | extractors/jobspy/scrape_jobs.py:48-55 | a variable set to `str(n)` reads back as `n`, whatever the default, when `str(n)` has at most 4300 digits; a longer one gives the default |
| ScrapeJobs.EnvIntInformationSeparator | extractors/jobspy/scrape_jobs.py:49-55 | `"\x1c5"` is not blank, but `int()` rejects it, so it gives the default |
| ScrapeJobs.EnvBool | extractors/jobspy/scrape_jobs.py:58-62 | returns the default when the value is unset or blank; otherwise returns true exactly when the stripped, lower-cased value is `1`, `true`, `yes`, `y` or `on` |
| ScrapeJobs.EnvBoolIgnoresDefault | extractors/jobspy/scrape_jobs.py:58-62 | for a set, non-blank value the default makes no difference |
| ScrapeJobs.EnvBoolPaddedYes | extractors/jobspy/scrape_jobs.py:62 | `" Yes "` reads as true: case and surrounding whitespace are ignored |
| ScrapeJobs.EnvBoolUpperOn | extractors/jobspy/scrape_jobs.py:62 | `"ON"` reads as true |
| ScrapeJobs.EnvBoolOtherWord | extractors/jobspy/scrape_jobs.py:62 | any other word, such as `"enabled"`, reads as false, even when the default is true |
| ScrapeJobs.EnvBoolBlank | extractors/jobspy/scrape_jobs.py:60-61 | a whitespace-only value counts as unset, the same as a missing one |
| ScrapeJobs.ParseSites | extractors/jobspy/scrape_jobs.py:70-71 | every parsed site is non-empty, contains no comma and has no whitespace at either end |
| ScrapeJobs.ParseSitesPiece | extractors/jobspy/scrape_jobs.py:70-71 | a value without a comma names no site when it is blank, and otherwise exactly one: the value stripped |
| ScrapeJobs.ParseSitesSpaceAfterComma | extractors/jobspy/scrape_jobs.py:70-71 | `"indeed, linkedin"` names `"indeed"` and `"linkedin"`: the space after the comma is stripped |
| ScrapeJobs.ParseSitesAppend | extractors/jobspy/scrape_jobs.py:70-71 | sites keep their input order: the sites before a comma come first, then those after it |
| ScrapeJobs.ParseSitesJoin | extractors/jobspy/scrape_jobs.py:70-71 | joining valid site entries with commas and parsing the result gives the same entries back |
| ScrapeJobs.ParseSitesRoundTrip | extractors/jobspy/scrape_jobs.py:70-71 | joining the parsed sites with `","` and parsing again gives the same list |
| ScrapeJobs.ParseSitesEmpty | extractors/jobspy/scrape_jobs.py:70-71 | the parse is empty exactly when the input holds nothing but commas and whitespace |
| ScrapeJobs.ParseBlankSites | extractors/jobspy/scrape_jobs.py:70-71 | `" , ,"` names no site |
| ScrapeJobs.ParseDefaultSites | extractors/jobspy/scrape_jobs.py:116 | the default `"indeed,linkedin"` names Indeed and then LinkedIn |
| ScrapeJobs.AliasTargetsStable | extractors/jobspy/scrape_jobs.py:10-18 | every alias target is a non-empty normalised token, and is either not an alias or an alias of itself |
| ScrapeJobs.CollapseCountry | extractors/jobspy/scrape_jobs.py:75 | the stripped, lower-cased and collapsed form is a lower-case token with single spaces between words, and is empty exactly when the input is blank |
| ScrapeJobs.CollapseCountryLower | extractors/jobspy/scrape_jobs.py:75 | stripping first makes no difference: the form is the lower-cased value collapsed |
| ScrapeJobs.CollapseCountryAroundSpace | extractors/jobspy/scrape_jobs.py:75 | for two non-blank names, any run of whitespace between them becomes one space in the collapsed form |
| ScrapeJobs.CollapseUnitedTabKingdom | extractors/jobspy/scrape_jobs.py:75 | `"United \t Kingdom"` collapses to `"united kingdom"` |
| ScrapeJobs.CollapseCountryToken | extractors/jobspy/scrape_jobs.py:75 | a string that is already a normalised token is left as it is |
| ScrapeJobs.NormalizeCountryToken | extractors/jobspy/scrape_jobs.py:74-76 | the normalised country is a lower-case token with single spaces between words, and is empty exactly when the input is blank |
| ScrapeJobs.NormalizeIdempotent | extractors/jobspy/scrape_jobs.py:74-76 | normalising twice is the same as normalising once |
| ScrapeJobs.NormalizeToken | extractors/jobspy/scrape_jobs.py:74-76 | a token that is not an alias normalises to itself |
| ScrapeJobs.NormalizeAlias | extractors/jobspy/scrape_jobs.py:76 | a value whose collapsed form is an alias normalises to that alias's canonical name |
| ScrapeJobs.NormalizeNonAlias | extractors/jobspy/scrape_jobs.py:76 | a value whose collapsed form is not an alias normalises to that collapsed form |
| ScrapeJobs.NormalizeUk | extractors/jobspy/scrape_jobs.py:74-76 | `"UK"` normalises to `"united kingdom"` |
| ScrapeJobs.NormalizePaddedUsa | extractors/jobspy/scrape_jobs.py:74-76 | `"  USA "` normalises to `"united states"` |
| ScrapeJobs.NormalizeUnitedTabKingdom | extractors/jobspy/scrape_jobs.py:74-76 | `"United \t Kingdom"` normalises to `"united kingdom"` |
| ScrapeJobs.NormalizeTurkiye | extractors/jobspy/scrape_jobs.py:74-76 | `"TÜRKIYE"` normalises to `"turkey"`, because lower-casing covers the non-ASCII letter in the alias table |
| ScrapeJobs.NormalizeLondon | extractors/jobspy/scrape_jobs.py:74-76 | a name that is not an alias, such as `"London"`, is only lower-cased |
| ScrapeJobs.IsCountryLevelLocation | extractors/jobspy/scrape_jobs.py:79-82 | a location is country-level exactly when it and the country normalise to the same non-empty token, so blank arguments are never country-level |
| ScrapeJobs.CountryLevelSymmetric | extractors/jobspy/scrape_jobs.py:79-82 | the test gives the same answer with its two arguments swapped |
| ScrapeJobs.CountryLevelTransitive | extractors/jobspy/scrape_jobs.py:79-82 | the test is transitive |
| ScrapeJobs.CountryLevelReflexive | extractors/jobspy/scrape_jobs.py:79-82 | a location is country-level against itself exactly when it is not blank |
| ScrapeJobs.CountryLevelUk | extractors/jobspy/scrape_jobs.py:79-82 | `"UK"` is country-level against `"united kingdom"` |
| ScrapeJobs.CountryLevelWithTab | extractors/jobspy/scrape_jobs.py:79-82 | `"United \t Kingdom"` is country-level against `"UK"`: the whitespace run and the case do not matter |
| ScrapeJobs.CityNotCountryLevel | extractors/jobspy/scrape_jobs.py:79-82 | `"London"` is not country-level against `"UK"` |
| ScrapeJobs.CityKeysAreTokens | extractors/jobspy/scrape_jobs.py:19-40 | every key of the city table is a normalised token |
| ScrapeJobs.CityKeysNotAliased | extractors/jobspy/scrape_jobs.py:10-40 | no key of the city table is an alias of another name |
| ScrapeJobs.CitiesNonBlank | extractors/jobspy/scrape_jobs.py:19-40 | every city in the table is non-blank, so a city that is found always counts as truthy |
| ScrapeJobs.GlassdoorCityForCountry | extractors/jobspy/scrape_jobs.py:85-87 | a city is found exactly when the normalised country is a key of the table. The country used is `country_indeed` when it is non-empty, even if it is only whitespace, and `location` otherwise. A city that is found is a non-blank value of the table |
| ScrapeJobs.NormalizeCityKey | extractors/jobspy/scrape_jobs.py:19-40 | every key of the city table is non-empty and normalises to itself |
| ScrapeJobs.GlassdoorCityFound | extractors/jobspy/scrape_jobs.py:85-87 | the lookup returns the city of the token that the chosen name normalises to |
| ScrapeJobs.GlassdoorCityOfKey | extractors/jobspy/scrape_jobs.py:85-87 | naming a country by its table key finds that country's city |
| ScrapeJobs.GlassdoorCityUk | extractors/jobspy/scrape_jobs.py:85-87 | `"UK"` finds `"London"` |
| ScrapeJobs.GlassdoorCityUsa | extractors/jobspy/scrape_jobs.py:85-87 | `"usa"` finds `"New York"`, whatever the location |
| ScrapeJobs.GlassdoorCityFromLocation | extractors/jobspy/scrape_jobs.py:86 | an empty country falls back to the location, so `"germany"` finds `"Berlin"` |
| ScrapeJobs.GlassdoorCityBlankCountry | extractors/jobspy/scrape_jobs.py:86 | a whitespace-only country is still used instead of the location, and finds no city |
| ScrapeJobs.LocationArgument | extractors/jobspy/scrape_jobs.py:110-111 | the `location` keyword is passed exactly when the location is not blank, and then unchanged |
| ScrapeJobs.NonGlassdoorSites | extractors/jobspy/scrape_jobs.py:145 | the list without Glassdoor never contains Glassdoor and keeps every other site as many times as it was configured |
| ScrapeJobs.NonGlassdoorSitesMembers | extractors/jobspy/scrape_jobs.py:145 | a site survives exactly when it was configured and is not Glassdoor |
| ScrapeJobs.NonGlassdoorSitesAppend | extractors/jobspy/scrape_jobs.py:145 | removing Glassdoor keeps the order of the other sites |
| ScrapeJobs.NonGlassdoorSitesUnchanged | extractors/jobspy/scrape_jobs.py:145 | a list without Glassdoor is kept exactly as it is |
| ScrapeJobs.GlassdoorLocation | extractors/jobspy/scrape_jobs.py:161-167 | Glassdoor gets the table's city when the location is country-level and the country has a city, and the configured location otherwise; a non-blank location always gives a non-blank result |
| ScrapeJobs.GlassdoorLocationUk | extractors/jobspy/scrape_jobs.py:161-167 | a Glassdoor search in `"UK"` with country `"UK"` is made in `"London"` |
| ScrapeJobs.GlassdoorLocationManchester | extractors/jobspy/scrape_jobs.py:161-167 | a city-level location such as `"Manchester"` is kept for Glassdoor |
| ScrapeJobs.Calls | extractors/jobspy/scrape_jobs.py:147-187 | there are at most two calls and none of them has an empty site list. No site is searched by two calls. A call that includes Glassdoor is the last one and searches Glassdoor alone; any other call is the first one and searches the other sites |
| ScrapeJobs.CallsSites | extractors/jobspy/scrape_jobs.py:147-187 | the calls search the other sites in their order, then Glassdoor when it is included |
| ScrapeJobs.QueryPlan | extractors/jobspy/scrape_jobs.py:144-187 | `main` makes at most two calls, and none of them has an empty site list. No site is searched by two calls. Any call for the other sites comes first and uses the configured location. The Glassdoor call comes last, searches Glassdoor alone and uses the Glassdoor location |
| ScrapeJobs.QueryPlanOfParts | extractors/jobspy/scrape_jobs.py:144-187 | the plan is the calls made for its parts: the other sites, their location, whether Glassdoor is configured, and the Glassdoor location |
| ScrapeJobs.QueryPlanSites | extractors/jobspy/scrape_jobs.py:145-187 | the calls search the configured sites other than Glassdoor, in their order and with their repetitions, then Glassdoor exactly when it is configured |
| ScrapeJobs.QueryPlanCovers | extractors/jobspy/scrape_jobs.py:145-187 | every configured site is searched, and no site that is not configured is searched |
| ScrapeJobs.QueryPlanCounts | extractors/jobspy/scrape_jobs.py:145-187 | each site is searched as many times as it is configured, except Glassdoor, which is searched once however many times it is listed |
| ScrapeJobs.PlanAlwaysPassesLocation | extractors/jobspy/scrape_jobs.py:147-187 | with a non-blank location every call passes a `location` keyword |
| ScrapeJobs.PlanWithoutGlassdoor | extractors/jobspy/scrape_jobs.py:145-159 | Indeed and LinkedIn in `"UK"` make one call for both sites, with location `"UK"` |
| ScrapeJobs.PlanWithGlassdoor | extractors/jobspy/scrape_jobs.py:145-187 | Indeed and Glassdoor in `"UK"` make a call for Indeed in `"UK"`, then one for Glassdoor in `"London"` |
| ScrapeJobs.PlanGlassdoorCity | extractors/jobspy/scrape_jobs.py:161-187 | Glassdoor alone in `"Manchester"` makes one call, with location `"Manchester"` |
| ScrapeJobs.ReadConfig | extractors/jobspy/scrape_jobs.py:116-125 | every parsed site is a valid entry, and the search term, location and Indeed country are never blank, because their defaults are not |
| ScrapeJobs.MainQueries | extractors/jobspy/scrape_jobs.py:115-187 | every call `main` makes passes a `location` keyword |
| ScrapeJobs.DefaultConfig | extractors/jobspy/scrape_jobs.py:116-125 | with no variable set, the settings are sites Indeed and LinkedIn, `"web developer"`, location `"UK"`, 200 results, 72 hours, country `"UK"`, LinkedIn descriptions on, remote off, and term 1 of 1; `main` then makes one call, for Indeed and LinkedIn in `"UK"` |

## Left out

- `resume-generator/rxresume_automation.py`: browser automation against a remote site, with no logic of its own to model.
- The call into `jobspy.scrape_jobs` (`extractors/jobspy/scrape_jobs.py:112`): the model stops at the calls that would be made, with their sites and `location` keyword. The other keyword arguments come unchanged from the settings.
- Combining the result frames with pandas, the job count, and writing CSV and JSON. This also covers the output paths (`JOBSPY_OUTPUT_CSV`, `JOBSPY_OUTPUT_JSON` and its `.json` default), which only feed that I/O, and the creation of their directories.
- `print` and `_emit_progress` (progress lines on standard output), including the two Glassdoor fallback messages.
- `os.getenv`: the value of a variable is a parameter, and `ReadConfig` takes the environment as a map.
- Text.Lower: lower-cases only ASCII and Latin-1 capitals and keeps every other character unchanged, one character for one. Python's `lower()` covers all of Unicode and can change the length (`'\u0130'.lower()` has two characters). A few characters outside Latin-1 lower-case in Python into letters the alias and city tables use: U+212A KELVIN SIGN becomes `k`, so the program normalises `"U\u212A"` to `"united kingdom"` and treats it as country-level against `"UK"`, while the model keeps it as `"u\u212A"`, which matches no key.
- Text.IsSpace: the whitespace set of Python's `str.isspace`. Characters whose Unicode class changed between versions are not tracked.
- Text.ParseInt: accepts ASCII digits only. Python's `int()` also accepts other Unicode decimal digits.
- Text.ParseUnsigned: the 4300-digit limit is the default of CPython since 3.11 and the 3.7.14, 3.8.14, 3.9.14 and 3.10.7 security releases; earlier releases have no limit. It can be changed with `PYTHONINTMAXSTRDIGITS` or `sys.set_int_max_str_digits`. The model fixes it at 4300. Underscores between digits do not count toward it.
- Text.IntToString: writes every integer, whereas `str()` raises an error past 4300 digits. It is used only to state the round trip through `int()`.
- The `if __name__ == "__main__"` entry point and the process exit code.
