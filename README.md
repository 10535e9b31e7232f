# Semgrep gateway: request validation, settings and engine-output post-processing

This project models, in Dafny, the self-contained logic of a small HTTP
gateway in front of the Semgrep static-analysis engine:

- **Request models** (`app/models.py`, module `Models`): the severity
  enumeration `INFO | WARNING | ERROR`; the length and item-count bounds of
  `ScanRequest`, `BulkScanRequest` and `CustomRule`; and the three
  validators. `validate_language` lower-cases and whitelists the language.
  `validate_files` rejects the first file that lacks a key, has a blank
  filename or has content over 10 MiB. `validate_id` accepts ids made of
  letters, digits, `_`, `-` and `.`, with at least one letter or digit. Validation follows pydantic's order.
  A field's length or count constraint comes first. Only a field that passes
  it reaches its validator. Every field is checked, and the errors are
  collected in field order.
- **Settings** (`app/config.py`, module `Config`): the declared defaults of
  `Settings`, `DevelopmentConfig` and `ProductionConfig`, and `get_settings`,
  which picks one of them from the `ENVIRONMENT` variable.
- **Engine-output post-processing** (`app/services/semgrep_service.py`,
  module `SemgrepService`):
  - the rule list parsed from `semgrep --list-configs`, with its fixed
    23-entry fallback;
  - the custom-rule-file report built in a loop over the `rules/custom`
    listing;
  - the report of `test_rule_config`, with its create / finally-remove
    handling of the temporary file, including the file left behind when
    writing it raises.

Module `Text` models the Python `str` built-ins these use (`lower`,
`strip`, `split`, `isalnum`, `replace(c, '')`, `count`, `endswith`).
Module `Wrappers` holds `Option` (Python's `None`) and `Result` (a raised
`ValueError`).

Outside effects are parameters. A subprocess run is a `CommandOutcome` or
an `EngineRun`. A directory listing, with what `stat` and `open` give for
each name, is a `CustomDir`. The creation and removal of the temporary file
are a `TempFile` and an optional removal failure.

Three behaviours of the program worth knowing, all modelled as written:
- Bulk filenames need not be unique, and no path check is made on them
  (app/models.py:44-50).
- An unknown `CustomRule` severity is rejected by enum coercion; it is
  not mapped to another level (app/models.py:162).
- `get_available_rules` falls back to the fixed list without raising when
  the command fails or raises (app/services/semgrep_service.py:16-23).

## Model

| member | source | states |
|---|---|---|
| `Models.ParseSeverity` | app/models.py:6-9 | a string is accepted as a severity only if it is exactly `INFO`, `WARNING` or `ERROR`, and it gives the level with that value |
| `Models.SeverityRoundTrip` | app/models.py:6-9 | parsing a level's value gives the same level back, and no other level has that value |
| `Models.LengthErrors` | app/models.py:13-14 | a `min_length`/`max_length` constraint reports nothing exactly when the length is in bounds; otherwise it reports exactly one error for that field, too-short with the minimum when below it, too-long with the maximum when above it |
| `Models.OptionalLengthErrors` | app/models.py:16 | an optional string with `max_length` is accepted when absent or within the bound; otherwise its only error is too-long with the maximum |
| `Models.InFieldOrderAppend` | app/models.py:12-16 | appending one field's errors after errors of earlier-ranked fields keeps the list in field order |
| `Models.SupportedLanguagesAreLower` | app/models.py:20-23 | each of the 15 supported names is unchanged by lower-casing |
| `Models.ValidateLanguage` | app/models.py:18-26 | an accepted language gives a supported name equal to the input up to letter case; a rejection carries the original input |
| `Models.ValidateLanguageMatchesUpToCase` | app/models.py:18-26 | for each supported name, a language is accepted as that name exactly when it equals the name up to letter case |
| `Models.ValidateLanguageIdempotent` | app/models.py:24-26 | an accepted language's output validates to itself |
| `Models.ValidateLanguageCaseInsensitive` | app/models.py:24-26 | inputs that differ only in letter case are both accepted or both rejected, and are accepted as the same name |
| `Models.LanguageErrors` | app/models.py:14-26 | the language field reports too-short or too-long by its bounds, and only within them a `LanguageNotSupported` carrying the original input; at most one error |
| `Models.RulesErrors` | app/models.py:15 | `rules` reports too-many-items exactly when present with more than 50 items |
| `Models.ValidateScanRequest` | app/models.py:12-26 | a scan request is accepted iff code has 1..1000000 chars, language has 1..50 chars and is supported up to case, rules has at most 50 items and config at most 200 chars; the accepted request is the input with the language lower-cased; a rejection lists exactly the errors the fields call for (each broken bound, and an unsupported language of acceptable length with its original text), in field order code, language, rules, config |
| `Models.ScanRequestErrorsInOrder` | app/models.py:12-16 | one field's errors per segment, concatenated in declaration order, are in ScanRequest field order |
| `Models.ValidateScanRequestFixedPoints` | app/models.py:12-26 | the requests that validation returns unchanged are exactly those meeting every bound with an already supported lower-case language |
| `Models.ValidateScanRequestIdempotent` | app/models.py:12-26 | validating an accepted request again gives the same result |
| `Models.FileCheck` | app/models.py:45-50 | a file passes its checks exactly when it has both keys, a filename that is not all whitespace and content of at most 10*1024*1024 chars, at any position; a file missing a key gets the missing-keys error with its index; one with both keys and an all-whitespace filename gets the empty-filename error with its index; one with both keys, a non-blank filename and content over 10 MiB gets the too-large error carrying its filename |
| `Models.FileCheckIgnoresExtraKeys` | app/models.py:45-50 | keys other than `filename` and `content` do not change a file's check |
| `Models.FirstFileError` | app/models.py:44-50 | scanning from a position finds no error exactly when every later file passes; a reported error is that of a file all of whose predecessors passed |
| `Models.ValidateFiles` | app/models.py:43-51 | validate_files accepts exactly the lists whose every file is acceptable and returns the list unchanged; a rejection carries the error of a file all of whose predecessors are acceptable |
| `Models.FilesErrors` | app/models.py:39-51 | the files field reports too-few or too-many items by its bounds, and only within them the error validate_files gives; at most one error |
| `Models.ValidateBulkScanRequest` | app/models.py:38-51 | a bulk request is accepted iff it has 1..50 files, every file is acceptable and config has at most 200 chars, and it is returned unchanged; a rejection lists exactly the count error, or for a list of acceptable length the first failing file's error, and the config error when config is too long, in field order files, config |
| `Models.ValidateId` | app/models.py:164-168 | an id is accepted iff every char is a letter, digit, `_`, `-` or `.` and at least one is a letter or digit; it is returned unchanged; a rejection carries the id |
| `Models.IdRemainderAlnum` | app/models.py:166-167 | the id with `_`, `-` and `.` removed is non-empty and alphanumeric iff the id has only letters, digits and separators and at least one letter or digit |
| `Models.AlnumRemainder` | app/models.py:166 | any string holding exactly the non-separator characters of an id is non-empty and alphanumeric iff the id has only letters, digits and separators and at least one letter or digit |
| `Models.ValidateIdRejectsSeparatorsOnly` | app/models.py:166-167 | the id `-._`, made only of separators, is rejected |
| `Models.IdErrors` | app/models.py:158-168 | the id field reports too-short or too-long by its bounds, and only within them an `InvalidRuleId` carrying the id when validate_id rejects it; at most one error |
| `Models.SeverityOrDefault` | app/models.py:162 | an absent severity becomes INFO; a present one is accepted iff it is one of the three values, and gives the level with that value; otherwise its error carries the given text |
| `Models.ValidateCustomRule` | app/models.py:157-168 | a custom rule is accepted iff id has 1..100 chars and passes validate_id, pattern has 1..1000, language 1..50, message 1..500 chars and a given severity is one of the three values; fields are kept unchanged; an absent severity becomes INFO; a rejection lists exactly each broken length bound, `InvalidRuleId` for an id of acceptable length that validate_id rejects, and `InvalidSeverity` for an unknown severity, in field order id, pattern, language, message, severity |
| `Models.CustomRuleErrorsMembers` | app/models.py:157-168 | the five fields' errors together are exactly the errors the rule calls for |
| `Models.CustomRuleErrorsInOrder` | app/models.py:157-162 | one field's errors per segment, concatenated in declaration order, are in CustomRule field order |
| `Config.BaseSettings` | app/config.py:6-28 | the base defaults have debug and reload off at log level INFO, no API key, and file-size and file-count limits equal to the bulk validator's |
| `Config.DevelopmentSettings` | app/config.py:36-39 | the development settings are the base ones with debug and reload on at log level DEBUG, nothing else changed |
| `Config.ProductionSettings` | app/config.py:42-45 | the production settings are the base ones with debug and reload off at log level WARNING, nothing else changed |
| `Config.GetSettings` | app/config.py:48-56 | `production` gives debug and reload off and log level WARNING; `development` or unset gives both on and DEBUG; any other value gives both off and INFO; every result differs from the base defaults only in debug, reload and log level; the file-size and file-count limits equal the bulk validator's |
| `Config.UnsetEnvironmentIsDevelopment` | app/config.py:48-54 | an unset ENVIRONMENT selects the development settings |
| `Config.EnvironmentMatchIsCaseSensitive` | app/config.py:51-56 | `Production` selects the base settings, which differ from production's |
| `Config.SharedDefaults` | app/config.py:6-28 | every environment gets timeout 300, memory 4096, max file size 10 MiB, 50 files per request, host 0.0.0.0, port 8000, version 2.0.0 and no API key |
| `Config.VariantsDistinct` | app/config.py:36-45 | the base, development and production settings are pairwise different |
| `SemgrepService.FallbackRules` | app/services/semgrep_service.py:26-52 | the fallback list has 23 entries, starts with `auto`, has no duplicates, and every other entry starts with `p/` or `r/` |
| `SemgrepService.FallbackPacksWellFormed` | app/services/semgrep_service.py:30-46 | the 17 `p/` entries start with `p/` and are pairwise different |
| `SemgrepService.FallbackRegistryRulesWellFormed` | app/services/semgrep_service.py:47-51 | the 5 `r/` entries start with `r/` and are pairwise different |
| `SemgrepService.FallbackListWellFormed` | app/services/semgrep_service.py:28-52 | `auto` followed by the `p/` and `r/` entries is 23 entries long, starts with `auto`, and has no duplicates |
| `SemgrepService.NonBlankStripped` | app/services/semgrep_service.py:14 | the comprehension yields no more rules than there are lines |
| `SemgrepService.ParseConfigList` | app/services/semgrep_service.py:12-15 | every parsed rule is non-empty, stripped and free of line breaks; there are no more rules than lines; non-blank output yields at least one rule; the result equals that of splitting the unstripped output |
| `SemgrepService.NonBlankStrippedAppend` | app/services/semgrep_service.py:14 | the comprehension keeps line order: the result for concatenated lines is the concatenation of the results |
| `SemgrepService.NonBlankStrippedMembers` | app/services/semgrep_service.py:14 | a string is a parsed rule iff it is non-empty and is the stripped form of some line |
| `SemgrepService.ParsedRulesWellFormed` | app/services/semgrep_service.py:14 | every rule parsed from the lines of a text is non-empty, has no leading or trailing whitespace and no line break |
| `SemgrepService.NonBlankOutputYieldsRules` | app/services/semgrep_service.py:12-15 | output that is not all whitespace yields at least one rule |
| `SemgrepService.OuterStripRedundant` | app/services/semgrep_service.py:14 | stripping the whole output before splitting does not change the rule list |
| `SemgrepService.LeadingSpaceIrrelevant` | app/services/semgrep_service.py:14 | leading whitespace of the output does not change the rule list |
| `SemgrepService.TrailingSpaceIrrelevant` | app/services/semgrep_service.py:14 | trailing whitespace of the output does not change the rule list |
| `SemgrepService.TrailingNewlineIrrelevant` | app/services/semgrep_service.py:14 | a trailing line break does not change the rule list |
| `SemgrepService.TrailingBlankIrrelevant` | app/services/semgrep_service.py:14 | a trailing whitespace character other than a line break does not change the rule list |
| `SemgrepService.AvailableRules` | app/services/semgrep_service.py:3-23 | return code 0 with non-blank output gives the parsed list; a nonzero code, blank output or a raised exception gives exactly the fallback list; the result is never empty |
| `SemgrepService.GetCustomRulesInfo` | app/services/semgrep_service.py:102-143 | the loop builds exactly the report of the listing; a missing or unlistable directory gives the empty list |
| `SemgrepService.CustomRulesAppend` | app/services/semgrep_service.py:111-135 | the report keeps listing order: it distributes over concatenation of listings |
| `SemgrepService.CustomRulesOf` | app/services/semgrep_service.py:111-138 | an entry is in the report of a listing iff it describes a `.yml`/`.yaml` file whose stat succeeded; the report is no longer than the listing |
| `SemgrepService.DescribesReportedSnoc` | app/services/semgrep_service.py:111-135 | the last entry of a listing adds at most its own description to those of the entries before it |
| `SemgrepService.CustomRulesInfo` | app/services/semgrep_service.py:102-143 | every reported file ends in `.yml` or `.yaml` and has path `rules/custom/` + filename; a missing or unlistable directory gives no entries; a listed one reports exactly its YAML files whose stat succeeded |
| `SemgrepService.RulePatternNoSelfOverlap` | app/services/semgrep_service.py:125 | no proper suffix of `- id:` is also a prefix of it, so two occurrences can never overlap |
| `SemgrepService.RuleCount` | app/services/semgrep_service.py:120-127 | a readable file's rule count equals the number of positions where `- id:` occurs, is 0 iff it occurs nowhere, and fits in the content; an unreadable file counts 0 |
| `SemgrepService.TestRuleConfig` | app/services/semgrep_service.py:55-99 | status is working iff the temp file was created and written, the engine ran and the removal succeeded; then has_findings iff findings_count > 0; otherwise the error is the exception that escaped; the config is always echoed; the file is removed iff it was written and its removal did not fail; it is left behind iff writing it raised or its removal failed |
| `Text.LowerChar` | app/models.py:24 | lower-casing a char yields no upper-case letter, shifts A-Z by 32 and leaves everything else |
| `Text.Lower` | app/models.py:24 | lower-casing keeps the length and lower-cases char by char |
| `Text.LowerIdempotent` | app/models.py:24-26 | lower-casing twice is lower-casing once |
| `Text.LowerHasNoUpper` | app/models.py:26 | a lower-cased string has no upper-case letter |
| `Text.LowerOfNoUpper` | app/models.py:24-26 | a string with no upper-case letter is its own lower-cased form |
| `Text.LowerCaseInsensitive` | app/models.py:24 | strings equal up to letter case lower-case to the same string |
| `Text.StripInfix` | app/services/semgrep_service.py:14 | the stripped string is an infix between a whitespace prefix and a whitespace suffix, with no whitespace at either end |
| `Text.Strip` | app/services/semgrep_service.py:14 | the stripped string has no whitespace at either end, introduces no character, and is empty iff the input is all whitespace |
| `Text.StripFacts` | app/models.py:47 | the same three facts about stripping, proved from the infix decomposition |
| `Text.StripDropsLeadingSpace` | app/services/semgrep_service.py:14 | a leading whitespace character does not change the stripped form |
| `Text.StripDropsTrailingSpace` | app/services/semgrep_service.py:14 | a trailing whitespace character does not change the stripped form |
| `Text.StripIdempotent` | app/services/semgrep_service.py:14 | stripping twice is stripping once |
| `Text.Split` | app/services/semgrep_service.py:14 | `split` always gives at least one piece |
| `Text.SplitPiecesFree` | app/services/semgrep_service.py:14 | no piece of a split contains the separator |
| `Text.SplitJoin` | app/services/semgrep_service.py:14 | joining the pieces with the separator gives back the split string |
| `Text.SplitAppendSeparator` | app/services/semgrep_service.py:14 | appending the separator adds one empty last piece |
| `Text.SplitAppendOther` | app/services/semgrep_service.py:14 | appending another character extends the last piece and keeps the others |
| `Text.RemoveAll` | app/models.py:166 | the set of characters left by `replace(c, '')` is exactly those of the input other than `c` |
| `Text.CountZeroIff` | app/services/semgrep_service.py:125 | `count` is zero iff the pattern occurs at no position |
| `Text.Count` | app/services/semgrep_service.py:125 | the counted occurrences do not overlap: count times pattern length is at most the length |
| `Text.CountIsOccurrences` | app/services/semgrep_service.py:125 | for a pattern that cannot overlap itself, `count` equals the number of positions where the pattern occurs |

## Left out

- `app/main.py` is not part of this model. It holds the FastAPI route handlers. They list and read files, parse YAML and return mostly fixed dictionaries.
- Running subprocesses (`_run_command`, `_run_semgrep`, the thread-pool executor and `asyncio`) is left out. Their outcomes are parameters: `CommandOutcome` and `EngineRun`.
- `scan_code`, `_run_semgrep` and `_run_command` are called but not defined in the files modelled. Workspace handling, timeouts, memory ceilings and the concurrency bound are therefore not modelled.
- Filesystem calls (`os.path.exists`, `os.listdir`, `os.stat`, `open`, `tempfile.NamedTemporaryFile`, `os.unlink`) are left out. Their results are parameters (`CustomDir`, `DirEntry`, `TempFile`, a removal failure).
- The fixed Python snippet that `test_rule_config` writes to the temporary file is left out. The engine's result on it is a parameter.
- Floating-point and wall-clock values (`st_mtime`, `execution_time`, `timestamp`, `uptime`) are left out.
- Loading settings from environment variables and `.env` files (pydantic_settings) is left out. Only the declared defaults and the `ENVIRONMENT` dispatch are modelled.
- Logging (`logger.warning`, `logger.error`, including the `stderr` text) is left out, because it has no effect on results.
- Error message texts are left out. Errors are datatype values carrying the same data: the field, the bound, the index or filename, and the rejected value. The order in which the supported-language set is printed is not modelled.
- Pydantic's type coercion (non-string values in a file object, non-list `rules`) is left out. Inputs already have the declared types.
- `Text.Lower`, `Text.Strip`, `Text.IsAlnum` and `Text.IsSpace`: ASCII only. Python's versions are Unicode-aware, so non-ASCII letters, digits and spaces are not treated as such.
- `Text.Count`: requires a non-empty pattern. Python's `count('')` returns length + 1, but the source only counts `- id:`.
- `Text.RemoveAll`: states only which characters are left, not their order or count. Only their membership is used, by `validate_id`'s `isalnum()`.
