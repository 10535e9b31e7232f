/**
 * Request models of the gateway (app/models.py): the severity enumeration,
 * the field bounds of ScanRequest, BulkScanRequest and CustomRule, and the
 * three validators validate_language, validate_files and validate_id.
 *
 * Validation follows pydantic's order: a field's length or item-count
 * constraint is checked first, and only a field that passes it reaches its
 * validator; every field is checked and the errors are collected in field
 * declaration order.
 */
module Models {
  import opened Wrappers
  import opened Text

  // ---------------------------------------------------------------- severity

  datatype SeverityLevel = Info | Warning | Error

  /** The enumeration's string value. */
  function SeverityValue(level: SeverityLevel): string {
    match level
    case Info => "INFO"
    case Warning => "WARNING"
    case Error => "ERROR"
  }

  /** Coercion of a JSON string to the enumeration: exact, case-sensitive. */
  function ParseSeverity(s: string): (r: Option<SeverityLevel>)
    ensures r.Some? ==> SeverityValue(r.value) == s
    ensures r.None? ==> s !in {"INFO", "WARNING", "ERROR"}
  {
    if s == "INFO" then Some(Info)
    else if s == "WARNING" then Some(Warning)
    else if s == "ERROR" then Some(Error)
    else None
  }

  /** Parsing a level's value gives the level back, and the values are pairwise distinct. */
  lemma SeverityRoundTrip(level: SeverityLevel)
    ensures ParseSeverity(SeverityValue(level)) == Some(level)
    ensures forall other :: SeverityValue(other) == SeverityValue(level) ==> other == level
  {
  }

  // ---------------------------------------------------------------- errors

  datatype FieldName =
    | CodeField | LanguageField | RulesField | ConfigField
    | FilesField | IdField | PatternField | MessageField | SeverityField

  datatype FieldError =
    | StrTooShort(field: FieldName, minLength: nat)
    | StrTooLong(field: FieldName, maxLength: nat)
    | TooFewItems(field: FieldName, minItems: nat)
    | TooManyItems(field: FieldName, maxItems: nat)
    | LanguageNotSupported(given: string)
    | FileMissingKeys(index: nat)
    | FileEmptyFilename(index: nat)
    | FileContentTooLarge(filename: string)
    | InvalidRuleId(given: string)
    | InvalidSeverity(given: string)

  /** The field an error is reported under. */
  function ErrorField(e: FieldError): FieldName {
    match e
    case StrTooShort(f, _) => f
    case StrTooLong(f, _) => f
    case TooFewItems(f, _) => f
    case TooManyItems(f, _) => f
    case LanguageNotSupported(_) => LanguageField
    case FileMissingKeys(_) => FilesField
    case FileEmptyFilename(_) => FilesField
    case FileContentTooLarge(_) => FilesField
    case InvalidRuleId(_) => IdField
    case InvalidSeverity(_) => SeverityField
  }

  /** At most one error, reported under `field`: what one field contributes. */
  predicate OneFieldErrors(errs: seq<FieldError>, field: FieldName) {
    |errs| <= 1 && forall i :: 0 <= i < |errs| ==> ErrorField(errs[i]) == field
  }

  /** The errors come in the order `rank` gives their fields, at most one per field. */
  predicate InFieldOrder(errs: seq<FieldError>, rank: FieldName -> nat) {
    forall i, j :: 0 <= i < j < |errs| ==> rank(ErrorField(errs[i])) < rank(ErrorField(errs[j]))
  }

  /** Appending the errors of a field ranked after every field already
      reported keeps the list in field order. */
  lemma InFieldOrderAppend(a: seq<FieldError>, b: seq<FieldError>, field: FieldName, rank: FieldName -> nat)
    requires InFieldOrder(a, rank) && OneFieldErrors(b, field)
    requires forall i :: 0 <= i < |a| ==> rank(ErrorField(a[i])) < rank(field)
    ensures InFieldOrder(a + b, rank)
    ensures forall i :: 0 <= i < |a + b| ==> rank(ErrorField((a + b)[i])) <= rank(field)
  {
    forall i, j | 0 <= i < j < |a + b|
      ensures rank(ErrorField((a + b)[i])) < rank(ErrorField((a + b)[j]))
    {
      if j >= |a| {
        assert (a + b)[j] == b[j - |a|];
        assert (a + b)[i] == a[i];
      }
    }
  }

  /** `Field(min_length=lo, max_length=hi)` on a string field: too short is
      reported first, with the minimum; too long with the maximum. */
  function LengthErrors(field: FieldName, s: string, lo: nat, hi: nat): (errs: seq<FieldError>)
    ensures errs == [] <==> lo <= |s| <= hi
    ensures |errs| <= 1
    ensures forall e :: e in errs <==>
      (e == StrTooShort(field, lo) && |s| < lo) || (e == StrTooLong(field, hi) && lo <= |s| && hi < |s|)
    ensures OneFieldErrors(errs, field)
  {
    if |s| < lo then [StrTooShort(field, lo)]
    else if |s| > hi then [StrTooLong(field, hi)]
    else []
  }

  /** `Field(None, max_length=hi)` on an optional string field. */
  function OptionalLengthErrors(field: FieldName, s: Option<string>, hi: nat): (errs: seq<FieldError>)
    ensures errs == [] <==> (s.Some? ==> |s.value| <= hi)
    ensures forall e :: e in errs <==> s.Some? && e == StrTooLong(field, hi) && hi < |s.value|
    ensures OneFieldErrors(errs, field)
  {
    if s.Some? then LengthErrors(field, s.value, 0, hi) else []
  }

  // ---------------------------------------------------------------- ScanRequest

  const MaxCodeLength: nat := 1000000
  const MaxLanguageLength: nat := 50
  const MaxRules: nat := 50
  const MaxConfigLength: nat := 200

  const SupportedLanguages: set<string> := {
    "python", "javascript", "typescript", "java", "go", "php",
    "ruby", "c", "cpp", "csharp", "kotlin", "rust", "scala", "swift", "auto"
  }

  lemma SupportedLanguagesHaveNoUpper(name: string)
    requires name in SupportedLanguages
    ensures NoUpper(name)
  {
  }

  /** Every supported language name is already in lower case. */
  lemma SupportedLanguagesAreLower(name: string)
    requires name in SupportedLanguages
    ensures Lower(name) == name
  {
    SupportedLanguagesHaveNoUpper(name);
    LowerOfNoUpper(name);
  }

  /** validate_language: accept a name whose lower-cased form is supported,
      and return that lower-cased form. */
  function ValidateLanguage(v: string): (r: Result<string, FieldError>)
    ensures r.Ok? ==> r.value in SupportedLanguages && SameUpToCase(v, r.value)
    ensures r.Err? ==> r.error == LanguageNotSupported(v)
  {
    var lowered := Lower(v);
    SameUpToCaseAsLower(v);
    if lowered in SupportedLanguages then Ok(lowered) else Err(LanguageNotSupported(v))
  }

  /** A name is accepted exactly when it matches a supported name up to case,
      and then the result is that supported name. */
  lemma ValidateLanguageMatchesUpToCase(v: string, name: string)
    requires name in SupportedLanguages
    ensures SameUpToCase(v, name) <==> ValidateLanguage(v) == Ok(name)
  {
    SupportedLanguagesAreLower(name);
    if SameUpToCase(v, name) {
      LowerCaseInsensitive(v, name);
    }
  }

  /** A name accepted by validate_language validates to itself. */
  lemma ValidateLanguageIdempotent(v: string)
    requires ValidateLanguage(v).Ok?
    ensures ValidateLanguage(ValidateLanguage(v).value) == ValidateLanguage(v)
  {
    LowerIdempotent(v);
  }

  /** Names that differ only in letter case are accepted or rejected together
      and, when accepted, normalise to the same name. */
  lemma ValidateLanguageCaseInsensitive(a: string, b: string)
    requires SameUpToCase(a, b)
    ensures ValidateLanguage(a).Ok? <==> ValidateLanguage(b).Ok?
    ensures ValidateLanguage(a).Ok? ==> ValidateLanguage(a).value == ValidateLanguage(b).value
  {
    LowerCaseInsensitive(a, b);
  }

  datatype ScanRequest = ScanRequest(
    code: string,
    language: string,
    rules: Option<seq<string>>,
    config: Option<string>)

  /** What every validated ScanRequest satisfies. */
  predicate ScanRequestValid(req: ScanRequest) {
    && 1 <= |req.code| <= MaxCodeLength
    && 1 <= |req.language| <= MaxLanguageLength
    && req.language in SupportedLanguages
    && (req.rules.Some? ==> |req.rules.value| <= MaxRules)
    && (req.config.Some? ==> |req.config.value| <= MaxConfigLength)
  }

  /** The language's length constraint, then validate_language if it passed. */
  function LanguageErrors(v: string): (errs: seq<FieldError>)
    ensures forall e :: e in errs <==>
      || (e == StrTooShort(LanguageField, 1) && |v| < 1)
      || (e == StrTooLong(LanguageField, MaxLanguageLength) && |v| > MaxLanguageLength)
      || (e == LanguageNotSupported(v) && 1 <= |v| <= MaxLanguageLength && Lower(v) !in SupportedLanguages)
    ensures OneFieldErrors(errs, LanguageField)
  {
    var lengthErrs := LengthErrors(LanguageField, v, 1, MaxLanguageLength);
    if lengthErrs != [] then lengthErrs
    else match ValidateLanguage(v)
      case Ok(_) => []
      case Err(e) => [e]
  }

  function RulesErrors(rules: Option<seq<string>>): (errs: seq<FieldError>)
    ensures forall e :: e in errs <==>
      e == TooManyItems(RulesField, MaxRules) && rules.Some? && |rules.value| > MaxRules
    ensures OneFieldErrors(errs, RulesField)
  {
    if rules.Some? && |rules.value| > MaxRules then [TooManyItems(RulesField, MaxRules)] else []
  }

  /** Declaration order of the ScanRequest fields. */
  function ScanRequestFieldRank(f: FieldName): nat {
    match f
    case CodeField => 0
    case LanguageField => 1
    case RulesField => 2
    case ConfigField => 3
    case _ => 4
  }

  /** `e` is an error a ScanRequest's fields call for: a length or count
      bound it breaks, or an unsupported language of acceptable length. */
  predicate ScanRequestError(req: ScanRequest, e: FieldError) {
    || (e == StrTooShort(CodeField, 1) && |req.code| < 1)
    || (e == StrTooLong(CodeField, MaxCodeLength) && |req.code| > MaxCodeLength)
    || (e == StrTooShort(LanguageField, 1) && |req.language| < 1)
    || (e == StrTooLong(LanguageField, MaxLanguageLength) && |req.language| > MaxLanguageLength)
    || (e == LanguageNotSupported(req.language) && 1 <= |req.language| <= MaxLanguageLength
        && Lower(req.language) !in SupportedLanguages)
    || (e == TooManyItems(RulesField, MaxRules) && req.rules.Some? && |req.rules.value| > MaxRules)
    || (e == StrTooLong(ConfigField, MaxConfigLength) && req.config.Some? && |req.config.value| > MaxConfigLength)
  }

  /** Construction of a ScanRequest from its raw fields. */
  function ValidateScanRequest(req: ScanRequest): (r: Result<ScanRequest, seq<FieldError>>)
    ensures r.Ok? <==>
      && 1 <= |req.code| <= MaxCodeLength
      && 1 <= |req.language| <= MaxLanguageLength
      && Lower(req.language) in SupportedLanguages
      && (req.rules.Some? ==> |req.rules.value| <= MaxRules)
      && (req.config.Some? ==> |req.config.value| <= MaxConfigLength)
    ensures r.Ok? ==> ScanRequestValid(r.value)
    ensures r.Ok? ==> r.value == req.(language := Lower(req.language))
    ensures r.Err? ==> r.error != []
    ensures r.Err? ==> forall e :: e in r.error <==> ScanRequestError(req, e)
    ensures r.Err? ==> InFieldOrder(r.error, ScanRequestFieldRank)
  {
    var code := LengthErrors(CodeField, req.code, 1, MaxCodeLength);
    var language := LanguageErrors(req.language);
    var rules := RulesErrors(req.rules);
    var config := OptionalLengthErrors(ConfigField, req.config, MaxConfigLength);
    var errs := code + language + rules + config;
    ScanRequestErrorsInOrder(code, language, rules, config);
    if errs == [] then Ok(req.(language := Lower(req.language))) else Err(errs)
  }

  /** The requests that validate to themselves are exactly the valid ones;
      in particular, validating a validated request changes nothing. */
  lemma ValidateScanRequestFixedPoints(req: ScanRequest)
    ensures ValidateScanRequest(req) == Ok(req) <==> ScanRequestValid(req)
  {
    if ScanRequestValid(req) {
      SupportedLanguagesAreLower(req.language);
    }
  }

  lemma ValidateScanRequestIdempotent(req: ScanRequest)
    requires ValidateScanRequest(req).Ok?
    ensures ValidateScanRequest(ValidateScanRequest(req).value) == ValidateScanRequest(req)
  {
    ValidateScanRequestFixedPoints(ValidateScanRequest(req).value);
  }

  // ---------------------------------------------------------------- BulkScanRequest

  const MaxFiles: nat := 50
  const MaxFileContentLength: nat := 10 * 1024 * 1024

  /** One submitted file: a JSON object with string values. */
  type FileEntry = map<string, string>

  /** The checks validate_files makes of the file at position `i`, in order:
      missing keys first, then a blank filename (both reported by index),
      then oversized content (reported by filename). A file passes exactly
      when it is acceptable, whatever its position. */
  function FileCheck(i: nat, f: FileEntry): (r: Option<FieldError>)
    ensures r.None? <==> FileAcceptable(f)
    ensures r.Some? ==> ErrorField(r.value) == FilesField
    ensures r == Some(FileMissingKeys(i)) <==> "filename" !in f || "content" !in f
    ensures r == Some(FileEmptyFilename(i)) <==>
      "filename" in f && "content" in f && AllSpace(f["filename"])
    ensures "filename" in f ==>
      (r == Some(FileContentTooLarge(f["filename"])) <==>
        "content" in f && !AllSpace(f["filename"]) && |f["content"]| > MaxFileContentLength)
  {
    if "filename" !in f || "content" !in f then Some(FileMissingKeys(i))
    else if Strip(f["filename"]) == [] then Some(FileEmptyFilename(i))
    else if |f["content"]| > MaxFileContentLength then Some(FileContentTooLarge(f["filename"]))
    else None
  }

  /** A file that passes every check of validate_files. */
  predicate FileAcceptable(f: FileEntry) {
    && "filename" in f && "content" in f
    && !AllSpace(f["filename"])
    && |f["content"]| <= MaxFileContentLength
  }

  /** Keys other than `filename` and `content` do not affect a file's check. */
  lemma FileCheckIgnoresExtraKeys(i: nat, f: FileEntry, k: string, v: string)
    requires k != "filename" && k != "content"
    ensures FileCheck(i, f[k := v]) == FileCheck(i, f)
  {
    assert "filename" in f[k := v] <==> "filename" in f;
    assert "content" in f[k := v] <==> "content" in f;
  }

  /** The first failing file check at position `from` or later. */
  function FirstFileError(files: seq<FileEntry>, from: nat): (r: Option<FieldError>)
    requires from <= |files|
    ensures r.None? <==> forall i :: from <= i < |files| ==> FileCheck(i, files[i]).None?
    ensures r.Some? ==> ErrorField(r.value) == FilesField
    ensures r.Some? ==> exists i :: from <= i < |files| && FileCheck(i, files[i]) == r
                                    && forall j :: from <= j < i ==> FileCheck(j, files[j]).None?
    decreases |files| - from
  {
    if from == |files| then None
    else
      var here := FileCheck(from, files[from]);
      if here.Some? then here else FirstFileError(files, from + 1)
  }

  /** validate_files accepts exactly the lists whose every file is
      acceptable and returns such a list unchanged; a rejection carries the
      error of a file all of whose predecessors are acceptable. */
  function ValidateFiles(files: seq<FileEntry>): (r: Result<seq<FileEntry>, FieldError>)
    ensures r.Ok? <==> forall i :: 0 <= i < |files| ==> FileAcceptable(files[i])
    ensures r.Ok? ==> r.value == files
    ensures r.Err? ==> ErrorField(r.error) == FilesField
    ensures r.Err? ==> exists i :: 0 <= i < |files| && FileCheck(i, files[i]) == Some(r.error)
                                  && forall j :: 0 <= j < i ==> FileAcceptable(files[j])
  {
    match FirstFileError(files, 0)
    case None => Ok(files)
    case Some(e) => Err(e)
  }

  datatype BulkScanRequest = BulkScanRequest(files: seq<FileEntry>, config: Option<string>)

  /** The files' count constraint, then validate_files if it passed. */
  function FilesErrors(files: seq<FileEntry>): (errs: seq<FieldError>)
    ensures forall e :: e in errs <==>
      || (e == TooFewItems(FilesField, 1) && |files| < 1)
      || (e == TooManyItems(FilesField, MaxFiles) && |files| > MaxFiles)
      || (1 <= |files| <= MaxFiles && ValidateFiles(files) == Err(e))
    ensures OneFieldErrors(errs, FilesField)
  {
    if |files| < 1 then [TooFewItems(FilesField, 1)]
    else if |files| > MaxFiles then [TooManyItems(FilesField, MaxFiles)]
    else match ValidateFiles(files)
      case Ok(_) => []
      case Err(e) => [e]
  }

  /** Declaration order of the BulkScanRequest fields. */
  function BulkScanRequestFieldRank(f: FieldName): nat {
    match f
    case FilesField => 0
    case ConfigField => 1
    case _ => 2
  }

  /** `e` is an error a BulkScanRequest's fields call for: a count or length
      bound it breaks, or the error validate_files gives a list of acceptable
      length. */
  predicate BulkScanRequestError(req: BulkScanRequest, e: FieldError) {
    || (e == TooFewItems(FilesField, 1) && |req.files| < 1)
    || (e == TooManyItems(FilesField, MaxFiles) && |req.files| > MaxFiles)
    || (1 <= |req.files| <= MaxFiles && ValidateFiles(req.files) == Err(e))
    || (e == StrTooLong(ConfigField, MaxConfigLength) && req.config.Some? && |req.config.value| > MaxConfigLength)
  }

  /** Construction of a BulkScanRequest from its raw fields. */
  function ValidateBulkScanRequest(req: BulkScanRequest): (r: Result<BulkScanRequest, seq<FieldError>>)
    ensures r.Ok? <==>
      && 1 <= |req.files| <= MaxFiles
      && (forall i :: 0 <= i < |req.files| ==> FileAcceptable(req.files[i]))
      && (req.config.Some? ==> |req.config.value| <= MaxConfigLength)
    ensures r.Ok? ==> r.value == req
    ensures r.Err? ==> r.error != []
    ensures r.Err? ==> forall e :: e in r.error <==> BulkScanRequestError(req, e)
    ensures r.Err? ==> InFieldOrder(r.error, BulkScanRequestFieldRank)
  {
    var files := FilesErrors(req.files);
    var config := OptionalLengthErrors(ConfigField, req.config, MaxConfigLength);
    var errs := files + config;
    InFieldOrderAppend([], files, FilesField, BulkScanRequestFieldRank);
    assert [] + files == files;
    InFieldOrderAppend(files, config, ConfigField, BulkScanRequestFieldRank);
    if errs == [] then Ok(req) else Err(errs)
  }

  // ---------------------------------------------------------------- CustomRule

  const MaxRuleIdLength: nat := 100
  const MaxPatternLength: nat := 1000
  const MaxMessageLength: nat := 500

  predicate IsIdSeparator(c: char) { c == '_' || c == '-' || c == '.' }

  /** validate_id: the id with `_`, `-` and `.` removed must be non-empty and
      alphanumeric. So an id is accepted exactly when it is made of letters,
      digits and separators and holds at least one letter or digit; it is
      returned unchanged. */
  function ValidateId(v: string): (r: Result<string, FieldError>)
    ensures r.Ok? <==>
      (forall i :: 0 <= i < |v| ==> IsAlnum(v[i]) || IsIdSeparator(v[i]))
      && (exists i :: 0 <= i < |v| && IsAlnum(v[i]))
    ensures r.Ok? ==> r.value == v
    ensures r.Err? ==> r.error == InvalidRuleId(v)
  {
    IdRemainderAlnum(v);
    if IsAlnumString(RemoveAll(RemoveAll(RemoveAll(v, '_'), '-'), '.')) then Ok(v)
    else Err(InvalidRuleId(v))
  }

  /** The id with its separators removed is non-empty and alphanumeric exactly
      when the id is made of letters, digits and separators and holds at least
      one letter or digit. */
  lemma IdRemainderAlnum(v: string)
    ensures IsAlnumString(RemoveAll(RemoveAll(RemoveAll(v, '_'), '-'), '.')) <==>
      (forall i :: 0 <= i < |v| ==> IsAlnum(v[i]) || IsIdSeparator(v[i]))
      && (exists i :: 0 <= i < |v| && IsAlnum(v[i]))
  {
    var a := RemoveAll(v, '_');
    var b := RemoveAll(a, '-');
    var c := RemoveAll(b, '.');
    assert forall x :: x in c <==> x in v && !IsIdSeparator(x);
    AlnumRemainder(v, c);
  }

  /** The same, for any `c` holding exactly the non-separator characters of `v`. */
  lemma AlnumRemainder(v: string, c: string)
    requires forall x :: x in c <==> x in v && !IsIdSeparator(x)
    ensures IsAlnumString(c) <==>
      (forall i :: 0 <= i < |v| ==> IsAlnum(v[i]) || IsIdSeparator(v[i]))
      && (exists i :: 0 <= i < |v| && IsAlnum(v[i]))
  {
    if IsAlnumString(c) {
      forall i | 0 <= i < |v| ensures IsAlnum(v[i]) || IsIdSeparator(v[i]) {
        if !IsIdSeparator(v[i]) {
          assert v[i] in c;
        }
      }
      assert c[0] in v;
    }
    if (forall i :: 0 <= i < |v| ==> IsAlnum(v[i]) || IsIdSeparator(v[i]))
       && (exists i :: 0 <= i < |v| && IsAlnum(v[i])) {
      var i :| 0 <= i < |v| && IsAlnum(v[i]);
      assert v[i] in c;
      forall k | 0 <= k < |c| ensures IsAlnum(c[k]) {
        assert c[k] in v;
      }
    }
  }

  /** An id made only of separators is rejected. */
  lemma ValidateIdRejectsSeparatorsOnly()
    ensures ValidateId("-._").Err?
  {
  }

  datatype CustomRule = CustomRule(
    id: string,
    pattern: string,
    language: string,
    message: string,
    severity: SeverityLevel)

  /** A rule as submitted: `severity` is absent (None) or a raw string. */
  datatype RawCustomRule = RawCustomRule(
    id: string,
    pattern: string,
    language: string,
    message: string,
    severity: Option<string>)

  /** The id's length constraint, then validate_id if it passed. */
  function IdErrors(id: string): (errs: seq<FieldError>)
    ensures forall e :: e in errs <==>
      || (e == StrTooShort(IdField, 1) && |id| < 1)
      || (e == StrTooLong(IdField, MaxRuleIdLength) && |id| > MaxRuleIdLength)
      || (e == InvalidRuleId(id) && 1 <= |id| <= MaxRuleIdLength && ValidateId(id).Err?)
    ensures OneFieldErrors(errs, IdField)
  {
    var lengthErrs := LengthErrors(IdField, id, 1, MaxRuleIdLength);
    if lengthErrs != [] then lengthErrs
    else match ValidateId(id)
      case Ok(_) => []
      case Err(e) => [e]
  }

  /** An absent severity takes the default INFO; a present one must be the
      value of a level. */
  function SeverityOrDefault(s: Option<string>): (r: Result<SeverityLevel, FieldError>)
    ensures r.Err? <==> s.Some? && s.value !in {"INFO", "WARNING", "ERROR"}
    ensures r.Err? ==> r.error == InvalidSeverity(s.value)
    ensures r.Ok? && s.None? ==> r.value == Info
    ensures r.Ok? && s.Some? ==> SeverityValue(r.value) == s.value
  {
    match s
    case None => Ok(Info)
    case Some(v) =>
      match ParseSeverity(v)
      case Some(level) => Ok(level)
      case None => Err(InvalidSeverity(v))
  }

  /** Declaration order of the CustomRule fields. */
  function CustomRuleFieldRank(f: FieldName): nat {
    match f
    case IdField => 0
    case PatternField => 1
    case LanguageField => 2
    case MessageField => 3
    case SeverityField => 4
    case _ => 5
  }

  /** `e` is an error a CustomRule's fields call for: a length bound it
      breaks, an id of acceptable length that validate_id rejects, or a
      severity that is not the value of a level. */
  predicate CustomRuleError(raw: RawCustomRule, e: FieldError) {
    || (e == StrTooShort(IdField, 1) && |raw.id| < 1)
    || (e == StrTooLong(IdField, MaxRuleIdLength) && |raw.id| > MaxRuleIdLength)
    || (e == InvalidRuleId(raw.id) && 1 <= |raw.id| <= MaxRuleIdLength && ValidateId(raw.id).Err?)
    || (e == StrTooShort(PatternField, 1) && |raw.pattern| < 1)
    || (e == StrTooLong(PatternField, MaxPatternLength) && |raw.pattern| > MaxPatternLength)
    || (e == StrTooShort(LanguageField, 1) && |raw.language| < 1)
    || (e == StrTooLong(LanguageField, MaxLanguageLength) && |raw.language| > MaxLanguageLength)
    || (e == StrTooShort(MessageField, 1) && |raw.message| < 1)
    || (e == StrTooLong(MessageField, MaxMessageLength) && |raw.message| > MaxMessageLength)
    || (raw.severity.Some? && raw.severity.value !in {"INFO", "WARNING", "ERROR"}
        && e == InvalidSeverity(raw.severity.value))
  }

  /** Construction of a CustomRule from its raw fields. */
  function ValidateCustomRule(raw: RawCustomRule): (r: Result<CustomRule, seq<FieldError>>)
    ensures r.Ok? <==>
      && 1 <= |raw.id| <= MaxRuleIdLength && ValidateId(raw.id).Ok?
      && 1 <= |raw.pattern| <= MaxPatternLength
      && 1 <= |raw.language| <= MaxLanguageLength
      && 1 <= |raw.message| <= MaxMessageLength
      && (raw.severity.Some? ==> raw.severity.value in {"INFO", "WARNING", "ERROR"})
    ensures r.Ok? ==> r.value.id == raw.id && r.value.pattern == raw.pattern
                      && r.value.language == raw.language && r.value.message == raw.message
    ensures r.Ok? && raw.severity.None? ==> r.value.severity == Info
    ensures r.Ok? && raw.severity.Some? ==> SeverityValue(r.value.severity) == raw.severity.value
    ensures r.Err? ==> r.error != []
    ensures r.Err? ==> forall e :: e in r.error <==> CustomRuleError(raw, e)
    ensures r.Err? ==> InFieldOrder(r.error, CustomRuleFieldRank)
  {
    var severity := SeverityOrDefault(raw.severity);
    var id := IdErrors(raw.id);
    var pattern := LengthErrors(PatternField, raw.pattern, 1, MaxPatternLength);
    var language := LengthErrors(LanguageField, raw.language, 1, MaxLanguageLength);
    var message := LengthErrors(MessageField, raw.message, 1, MaxMessageLength);
    var severityErrs := if severity.Err? then [severity.error] else [];
    var errs := id + pattern + language + message + severityErrs;
    CustomRuleErrorsInOrder(id, pattern, language, message, severityErrs);
    CustomRuleErrorsMembers(raw, severityErrs);
    if errs == [] then
      Ok(CustomRule(raw.id, raw.pattern, raw.language, raw.message, severity.value))
    else Err(errs)
  }

  // ---------------------------------------------------------------- field order

  lemma ScanRequestErrorsInOrder(code: seq<FieldError>, language: seq<FieldError>,
                                 rules: seq<FieldError>, config: seq<FieldError>)
    requires OneFieldErrors(code, CodeField) && OneFieldErrors(language, LanguageField)
    requires OneFieldErrors(rules, RulesField) && OneFieldErrors(config, ConfigField)
    ensures InFieldOrder(code + language + rules + config, ScanRequestFieldRank)
  {
    var rank := ScanRequestFieldRank;
    assert rank(CodeField) == 0 && rank(LanguageField) == 1 && rank(RulesField) == 2 && rank(ConfigField) == 3;
    var s1 := code;
    InFieldOrderAppend([], code, CodeField, rank);
    assert [] + code == s1;
    var s2 := s1 + language;
    InFieldOrderAppend(s1, language, LanguageField, rank);
    var s3 := s2 + rules;
    InFieldOrderAppend(s2, rules, RulesField, rank);
    InFieldOrderAppend(s3, config, ConfigField, rank);
  }

  lemma CustomRuleErrorsInOrder(id: seq<FieldError>, pattern: seq<FieldError>, language: seq<FieldError>,
                                message: seq<FieldError>, severity: seq<FieldError>)
    requires OneFieldErrors(id, IdField) && OneFieldErrors(pattern, PatternField)
    requires OneFieldErrors(language, LanguageField) && OneFieldErrors(message, MessageField)
    requires OneFieldErrors(severity, SeverityField)
    ensures InFieldOrder(id + pattern + language + message + severity, CustomRuleFieldRank)
  {
    var rank := CustomRuleFieldRank;
    assert rank(IdField) == 0 && rank(PatternField) == 1 && rank(LanguageField) == 2;
    assert rank(MessageField) == 3 && rank(SeverityField) == 4;
    var s1 := id;
    InFieldOrderAppend([], id, IdField, rank);
    assert [] + id == s1;
    var s2 := s1 + pattern;
    InFieldOrderAppend(s1, pattern, PatternField, rank);
    var s3 := s2 + language;
    InFieldOrderAppend(s2, language, LanguageField, rank);
    var s4 := s3 + message;
    InFieldOrderAppend(s3, message, MessageField, rank);
    InFieldOrderAppend(s4, severity, SeverityField, rank);
  }

  /** The errors of the five fields, in field order, are exactly the errors
      the rule calls for. */
  lemma CustomRuleErrorsMembers(raw: RawCustomRule, severityErrs: seq<FieldError>)
    requires severityErrs == (var s := SeverityOrDefault(raw.severity); if s.Err? then [s.error] else [])
    ensures var errs := IdErrors(raw.id)
                        + LengthErrors(PatternField, raw.pattern, 1, MaxPatternLength)
                        + LengthErrors(LanguageField, raw.language, 1, MaxLanguageLength)
                        + LengthErrors(MessageField, raw.message, 1, MaxMessageLength)
                        + severityErrs;
      forall e :: e in errs <==> CustomRuleError(raw, e)
  {
    var id := IdErrors(raw.id);
    var pattern := LengthErrors(PatternField, raw.pattern, 1, MaxPatternLength);
    var language := LengthErrors(LanguageField, raw.language, 1, MaxLanguageLength);
    var message := LengthErrors(MessageField, raw.message, 1, MaxMessageLength);
    var errs := id + pattern + language + message + severityErrs;
    forall e ensures e in errs <==> CustomRuleError(raw, e) {
      assert e in errs <==> e in id || e in pattern || e in language || e in message || e in severityErrs;
    }
  }
}
