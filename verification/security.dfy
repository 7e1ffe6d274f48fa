/** Input validators of the Python integrations (`velesdb_common.security`).
    Python's dynamic typing is modelled by `PyValue`; `bool` is a subclass of
    `int` in Python, so `isinstance(True, int)` holds and `True` validates as 1. */
module Security {
  import opened Wrappers
  import opened Text

  const MAX_QUERY_LENGTH: nat := 10_000
  const MAX_TEXT_LENGTH: nat := 1_000_000
  const MAX_BATCH_SIZE: nat := 10_000
  const MAX_K_VALUE: nat := 10_000
  const MAX_DIMENSION: nat := 65_536
  const MIN_DIMENSION: nat := 1
  const MAX_PATH_LENGTH: nat := 4096
  const MAX_COLLECTION_NAME_LENGTH: nat := 256
  const DEFAULT_TIMEOUT_MS: nat := 30_000
  const ALLOWED_METRICS: set<string> := {"cosine", "euclidean", "dot", "hamming", "jaccard"}
  const ALLOWED_STORAGE_MODES: set<string> := {"full", "sq8", "binary"}
  /** Keywords that make `;` a stacked query, in the order of the pattern. */
  const STACKED_KEYWORDS: seq<string> :=
    ["select", "drop", "delete", "insert", "update", "alter", "create", "truncate"]

  /** An IEEE double as Python sees it. */
  datatype PyFloat = Finite(r: real) | PosInf | NegInf | NaN

  /** The Python values a validator can be handed. */
  datatype PyValue =
    | PyInt(i: int)
    | PyBool(b: bool)
    | PyFloatValue(f: PyFloat)
    | PyStr(s: string)
    | PyNone
    | PyOther

  /** Why a validator raised `SecurityError` (one case per message). */
  datatype SecurityError =
    | WrongType
    | EmptyValue
    | TooLong
    | BelowMinimum
    | AboveMaximum
    | NullBytes
    | InvalidPath
    | SuspiciousPath
    | OutsideSandbox
    | StackedQuery
    | LineComment
    | BlockComment
    | HexEscape
    | NotAllowed
    | InvalidCharacters
    | BadScheme
    /** An exception the validator does not catch (e.g. from `os.path`). */
    | HostError

  /** `isinstance(v, int)` together with the integer value. */
  function AsInt(v: PyValue): (r: Option<int>)
    ensures r.Some? <==> v.PyInt? || v.PyBool?
    ensures v.PyInt? ==> r == Some(v.i)
  {
    match v
    case PyInt(i) => Some(i)
    case PyBool(b) => Some(if b then 1 else 0)
    case _ => None
  }

  /** The shared shape of `validate_dimension`, `validate_k` and
      `validate_timeout`: an int in `[lo, hi]`, returned unchanged. */
  function ValidateIntRange(v: PyValue, lo: int, hi: int): (r: Result<PyValue, SecurityError>)
    ensures r.Success? <==> AsInt(v).Some? && lo <= AsInt(v).value <= hi
    ensures r.Success? ==> r.value == v
    ensures AsInt(v).None? ==> r == Failure(WrongType)
    ensures AsInt(v).Some? && AsInt(v).value < lo ==> r == Failure(BelowMinimum)
    ensures AsInt(v).Some? && lo <= AsInt(v).value && AsInt(v).value > hi ==> r == Failure(AboveMaximum)
  {
    match AsInt(v)
    case None => Failure(WrongType)
    case Some(n) =>
      if n < lo then Failure(BelowMinimum)
      else if n > hi then Failure(AboveMaximum)
      else Success(v)
  }

  function ValidateDimension(v: PyValue): (r: Result<PyValue, SecurityError>)
    ensures r.Success? <==> AsInt(v).Some? && MIN_DIMENSION <= AsInt(v).value <= MAX_DIMENSION
    ensures r.Success? ==> r.value == v
  {
    ValidateIntRange(v, MIN_DIMENSION, MAX_DIMENSION)
  }

  function ValidateK(v: PyValue): (r: Result<PyValue, SecurityError>)
    ensures r.Success? <==> AsInt(v).Some? && 1 <= AsInt(v).value <= MAX_K_VALUE
    ensures r.Success? ==> r.value == v
  {
    ValidateIntRange(v, 1, MAX_K_VALUE)
  }

  function ValidateTimeout(v: PyValue): (r: Result<PyValue, SecurityError>)
    ensures r.Success? <==> AsInt(v).Some? && 1 <= AsInt(v).value <= DEFAULT_TIMEOUT_MS
    ensures r.Success? ==> r.value == v
  {
    ValidateIntRange(v, 1, DEFAULT_TIMEOUT_MS)
  }

  function ValidateText(v: PyValue, maxLength: int): (r: Result<string, SecurityError>)
    ensures r.Success? <==> v.PyStr? && |v.s| <= maxLength
    ensures r.Success? ==> r.value == v.s
    ensures !v.PyStr? ==> r == Failure(WrongType)
  {
    if !v.PyStr? then Failure(WrongType)
    else if |v.s| > maxLength then Failure(TooLong)
    else Success(v.s)
  }

  // ---------------------------------------------------------------------
  // validate_query
  // ---------------------------------------------------------------------

  /** `;\s*(SELECT|...|TRUNCATE)\b` matches at `i` (case-insensitive).
      Every keyword starts with a letter, so the greedy `\s*` must consume
      the whole run of white space after `;`. */
  predicate StackedAt(s: string, i: nat) {
    i < |s| && s[i] == ';' &&
    var j := SkipSpaces(s, i + 1);
    exists k :: 0 <= k < |STACKED_KEYWORDS| &&
      AtPosIgnoreCase(s, j, STACKED_KEYWORDS[k]) && WordEndsAt(s, j + |STACKED_KEYWORDS[k]|)
  }

  /** `--` matches at `i`. */
  predicate LineCommentAt(s: string, i: nat) { AtPos(s, i, "--") }

  /** `/\*` matches at `i`. */
  predicate BlockCommentAt(s: string, i: nat) { AtPos(s, i, "/*") }

  /** `0x[0-9a-fA-F]{2,}` matches at `i` (case-insensitive, so `0X` too). */
  predicate HexEscapeAt(s: string, i: nat) {
    i + 4 <= |s| && s[i] == '0' && ToLowerAscii(s[i + 1]) == 'x' &&
    IsHexDigit(s[i + 2]) && IsHexDigit(s[i + 3])
  }

  function ValidateQuery(v: PyValue): (r: Result<string, SecurityError>)
    ensures r.Success? <==>
      && v.PyStr?
      && |v.s| <= MAX_QUERY_LENGTH
      && !ContainsChar(v.s, '\0')
      && !Occurs(v.s, StackedAt)
      && !Occurs(v.s, LineCommentAt)
      && !Occurs(v.s, BlockCommentAt)
      && !Occurs(v.s, HexEscapeAt)
    ensures r.Success? ==> r.value == v.s
    ensures v.PyStr? && |v.s| > MAX_QUERY_LENGTH ==> r == Failure(TooLong)
    ensures (v.PyStr? && |v.s| <= MAX_QUERY_LENGTH && !ContainsChar(v.s, '\0') &&
             Occurs(v.s, StackedAt)) ==> r == Failure(StackedQuery)
  {
    if !v.PyStr? then Failure(WrongType)
    else
      var q := v.s;
      if |q| > MAX_QUERY_LENGTH then Failure(TooLong)
      else if '\0' in q then Failure(NullBytes)
      else if Search(q, StackedAt) then Failure(StackedQuery)
      else if Search(q, LineCommentAt) then Failure(LineComment)
      else if Search(q, BlockCommentAt) then Failure(BlockComment)
      else if Search(q, HexEscapeAt) then Failure(HexEscape)
      else Success(q)
  }

  // ---------------------------------------------------------------------
  // validate_metric / validate_storage_mode
  // ---------------------------------------------------------------------

  function ValidateMetric(v: PyValue): (r: Result<string, SecurityError>)
    ensures r.Success? <==> v.PyStr? && Lower(v.s) in ALLOWED_METRICS
    ensures r.Success? ==> r.value == Lower(v.s) && r.value in ALLOWED_METRICS
  {
    if !v.PyStr? then Failure(WrongType)
    else if Lower(v.s) !in ALLOWED_METRICS then Failure(NotAllowed)
    else Success(Lower(v.s))
  }

  function ValidateStorageMode(v: PyValue): (r: Result<string, SecurityError>)
    ensures r.Success? <==> v.PyStr? && Lower(v.s) in ALLOWED_STORAGE_MODES
    ensures r.Success? ==> r.value == Lower(v.s) && r.value in ALLOWED_STORAGE_MODES
  {
    if !v.PyStr? then Failure(WrongType)
    else if Lower(v.s) !in ALLOWED_STORAGE_MODES then Failure(NotAllowed)
    else Success(Lower(v.s))
  }

  /** Re-validating an accepted metric or storage mode returns it unchanged. */
  lemma MetricAndModeIdempotent(v: PyValue)
    ensures ValidateMetric(v).Success? ==>
      ValidateMetric(PyStr(ValidateMetric(v).value)) == ValidateMetric(v)
    ensures ValidateStorageMode(v).Success? ==>
      ValidateStorageMode(PyStr(ValidateStorageMode(v).value)) == ValidateStorageMode(v)
  {
    if v.PyStr? {
      LowerIdempotent(v.s);
    }
  }

  // ---------------------------------------------------------------------
  // validate_batch_size
  // ---------------------------------------------------------------------

  /** Only an upper bound is checked: zero and negative sizes pass. */
  function ValidateBatchSize(size: int): (r: Result<int, SecurityError>)
    ensures r.Success? <==> size <= MAX_BATCH_SIZE
    ensures r.Success? ==> r.value == size
  {
    if size > MAX_BATCH_SIZE then Failure(AboveMaximum) else Success(size)
  }

  // ---------------------------------------------------------------------
  // validate_collection_name
  // ---------------------------------------------------------------------

  predicate IsNameChar(c: char) { IsAsciiLetter(c) || IsAsciiDigit(c) || c == '_' || c == '-' }

  predicate AllNameChars(s: string) { forall k :: 0 <= k < |s| ==> IsNameChar(s[k]) }

  /** What `re.match(r"^[a-zA-Z0-9_-]+$", s)` accepts: Python's `$` also
      matches just before a final newline. */
  predicate NamePatternAsWritten(s: string) {
    (|s| >= 1 && AllNameChars(s)) ||
    (|s| >= 2 && s[|s| - 1] == '\n' && AllNameChars(s[..|s| - 1]))
  }

  /** `validate_collection_name` as the source writes it. */
  function ValidateCollectionNameAsWritten(v: PyValue): (r: Result<string, SecurityError>)
    ensures r.Success? <==>
      v.PyStr? && 0 < |v.s| <= MAX_COLLECTION_NAME_LENGTH && NamePatternAsWritten(v.s)
    ensures r.Success? ==> r.value == v.s
  {
    if !v.PyStr? then Failure(WrongType)
    else if |v.s| == 0 then Failure(EmptyValue)
    else if |v.s| > MAX_COLLECTION_NAME_LENGTH then Failure(TooLong)
    else if !NamePatternAsWritten(v.s) then Failure(InvalidCharacters)
    else Success(v.s)
  }

  /** The as-written check lets a name with a trailing newline through. */
  lemma CollectionNameTrailingNewlineAccepted()
    ensures ValidateCollectionNameAsWritten(PyStr("abc\n")) == Success("abc\n")
    ensures !AllNameChars("abc\n")
  {
    assert AllNameChars("abc\n"[..3]);
    assert !IsNameChar("abc\n"[3]);
  }

  /** `validate_collection_name` with the whole name matched against the
      character class (`re.fullmatch`), as its message promises. */
  function ValidateCollectionName(v: PyValue): (r: Result<string, SecurityError>)
    ensures r.Success? <==>
      v.PyStr? && 0 < |v.s| <= MAX_COLLECTION_NAME_LENGTH && AllNameChars(v.s)
    ensures r.Success? ==> r.value == v.s
    ensures r.Success? ==> ValidateCollectionNameAsWritten(v) == r
  {
    if !v.PyStr? then Failure(WrongType)
    else if |v.s| == 0 then Failure(EmptyValue)
    else if |v.s| > MAX_COLLECTION_NAME_LENGTH then Failure(TooLong)
    else if !AllNameChars(v.s) then Failure(InvalidCharacters)
    else Success(v.s)
  }

  // ---------------------------------------------------------------------
  // validate_url
  // ---------------------------------------------------------------------

  function ValidateUrl(v: PyValue): (r: Result<string, SecurityError>)
    ensures r.Success? <==>
      && v.PyStr?
      && (AtPos(v.s, 0, "http://") || AtPos(v.s, 0, "https://"))
      && !ContainsChar(v.s, '\n') && !ContainsChar(v.s, '\r') && !ContainsChar(v.s, '\0')
    ensures r.Success? ==> r.value == v.s
  {
    if !v.PyStr? then Failure(WrongType)
    else if |v.s| == 0 then Failure(EmptyValue)
    else if !(AtPos(v.s, 0, "http://") || AtPos(v.s, 0, "https://")) then Failure(BadScheme)
    else if '\n' in v.s || '\r' in v.s || '\0' in v.s then Failure(InvalidCharacters)
    else Success(v.s)
  }

  // ---------------------------------------------------------------------
  // validate_weight
  // ---------------------------------------------------------------------

  /** `float(v)` for an int, bool or float. */
  function ToFloat(v: PyValue): PyFloat
    requires v.PyInt? || v.PyBool? || v.PyFloatValue?
  {
    match v
    case PyInt(i) => Finite(i as real)
    case PyBool(b) => Finite(if b then 1.0 else 0.0)
    case PyFloatValue(f) => f
  }

  /** `x < 0.0 or x > 1.0` under IEEE comparison: false for NaN. */
  predicate OutsideUnitInterval(f: PyFloat) {
    match f
    case Finite(x) => x < 0.0 || x > 1.0
    case PosInf => true
    case NegInf => true
    case NaN => false
  }

  /** `validate_weight` as the source writes it. */
  function ValidateWeightAsWritten(v: PyValue): (r: Result<PyFloat, SecurityError>)
    ensures r.Success? <==>
      (v.PyInt? || v.PyBool? || v.PyFloatValue?) && !OutsideUnitInterval(ToFloat(v))
    ensures r.Success? ==> r.value == ToFloat(v)
  {
    if !(v.PyInt? || v.PyBool? || v.PyFloatValue?) then Failure(WrongType)
    else if OutsideUnitInterval(ToFloat(v)) then Failure(AboveMaximum)
    else Success(ToFloat(v))
  }

  /** NaN compares false with both bounds and is accepted as a weight. */
  lemma WeightNaNAccepted()
    ensures ValidateWeightAsWritten(PyFloatValue(NaN)) == Success(NaN)
  {
  }

  /** `validate_weight` accepting exactly the numbers in `[0.0, 1.0]`. */
  function ValidateWeight(v: PyValue): (r: Result<PyFloat, SecurityError>)
    ensures r.Success? <==>
      (v.PyInt? || v.PyBool? || v.PyFloatValue?) &&
      ToFloat(v).Finite? && 0.0 <= ToFloat(v).r <= 1.0
    ensures r.Success? ==> r.value == ToFloat(v) && ValidateWeightAsWritten(v) == r
  {
    if !(v.PyInt? || v.PyBool? || v.PyFloatValue?) then Failure(WrongType)
    else if !ToFloat(v).Finite? || OutsideUnitInterval(ToFloat(v)) then Failure(AboveMaximum)
    else Success(ToFloat(v))
  }

  // ---------------------------------------------------------------------
  // validate_path
  // ---------------------------------------------------------------------

  /** `\.\.[/\\]` matches at `i`. */
  predicate ParentTraversalAt(s: string, i: nat) {
    i + 3 <= |s| && s[i] == '.' && s[i + 1] == '.' && (s[i + 2] == '/' || s[i + 2] == '\\')
  }

  /** `^[/\\]{2}` matches: a UNC-style double separator at the start. */
  predicate UncPrefix(s: string) {
    |s| >= 2 && (s[0] == '/' || s[0] == '\\') && (s[1] == '/' || s[1] == '\\')
  }

  /** `validate_path`. `resolve` is `os.path.abspath(os.path.normpath(.))`
      (None when it raises) and `common` is `os.path.commonpath` of two
      paths (None when it raises `ValueError`). */
  function ValidatePath(path: string, baseDirectory: Option<string>,
                        resolve: string -> Option<string>,
                        common: (string, string) -> Option<string>): (r: Result<string, SecurityError>)
    ensures |path| == 0 ==> r == Failure(EmptyValue)
    ensures |path| > MAX_PATH_LENGTH ==> r == Failure(TooLong)
    ensures 0 < |path| <= MAX_PATH_LENGTH && ContainsChar(path, '\0') ==> r == Failure(NullBytes)
    ensures r.Success? ==>
      && 0 < |path| <= MAX_PATH_LENGTH
      && !ContainsChar(path, '\0')
      && !Occurs(path, ParentTraversalAt)
      && !UncPrefix(path)
      && resolve(path) == Some(r.value)
    ensures r.Success? && baseDirectory.Some? && |baseDirectory.value| > 0 ==>
      resolve(baseDirectory.value).Some? &&
      common(r.value, resolve(baseDirectory.value).value) == Some(resolve(baseDirectory.value).value)
    ensures (0 < |path| <= MAX_PATH_LENGTH && !ContainsChar(path, '\0') && resolve(path).Some? &&
             (Occurs(path, ParentTraversalAt) || UncPrefix(path))) ==> r == Failure(SuspiciousPath)
  {
    if |path| == 0 then Failure(EmptyValue)
    else if |path| > MAX_PATH_LENGTH then Failure(TooLong)
    else if '\0' in path then Failure(NullBytes)
    else match resolve(path)
      case None => Failure(InvalidPath)
      case Some(absPath) =>
        if Search(path, ParentTraversalAt) || UncPrefix(path) then Failure(SuspiciousPath)
        else if baseDirectory.Some? && |baseDirectory.value| > 0 then
          match resolve(baseDirectory.value)
          case None => Failure(HostError)
          case Some(baseAbs) =>
            match common(absPath, baseAbs)
            case None => Failure(OutsideSandbox)
            case Some(c) => if c != baseAbs then Failure(OutsideSandbox) else Success(absPath)
        else Success(absPath)
  }

  // ---------------------------------------------------------------------
  // Partners: an accepted value validates again to itself.
  // ---------------------------------------------------------------------

  lemma IntValidatorsIdempotent(v: PyValue)
    ensures ValidateDimension(v).Success? ==> ValidateDimension(ValidateDimension(v).value) == ValidateDimension(v)
    ensures ValidateK(v).Success? ==> ValidateK(ValidateK(v).value) == ValidateK(v)
    ensures ValidateTimeout(v).Success? ==> ValidateTimeout(ValidateTimeout(v).value) == ValidateTimeout(v)
  {
  }

  lemma StringValidatorsIdempotent(v: PyValue)
    ensures ValidateQuery(v).Success? ==> ValidateQuery(PyStr(ValidateQuery(v).value)) == ValidateQuery(v)
    ensures ValidateCollectionName(v).Success? ==>
      ValidateCollectionName(PyStr(ValidateCollectionName(v).value)) == ValidateCollectionName(v)
    ensures ValidateUrl(v).Success? ==> ValidateUrl(PyStr(ValidateUrl(v).value)) == ValidateUrl(v)
  {
  }

  /** An accepted weight, passed back in as a float, is accepted unchanged. */
  lemma WeightIdempotent(v: PyValue)
    ensures ValidateWeight(v).Success? ==>
      ValidateWeight(PyFloatValue(ValidateWeight(v).value)) == ValidateWeight(v)
  {
  }
}
