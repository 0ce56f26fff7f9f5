/**
 * The field validators of the request models: `not_empty` (shared by the
 * employee and the attendance model), `validate_email` and `validate_status`.
 * Each is a pure function from the raw field text to either the value stored
 * or the message of the ValueError it raises.
 */
module Validation {
  import opened Results

  /** Python's `str.isspace` on one code point: the set `str.strip()` removes. */
  predicate IsSpace(c: char) {
    var n := c as int;
    (0x09 <= n <= 0x0D) || (0x1C <= n <= 0x20) || n == 0x85 || n == 0xA0 ||
    n == 0x1680 || (0x2000 <= n <= 0x200A) || n == 0x2028 || n == 0x2029 ||
    n == 0x202F || n == 0x205F || n == 0x3000
  }

  predicate AllSpace(s: string) {
    forall k :: 0 <= k < |s| ==> IsSpace(s[k])
  }

  /** Leading whitespace removed (`str.lstrip()`). */
  function TrimStart(s: string): (r: string)
    ensures |r| <= |s| && r == s[|s| - |r|..]
    ensures forall k :: 0 <= k < |s| - |r| ==> IsSpace(s[k])
    ensures r != [] ==> !IsSpace(r[0])
  {
    if |s| > 0 && IsSpace(s[0]) then TrimStart(s[1..]) else s
  }

  /** Trailing whitespace removed (`str.rstrip()`). */
  function TrimEnd(s: string): (r: string)
    ensures |r| <= |s| && r == s[..|r|]
    ensures forall k :: |r| <= k < |s| ==> IsSpace(s[k])
    ensures r != [] ==> !IsSpace(r[|r| - 1])
  {
    if |s| > 0 && IsSpace(s[|s| - 1]) then TrimEnd(s[..|s| - 1]) else s
  }

  /** `s[i..j]` is what is left of `s` once the whitespace runs at both ends are cut. */
  ghost predicate StripCut(s: string, i: int, j: int) {
    0 <= i <= j <= |s| &&
    (forall k :: 0 <= k < i ==> IsSpace(s[k])) &&
    (forall k :: j <= k < |s| ==> IsSpace(s[k])) &&
    (i < j ==> !IsSpace(s[i]) && !IsSpace(s[j - 1]))
  }

  /** Python's `str.strip()` with no argument. */
  function Strip(s: string): (r: string)
    ensures |r| <= |s|
    ensures r == [] <==> AllSpace(s)
    ensures r != [] ==> !IsSpace(r[0]) && !IsSpace(r[|r| - 1])
  {
    TrimEnd(TrimStart(s))
  }

  /**
   * Cutting a leading whitespace run from `s` (leaving `t`) and then a trailing
   * one from `t` (leaving `r`) leaves the slice of `s` between the two runs.
   */
  lemma CutOfParts(s: string, t: string, r: string)
    requires |t| <= |s| && t == s[|s| - |t|..]
    requires forall k :: 0 <= k < |s| - |t| ==> IsSpace(s[k])
    requires |r| <= |t| && r == t[..|r|]
    requires forall k :: |r| <= k < |t| ==> IsSpace(t[k])
    requires r != [] ==> !IsSpace(r[0]) && !IsSpace(r[|r| - 1])
    ensures StripCut(s, |s| - |t|, |s| - |t| + |r|)
    ensures forall k :: 0 <= k < |r| ==> r[k] == s[|s| - |t| + k]
  {
    var i, j := |s| - |t|, |s| - |t| + |r|;
    forall k | j <= k < |s|
      ensures IsSpace(s[k])
    {
      assert s[k] == t[k - i];
    }
    if i < j {
      assert s[i] == r[0] && s[j - 1] == r[|r| - 1];
    }
  }

  /** Where `strip()` starts cutting: after the leading whitespace run. */
  function StripStart(s: string): int {
    |s| - |TrimStart(s)|
  }

  /** The runs at the two ends of `s` are whitespace and `strip()` stops at non-space text. */
  lemma StripCutAt(s: string)
    ensures StripCut(s, StripStart(s), StripStart(s) + |Strip(s)|)
  {
    CutOfParts(s, TrimStart(s), TrimEnd(TrimStart(s)));
  }

  /** Character by character, `strip()` gives `s` from the start of the cut on. */
  lemma StripSliceAt(s: string)
    ensures 0 <= StripStart(s) <= StripStart(s) + |Strip(s)| <= |s|
    ensures forall k :: 0 <= k < |Strip(s)| ==> Strip(s)[k] == s[StripStart(s) + k]
  {
    CutOfParts(s, TrimStart(s), TrimEnd(TrimStart(s)));
  }

  /** Text that `strip()` keeps as it is: non-empty, no whitespace at either end. */
  predicate Clean(v: string) {
    v != [] && !IsSpace(v[0]) && !IsSpace(v[|v| - 1])
  }

  /** A string that starts and ends with a non-space character is its own strip. */
  lemma {:induction false} StripKeeps(s: string)
    requires Clean(s)
    ensures Strip(s) == s
  {
    StripCutAt(s);
    StripSliceAt(s);
  }

  /** Stripping a second time changes nothing. */
  lemma StripIdempotent(s: string)
    ensures Strip(Strip(s)) == Strip(s)
  {
    if Strip(s) != [] {
      StripKeeps(Strip(s));
    }
  }

  /** A trailing newline after non-space text is exactly what `strip()` removes. */
  lemma {:induction false} StripDropsFinalNewline(s: string)
    requires Clean(s)
    ensures Strip(s + "\n") == s
  {
    var t := s + "\n";
    StripCutAt(t);
    StripSliceAt(t);
    assert t[0] == s[0] && t[|s| - 1] == s[|s| - 1];
    assert t[|s|] == '\n' && IsSpace('\n');
    assert StripStart(t) == 0 && |Strip(t)| == |s|;
    assert forall k :: 0 <= k < |s| ==> Strip(t)[k] == s[k];
  }

  const FieldRequired := "Field is required"

  /**
   * `not_empty`: the value with surrounding whitespace removed, or an error when
   * it is empty or whitespace only.
   */
  function NotEmpty(v: string): (r: Result<string, string>)
    ensures r.Ok? <==> exists k :: 0 <= k < |v| && !IsSpace(v[k])
    ensures r.Err? ==> r.error == FieldRequired
    ensures r.Ok? ==> Clean(r.value)
    ensures r.Ok? ==> r.value == Strip(v)
  {
    if v == [] || Strip(v) == [] then Err(FieldRequired) else Ok(Strip(v))
  }

  /** A value with no surrounding whitespace passes `not_empty` unchanged. */
  lemma NotEmptyKeeps(v: string)
    requires Clean(v)
    ensures NotEmpty(v) == Ok(v)
  {
    StripKeeps(v);
  }

  /** Running `not_empty` on its own output gives that output back. */
  lemma NotEmptyIdempotent(v: string)
    requires NotEmpty(v).Ok?
    ensures NotEmpty(NotEmpty(v).value) == NotEmpty(v)
  {
    StripIdempotent(v);
  }

  const Present := "Present"
  const Absent := "Absent"
  const StatusError := "Status must be Present or Absent"

  /** `validate_status`: the value is kept when it is one of the two status words. */
  function ValidateStatus(v: string): (r: Result<string, string>)
    ensures r.Ok? <==> v in {Present, Absent}
    ensures r.Ok? ==> r.value == v
    ensures r.Err? ==> r.error == StatusError
  {
    if v == Present || v == Absent then Ok(v) else Err(StatusError)
  }

  /**
   * The `status` field of an attendance request: `not_empty` runs first and
   * `validate_status` sees its stripped output.
   */
  function ValidateStatusField(v: string): (r: Result<string, string>)
    ensures r.Ok? <==> Strip(v) in {Present, Absent}
    ensures r.Ok? ==> r.value == Strip(v)
  {
    match NotEmpty(v)
    case Err(e) => Err(e)
    case Ok(s) => ValidateStatus(s)
  }

  /** The status words are matched exactly: other spellings are refused. */
  lemma StatusIsCaseSensitive()
    ensures ValidateStatus("present").Err? && ValidateStatus("ABSENT").Err?
    ensures ValidateStatus(" Present").Err?
  {
  }

  // ---------------------------------------------------------------------------
  // validate_email: the pattern ^[a-zA-Z0-9._%+-]+@[a-zA-Z0-9.-]+\.[a-zA-Z]{2,}$

  predicate IsAsciiLetter(c: char) {
    ('a' <= c <= 'z') || ('A' <= c <= 'Z')
  }

  predicate IsAsciiDigit(c: char) {
    '0' <= c <= '9'
  }

  /** The class `[a-zA-Z0-9._%+-]` of the local part. */
  predicate IsLocalChar(c: char) {
    IsAsciiLetter(c) || IsAsciiDigit(c) || c in {'.', '_', '%', '+', '-'}
  }

  /** The class `[a-zA-Z0-9.-]` of the domain. */
  predicate IsDomainChar(c: char) {
    IsAsciiLetter(c) || IsAsciiDigit(c) || c in {'.', '-'}
  }

  /**
   * `s` splits as local `@` domain `.` label with the '@' at `at` and the final
   * '.' at `dot`: a non-empty local part, a non-empty domain and a label of at
   * least two letters, each drawn from its class.
   */
  ghost predicate EmailSplit(s: string, at: int, dot: int) {
    1 <= at && at + 2 <= dot && dot + 3 <= |s| &&
    s[at] == '@' && s[dot] == '.' &&
    (forall k :: 0 <= k < at ==> IsLocalChar(s[k])) &&
    (forall k :: at < k < dot ==> IsDomainChar(s[k])) &&
    (forall k :: dot < k < |s| ==> IsAsciiLetter(s[k]))
  }

  /** The whole of `s` matches the pattern (with `$` read as the end of `s`). */
  ghost predicate EmailShape(s: string) {
    exists at, dot :: EmailSplit(s, at, dot)
  }

  /** Index of the first `c` in `s`, or `|s|` when there is none. */
  function IndexOf(s: string, c: char): (r: nat)
    ensures r <= |s| && (r < |s| ==> s[r] == c)
    ensures forall k :: 0 <= k < r ==> s[k] != c
  {
    if s == [] then 0 else if s[0] == c then 0 else 1 + IndexOf(s[1..], c)
  }

  /** Index of the last `c` in `s`, or -1 when there is none. */
  function LastIndexOf(s: string, c: char): (r: int)
    ensures -1 <= r < |s| && (r >= 0 ==> s[r] == c)
    ensures forall k :: r < k < |s| ==> s[k] != c
  {
    if s == [] then -1
    else if s[|s| - 1] == c then |s| - 1
    else LastIndexOf(s[..|s| - 1], c)
  }

  /** The matcher: the '@' is the first one, the '.' before the label is the last one. */
  function MatchesEmail(s: string): bool {
    var at := IndexOf(s, '@');
    var dot := LastIndexOf(s, '.');
    1 <= at && at + 2 <= dot && dot + 3 <= |s| &&
    (forall k :: 0 <= k < at ==> IsLocalChar(s[k])) &&
    (forall k :: at < k < dot ==> IsDomainChar(s[k])) &&
    (forall k :: dot < k < |s| ==> IsAsciiLetter(s[k]))
  }

  /** The matcher accepts exactly the strings of the pattern's shape. */
  lemma MatchesEmailCorrect(s: string)
    ensures MatchesEmail(s) <==> EmailShape(s)
  {
    if MatchesEmail(s) {
      assert EmailSplit(s, IndexOf(s, '@'), LastIndexOf(s, '.'));
    }
    if EmailShape(s) {
      var at, dot :| EmailSplit(s, at, dot);
      assert forall k :: 0 <= k < at ==> s[k] != '@';
      assert forall k :: dot < k < |s| ==> s[k] != '.';
      assert IndexOf(s, '@') == at && LastIndexOf(s, '.') == dot;
    }
  }

  /** A matching address holds exactly one '@'. */
  lemma EmailHasOneAt(s: string, at: int, dot: int)
    requires EmailSplit(s, at, dot)
    ensures forall k :: 0 <= k < |s| && s[k] == '@' ==> k == at
  {
  }

  /**
   * `re.match(pattern, v)`: the match is anchored at the start, and `$` matches
   * at the end of `v` or just before a newline that ends `v`.
   */
  function RegexMatch(v: string): bool {
    MatchesEmail(v) || (v != [] && v[|v| - 1] == '\n' && MatchesEmail(v[..|v| - 1]))
  }

  /** The regular expression accepts `v` itself or `v` less one final newline. */
  lemma RegexMatchCorrect(v: string)
    ensures RegexMatch(v) <==> EmailShape(v) || (v != [] && v[|v| - 1] == '\n' && EmailShape(v[..|v| - 1]))
  {
    MatchesEmailCorrect(v);
    if v != [] {
      MatchesEmailCorrect(v[..|v| - 1]);
    }
  }

  const EmailError := "Invalid email format"

  /**
   * `validate_email`: the regular expression is tried on the raw value and the
   * stripped value is returned.
   */
  function ValidateEmail(v: string): (r: Result<string, string>)
    ensures r.Ok? <==> EmailShape(v) || (v != [] && v[|v| - 1] == '\n' && EmailShape(v[..|v| - 1]))
    ensures r.Ok? ==> EmailShape(r.value) && (v == r.value || v == r.value + "\n")
    ensures r.Err? ==> r.error == EmailError
  {
    RegexMatchCorrect(v);
    if RegexMatch(v) then
      var r := Strip(v);
      EmailShapeStrip(v);
      Ok(r)
    else
      Err(EmailError)
  }

  /** What `strip()` leaves of an accepted address. */
  lemma EmailShapeStrip(v: string)
    requires EmailShape(v) || (v != [] && v[|v| - 1] == '\n' && EmailShape(v[..|v| - 1]))
    ensures EmailShape(Strip(v)) && (v == Strip(v) || v == Strip(v) + "\n")
  {
    if EmailShape(v) {
      var at, dot :| EmailSplit(v, at, dot);
      assert IsLocalChar(v[0]) && IsAsciiLetter(v[|v| - 1]);
      StripKeeps(v);
    } else {
      var s := v[..|v| - 1];
      var at, dot :| EmailSplit(s, at, dot);
      assert IsLocalChar(s[0]) && IsAsciiLetter(s[|s| - 1]);
      assert v == s + "\n";
      StripDropsFinalNewline(s);
    }
  }
}
