/** The username gate shown before a quiz can start: JavaScript's
    `String.prototype.trim`, the UTF-16 length the checks use, and the four
    ordered checks whose first failure decides the error. */
module Username {
  import opened Wrappers

  /** ECMAScript WhiteSpace and LineTerminator code points: the set that both
      `trim` removes and the regular-expression class `\s` matches. */
  predicate IsWhitespace(c: char) {
    var n := c as int;
    || n == 0x09 || n == 0x0A || n == 0x0B || n == 0x0C || n == 0x0D
    || n == 0x20 || n == 0xA0 || n == 0x1680
    || (0x2000 <= n <= 0x200A)
    || n == 0x2028 || n == 0x2029 || n == 0x202F || n == 0x205F
    || n == 0x3000 || n == 0xFEFF
  }

  /** Number of leading whitespace characters of `s`. */
  function LeadingSpace(s: string): (k: nat)
    ensures k <= |s|
    ensures forall i :: 0 <= i < k ==> IsWhitespace(s[i])
    ensures k < |s| ==> !IsWhitespace(s[k])
  {
    if |s| == 0 || !IsWhitespace(s[0]) then 0 else 1 + LeadingSpace(s[1..])
  }

  /** Number of trailing whitespace characters of `s`. */
  function TrailingSpace(s: string): (k: nat)
    ensures k <= |s|
    ensures forall i :: |s| - k <= i < |s| ==> IsWhitespace(s[i])
    ensures k < |s| ==> !IsWhitespace(s[|s| - k - 1])
  {
    if |s| == 0 || !IsWhitespace(s[|s| - 1]) then 0 else 1 + TrailingSpace(s[..|s| - 1])
  }

  /** `s.trim()`: the infix of `s` left once every leading and trailing
      whitespace character is removed. */
  function Trim(s: string): (r: string)
    ensures LeadingSpace(s) + |r| <= |s|
    ensures r == s[LeadingSpace(s)..LeadingSpace(s) + |r|]
    ensures forall i :: 0 <= i < LeadingSpace(s) ==> IsWhitespace(s[i])
    ensures forall i :: LeadingSpace(s) + |r| <= i < |s| ==> IsWhitespace(s[i])
    ensures |r| > 0 ==> !IsWhitespace(r[0]) && !IsWhitespace(r[|r| - 1])
  {
    var t := s[LeadingSpace(s)..];
    t[..|t| - TrailingSpace(t)]
  }

  /** JavaScript's `length`: characters outside the Basic Multilingual Plane
      take two UTF-16 code units. */
  function Utf16Length(s: string): (n: nat)
    ensures |s| <= n <= 2 * |s|
  {
    if |s| == 0 then 0
    else (if s[0] as int > 0xFFFF then 2 else 1) + Utf16Length(s[1..])
  }

  /** A character of the class `[a-zA-Z0-9_\s]`. */
  predicate IsAllowedChar(c: char) {
    || ('a' <= c <= 'z') || ('A' <= c <= 'Z') || ('0' <= c <= '9')
    || c == '_' || IsWhitespace(c)
  }

  /** The four rejection reasons, in the order they are checked. */
  datatype UsernameError = Empty | TooShort | TooLong | InvalidCharacters

  /** The message shown for each rejection. */
  function Message(e: UsernameError): (m: string) {
    match e
    case Empty => "Username tidak boleh kosong"
    case TooShort => "Username minimal 2 karakter"
    case TooLong => "Username maksimal 20 karakter"
    case InvalidCharacters => "Username hanya boleh huruf, angka, spasi, dan underscore"
  }

  /** `handleUsernameSubmit`'s checks on the raw input: the trimmed name, or
      the first check that fails. */
  function Validate(raw: string): (r: Result<string, UsernameError>)
    ensures r.Ok? <==>
      && |Trim(raw)| > 0
      && 2 <= Utf16Length(Trim(raw)) <= 20
      && forall i :: 0 <= i < |Trim(raw)| ==> IsAllowedChar(Trim(raw)[i])
    ensures r.Ok? ==> r.value == Trim(raw)
    ensures r == Err(Empty) <==> |Trim(raw)| == 0
    ensures r == Err(TooShort) <==> |Trim(raw)| > 0 && Utf16Length(Trim(raw)) < 2
    ensures r == Err(TooLong) <==> Utf16Length(Trim(raw)) > 20
    ensures r == Err(InvalidCharacters) <==>
      && 2 <= Utf16Length(Trim(raw)) <= 20
      && exists i :: 0 <= i < |Trim(raw)| && !IsAllowedChar(Trim(raw)[i])
  {
    var t := Trim(raw);
    if |t| == 0 then Err(Empty)
    else if Utf16Length(t) < 2 then Err(TooShort)
    else if Utf16Length(t) > 20 then Err(TooLong)
    else if exists i :: 0 <= i < |t| && !IsAllowedChar(t[i]) then Err(InvalidCharacters)
    else Ok(t)
  }

  /** Trimming is idempotent. */
  lemma {:induction false} TrimIdempotent(s: string)
    ensures Trim(Trim(s)) == Trim(s)
  {
  }

  /** The gate depends only on the trimmed input. */
  lemma ValidateIgnoresSurroundingSpace(raw: string)
    ensures Validate(Trim(raw)) == Validate(raw)
  {
    TrimIdempotent(raw);
  }

  /** An accepted name is a nonempty word of allowed characters with no
      surrounding whitespace, of length 2 to 20, that the gate accepts again. */
  lemma AcceptedNameIsClean(raw: string)
    requires Validate(raw).Ok?
    ensures var n := Validate(raw).value;
      && 2 <= Utf16Length(n) <= 20
      && !IsWhitespace(n[0]) && !IsWhitespace(n[|n| - 1])
      && (forall i :: 0 <= i < |n| ==> IsAllowedChar(n[i]))
      && Validate(n) == Ok(n)
  {
    TrimIdempotent(raw);
  }

  /** A single letter is too short; two letters pass. */
  lemma ShortNames()
    ensures Validate("a") == Err(TooShort)
    ensures Validate(" a ") == Err(TooShort)
    ensures Validate("ab") == Ok("ab")
  {
    assert LeadingSpace("a") == 0;
    assert TrailingSpace("a") == 0;
    assert LeadingSpace(" a ") == 1;
    assert TrailingSpace("a ") == 1;
    assert LeadingSpace("ab") == 0;
    assert TrailingSpace("ab") == 0;
    assert Trim("ab") == "ab";
    assert Utf16Length("ab") == 2;
    assert forall i :: 0 <= i < |"ab"| ==> IsAllowedChar("ab"[i]);
  }
}
