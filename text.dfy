/**
 * String helpers with the semantics of the PHP built-ins the controller uses:
 * PCRE `\w`, `strtolower`, `strpos`, `basename`, integer-to-string
 * interpolation, PHP truthiness of strings and the NotBlank rule.
 */
module Text {
  import opened Wrappers

  /** PCRE `\w` without the `u` modifier: ASCII letters, digits and underscore. */
  predicate IsWordChar(c: char) {
    ('a' <= c <= 'z') || ('A' <= c <= 'Z') || ('0' <= c <= '9') || c == '_'
  }

  predicate IsWord(s: string) {
    forall i :: 0 <= i < |s| ==> IsWordChar(s[i])
  }

  /** `strtolower` (locale-independent since PHP 8.2): ASCII upper case only. */
  function LowerChar(c: char): char {
    if 'A' <= c <= 'Z' then (c as int + 32) as char else c
  }

  /**
   * Same length; no ASCII upper-case letter is left; every other character is
   * kept; each upper-case letter becomes the letter 32 code points above it.
   */
  function ToLower(s: string): (r: string)
    ensures |r| == |s|
    ensures forall i :: 0 <= i < |r| ==> !('A' <= r[i] <= 'Z')
    ensures forall i :: 0 <= i < |s| && !('A' <= s[i] <= 'Z') ==> r[i] == s[i]
    ensures forall i :: 0 <= i < |s| && 'A' <= s[i] <= 'Z' ==> r[i] as int == s[i] as int + 32 && 'a' <= r[i] <= 'z'
  {
    seq(|s|, i requires 0 <= i < |s| => LowerChar(s[i]))
  }

  /** Lower-casing twice is lower-casing once. */
  lemma ToLowerIdempotent(s: string)
    ensures ToLower(ToLower(s)) == ToLower(s)
  {
    var r := ToLower(s);
    assert forall i :: 0 <= i < |r| ==> ToLower(r)[i] == r[i];
  }

  /** `strpos($s, $c)`: the first position of `c`, or None for PHP's `false`. */
  function IndexOf(s: string, c: char): (r: Option<nat>)
    ensures r.Some? ==> r.value < |s| && s[r.value] == c && c !in s[..r.value]
    ensures r.None? ==> c !in s
  {
    if |s| == 0 then None
    else if s[0] == c then Some(0)
    else match IndexOf(s[1..], c)
      case None => None
      case Some(k) => assert s[..k + 1] == [s[0]] + s[1..][..k]; Some(k + 1)
  }

  // ---------------------------------------------------------------------------
  // Decimal ids: "{$id}" interpolation of an integer and its parse back.

  predicate IsDigit(c: char) {
    '0' <= c <= '9'
  }

  predicate IsDigits(s: string) {
    forall i :: 0 <= i < |s| ==> IsDigit(s[i])
  }

  function DigitChar(d: nat): char
    requires d < 10
  {
    ('0' as int + d) as char
  }

  /** Decimal rendering of a non-negative integer, as PHP interpolates it. */
  function Decimal(n: nat): (r: string)
    ensures |r| >= 1 && IsDigits(r)
    decreases n
  {
    if n < 10 then [DigitChar(n)] else Decimal(n / 10) + [DigitChar(n % 10)]
  }

  /** Value of a string of decimal digits, most significant first. */
  function DigitsValue(s: string): nat
    requires IsDigits(s)
  {
    if |s| == 0 then 0
    else DigitsValue(s[..|s| - 1]) * 10 + (s[|s| - 1] as int - '0' as int)
  }

  /** The integer id a repository lookup reads from a string key: digits only. */
  function ParseDecimal(s: string): (r: Option<nat>)
    ensures r.Some? <==> |s| >= 1 && IsDigits(s)
  {
    if |s| >= 1 && IsDigits(s) then Some(DigitsValue(s)) else None
  }

  lemma {:induction false} DigitsValueOfDecimal(n: nat)
    ensures DigitsValue(Decimal(n)) == n
    decreases n
  {
    if n >= 10 {
      var s := Decimal(n);
      assert s[..|s| - 1] == Decimal(n / 10);
      DigitsValueOfDecimal(n / 10);
    }
  }

  /** Reading an interpolated id back gives the id. */
  lemma ParseDecimalOfDecimal(n: nat)
    ensures ParseDecimal(Decimal(n)) == Some(n)
  {
    DigitsValueOfDecimal(n);
  }

  // ---------------------------------------------------------------------------
  // basename()

  /** The longest prefix of `s` that does not end with '/': only slashes are removed. */
  function StripTrailingSlashes(s: string): (r: string)
    ensures |r| <= |s| && r == s[..|r|]
    ensures |r| == 0 || r[|r| - 1] != '/'
    ensures forall i :: |r| <= i < |s| ==> s[i] == '/'
  {
    if |s| > 0 && s[|s| - 1] == '/' then StripTrailingSlashes(s[..|s| - 1]) else s
  }

  /** The part of `s` after its last '/', or all of `s` when it has none. */
  function AfterLastSlash(s: string): (r: string)
    ensures '/' !in r
    ensures |r| <= |s| && r == s[|s| - |r|..]
    ensures |r| == |s| || s[|s| - |r| - 1] == '/'
  {
    if |s| == 0 || s[|s| - 1] == '/' then []
    else AfterLastSlash(s[..|s| - 1]) + [s[|s| - 1]]
  }

  /**
   * PHP `basename` on a POSIX path (no suffix argument): with the trailing
   * slashes removed, the slash-free tail that is either the whole rest or
   * preceded by '/'.
   */
  function Basename(path: string): (r: string)
    ensures '/' !in r
    ensures var t := StripTrailingSlashes(path);
      |r| <= |t| && r == t[|t| - |r|..] && (|r| == |t| || t[|t| - |r| - 1] == '/')
  {
    AfterLastSlash(StripTrailingSlashes(path))
  }

  lemma {:induction false} AfterLastSlashOfSegment(dir: string, name: string)
    requires |dir| > 0 && dir[|dir| - 1] == '/'
    requires '/' !in name
    ensures AfterLastSlash(dir + name) == name
    decreases |name|
  {
    if |name| == 0 {
      assert dir + name == dir;
    } else {
      var s := dir + name;
      assert s[..|s| - 1] == dir + name[..|name| - 1];
      AfterLastSlashOfSegment(dir, name[..|name| - 1]);
      assert name == name[..|name| - 1] + [name[|name| - 1]];
    }
  }

  /** The last segment of a path whose directory part ends with '/'. */
  lemma BasenameOfSegment(dir: string, name: string)
    requires |dir| > 0 && dir[|dir| - 1] == '/'
    requires |name| > 0 && '/' !in name
    ensures Basename(dir + name) == name
  {
    assert (dir + name)[|dir + name| - 1] == name[|name| - 1];
    AfterLastSlashOfSegment(dir, name);
  }

  // ---------------------------------------------------------------------------
  // PHP truthiness and the NotBlank constraint on optional strings.

  /** `if ($s)` for a string or null: "" and "0" are falsy. */
  predicate IsTruthy(s: Option<string>) {
    s.Some? && s.value != "" && s.value != "0"
  }

  /** Symfony NotBlank on a string or null: null and "" are blank, "0" is not. */
  predicate IsBlank(s: Option<string>) {
    s.None? || s.value == ""
  }
}
