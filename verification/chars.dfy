/** Character classes used by the regular expressions of the service, and
    the ASCII case mapping that the `i` flag and `toLowerCase` /
    `toUpperCase` apply to the characters the patterns can match. */
module Chars {

  predicate IsDigit(c: char) {
    '0' <= c <= '9'
  }

  predicate IsUpper(c: char) {
    'A' <= c <= 'Z'
  }

  predicate IsLower(c: char) {
    'a' <= c <= 'z'
  }

  predicate IsLetter(c: char) {
    IsUpper(c) || IsLower(c)
  }

  /** `[a-zA-Z0-9]` */
  predicate IsAlnum(c: char) {
    IsDigit(c) || IsUpper(c) || IsLower(c)
  }

  /** `[a-fA-F0-9]` */
  predicate IsHex(c: char) {
    IsDigit(c) || 'a' <= c <= 'f' || 'A' <= c <= 'F'
  }

  /** The Base58 alphabet: `[1-9A-HJ-NP-Za-km-z]`, which the service also
      spells `[a-km-zA-HJ-NP-Z1-9]`; both omit `0`, `O`, `I` and `l`. */
  predicate IsBase58(c: char) {
    ('1' <= c <= '9') || (IsUpper(c) && c != 'I' && c != 'O') || (IsLower(c) && c != 'l')
  }

  /** The bech32 data alphabet `[ac-hj-np-z02-9]`: lower-case letters and
      digits except `b`, `i`, `o` and `1`. */
  predicate IsBech32(c: char) {
    (IsLower(c) && c != 'b' && c != 'i' && c != 'o') || (IsDigit(c) && c != '1')
  }

  /** The class of the Bitcoin validator, `[a-zA-HJ-NP-Z0-9]`: it drops
      upper-case `I` and `O` only. */
  predicate IsBitcoinBody(c: char) {
    IsLower(c) || (IsUpper(c) && c != 'I' && c != 'O') || IsDigit(c)
  }

  predicate IsQuote(c: char) {
    c == '\'' || c == '"'
  }

  predicate IsNotQuote(c: char) {
    !IsQuote(c)
  }

  /** ECMAScript `\s`: the WhiteSpace and LineTerminator code points. */
  predicate IsSpace(c: char) {
    var n := c as int;
    (0x09 <= n <= 0x0D) || n == 0x20 || n == 0xA0 || n == 0x1680
    || (0x2000 <= n <= 0x200A) || n == 0x2028 || n == 0x2029
    || n == 0x202F || n == 0x205F || n == 0x3000 || n == 0xFEFF
  }

  function UpperChar(c: char): char {
    if IsLower(c) then (c as int - 32) as char else c
  }

  function LowerChar(c: char): char {
    if IsUpper(c) then (c as int + 32) as char else c
  }

  /** Whether input character `c` matches pattern character `p` under the
      `i` flag.  Without the `u` flag ECMAScript canonicalises both sides
      with `toUpperCase` but never maps a non-ASCII character onto an ASCII
      one, so for the ASCII patterns here only ASCII case pairs match. */
  predicate SameIgnoringCase(c: char, p: char) {
    UpperChar(c) == UpperChar(p)
  }

  /** Only a letter matches a letter under the `i` flag. */
  lemma LetterIgnoringCase(c: char, p: char)
    requires SameIgnoringCase(c, p) && IsLetter(p)
    ensures IsLetter(c)
  {
  }

  /** `String.prototype.toLowerCase` on the ASCII text the matchers capture. */
  function Lower(s: string): string {
    seq(|s|, k requires 0 <= k < |s| => LowerChar(s[k]))
  }

  /** `String.prototype.toUpperCase` on the ASCII text the matchers capture. */
  function Upper(s: string): string {
    seq(|s|, k requires 0 <= k < |s| => UpperChar(s[k]))
  }

  predicate AllLowerLetters(s: string) {
    forall k :: 0 <= k < |s| ==> IsLower(s[k])
  }

  predicate AllUpperLetters(s: string) {
    forall k :: 0 <= k < |s| ==> IsUpper(s[k])
  }

  predicate AllDigits(s: string) {
    forall k :: 0 <= k < |s| ==> IsDigit(s[k])
  }

  /** A text that matches a lower-case word under the `i` flag lower-cases
      to that word. */
  lemma LowerOfCaseInsensitiveMatch(t: string, w: string)
    requires AllLowerLetters(w)
    requires |t| == |w|
    requires forall k :: 0 <= k < |w| ==> SameIgnoringCase(t[k], w[k])
    ensures Lower(t) == w
  {
    forall k | 0 <= k < |w|
      ensures Lower(t)[k] == w[k]
    {
      assert SameIgnoringCase(t[k], w[k]);
    }
  }

  /** A text that matches an upper-case word under the `i` flag upper-cases
      to that word. */
  lemma UpperOfCaseInsensitiveMatch(t: string, w: string)
    requires AllUpperLetters(w)
    requires |t| == |w|
    requires forall k :: 0 <= k < |w| ==> SameIgnoringCase(t[k], w[k])
    ensures Upper(t) == w
  {
    forall k | 0 <= k < |w|
      ensures Upper(t)[k] == w[k]
    {
      assert SameIgnoringCase(t[k], w[k]);
    }
  }
}
