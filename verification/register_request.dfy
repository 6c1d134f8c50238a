/**
 * The request bodies of the auth endpoints and the bean-validation rules of
 * `RegisterRequest`.
 */
module Requests {
  import opened Wrappers

  datatype RegisterRequest = RegisterRequest(nickname: string, email: string, password: string)

  /** The body of `/logout`; its `refreshToken` may itself be null. */
  datatype LogoutRequest = LogoutRequest(refreshToken: Option<string>)

  /** `@NotBlank`: not null and something other than whitespace (a character above ' ') remains after trimming. */
  predicate NotBlank(s: string) {
    exists i :: 0 <= i < |s| && s[i] > ' '
  }

  predicate IsLower(c: char) { 'a' <= c <= 'z' }
  predicate IsUpper(c: char) { 'A' <= c <= 'Z' }
  predicate IsDigit(c: char) { '0' <= c <= '9' }
  predicate IsSpecial(c: char) { c in "@$!%*?&" }

  /** The password alphabet `[A-Za-z\d@$!%*?&]`. */
  predicate InAlphabet(c: char) {
    IsLower(c) || IsUpper(c) || IsDigit(c) || IsSpecial(c)
  }

  predicate Contains(s: string, p: char -> bool) {
    exists i :: 0 <= i < |s| && p(s[i])
  }

  /**
   * The password `@Pattern`: one or more characters of the alphabet, with at
   * least one lower-case letter, one upper-case letter, one digit and one of
   * the special characters (the four look-aheads).
   */
  predicate PasswordPattern(p: string) {
    |p| > 0 &&
    (forall i :: 0 <= i < |p| ==> InAlphabet(p[i])) &&
    Contains(p, IsLower) && Contains(p, IsUpper) && Contains(p, IsDigit) && Contains(p, IsSpecial)
  }

  /** All three password constraints: `@NotBlank`, `@Size(min = 8)` and `@Pattern`. */
  predicate ValidPassword(p: string) {
    NotBlank(p) && |p| >= 8 && PasswordPattern(p)
  }

  /** The nickname's `@NotBlank` and `@Size(min = 5, max = 20)`. */
  predicate ValidNickname(n: string) {
    NotBlank(n) && 5 <= |n| <= 20
  }

  /** The request passes `@Valid` (the nickname's Unicode pattern and `@Email` are not part of this model). */
  predicate ValidRegisterRequest(r: RegisterRequest) {
    ValidNickname(r.nickname) && NotBlank(r.email) && ValidPassword(r.password)
  }

  /** A valid password is at least eight characters drawn from the alphabet, with one of each class. */
  lemma ValidPasswordShape(p: string)
    requires ValidPassword(p)
    ensures |p| >= 8
    ensures forall i :: 0 <= i < |p| ==> InAlphabet(p[i])
    ensures exists i :: 0 <= i < |p| && IsLower(p[i])
    ensures exists i :: 0 <= i < |p| && IsUpper(p[i])
    ensures exists i :: 0 <= i < |p| && IsDigit(p[i])
    ensures exists i :: 0 <= i < |p| && IsSpecial(p[i])
  {
  }

  /**
   * The password constraints exactly: a password passes `@Valid` if and only if
   * it has at least eight characters, all from the alphabet, with one of each
   * class; `@NotBlank` adds nothing the pattern does not already demand.
   */
  lemma ValidPasswordIff(p: string)
    ensures ValidPassword(p) <==> |p| >= 8 && PasswordPattern(p)
    ensures ValidPassword(p) <==>
            |p| >= 8 && (forall i :: 0 <= i < |p| ==> InAlphabet(p[i])) &&
            Contains(p, IsLower) && Contains(p, IsUpper) && Contains(p, IsDigit) && Contains(p, IsSpecial)
  {
  }

  /** `String.trim`: drops every character up to ' ' from both ends. */
  function Trim(s: string): (r: string)
    ensures |r| <= |s|
  {
    TrimTrailing(TrimLeading(s))
  }

  function TrimLeading(s: string): (r: string)
    ensures |r| <= |s|
    ensures r == s[|s| - |r|..]
    ensures |r| > 0 ==> r[0] > ' '
    ensures forall i :: 0 <= i < |s| - |r| ==> s[i] <= ' '
  {
    if |s| > 0 && s[0] <= ' ' then TrimLeading(s[1..]) else s
  }

  function TrimTrailing(s: string): (r: string)
    ensures |r| <= |s|
    ensures r == s[..|r|]
    ensures |r| > 0 ==> r[|r| - 1] > ' '
    ensures forall i :: |r| <= i < |s| ==> s[i] <= ' '
  {
    if |s| > 0 && s[|s| - 1] <= ' ' then TrimTrailing(s[..|s| - 1]) else s
  }

  /**
   * `@NotBlank` as Hibernate Validator checks it, `trim().length() > 0`, agrees
   * with the character test used here: some character lies above ' '.
   */
  lemma NotBlankIffTrimNonEmpty(s: string)
    ensures NotBlank(s) <==> |Trim(s)| > 0
  {
  }

  /**
   * The nickname constraints exactly: between 5 and 20 characters, and not
   * only whitespace once trimmed.
   */
  lemma NicknameIff(n: string)
    ensures ValidNickname(n) <==> 5 <= |n| <= 20 && |Trim(n)| > 0
  {
  }

  /** The pattern makes `@NotBlank` redundant: every alphabet character lies above ' '. */
  lemma PatternImpliesNotBlank(p: string)
    requires PasswordPattern(p)
    ensures NotBlank(p)
  {
    assert InAlphabet(p[0]);
    assert p[0] > ' ';
  }

  /** Any character outside the alphabet, a space or '#' say, rejects the password. */
  lemma ForeignCharacterRejects(p: string, i: nat)
    requires i < |p| && !InAlphabet(p[i])
    ensures !ValidPassword(p)
  {
  }

  lemma SpaceAndHashAreForeign()
    ensures !InAlphabet(' ') && !InAlphabet('#')
  {
  }

  /** A password meeting the pattern but seven characters long is refused by `@Size`. */
  lemma SevenCharactersRejected()
    ensures PasswordPattern("Abcde1!") && !ValidPassword("Abcde1!")
  {
    assert IsUpper("Abcde1!"[0]) && IsLower("Abcde1!"[1]) && IsDigit("Abcde1!"[5]) && IsSpecial("Abcde1!"[6]);
  }

  lemma SamplePasswordAccepted()
    ensures ValidPassword("Passw0rd!")
  {
    var p := "Passw0rd!";
    assert IsUpper(p[0]) && IsLower(p[1]) && IsDigit(p[5]) && IsSpecial(p[8]);
    assert p[0] > ' ';
  }

  /** A two-letter nickname is refused although the message speaks of "2 to 20"; five letters pass. */
  lemma NicknameBounds()
    ensures !ValidNickname("ab") && !ValidNickname("abcd")
    ensures ValidNickname("abcde")
    ensures !ValidNickname("abcdefghijklmnopqrstu")
  {
    assert "abcde"[0] > ' ';
  }

  /** A nickname of spaces only is blank, whatever its length. */
  lemma BlankNicknameRejected()
    ensures !ValidNickname("       ")
  {
  }
}
