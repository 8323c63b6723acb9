/**
 * The account validators of src/utilities/user.ts: the username and email
 * regular expressions, read construct by construct as a JavaScript regex
 * engine (no flags) reads them, and the three validators that return either
 * nothing or a one-entry list of field errors. The database lookups of the
 * validators become a set of emails or usernames already registered.
 */
module UserUtilities {

  /** A GraphQL `FieldError`: which input field is wrong and why. */
  datatype FieldError = FieldError(field: string, message: string)

  /** What a validator returns: `{}` or `{ errors: [...] }`. */
  datatype Validation = Accepted | Rejected(errors: seq<FieldError>)

  const EmailFormatMessage := "Please check your email address"
  const EmailTakenMessage := "User already exists. Please sign in."
  const UsernameFormatMessage := "Please choose a username with only letter, numbers, underscores and hyphens."
  const UsernameTakenMessage := "Username is not currently available, please choose another."
  const LoginUsernameMessage := "Please check your username."

  // ---------------------------------------------------------------------
  // /^[A-Z,a-z,0-9,-,_]+$/
  // ---------------------------------------------------------------------

  predicate InRange(c: char, lo: char, hi: char) {
    lo <= c <= hi
  }

  /**
   * The character class `[A-Z,a-z,0-9,-,_]`, item by item: the range A-Z,
   * a literal comma, the range a-z, a comma, the range 0-9, the range `,-,`
   * (from comma to comma, so a hyphen is not in it) and an underscore.
   */
  predicate UsernameClass(c: char) {
    InRange(c, 'A', 'Z') || c == ',' || InRange(c, 'a', 'z') || c == ','
    || InRange(c, '0', '9') || InRange(c, ',', ',') || c == '_'
  }

  /** The whole anchored pattern: one or more characters of the class. */
  function UsernamePattern(s: string): (b: bool)
    ensures b ==> |s| >= 1 && '-' !in s && ' ' !in s && '@' !in s
  {
    |s| >= 1 && forall i :: 0 <= i < |s| ==> UsernameClass(s[i])
  }

  // ---------------------------------------------------------------------
  // The email pattern
  //   ^(([^<>()\[\]\\.,;:\s@"]+(\.[^<>()\[\]\\.,;:\s@"]+)*)|(".+"))
  //   @((\[[0-9]{1,3}\.[0-9]{1,3}\.[0-9]{1,3}\.[0-9]{1,3}])|(([a-zA-Z\-0-9]+\.)+[a-zA-Z]{2,}))$
  // ---------------------------------------------------------------------

  /** JavaScript's `\s`: the WhiteSpace and LineTerminator code points. */
  predicate JsWhitespace(c: char) {
    c == '\t' || c == '\n' || c == '\U{000B}' || c == '\U{000C}' || c == '\r' || c == ' '
    || c == '\U{00A0}' || c == '\U{1680}' || InRange(c, '\U{2000}', '\U{200A}')
    || c == '\U{2028}' || c == '\U{2029}' || c == '\U{202F}' || c == '\U{205F}'
    || c == '\U{3000}' || c == '\U{FEFF}'
  }

  /** The characters that `.` does not match without the `s` flag. */
  predicate LineTerminator(c: char) {
    c == '\n' || c == '\r' || c == '\U{2028}' || c == '\U{2029}'
  }

  /** `[^<>()\[\]\\.,;:\s@"]` */
  function AtomChar(c: char): (b: bool)
    ensures b ==> c != '.' && c != '@' && c != '"' && c != ' '
  {
    c !in "<>()[]\\.,;:@\"" && !JsWhitespace(c)
  }

  /** `[^<>()\[\]\\.,;:\s@"]+` */
  predicate Atom(s: string) {
    |s| >= 1 && forall i :: 0 <= i < |s| ==> AtomChar(s[i])
  }

  /** `A+(\.A+)*` with `A` the atom class: one atom, or an atom, a dot and more. */
  function DotAtoms(s: string): (b: bool)
    ensures b ==> |s| >= 1 && AtomChar(s[0]) && AtomChar(s[|s| - 1])
    decreases |s|
  {
    Atom(s) || exists i {:trigger Atom(s[..i])} | 0 < i < |s| :: s[i] == '.' && Atom(s[..i]) && DotAtoms(s[i + 1..])
  }

  /** `".+"`: a quote, at least one character other than a line terminator, a quote. */
  predicate QuotedLocal(s: string) {
    |s| >= 3 && s[0] == '"' && s[|s| - 1] == '"'
    && forall i :: 1 <= i < |s| - 1 ==> !LineTerminator(s[i])
  }

  /** The part before the `@`. */
  function LocalPart(s: string): (b: bool)
    ensures b ==> |s| >= 1 && s[0] != '.' && s[0] != '@'
  {
    DotAtoms(s) || QuotedLocal(s)
  }

  predicate Digit(c: char) {
    InRange(c, '0', '9')
  }

  predicate Letter(c: char) {
    InRange(c, 'a', 'z') || InRange(c, 'A', 'Z')
  }

  /** `[0-9]{1,3}` */
  predicate Octet(s: string) {
    1 <= |s| <= 3 && forall i :: 0 <= i < |s| ==> Digit(s[i])
  }

  /** `n` octets separated by single dots. */
  predicate DigitGroups(s: string, n: nat)
    decreases n
  {
    if n <= 1 then n == 1 && Octet(s)
    else exists i {:trigger Octet(s[..i])} | 0 < i < |s| :: s[i] == '.' && Octet(s[..i]) && DigitGroups(s[i + 1..], n - 1)
  }

  /** `\[O\.O\.O\.O]` */
  predicate BracketedQuad(s: string) {
    |s| >= 2 && s[0] == '[' && s[|s| - 1] == ']' && DigitGroups(s[1..|s| - 1], 4)
  }

  /** `[a-zA-Z\-0-9]` */
  predicate LabelChar(c: char) {
    Letter(c) || c == '-' || Digit(c)
  }

  /** `[a-zA-Z\-0-9]+` */
  predicate Label(s: string) {
    |s| >= 1 && forall i :: 0 <= i < |s| ==> LabelChar(s[i])
  }

  /** `([a-zA-Z\-0-9]+\.)+`: one or more labels, each followed by a dot. */
  function Labels(s: string): (b: bool)
    ensures b ==> |s| >= 2 && LabelChar(s[0]) && s[|s| - 1] == '.'
    decreases |s|
  {
    exists i {:trigger Label(s[..i])} | 0 < i < |s| :: s[i] == '.' && Label(s[..i]) && (i == |s| - 1 || Labels(s[i + 1..]))
  }

  /** `[a-zA-Z]{2,}` */
  predicate TopLevel(s: string) {
    |s| >= 2 && forall i :: 0 <= i < |s| ==> Letter(s[i])
  }

  /** `([a-zA-Z\-0-9]+\.)+[a-zA-Z]{2,}` */
  function HostName(s: string): (b: bool)
    ensures b ==> |s| >= 4 && LabelChar(s[0]) && Letter(s[|s| - 2]) && Letter(s[|s| - 1])
  {
    exists i {:trigger Labels(s[..i])} | 0 < i < |s| :: Labels(s[..i]) && TopLevel(s[i..])
  }

  /** The part after the `@`. */
  function Domain(s: string): (b: bool)
    ensures b ==> |s| >= 4 && (s[0] == '[' || LabelChar(s[0])) && (s[|s| - 1] == ']' || Letter(s[|s| - 1]))
  {
    BracketedQuad(s) || HostName(s)
  }

  /** The whole anchored email pattern: some `@` splits the string into a local part and a domain. */
  function EmailPattern(s: string): (b: bool)
    ensures b ==> |s| >= 6 && s[0] != '@' && s[|s| - 1] != '@'
    ensures b ==> exists i :: 0 < i < |s| - 1 && s[i] == '@'
  {
    exists i {:trigger LocalPart(s[..i])} | 0 <= i < |s| :: s[i] == '@' && LocalPart(s[..i]) && Domain(s[i + 1..])
  }

  // ---------------------------------------------------------------------
  // The validators
  // ---------------------------------------------------------------------

  /**
   * `validEmail`: the format is checked first, then whether a user with that
   * email already exists.
   */
  function ValidEmail(email: string, registered: set<string>): (r: Validation)
    ensures r.Accepted? <==> EmailPattern(email) && email !in registered
    ensures r.Rejected? ==> |r.errors| == 1 && r.errors[0].field == "email"
  {
    if !EmailPattern(email) then
      Rejected([FieldError("email", EmailFormatMessage)])
    else if email in registered then
      Rejected([FieldError("email", EmailTakenMessage)])
    else
      Accepted
  }

  /**
   * `validUsername`: the format is checked first, then whether a user with
   * that username already exists.
   */
  function ValidUsername(username: string, taken: set<string>): (r: Validation)
    ensures r.Accepted? <==> UsernamePattern(username) && username !in taken
    ensures r.Rejected? ==> |r.errors| == 1 && r.errors[0].field == "username"
  {
    if !UsernamePattern(username) then
      Rejected([FieldError("username", UsernameFormatMessage)])
    else if username in taken then
      Rejected([FieldError("username", UsernameTakenMessage)])
    else
      Accepted
  }

  /** `validLoginUsername`: the format check only; no store is consulted. */
  function ValidLoginUsername(username: string): (r: Validation)
    ensures r.Accepted? <==> UsernamePattern(username)
    ensures r.Rejected? ==> r.errors == [FieldError("username", LoginUsernameMessage)]
  {
    if !UsernamePattern(username) then
      Rejected([FieldError("username", LoginUsernameMessage)])
    else
      Accepted
  }
}
