/**
 * The sign-up checks (middleware/user.go): the username must be ASCII
 * alphanumeric and not taken by another account once case is ignored, and
 * the role must be one of the three role names, spelled exactly.
 */
module UserRules {
  import opened Wrappers
  import opened Errors
  import opened Entities

  /** The characters of the pattern [a-zA-Z0-9]. */
  predicate IsAlnum(c: char) {
    ('a' <= c <= 'z') || ('A' <= c <= 'Z') || ('0' <= c <= '9')
  }

  /** The username matches ^[a-zA-Z0-9]+$. */
  predicate IsAlphanumeric(s: string) {
    |s| > 0 && forall i :: 0 <= i < |s| ==> IsAlnum(s[i])
  }

  function LowerChar(c: char): char {
    if 'A' <= c <= 'Z' then (c as int - 'A' as int + 'a' as int) as char else c
  }

  /** Lower-casing of ASCII letters; other characters are kept. */
  function ToLower(s: string): (r: string)
    ensures |r| == |s|
    ensures forall i :: 0 <= i < |s| ==> r[i] == LowerChar(s[i])
  {
    if s == [] then [] else [LowerChar(s[0])] + ToLower(s[1..])
  }

  /** Some account already holds this name, compared without case. */
  predicate NameTaken(usernames: set<string>, username: string) {
    exists u :: u in usernames && ToLower(u) == ToLower(username)
  }

  /** ValidateUsername against the usernames already stored. */
  function ValidateUsername(usernames: set<string>, username: string): (r: Option<SignupError>)
    ensures r == Some(NotAlphanumeric) <==> !IsAlphanumeric(username)
    ensures r == Some(UsernameTaken) <==> IsAlphanumeric(username) && NameTaken(usernames, username)
    ensures r.None? <==> IsAlphanumeric(username) && !NameTaken(usernames, username)
  {
    if !IsAlphanumeric(username) then Some(NotAlphanumeric)
    else
      var lowered := ToLower(username);
      if exists u :: u in usernames && ToLower(u) == lowered then Some(UsernameTaken) else None
  }

  /** ValidateRole: exactly "Student", "Admin" or "Mentor". */
  function ValidateRole(role: string): (r: Option<SignupError>)
    ensures r.None? <==> role == Student || role == Admin || role == Mentor
    ensures r.Some? ==> r == Some(InvalidRole)
  {
    if role == Student || role == Admin || role == Mentor then None else Some(InvalidRole)
  }

  /** The sign-up request (model.UserSignup). */
  datatype UserSignup = UserSignup(username: string, email: string, password: string, role: string)

  /**
   * ValidateUserSignup: the struct validator's verdict first, then the
   * username, then the role; the first failure is reported.
   */
  function ValidateUserSignup(structCheck: Option<string>, usernames: set<string>, signup: UserSignup): (r: Option<SignupError>)
    ensures structCheck.Some? ==> r == Some(StructInvalid(structCheck.value))
    ensures structCheck.None? && ValidateUsername(usernames, signup.username).Some? ==> r == ValidateUsername(usernames, signup.username)
    ensures structCheck.None? && ValidateUsername(usernames, signup.username).None? ==> r == ValidateRole(signup.role)
    ensures r.None? <==> && structCheck.None? && IsAlphanumeric(signup.username)
                         && !NameTaken(usernames, signup.username) && ValidateRole(signup.role).None?
  {
    if structCheck.Some? then Some(StructInvalid(structCheck.value))
    else
      var nameError := ValidateUsername(usernames, signup.username);
      if nameError.Some? then nameError
      else ValidateRole(signup.role)
  }

  /** Lower-casing keeps a character alphanumeric exactly when it was. */
  lemma LowerCharAlnum(c: char)
    ensures IsAlnum(LowerChar(c)) <==> IsAlnum(c)
  {
  }

  /**
   * The username check cannot tell apart names that differ only in case:
   * they are both rejected or both accepted.
   */
  lemma UsernameCheckIgnoresCase(usernames: set<string>, a: string, b: string)
    requires ToLower(a) == ToLower(b)
    ensures ValidateUsername(usernames, a) == ValidateUsername(usernames, b)
  {
    assert |a| == |b|;
    forall i | 0 <= i < |a|
      ensures IsAlnum(a[i]) <==> IsAlnum(b[i])
    {
      LowerCharAlnum(a[i]);
      LowerCharAlnum(b[i]);
      assert LowerChar(a[i]) == ToLower(a)[i] == ToLower(b)[i] == LowerChar(b[i]);
    }
    assert IsAlphanumeric(a) <==> IsAlphanumeric(b);
  }

  /** Once a name is stored, a sign-up under any casing of it is refused. */
  lemma StoredNameIsTaken(usernames: set<string>, name: string, attempt: string)
    requires name in usernames && IsAlphanumeric(attempt) && ToLower(attempt) == ToLower(name)
    ensures ValidateUsername(usernames, attempt) == Some(UsernameTaken)
  {
  }
}
