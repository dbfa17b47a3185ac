/** The validators of the employee profile page
    (src/pages/employee/EmployeeProfile.tsx): the profile form (name and email),
    the password-change form, and the strength meter shown under the new
    password. Each validator yields the error record the page shows and whether
    the form may be submitted. */
module EmployeeProfile {
  import opened Common

  /** The keys of the profile form's error record. */
  datatype ProfileField = Name | Email

  /** The keys of the password form's error record. */
  datatype PasswordField = CurrentPassword | NewPassword | ConfirmPassword

  const MinNameLength: nat := 2
  const MinPasswordLength: nat := 8

  // ---------------------------------------------------------------------------
  // Email: /^[^\s@]+@[^\s@]+\.[^\s@]+$/
  // ---------------------------------------------------------------------------

  /** Positions `lo..hi` hold neither white space nor `@` (the class `[^\s@]`). */
  predicate PlainBetween(e: string, lo: int, hi: int) {
    forall k :: lo <= k < hi && 0 <= k < |e| ==> !IsSpace(e[k]) && e[k] != '@'
  }

  /** The regular expression read as a decomposition: a non-empty run, `@`, a
      non-empty run, `.`, a non-empty run, each run free of white space and `@`
      (a run may contain dots). */
  predicate EmailPattern(e: string) {
    exists at, dot ::
      0 < at && at + 1 < dot && dot + 1 < |e| && e[at] == '@' && e[dot] == '.' &&
      PlainBetween(e, 0, at) && PlainBetween(e, at + 1, dot) && PlainBetween(e, dot + 1, |e|)
  }

  /** The test as a scan: the first `@` is not at the start, nothing else is
      white space or `@`, and some `.` after the `@` has a character on each side. */
  function IsValidEmail(e: string): (ok: bool)
    ensures ok ==> forall k :: 0 <= k < |e| ==> !IsSpace(e[k])
  {
    var at := IndexOfChar(e, '@', 0);
    if at <= 0 || at + 2 > |e| then false
    else
      var dot := IndexOfChar(e, '.', at + 2);
      PlainBetween(e, 0, at) && PlainBetween(e, at + 1, |e|) &&
      0 <= dot && dot + 1 < |e|
  }

  /** The scan accepts exactly the strings the regular expression matches. */
  lemma EmailScanMatchesPattern(e: string)
    ensures IsValidEmail(e) <==> EmailPattern(e)
  {
    if IsValidEmail(e) {
      ScanFindsPattern(e);
    }
    if EmailPattern(e) {
      PatternPassesScan(e);
    }
  }

  /** The positions the scan finds witness the regular expression. */
  lemma ScanFindsPattern(e: string)
    requires IsValidEmail(e)
    ensures EmailPattern(e)
  {
    var at := IndexOfChar(e, '@', 0);
    var dot := IndexOfChar(e, '.', at + 2);
    assert 0 < at && at + 1 < dot && dot + 1 < |e| && e[at] == '@' && e[dot] == '.';
    assert PlainBetween(e, at + 1, dot) && PlainBetween(e, dot + 1, |e|);
  }

  /** A match of the regular expression passes every step of the scan. */
  lemma PatternPassesScan(e: string)
    requires EmailPattern(e)
    ensures IsValidEmail(e)
  {
    var at, dot :|
      0 < at && at + 1 < dot && dot + 1 < |e| && e[at] == '@' && e[dot] == '.' &&
      PlainBetween(e, 0, at) && PlainBetween(e, at + 1, dot) && PlainBetween(e, dot + 1, |e|);
    assert IndexOfChar(e, '@', 0) == at;
    assert PlainBetween(e, at + 1, |e|) by {
      forall k | at + 1 <= k < |e| ensures !IsSpace(e[k]) && e[k] != '@' {
        assert k < dot || k == dot || k > dot;
      }
    }
    assert IndexOfChar(e, '.', at + 2) <= dot;
  }

  /** An accepted email has exactly one `@`, no white space, and after the `@`
      a `.` with text on both sides. */
  lemma AcceptedEmailShape(e: string)
    requires IsValidEmail(e)
    ensures Count(e, '@') == 1
    ensures forall k :: 0 <= k < |e| ==> !IsSpace(e[k])
    ensures exists at, dot :: 0 < at && at + 1 < dot && dot + 1 < |e| && e[at] == '@' && e[dot] == '.'
  {
    var at := IndexOfChar(e, '@', 0);
    CountUnique(e, '@', at);
    EmailScanMatchesPattern(e);
  }

  // ---------------------------------------------------------------------------
  // validateProfile
  // ---------------------------------------------------------------------------

  const NameRequired := "Name is required"
  const NameTooShort := "Name must be at least 2 characters"
  const EmailRequired := "Email is required"
  const EmailInvalid := "Please enter a valid email address"

  /** `validateProfile`: the name is checked trimmed, the email's pattern on the
      text as typed. */
  function ValidateProfile(name: string, email: string): (r: Checked<ProfileField>)
    ensures Name in r.errors <==> |Trim(name)| < MinNameLength
    ensures Name in r.errors ==> r.errors[Name] == if IsBlank(name) then NameRequired else NameTooShort
    ensures Email in r.errors <==> IsBlank(email) || !EmailPattern(email)
    ensures Email in r.errors ==> r.errors[Email] == if IsBlank(email) then EmailRequired else EmailInvalid
    ensures r.ok <==> |Trim(name)| >= MinNameLength && !IsBlank(email) && EmailPattern(email)
  {
    EmailScanMatchesPattern(email);
    var nameErrors: map<ProfileField, string> :=
      if IsBlank(name) then map[Name := NameRequired]
      else if |Trim(name)| < MinNameLength then map[Name := NameTooShort]
      else map[];
    var errors :=
      if IsBlank(email) then nameErrors[Email := EmailRequired]
      else if !IsValidEmail(email) then nameErrors[Email := EmailInvalid]
      else nameErrors;
    Checked(errors, errors == map[])
  }

  /** An accepted profile has a trimmed name of two or more characters and an
      email with a single `@` and no white space. */
  lemma AcceptedProfile(name: string, email: string)
    requires ValidateProfile(name, email).ok
    ensures |Trim(name)| >= 2
    ensures Count(email, '@') == 1 && forall k :: 0 <= k < |email| ==> !IsSpace(email[k])
  {
    EmailScanMatchesPattern(email);
    AcceptedEmailShape(email);
  }

  // ---------------------------------------------------------------------------
  // validatePassword
  // ---------------------------------------------------------------------------

  const CurrentRequired := "Current password is required"
  const NewRequired := "New password is required"
  const NewTooShort := "Password must be at least 8 characters"
  const NewNotMixed := "Password must contain uppercase, lowercase, and a number"
  const ConfirmRequired := "Please confirm your new password"
  const ConfirmMismatch := "Passwords do not match"
  const NewSameAsCurrent := "New password must be different from current password"

  /** `/(?=.*[a-z])(?=.*[A-Z])(?=.*\d)/`: a lower-case letter, an upper-case
      letter and a digit, read on single-line input. */
  predicate IsMixed(p: string) {
    HasChar(p, IsLowerAscii) && HasChar(p, IsUpperAscii) && HasChar(p, IsDigit)
  }

  /** `validatePassword`: the checks run in order, and the last one (new equal
      to current) overwrites whatever the new-password check said. */
  function ValidatePassword(current: string, next: string, confirm: string): (r: Checked<PasswordField>)
    ensures CurrentPassword in r.errors <==> current == []
    ensures NewPassword in r.errors <==> next == [] || |next| < MinPasswordLength || !IsMixed(next) || current == next
    ensures ConfirmPassword in r.errors <==> confirm == [] || confirm != next
    ensures current == next ==> r.errors[NewPassword] == NewSameAsCurrent
    ensures current != next && NewPassword in r.errors ==>
      r.errors[NewPassword] ==
        if next == [] then NewRequired else if |next| < MinPasswordLength then NewTooShort else NewNotMixed
    ensures ConfirmPassword in r.errors ==>
      r.errors[ConfirmPassword] == if confirm == [] then ConfirmRequired else ConfirmMismatch
    ensures r.ok <==>
      current != [] && |next| >= MinPasswordLength && IsMixed(next) && confirm == next && current != next
  {
    var e1: map<PasswordField, string> := if current == [] then map[CurrentPassword := CurrentRequired] else map[];
    var e2 :=
      if next == [] then e1[NewPassword := NewRequired]
      else if |next| < MinPasswordLength then e1[NewPassword := NewTooShort]
      else if !IsMixed(next) then e1[NewPassword := NewNotMixed]
      else e1;
    var e3 :=
      if confirm == [] then e2[ConfirmPassword := ConfirmRequired]
      else if next != confirm then e2[ConfirmPassword := ConfirmMismatch]
      else e2;
    var errors := if current == next then e3[NewPassword := NewSameAsCurrent] else e3;
    Checked(errors, errors == map[])
  }

  /** Two empty passwords: the "different" message wins over "required". */
  lemma EmptyPasswordsSayDifferent(confirm: string)
    ensures ValidatePassword([], [], confirm).errors[NewPassword] == NewSameAsCurrent
    ensures ValidatePassword([], [], confirm).errors[CurrentPassword] == CurrentRequired
  {
  }

  // ---------------------------------------------------------------------------
  // getPasswordStrength
  // ---------------------------------------------------------------------------

  datatype Strength = Weak | Fair | Good | Strong

  /** The four strength criteria of a password, in the order the page tests
      them: eight characters, a lower-case letter, an upper-case letter, a digit. */
  function Criteria(p: string): (c: seq<bool>)
    ensures |c| == 4
  {
    [|p| >= MinPasswordLength, HasChar(p, IsLowerAscii), HasChar(p, IsUpperAscii), HasChar(p, IsDigit)]
  }

  /** How many of `bs` hold. */
  function CountTrue(bs: seq<bool>): (n: nat)
    ensures n <= |bs|
    ensures n == |bs| <==> forall k :: 0 <= k < |bs| ==> bs[k]
    ensures n == 0 <==> forall k :: 0 <= k < |bs| ==> !bs[k]
  {
    if |bs| == 0 then 0 else (if bs[0] then 1 else 0) + CountTrue(bs[1..])
  }

  /** 25 points for each criterion met. */
  function StrengthScore(p: string): (score: nat)
    ensures score == 25 * CountTrue(Criteria(p))
    ensures score % 25 == 0 && score <= 100
    ensures score == 100 <==> |p| >= MinPasswordLength && IsMixed(p)
    ensures score == 0 <==>
      |p| < MinPasswordLength && !HasChar(p, IsLowerAscii) && !HasChar(p, IsUpperAscii) && !HasChar(p, IsDigit)
  {
    var c := Criteria(p);
    assert CountTrue(c) == (if c[0] then 1 else 0) + (if c[1] then 1 else 0) + (if c[2] then 1 else 0) + (if c[3] then 1 else 0) by {
      assert c[1..][1..][1..][1..] == [];
    }
    (if |p| >= MinPasswordLength then 25 else 0) +
    (if HasChar(p, IsLowerAscii) then 25 else 0) +
    (if HasChar(p, IsUpperAscii) then 25 else 0) +
    (if HasChar(p, IsDigit) then 25 else 0)
  }

  /** The label for a score: up to 25 Weak, up to 50 Fair, up to 75 Good,
      otherwise Strong; that is, at most one criterion met is Weak, two Fair,
      three Good and all four Strong. */
  function StrengthOf(p: string): (r: Strength)
    ensures r == Weak <==> StrengthScore(p) <= 25
    ensures r == Fair <==> 25 < StrengthScore(p) <= 50
    ensures r == Good <==> 50 < StrengthScore(p) <= 75
    ensures r == Strong <==> |p| >= MinPasswordLength && IsMixed(p)
    ensures r == Weak <==> CountTrue(Criteria(p)) <= 1
    ensures r == Fair <==> CountTrue(Criteria(p)) == 2
    ensures r == Good <==> CountTrue(Criteria(p)) == 3
  {
    var score := StrengthScore(p);
    if score <= 25 then Weak
    else if score <= 50 then Fair
    else if score <= 75 then Good
    else Strong
  }

  /** A password the form accepts always shows as Strong. */
  lemma AcceptedPasswordIsStrong(current: string, next: string, confirm: string)
    requires ValidatePassword(current, next, confirm).ok
    ensures StrengthOf(next) == Strong
  {
  }

  /** Examples: an empty password is Weak, "abcdefgh" (length and lower case) is
      Fair, "Abcdefg1" is Strong. */
  lemma StrengthExamples()
    ensures StrengthOf("") == Weak
    ensures StrengthOf("abcdefgh") == Fair
    ensures StrengthOf("Abcdefg1") == Strong
  {
    assert IsLowerAscii("abcdefgh"[0]);
    assert !HasChar("abcdefgh", IsUpperAscii);
    assert !HasChar("abcdefgh", IsDigit);
    assert IsUpperAscii("Abcdefg1"[0]) && IsLowerAscii("Abcdefg1"[1]) && IsDigit("Abcdefg1"[7]);
  }
}
