/** The add-employee form of src/pages/admin/AddEmployee.tsx: the random
    password generator and what a submission does (the registration request,
    the credentials shown, the store update and the form reset).
    `Math.random()` is replaced by the sequence of values it returned, each in
    `[0, 1)`; the request outcome, the clock and the generated id are inputs. */
module AddEmployee {
  import opened Common
  import opened Types
  import AdminSlice

  // ---------------------------------------------------------------------------
  // generatePassword
  // ---------------------------------------------------------------------------

  /** `count` consecutive characters starting at `first`. */
  function Run(first: char, count: nat): (r: string)
    requires first as int + count <= 0xD800
    ensures |r| == count
    ensures forall k :: 0 <= k < count ==> r[k] as int == first as int + k
  {
    seq(count, k requires 0 <= k < count => (first as int + k) as char)
  }

  /** `chars`: `A`-`Z`, `a`-`z`, `0`-`9`, then `@#$%`. */
  const Alphabet: string := Run('A', 26) + Run('a', 26) + Run('0', 10) + "@#$%"
  const PasswordLength: nat := 12

  /** What `Math.random()` may return. */
  predicate IsDraw(r: real) {
    0.0 <= r < 1.0
  }

  /** `Math.floor(r * chars.length)`. */
  function Pick(r: real): int {
    (r * |Alphabet| as real).Floor
  }

  /** A draw always lands on a position of the alphabet. */
  lemma PickInRange(r: real)
    requires IsDraw(r)
    ensures 0 <= Pick(r) < |Alphabet|
  {
    assert |Alphabet| == 66;
  }

  /** Every draw of a sequence lands on a position of the alphabet. */
  lemma PicksInRange(draws: seq<real>)
    requires forall k :: 0 <= k < |draws| ==> IsDraw(draws[k])
    ensures forall k :: 0 <= k < |draws| ==> 0 <= Pick(draws[k]) < |Alphabet|
  {
    forall k | 0 <= k < |draws| ensures 0 <= Pick(draws[k]) < |Alphabet| {
      PickInRange(draws[k]);
    }
  }

  /** The alphabet has 66 characters: 26 capitals, 26 small letters, ten digits
      and four symbols, each class in its own block. */
  lemma AlphabetLayout()
    ensures |Alphabet| == 66
    ensures forall k :: 0 <= k < 26 ==> IsUpperAscii(Alphabet[k])
    ensures forall k :: 26 <= k < 52 ==> IsLowerAscii(Alphabet[k])
    ensures forall k :: 52 <= k < 62 ==> IsDigit(Alphabet[k])
    ensures Alphabet[62..] == "@#$%"
  {
    assert forall k :: 0 <= k < 26 ==> Alphabet[k] == Run('A', 26)[k];
    assert forall k :: 26 <= k < 52 ==> Alphabet[k] == Run('a', 26)[k - 26];
    assert forall k :: 52 <= k < 62 ==> Alphabet[k] == Run('0', 10)[k - 52];
  }

  /** The password made from a sequence of draws, one character per draw. */
  function PasswordFrom(draws: seq<real>): (p: string)
    requires forall k :: 0 <= k < |draws| ==> IsDraw(draws[k])
    ensures |p| == |draws|
    ensures forall k :: 0 <= k < |p| ==> 0 <= Pick(draws[k]) < |Alphabet| && p[k] == Alphabet[Pick(draws[k])]
    ensures forall k :: 0 <= k < |p| ==> p[k] in Alphabet
  {
    PicksInRange(draws);
    seq(|draws|, k requires 0 <= k < |draws| => Alphabet[Pick(draws[k])])
  }

  /** `generatePassword`: twelve draws, each appended as the character it picks. */
  method GeneratePassword(draws: seq<real>) returns (password: string)
    requires |draws| == PasswordLength
    requires forall k :: 0 <= k < |draws| ==> IsDraw(draws[k])
    ensures |password| == PasswordLength
    ensures forall k :: 0 <= k < |password| ==> 0 <= Pick(draws[k]) < |Alphabet| && password[k] == Alphabet[Pick(draws[k])]
    ensures password == PasswordFrom(draws)
  {
    password := "";
    var i := 0;
    while i < PasswordLength
      invariant 0 <= i <= PasswordLength
      invariant |password| == i
      invariant forall k :: 0 <= k < i ==> 0 <= Pick(draws[k]) < |Alphabet| && password[k] == Alphabet[Pick(draws[k])]
    {
      PickInRange(draws[i]);
      password := password + [Alphabet[Pick(draws[i])]];
      i := i + 1;
    }
  }

  /** Different draws can give different passwords: all-zero draws give
      twelve `A`s, all-one-half draws twelve `h`s. */
  lemma DrawsDecideThePassword()
    ensures PasswordFrom(seq(12, _ => 0.0)) == "AAAAAAAAAAAA"
    ensures PasswordFrom(seq(12, _ => 0.5)) == "hhhhhhhhhhhh"
  {
    assert Pick(0.0) == 0 && Pick(0.5) == 33;
    var d0: seq<real> := seq(12, _ => 0.0);
    var d1: seq<real> := seq(12, _ => 0.5);
    assert forall k :: 0 <= k < 12 ==> d0[k] == 0.0 && d1[k] == 0.5;
    var zeros := PasswordFrom(d0);
    assert forall k :: 0 <= k < 12 ==> zeros[k] == Alphabet[0] == 'A';
    var halves := PasswordFrom(d1);
    assert forall k :: 0 <= k < 12 ==> halves[k] == Alphabet[33] == 'h';
  }

  // ---------------------------------------------------------------------------
  // handleSubmit
  // ---------------------------------------------------------------------------

  datatype Form = Form(name: string, email: string, department: string, phoneNumber: string)

  const EmptyForm := Form("", "", "", "")

  /** The credentials card shown after a creation. */
  datatype Credentials = Credentials(email: string, password: string, name: string)

  datatype Page = Page(form: Form, credentials: Option<Credentials>, isLoading: bool)

  /** The body of `POST /register_user`. */
  datatype RegisterRequest = RegisterRequest(name: string, email: string, phoneNumber: string, role: string, password: string)

  /** What the request produced: a thrown error, or a response (any status). */
  datatype Outcome = RegisterFailed | RegisterResponded(httpStatus: int)

  datatype Submission = Submission(request: RegisterRequest, page: Page, admin: AdminSlice.AdminState)

  /** The record added to the store for the new employee; `department` and
      `phoneNumber` are not fields of `User`. */
  function NewEmployee(f: Form, id: string, now: string): (u: User)
    ensures u.name == f.name && u.email == f.email && u.role == Types.Employee && u.isBlocked.None?
  {
    User(id, f.email, f.name, Types.Employee, now, None)
  }

  /** `handleSubmit` as written: the request carries one generated password
      (`first`); after a response, a second call (`second`) makes the password
      the credentials card shows. A thrown error only ends loading. Any
      response counts as success; the status is only used for a message. */
  function HandleSubmit(p: Page, admin: AdminSlice.AdminState, outcome: Outcome,
                        first: seq<real>, second: seq<real>, id: string, now: string): (r: Submission)
    requires |first| == PasswordLength && forall k :: 0 <= k < |first| ==> IsDraw(first[k])
    requires |second| == PasswordLength && forall k :: 0 <= k < |second| ==> IsDraw(second[k])
    ensures r.request == RegisterRequest(p.form.name, p.form.email, p.form.phoneNumber, "employee", PasswordFrom(first))
    ensures outcome.RegisterFailed? ==> r.page == p.(isLoading := false) && r.admin == admin
    ensures outcome.RegisterResponded? ==>
      r.page == Page(EmptyForm, Some(Credentials(p.form.email, PasswordFrom(second), p.form.name)), false)
    ensures outcome.RegisterResponded? ==>
      r.admin.employees == admin.employees + [NewEmployee(p.form, id, now)]
    ensures outcome.RegisterResponded? ==> r.admin == AdminSlice.AddEmployee(admin, NewEmployee(p.form, id, now))
    ensures r.admin.(employees := admin.employees) == admin
  {
    var request := RegisterRequest(p.form.name, p.form.email, p.form.phoneNumber, "employee", PasswordFrom(first));
    match outcome
    case RegisterFailed => Submission(request, p.(isLoading := false), admin)
    case RegisterResponded(_) =>
      var shown := Credentials(p.form.email, PasswordFrom(second), p.form.name);
      Submission(request, Page(EmptyForm, Some(shown), false),
                 AdminSlice.AddEmployee(admin, NewEmployee(p.form, id, now)))
  }

  /** The password the new employee is registered with need not be the one
      shown to the administrator: with all-zero draws for the request and
      all-one-half draws for the card, they differ. */
  lemma ShownPasswordIsNotRegistered(p: Page, admin: AdminSlice.AdminState, id: string, now: string)
    ensures var r := HandleSubmit(p, admin, RegisterResponded(201), seq(12, _ => 0.0), seq(12, _ => 0.5), id, now);
      r.page.credentials.Some? && r.page.credentials.value.password != r.request.password
  {
    DrawsDecideThePassword();
  }

  /** `handleSubmit` with one generated password used for both the request and
      the credentials card. */
  function HandleSubmitCorrected(p: Page, admin: AdminSlice.AdminState, outcome: Outcome,
                                 draws: seq<real>, id: string, now: string): (r: Submission)
    requires |draws| == PasswordLength && forall k :: 0 <= k < |draws| ==> IsDraw(draws[k])
    ensures outcome.RegisterFailed? ==> r.page == p.(isLoading := false) && r.admin == admin
    ensures outcome.RegisterResponded? ==> r.page.form == EmptyForm && !r.page.isLoading
    ensures outcome.RegisterResponded? ==>
      r.page.credentials == Some(Credentials(p.form.email, r.request.password, p.form.name))
  {
    HandleSubmit(p, admin, outcome, draws, draws, id, now)
  }

  /** After the correction the card always shows the registered password, and
      a success resets all four fields. */
  lemma CorrectedShowsRegisteredPassword(p: Page, admin: AdminSlice.AdminState, status: int,
                                         draws: seq<real>, id: string, now: string)
    requires |draws| == PasswordLength && forall k :: 0 <= k < |draws| ==> IsDraw(draws[k])
    ensures var r := HandleSubmitCorrected(p, admin, RegisterResponded(status), draws, id, now);
      r.page.credentials.value.password == r.request.password &&
      r.page.form.name == r.page.form.email == r.page.form.department == r.page.form.phoneNumber == ""
  {
  }
}
