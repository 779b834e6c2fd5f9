/** Registration: the input schema of `register` and the duplicate-email check. */
module Auth {
  import opened Common
  import opened Table

  datatype RegisterInput = RegisterInput(username: string, email: string, password: string, confirmPassword: string)

  datatype Field = Username | Email | Password | ConfirmPassword

  /** One validation issue: the path it is attached to and its message. */
  datatype Issue = Issue(path: Field, message: string)

  const MinLengthMessage := "Password must be at least 8 characters"
  const PasswordRuleMessage := "Password must at least 12 char long and contain at least 1 uppercase letter, 1 number, and 1 special character"
  const ConfirmRequiredMessage := "Confirm password is required"
  const MismatchMessage := "Passwords do not match"
  const UsernameMessage := "String must contain at least 5 character(s)"
  const EmailMessage := "Invalid email"

  // ------------------------------------------------------------------ the password pattern

  /** The characters a regular expression's `.` does not match. */
  predicate LineTerminator(c: char)
  {
    c == '\n' || c == '\r' || c == '\U{2028}' || c == '\U{2029}'
  }

  predicate Upper(c: char)
  {
    'A' <= c <= 'Z'
  }

  predicate Digit(c: char)
  {
    '0' <= c <= '9'
  }

  predicate Special(c: char)
  {
    c in "!@#$%^&*"
  }

  /** The lookahead `(?=.*C)` at the start of s: `.*` backtracks from the longest run
      of non-terminators, so it matches if a character of class C follows some run of
      them. */
  ghost predicate InLine(s: string, c: char -> bool)
  {
    exists i :: 0 <= i < |s| && c(s[i]) && forall j :: 0 <= j < i ==> !LineTerminator(s[j])
  }

  /** The same lookahead, scanning: stop at the first character of the class, or fail at
      the first line terminator. */
  function FindsInLine(s: string, c: char -> bool): (found: bool)
    ensures found ==> exists i :: 0 <= i < |s| && c(s[i])
  {
    if s == [] then false
    else if c(s[0]) then true
    else if LineTerminator(s[0]) then false
    else FindsInLine(s[1..], c)
  }

  lemma {:induction false} FindsInLineCorrect(s: string, c: char -> bool)
    ensures FindsInLine(s, c) <==> InLine(s, c)
  {
    if s != [] && !c(s[0]) && !LineTerminator(s[0]) {
      FindsInLineCorrect(s[1..], c);
      assert forall i :: 0 < i < |s| ==> s[i] == s[1..][i - 1];
      if FindsInLine(s[1..], c) {
        var i :| 0 <= i < |s[1..]| && c(s[1..][i]) && forall j :: 0 <= j < i ==> !LineTerminator(s[1..][j]);
        assert c(s[i + 1]) && forall j :: 0 <= j < i + 1 ==> !LineTerminator(s[j]);
      }
      if InLine(s, c) {
        var i :| 0 <= i < |s| && c(s[i]) && forall j :: 0 <= j < i ==> !LineTerminator(s[j]);
        assert i > 0;
        assert c(s[1..][i - 1]) && forall j :: 0 <= j < i - 1 ==> !LineTerminator(s[1..][j]);
      }
    } else if s != [] && c(s[0]) {
      assert c(s[0]);
    }
  }

  /** The lookahead `(?=.{12,})` at the start of s: twelve characters before any line
      terminator. */
  predicate LongLine(s: string)
  {
    |s| >= 12 && forall j :: 0 <= j < 12 ==> !LineTerminator(s[j])
  }

  /** `/^(?=.*[A-Z])(?=.*[0-9])(?=.*[!@#$%^&*])(?=.{12,})/`: four lookaheads, all at the
      start of the string, since `^` without the multiline flag anchors only there. */
  predicate MatchesPasswordRule(s: string)
    ensures MatchesPasswordRule(s) ==> |s| >= 12 && !LineTerminator(s[0])
  {
    FindsInLine(s, Upper) && FindsInLine(s, Digit) && FindsInLine(s, Special) && LongLine(s)
  }

  /** For a password of one line, which is what a form field holds, the pattern passes
      if and only if there are at least 12 characters, an A-Z letter, a digit and one of
      !@#$%^&*. */
  lemma PasswordRule(s: string)
    requires forall j :: 0 <= j < |s| ==> !LineTerminator(s[j])
    ensures MatchesPasswordRule(s) <==>
      && |s| >= 12
      && (exists i :: 0 <= i < |s| && Upper(s[i]))
      && (exists i :: 0 <= i < |s| && Digit(s[i]))
      && (exists i :: 0 <= i < |s| && Special(s[i]))
  {
    FindsInLineCorrect(s, Upper);
    FindsInLineCorrect(s, Digit);
    FindsInLineCorrect(s, Special);
  }

  /** Only the first line counts: whatever follows a line terminator leaves a lookahead
      for a class without terminators as it was. */
  lemma {:induction false} FirstLineOnly(p: string, t: char, q: string, c: char -> bool)
    requires LineTerminator(t)
    requires forall k :: 0 <= k < |p| ==> !LineTerminator(p[k])
    requires !c(t)
    ensures FindsInLine(p + [t] + q, c) == FindsInLine(p, c)
  {
    if p != [] {
      assert (p + [t] + q)[1..] == p[1..] + [t] + q;
      FirstLineOnly(p[1..], t, q, c);
    }
  }

  /** A password of more than one line is judged by its first line alone, so a digit or
      a special character on a later line does not count. */
  lemma PasswordFirstLine(p: string, t: char, q: string)
    requires LineTerminator(t)
    requires forall k :: 0 <= k < |p| ==> !LineTerminator(p[k])
    ensures MatchesPasswordRule(p + [t] + q) <==> MatchesPasswordRule(p)
  {
    FirstLineOnly(p, t, q, Upper);
    FirstLineOnly(p, t, q, Digit);
    FirstLineOnly(p, t, q, Special);
    var s := p + [t] + q;
    if |p| < 12 {
      assert LineTerminator(s[|p|]);
    } else {
      assert forall j :: 0 <= j < 12 ==> s[j] == p[j];
    }
  }

  // ------------------------------------------------------------------ the input schema

  /** The issues of `z.string().min(8, …).regex(…)`: a string's checks all run, so a
      short password gets both. */
  function PasswordIssues(p: string): (r: seq<Issue>)
    ensures |r| <= 2
    ensures forall k :: 0 <= k < |r| ==> r[k].path == Password
  {
    (if |p| < 8 then [Issue(Password, MinLengthMessage)] else [])
    + (if MatchesPasswordRule(p) then [] else [Issue(Password, PasswordRuleMessage)])
  }

  /** Every issue of the register schema, field by field in declaration order, then the
      object's refine. The field checks leave the object dirty, not aborted, so the
      refine runs whether or not they passed. The email format check is a parameter. */
  function Issues(input: RegisterInput, isEmail: string -> bool): (r: seq<Issue>)
    ensures |r| <= 6
    ensures r == [] ==> MatchesPasswordRule(input.password) && input.password == input.confirmPassword
  {
    (if |input.username| < 5 then [Issue(Username, UsernameMessage)] else [])
    + (if isEmail(input.email) then [] else [Issue(Email, EmailMessage)])
    + PasswordIssues(input.password)
    + (if |input.confirmPassword| < 1 then [Issue(ConfirmPassword, ConfirmRequiredMessage)] else [])
    + (if input.password == input.confirmPassword then [] else [Issue(ConfirmPassword, MismatchMessage)])
  }

  /** Each rule that fails leaves its issue, on its own path; the input is accepted if and
      only if every rule holds. */
  lemma IssuesMeaning(input: RegisterInput, isEmail: string -> bool)
    ensures var r := Issues(input, isEmail);
      && (|input.username| < 5 ==> Issue(Username, UsernameMessage) in r)
      && (!isEmail(input.email) ==> Issue(Email, EmailMessage) in r)
      && (|input.password| < 8 ==> Issue(Password, MinLengthMessage) in r)
      && (!MatchesPasswordRule(input.password) ==> Issue(Password, PasswordRuleMessage) in r)
      && (input.confirmPassword == "" ==> Issue(ConfirmPassword, ConfirmRequiredMessage) in r)
      && (input.password != input.confirmPassword ==> Issue(ConfirmPassword, MismatchMessage) in r)
      && (r == [] <==>
           && |input.username| >= 5
           && isEmail(input.email)
           && MatchesPasswordRule(input.password)
           && input.confirmPassword != ""
           && input.password == input.confirmPassword)
  {
    PasswordIssuesMeaning(input.password);
    var u := if |input.username| < 5 then [Issue(Username, UsernameMessage)] else [];
    var e := if isEmail(input.email) then [] else [Issue(Email, EmailMessage)];
    var p := PasswordIssues(input.password);
    var c := if |input.confirmPassword| < 1 then [Issue(ConfirmPassword, ConfirmRequiredMessage)] else [];
    var m := if input.password == input.confirmPassword then [] else [Issue(ConfirmPassword, MismatchMessage)];
    assert Issues(input, isEmail) == u + e + p + c + m;
  }

  /** The password field's own issues: each failing check leaves its issue, and there are
      none exactly when the pattern passes. */
  lemma PasswordIssuesMeaning(p: string)
    ensures |p| < 8 ==> Issue(Password, MinLengthMessage) in PasswordIssues(p)
    ensures !MatchesPasswordRule(p) ==> Issue(Password, PasswordRuleMessage) in PasswordIssues(p)
    ensures PasswordIssues(p) == [] <==> MatchesPasswordRule(p)
  {
    RuleImpliesMinimum(p);
    var i := PasswordIssues(p);
    if !MatchesPasswordRule(p) {
      assert i[|i| - 1] == Issue(Password, PasswordRuleMessage);
    }
  }

  lemma RuleImpliesMinimum(p: string)
    ensures MatchesPasswordRule(p) ==> |p| >= 8
    ensures |p| < 8 ==> PasswordIssues(p) == [Issue(Password, MinLengthMessage), Issue(Password, PasswordRuleMessage)]
  {
  }

  /** A mismatch is reported on the confirmPassword path, and only there among the
      password-related paths, when both fields are otherwise valid. */
  lemma MismatchOnConfirmPath(input: RegisterInput, isEmail: string -> bool)
    requires |input.username| >= 5 && isEmail(input.email)
    requires MatchesPasswordRule(input.password) && input.confirmPassword != ""
    requires input.password != input.confirmPassword
    ensures Issues(input, isEmail) == [Issue(ConfirmPassword, MismatchMessage)]
  {
    RuleImpliesMinimum(input.password);
    IssuesMeaning(input, isEmail);
  }

  // ------------------------------------------------------------------ register

  datatype UserRow = UserRow(username: string, email: string, password: string, createdAt: int)

  /** The columns register answers with; the row's password column is not among them. */
  datatype UserView = UserView(id: Id, username: string, email: string, createdAt: int)

  predicate EmailTaken(users: map<Id, UserRow>, email: string)
  {
    exists id :: id in users && users[id].email == email
  }

  /** register: an input with issues is refused with BAD_REQUEST before the handler runs;
      an email already stored gives CONFLICT and creates nothing; otherwise the user is
      stored with the hash of the password, and its public columns are answered. The
      hash, the new id and the creation time are parameters. */
  function Register(users: map<Id, UserRow>, input: RegisterInput, isEmail: string -> bool,
                    hash: string -> string, newId: Id, now: int): (r: (map<Id, UserRow>, Reply<UserView>))
    requires newId !in users
    ensures Issues(input, isEmail) != [] ==> r == (users, Fail(BadRequest))
    ensures (|input.username| < 5 || input.confirmPassword == "" || input.password != input.confirmPassword
             || !MatchesPasswordRule(input.password)) ==> r == (users, Fail(BadRequest))
    ensures Issues(input, isEmail) == [] && EmailTaken(users, input.email) ==> r == (users, Fail(Conflict))
    ensures r.1.Ok? <==> Issues(input, isEmail) == [] && !EmailTaken(users, input.email)
    ensures r.1.Ok? ==>
      && r.0 == users[newId := UserRow(input.username, input.email, hash(input.password), now)]
      && r.1.value == UserView(newId, input.username, input.email, now)
  {
    IssuesMeaning(input, isEmail);
    if Issues(input, isEmail) != [] then (users, Fail(BadRequest))
    else if EmailTaken(users, input.email) then (users, Fail(Conflict))
    else
      var row := UserRow(input.username, input.email, hash(input.password), now);
      (users[newId := row], Ok(UserView(newId, row.username, row.email, row.createdAt)))
  }

  /** Registering keeps emails unique: starting from a table with no two users sharing an
      email, the table after register has none either. */
  lemma RegisterKeepsEmailsUnique(users: map<Id, UserRow>, input: RegisterInput, isEmail: string -> bool,
                                  hash: string -> string, newId: Id, now: int)
    requires newId !in users
    requires forall a, b :: a in users && b in users && users[a].email == users[b].email ==> a == b
    ensures var out := Register(users, input, isEmail, hash, newId, now).0;
      forall a, b :: a in out && b in out && out[a].email == out[b].email ==> a == b
  {
  }
}
