/** The admin login page: a check of the typed email and password against one
    fixed pair, after a short delay. */
module LoginPage {
  import opened Base
  import Text

  const AdminEmail: string := "admin@example.com"
  const AdminPassword: string := "changeme123"
  const InvalidCredentials: string := "Invalid email or password. Please try again."

  datatype LoginState = LoginState(email: string, password: string, status: FormStatus, errorMessage: Option<string>)

  /** The typed email, trimmed and lower-cased, must be the admin email in lower
      case, and the password must be the admin password character for
      character. The admin email is compared as it is, being its own lower case
      (`AdminEmailIsLower`). */
  predicate IsValid(email: string, password: string)
  {
    Text.Lower(Text.Trim(email)) == AdminEmail && password == AdminPassword
  }

  /** Text with no capital letter is its own lower case. */
  predicate NoCapitals(s: string)
  {
    forall i :: 0 <= i < |s| ==> !('A' <= s[i] <= 'Z')
  }

  lemma LowerOfNoCapitals(s: string)
    requires NoCapitals(s)
    ensures Text.Lower(s) == s
  {
    var l := Text.Lower(s);
    assert forall i :: 0 <= i < |s| ==> l[i] == s[i];
  }

  /** `s.toLowerCase() === t`, letter by letter. */
  predicate LowersTo(s: string, t: string)
  {
    |s| == |t| && forall i :: 0 <= i < |s| ==> Text.LowerChar(s[i]) == t[i]
  }

  lemma LowerOfLowersTo(s: string, t: string)
    requires LowersTo(s, t)
    ensures Text.Lower(s) == t
  {
  }

  /** The admin email is already in lower case. */
  lemma AdminEmailIsLower()
    ensures Text.Lower(AdminEmail) == AdminEmail
  {
    assert NoCapitals(AdminEmail);
    LowerOfNoCapitals(AdminEmail);
  }

  /** White space around the email never changes the verdict, for any password:
      an email padded with white space on both sides is accepted exactly when the
      bare one is. */
  lemma EmailIgnoresSurroundingSpace(padded: string, a: int, e: string, password: string)
    requires Text.InfixBetweenSpace(padded, a, e)
    ensures IsValid(padded, password) <==> IsValid(e, password)
  {
    var lead, trail := padded[..a], padded[a + |e|..];
    assert padded == lead + e + trail;
    Text.TrimIgnoresSurroundingSpace(lead, e, trail);
  }


  /** Any spelling of the admin email in upper, lower or mixed case, with any
      white space around it, is accepted with the admin password. */
  lemma AnyCaseAccepted(lead: string, e: string, trail: string)
    requires Text.AllSpace(lead) && Text.AllSpace(trail)
    requires LowersTo(e, AdminEmail)
    ensures IsValid(lead + e + trail, AdminPassword)
  {
    AdminEnds(AdminEmail);
    assert Text.LowerChar(e[0]) == AdminEmail[0];
    assert Text.LowerChar(e[|e| - 1]) == AdminEmail[|AdminEmail| - 1];
    Text.TrimOfTrimmed(e);
    LowerOfLowersTo(e, AdminEmail);
    assert Text.InfixBetweenSpace(lead + e + trail, |lead|, e) by {
      assert (lead + e + trail)[..|lead|] == lead;
      assert (lead + e + trail)[|lead|..|lead| + |e|] == e;
      assert (lead + e + trail)[|lead| + |e|..] == trail;
    }
    EmailIgnoresSurroundingSpace(lead + e + trail, |lead|, e, AdminPassword);
  }

  lemma AdminEnds(a: string)
    requires a == AdminEmail
    ensures |a| > 0 && a[0] == 'a' && a[|a| - 1] == 'm'
  {
  }

  // Examples

  /** The password is neither trimmed nor case-folded: the admin password with a
      trailing space, or in capitals, is refused. */
  lemma PaddedPasswordRefused(email: string)
    ensures !IsValid(email, AdminPassword + " ")
    ensures !IsValid(email, "CHANGEME123")
  {
    assert |AdminPassword + " "| != |AdminPassword|;
    assert "CHANGEME123"[0] != AdminPassword[0];
  }

  // Form handlers

  /** The start of `handleSubmit`. */
  function BeginSubmit(s: LoginState): (r: LoginState)
    ensures r.status == Submitting && r.errorMessage.None?
    ensures r.email == s.email && r.password == s.password
  {
    s.(status := Submitting, errorMessage := None)
  }

  /** The end of `handleSubmit`, after the delay: success for valid credentials,
      otherwise the fixed error. The inputs are kept either way. */
  function FinishSubmit(s: LoginState): (r: LoginState)
    ensures r.status == Success <==> IsValid(s.email, s.password)
    ensures r.status != Success ==> r.status == Error && r.errorMessage == Some(InvalidCredentials)
    ensures r.status == Success ==> r.errorMessage == s.errorMessage
    ensures r.email == s.email && r.password == s.password
  {
    if !IsValid(s.email, s.password) then s.(status := Error, errorMessage := Some(InvalidCredentials))
    else s.(status := Success)
  }
}
