/** The signup handler of cmd/web/handlers.go: the field checks of the
    signup form, the hashing of the password and the insert of the new
    user. Hashing (bcrypt) is given by its outcome and the email pattern by
    whether the address matches it; the store's insert is given by the
    error its statement reports. */
module Signup {
  import opened Errors
  import opened Responses
  import Strings
  import Validation
  import Users

  /** The raw values of the signup form. */
  datatype SignupForm = SignupForm(name: string, email: string, password: string, confirmPassword: string)

  /** A name is accepted when it is not blank and its UTF-8 length is
      between 3 and 500 bytes. */
  predicate NameAccepted(name: string) {
    Validation.NotBlank(name) && 3 <= Strings.ByteLen(name) <= 500
  }

  /** A password is accepted when its UTF-8 length is between 8 and 72
      bytes. */
  predicate PasswordAccepted(password: string) {
    8 <= Strings.ByteLen(password) <= 72
  }

  /** The fields the signup form marks as wrong. The confirmation is
      compared only when the password itself is accepted. */
  function SignupErrorFields(form: SignupForm, emailMatches: bool): (fields: set<string>)
    ensures fields <= {"name", "email", "password", "confirm_password"}
    ensures "name" in fields <==> !NameAccepted(form.name)
    ensures "email" in fields <==> form.email == "" || !emailMatches
    ensures "password" in fields <==> !PasswordAccepted(form.password)
    ensures "confirm_password" in fields <==> PasswordAccepted(form.password) && form.confirmPassword != form.password
  {
    (if NameAccepted(form.name) then {} else {"name"})
    + (if form.email == "" || !emailMatches then {"email"} else {})
    + (if PasswordAccepted(form.password) then {} else {"password"})
    + (if PasswordAccepted(form.password) && form.confirmPassword != form.password then {"confirm_password"} else {})
  }

  /** A form passes exactly when every field is acceptable and the
      confirmation repeats the password. */
  lemma SignupAccepted(form: SignupForm, emailMatches: bool)
    ensures SignupErrorFields(form, emailMatches) == {} <==>
              && NameAccepted(form.name) && form.email != "" && emailMatches
              && PasswordAccepted(form.password) && form.confirmPassword == form.password
  {
    var fields := SignupErrorFields(form, emailMatches);
    if !NameAccepted(form.name) { assert "name" in fields; }
    if form.email == "" || !emailMatches { assert "email" in fields; }
    if !PasswordAccepted(form.password) { assert "password" in fields; }
    if PasswordAccepted(form.password) && form.confirmPassword != form.password { assert "confirm_password" in fields; }
  }

  /** An accepted password is never empty, and a password that is not
      accepted hides any mismatch of the confirmation. */
  lemma PasswordRules(form: SignupForm, emailMatches: bool)
    ensures PasswordAccepted(form.password) ==> form.password != ""
    ensures !PasswordAccepted(form.password) ==>
              SignupErrorFields(form, emailMatches) == SignupErrorFields(form.(confirmPassword := form.password), emailMatches)
  {
  }

  /** The user inserted for an accepted form: its name, email and password
      hash; everything else is left to the store. */
  function NewUser(form: SignupForm, hash: Users.Hash): (u: Users.User)
    ensures u.name == form.name && u.email == form.email && u.passwordHash == hash
  {
    Users.User(0, 0, form.name, form.email, hash, None, "", false, 0)
  }

  /** The message shown for a name: a blank name is "not provided" before
      it is too short; None when the name is accepted. */
  function NameMessage(name: string): (r: Option<string>)
    ensures r.None? <==> NameAccepted(name)
    ensures !Validation.NotBlank(name) ==> r == Some("must be provided")
    ensures Validation.NotBlank(name) && Strings.ByteLen(name) < 3 ==> r == Some("must be more than 3 bytes long")
    ensures Validation.NotBlank(name) && Strings.ByteLen(name) > 500 ==> r == Some("must not be more than 500 bytes long")
  {
    if !Validation.NotBlank(name) then Some("must be provided")
    else if Strings.ByteLen(name) < 3 then Some("must be more than 3 bytes long")
    else if Strings.ByteLen(name) > 500 then Some("must not be more than 500 bytes long")
    else None
  }

  /** The three checks on the name, all recorded under "name": the field
      gets the message of the first that fails, and every other entry stays
      as it was. */
  method CheckName(v: Validation.Validator, name: string)
    modifies v
    ensures v.errors.Keys == old(v.errors.Keys) + (if NameAccepted(name) then {} else {"name"})
    ensures forall k :: k in old(v.errors) ==> v.errors[k] == old(v.errors[k])
    ensures v.errors == Validation.Record(old(v.errors), "name", NameMessage(name))
  {
    v.Check(Validation.NotBlank(name), "name", "must be provided");
    v.Check(Strings.ByteLen(name) >= 3, "name", "must be more than 3 bytes long");
    v.Check(Strings.ByteLen(name) <= 500, "name", "must not be more than 500 bytes long");
  }

  const PasswordsDiffer := "passwords do not match"

  /** The errors after the checks on name, email and password, given the
      message of each field's first failing check. */
  function Marked(name: Option<string>, email: Option<string>, password: Option<string>): map<string, string> {
    Validation.Record(Validation.Record(Validation.Record(map[], "name", name), "email", email), "password", password)
  }

  /** The errors of the whole form: those of Marked, then the confirmation
      when the password was not marked and the two entries differ. */
  function MarkedWithConfirmation(name: Option<string>, email: Option<string>, password: Option<string>,
                                  confirmDiffers: bool): map<string, string>
  {
    var checked := Marked(name, email, password);
    if "password" !in checked && confirmDiffers then checked["confirm_password" := PasswordsDiffer] else checked
  }

  /** The errors the signup page shows. */
  function SignupErrors(form: SignupForm, emailMatches: bool): map<string, string> {
    MarkedWithConfirmation(NameMessage(form.name), Users.EmailMessage(form.email, emailMatches),
                           Users.PasswordMessage(form.password), form.confirmPassword != form.password)
  }

  lemma DistinctFields()
    ensures "password" != "name" && "password" != "email" && "email" != "name"
    ensures "confirm_password" != "name" && "confirm_password" != "email" && "confirm_password" != "password"
  {
    assert |"password"| == 8 && |"name"| == 4 && |"email"| == 5 && |"confirm_password"| == 16;
  }

  /** Each field is marked exactly when it has a message, with that message,
      and the confirmation is not among them. */
  lemma MarkedFields(name: Option<string>, email: Option<string>, password: Option<string>)
    ensures var m := Marked(name, email, password);
            && m.Keys == (if name.Some? then {"name"} else {}) + (if email.Some? then {"email"} else {})
                         + (if password.Some? then {"password"} else {})
            && ("name" in m ==> m["name"] == name.value)
            && ("email" in m ==> m["email"] == email.value)
            && ("password" in m ==> m["password"] == password.value)
  {
    DistinctFields();
    var named := Validation.Record(map[], "name", name);
    var emailed := Validation.Record(named, "email", email);
    assert "name" in emailed ==> "name" in named && emailed["name"] == named["name"];
  }

  /** The confirmation is marked exactly when the password has no message
      and the entries differ; the other fields keep what Marked gives them. */
  lemma ConfirmationField(name: Option<string>, email: Option<string>, password: Option<string>,
                          confirmDiffers: bool)
    ensures var m := MarkedWithConfirmation(name, email, password, confirmDiffers);
            && m.Keys == Marked(name, email, password).Keys
                         + (if password.None? && confirmDiffers then {"confirm_password"} else {})
            && (forall k :: k in Marked(name, email, password) ==> m[k] == Marked(name, email, password)[k])
            && ("confirm_password" in m ==> m["confirm_password"] == PasswordsDiffer)
  {
    MarkedFields(name, email, password);
    DistinctFields();
  }

  /** The page marks exactly the fields of SignupErrorFields. */
  lemma SignupErrorsFields(form: SignupForm, emailMatches: bool)
    ensures SignupErrors(form, emailMatches).Keys == SignupErrorFields(form, emailMatches)
  {
    var nm, em, pm := NameMessage(form.name), Users.EmailMessage(form.email, emailMatches),
                      Users.PasswordMessage(form.password);
    MarkedFields(nm, em, pm);
    ConfirmationField(nm, em, pm, form.confirmPassword != form.password);
  }

  /** Each marked field shows the message of its first failing check. */
  lemma SignupErrorsMessages(form: SignupForm, emailMatches: bool)
    ensures var errors := SignupErrors(form, emailMatches);
            && ("name" in errors ==> NameMessage(form.name).Some? && errors["name"] == NameMessage(form.name).value)
            && ("email" in errors ==> Users.EmailMessage(form.email, emailMatches).Some?
                                      && errors["email"] == Users.EmailMessage(form.email, emailMatches).value)
            && ("password" in errors ==> Users.PasswordMessage(form.password).Some?
                                         && errors["password"] == Users.PasswordMessage(form.password).value)
            && ("confirm_password" in errors ==> errors["confirm_password"] == PasswordsDiffer)
  {
    var nm, em, pm := NameMessage(form.name), Users.EmailMessage(form.email, emailMatches),
                      Users.PasswordMessage(form.password);
    MarkedFields(nm, em, pm);
    ConfirmationField(nm, em, pm, form.confirmPassword != form.password);
    DistinctFields();
  }

  /** The checks signupPost runs on its form, in its order: the errors
      recorded are exactly SignupErrors, fields and messages. */
  method CheckSignupForm(form: SignupForm, emailMatches: bool) returns (errors: map<string, string>)
    ensures errors.Keys == SignupErrorFields(form, emailMatches)
    ensures errors == SignupErrors(form, emailMatches)
  {
    var nm, em, pm := NameMessage(form.name), Users.EmailMessage(form.email, emailMatches),
                      Users.PasswordMessage(form.password);
    var v := new Validation.Validator();
    CheckName(v, form.name);
    Users.ValidateEmail(v, form.email, emailMatches);
    Users.ValidatePasswordPlaintext(v, form.password);
    assert v.errors == Marked(nm, em, pm);
    ConfirmationField(nm, em, pm, form.confirmPassword != form.password);
    if "password" !in v.errors {
      v.Check(form.confirmPassword == form.password, "confirm_password", PasswordsDiffer);
    }
    errors := v.errors;
    SignupErrorsFields(form, emailMatches);
  }

  const DuplicateEmail := "this email address already exists"

  /** signupPost: `parseFails` says whether the form could not be read,
      `emailMatches` whether the address matches the email pattern,
      `generated` what hashing the password gave and `execErr` what the
      insert statement reports. The answer comes with the form errors
      shown again on the page. A user is inserted exactly when the form is
      readable, passes its checks and the password hashes. */
  method SignupPost(form: SignupForm, parseFails: bool, emailMatches: bool,
                    generated: Result<Users.Hash>, execErr: Option<Error>)
    returns (h: Handled<Users.User>, formErrors: map<string, string>)
    ensures parseFails ==> h == Handled(BadRequest, None) && formErrors == map[]
    ensures !parseFails && SignupErrorFields(form, emailMatches) != {} ==>
              h == Handled(Render(422, "signup.html"), None) && formErrors == SignupErrors(form, emailMatches)
    ensures !parseFails && SignupErrorFields(form, emailMatches) == {} && generated.Err? ==>
              h == Handled(ServerError(generated.error), None)
    ensures h.call.Some? <==> !parseFails && SignupErrorFields(form, emailMatches) == {} && generated.Ok?
    ensures h.call.Some? ==> h.call.value == NewUser(form, generated.value)
    ensures h.call.Some? ==>
              match Users.Insert(execErr)
              case None => h.response == SeeOther("/login", NoFlash) && formErrors == map[]
              case Some(e) =>
                if e == ErrDuplicateEmail then h.response == Render(422, "signup.html") && formErrors == map["email" := DuplicateEmail]
                else h.response == ServerError(e)
  {
    formErrors := map[];
    if parseFails {
      return Handled(BadRequest, None), formErrors;
    }
    var errors := CheckSignupForm(form, emailMatches);
    if errors != map[] {
      return Handled(Render(422, "signup.html"), None), errors;
    }
    var password := new Users.Password();
    var err := password.Set(form.password, generated);
    if err.Some? {
      return Handled(ServerError(err.value), None), errors;
    }
    var user := NewUser(form, password.hash);
    err := Users.Insert(execErr);
    if err.Some? {
      if err.value == ErrDuplicateEmail {
        errors := errors["email" := DuplicateEmail];
        return Handled(Render(422, "signup.html"), Some(user)), errors;
      }
      return Handled(ServerError(err.value), Some(user)), errors;
    }
    return Handled(SeeOther("/login", NoFlash), Some(user)), errors;
  }
}
