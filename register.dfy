/** The client's registration form (register/register.component.ts): its controls,
    their validators as Angular defines them, the cross-field password check, and
    the gate in `register()`. */
module Register {
  import opened Queries
  import opened Dates

  /** The values of the form's controls; an unpicked date is null. */
  datatype RegisterForm = RegisterForm(
    gender: string,
    username: string,
    knownAs: string,
    dateOfBirth: Option<Date>,
    city: string,
    country: string,
    password: string,
    confirmPassword: string)

  /** The group-level error `{mismatch: true}`. */
  datatype FormError = Mismatch

  /** The values `createRegisterForm` starts the controls with. */
  function InitialForm(): (f: RegisterForm)
    ensures f.gender == "male"
    ensures f.username == "" && f.knownAs == "" && f.dateOfBirth == None
    ensures f.city == "" && f.country == "" && f.password == "" && f.confirmPassword == ""
  {
    RegisterForm("male", "", "", None, "", "", "", "")
  }

  /** `Validators.required` on a text control: an empty string fails. */
  predicate Required(value: string)
  {
    |value| != 0
  }

  /** `Validators.minLength(n)`: an empty value is left to `required`. */
  predicate MinLength(n: nat, value: string)
  {
    |value| == 0 || n <= |value|
  }

  /** `Validators.maxLength(n)`. */
  predicate MaxLength(n: nat, value: string)
  {
    |value| <= n
  }

  /** The password control's three validators. */
  predicate PasswordControlValid(password: string)
  {
    Required(password) && MinLength(4, password) && MaxLength(8, password)
  }

  /** The password control accepts exactly the passwords of 4 to 8 characters. */
  lemma PasswordControlValidIff(password: string)
    ensures PasswordControlValid(password) <==> 4 <= |password| <= 8
  {
  }

  /** `passwordMatchValidator`: no error when the two passwords are equal, the
      mismatch error otherwise. */
  function PasswordMatchValidator(f: RegisterForm): (error: Option<FormError>)
    ensures error == None <==> f.password == f.confirmPassword
    ensures error != None ==> error == Some(Mismatch)
  {
    if f.password == f.confirmPassword then None else Some(Mismatch)
  }

  /** Every control valid (gender has no validator; the date is required, so it
      must be picked) and no group error. */
  function FormValid(f: RegisterForm): (valid: bool)
    ensures valid ==> f.dateOfBirth.Some? && f.password == f.confirmPassword
    ensures valid ==> 4 <= |f.password| <= 8
  {
    Required(f.username) && Required(f.knownAs) && f.dateOfBirth.Some? &&
    Required(f.city) && Required(f.country) &&
    PasswordControlValid(f.password) && Required(f.confirmPassword) &&
    PasswordMatchValidator(f) == None
  }

  /** The form is valid exactly when every required field is filled in, the
      password has 4 to 8 characters and the confirmation repeats it. */
  lemma FormValidIff(f: RegisterForm)
    ensures FormValid(f) <==>
      f.username != "" && f.knownAs != "" && f.dateOfBirth.Some? &&
      f.city != "" && f.country != "" &&
      4 <= |f.password| <= 8 && f.confirmPassword == f.password
  {
    PasswordControlValidIff(f.password);
  }

  /** A valid form's confirmation obeys the password's length limits, although its
      own control only requires it. */
  lemma ValidConfirmationLength(f: RegisterForm)
    requires FormValid(f)
    ensures 4 <= |f.confirmPassword| <= 8
  {
    PasswordControlValidIff(f.password);
  }

  /** The form as first shown cannot be submitted. */
  lemma InitialFormInvalid()
    ensures !FormValid(InitialForm())
  {
  }

  class RegisterComponent {
    /** The values the form group holds. */
    var registerForm: RegisterForm
    /** `this.user`: unset until a valid form is submitted. */
    var user: Option<RegisterForm>

    /** The component after `ngOnInit`, which builds the form. */
    constructor ()
      ensures registerForm == InitialForm() && user == None
    {
      registerForm := InitialForm();
      user := None;
    }

    /** `createRegisterForm`: resets every control to its initial value. */
    method CreateRegisterForm()
      modifies this`registerForm
      ensures registerForm == InitialForm()
      ensures !FormValid(registerForm)
    {
      registerForm := InitialForm();
    }

    /** `register()`: an invalid form changes nothing; a valid one is copied into
        `user` (what is sent to the server). */
    method Register()
      modifies this`user
      ensures FormValid(registerForm) ==> user == Some(registerForm)
      ensures !FormValid(registerForm) ==> user == old(user)
      ensures user.Some? && user != old(user) ==> 4 <= |user.value.password| <= 8
    {
      if FormValid(registerForm) {
        user := Some(registerForm);
      }
    }
  }
}
