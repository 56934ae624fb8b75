/** The two operations of `AuthService` as functions of the user table's value:
    what signup returns and leaves in the table, and what login returns.
    The libraries the service calls are given as values: bcrypt's `hash` and
    `compare`, the JWT service's `sign`, and a `Fault` naming the call, if
    any, that throws. */
module AuthWorkflow {
  import opened Results
  import opened PrismaStore

  /** The cost factor signup passes to `bcrypt.hash`. */
  const SaltRounds: nat := 10

  const MissingFields := "Please provide all the required fields"
  const UserExists := "User already exists"
  const Registered := "User registered successfully!"
  const InvalidCredentials := "Invalid credentials"
  const LoginSucceeded := "Login successful"

  /** A signup request body; `None` is a field that is absent (undefined or null). */
  datatype SignupDto = SignupDto(email: Option<string>, password: Option<string>, name: Option<string>)

  datatype LoginDto = LoginDto(email: string, password: string)

  /** `{ success, message, user? }` as signup resolves it; `user` is the full created row. */
  datatype SignupResponse = SignupResponse(success: bool, message: string, user: Option<User>)

  /** `{ success, message, token? }` as login resolves it. */
  datatype LoginResponse = LoginResponse(success: bool, message: string, token: Option<string>)

  /** The bcrypt functions, left uninterpreted: `hash(plaintext, rounds)` and `compare(plaintext, digest)`. */
  datatype Bcrypt = Bcrypt(hash: (string, nat) -> string, compare: (string, string) -> bool)

  /** The claims login signs: `{ email, sub }`. */
  datatype Payload = Payload(email: string, sub: Id)

  /** The JWT service with its configured secret and expiry, left uninterpreted. */
  datatype JwtService = JwtService(sign: Payload -> string)

  /** The one assumption made of bcrypt: a password compares true against any hash of itself. */
  ghost predicate HashVerifies(bcrypt: Bcrypt) {
    forall p, rounds :: bcrypt.compare(p, bcrypt.hash(p, rounds))
  }

  /** The library calls the two operations await. */
  datatype LibraryCall = PrismaFindUnique | BcryptHash | PrismaCreate | BcryptCompare | JwtSign

  /** Which call, if any, throws during one operation, and with what message. */
  datatype Fault = NoFault | FailsAt(call: LibraryCall, message: string)

  predicate Fires(fault: Fault, call: LibraryCall) {
    fault.FailsAt? && fault.call == call
  }

  /** JavaScript truthiness of a string field: present and not empty. */
  predicate Truthy(field: Option<string>) {
    field.Some? && field.value != ""
  }

  predicate AllFieldsGiven(dto: SignupDto) {
    Truthy(dto.email) && Truthy(dto.password) && Truthy(dto.name)
  }

  /** What signup leaves in the table, and how its promise settles. */
  datatype SignupStep = SignupStep(table: Table, outcome: Outcome<SignupResponse>)

  predicate Succeeded(s: SignupStep) {
    s.outcome.Returns? && s.outcome.value.success && s.outcome.value.user.Some?
  }

  /** `signup`: validate the fields, reject a taken email, otherwise hash the
      password and create the row. Nothing catches a throwing call, so the
      promise rejects with that call's message. */
  function Signup(t: Table, dto: SignupDto, bcrypt: Bcrypt, fault: Fault): (r: SignupStep)
    requires Consistent(t)
    ensures Consistent(r.table)
    ensures !AllFieldsGiven(dto) ==>
              r == SignupStep(t, Returns(SignupResponse(false, MissingFields, None)))
    ensures AllFieldsGiven(dto) && !Fires(fault, PrismaFindUnique) && HasEmail(t, dto.email.value) ==>
              r == SignupStep(t, Returns(SignupResponse(false, UserExists, None)))
    ensures r.outcome.Throws? ==> fault.FailsAt? && r.outcome.message == fault.message
    ensures AllFieldsGiven(dto) &&
            (Fires(fault, PrismaFindUnique) ||
             (!HasEmail(t, dto.email.value) && (Fires(fault, BcryptHash) || Fires(fault, PrismaCreate)))) ==>
              r == SignupStep(t, Throws(fault.message))
    ensures Succeeded(r) <==>
              && AllFieldsGiven(dto) && !HasEmail(t, dto.email.value)
              && !Fires(fault, PrismaFindUnique) && !Fires(fault, BcryptHash) && !Fires(fault, PrismaCreate)
    ensures Succeeded(r) ==>
              var u := r.outcome.value.user.value;
              && r.outcome.value.message == Registered
              && u.email == dto.email.value && u.name == dto.name.value
              && u.password == bcrypt.hash(dto.password.value, SaltRounds)
              && (forall v :: v in t.users.Values ==> v.id != u.id)
              && r.table.users == t.users[u.email := u]
    ensures !Succeeded(r) ==> r.table == t
  {
    if !AllFieldsGiven(dto) then
      SignupStep(t, Returns(SignupResponse(false, MissingFields, None)))
    else
      var email, password, name := dto.email.value, dto.password.value, dto.name.value;
      if Fires(fault, PrismaFindUnique) then SignupStep(t, Throws(fault.message))
      else if FindUnique(t, email).Some? then SignupStep(t, Returns(SignupResponse(false, UserExists, None)))
      else if Fires(fault, BcryptHash) then SignupStep(t, Throws(fault.message))
      else
        var hashedPassword := bcrypt.hash(password, SaltRounds);
        if Fires(fault, PrismaCreate) then SignupStep(t, Throws(fault.message))
        else
          var t' := Insert(t, email, hashedPassword, name);
          SignupStep(t', Returns(SignupResponse(true, Registered, Some(t'.users[email]))))
  }

  /** `login`: look the email up, compare the password, and sign `{ email, sub }`.
      An unknown email and a wrong password give the same response; any
      throwing call is caught and its message returned. */
  function Login(t: Table, dto: LoginDto, bcrypt: Bcrypt, jwt: JwtService, fault: Fault): (r: LoginResponse)
    requires Consistent(t)
    ensures r.success <==>
              && !Fires(fault, PrismaFindUnique) && HasEmail(t, dto.email)
              && !Fires(fault, BcryptCompare) && bcrypt.compare(dto.password, t.users[dto.email].password)
              && !Fires(fault, JwtSign)
    ensures r.success ==>
              && r.message == LoginSucceeded
              && r.token == Some(jwt.sign(Payload(dto.email, t.users[dto.email].id)))
    ensures !r.success ==>
              && r.token == None
              && (r.message == InvalidCredentials || (fault.FailsAt? && r.message == fault.message))
    ensures Fires(fault, PrismaFindUnique) ==> r == LoginResponse(false, fault.message, None)
    ensures !Fires(fault, PrismaFindUnique) && HasEmail(t, dto.email) && Fires(fault, BcryptCompare) ==>
              r == LoginResponse(false, fault.message, None)
    ensures !Fires(fault, PrismaFindUnique) && HasEmail(t, dto.email) &&
            bcrypt.compare(dto.password, t.users[dto.email].password) && Fires(fault, JwtSign) ==>
              r == LoginResponse(false, fault.message, None)
    ensures !Fires(fault, PrismaFindUnique) &&
            (!HasEmail(t, dto.email) ||
             (!Fires(fault, BcryptCompare) && !bcrypt.compare(dto.password, t.users[dto.email].password))) ==>
              r == LoginResponse(false, InvalidCredentials, None)
    ensures fault == NoFault && !r.success ==> r == LoginResponse(false, InvalidCredentials, None)
  {
    if Fires(fault, PrismaFindUnique) then LoginResponse(false, fault.message, None)
    else match FindUnique(t, dto.email)
      case None => LoginResponse(false, InvalidCredentials, None)
      case Some(user) =>
        if Fires(fault, BcryptCompare) then LoginResponse(false, fault.message, None)
        else if !bcrypt.compare(dto.password, user.password) then LoginResponse(false, InvalidCredentials, None)
        else if Fires(fault, JwtSign) then LoginResponse(false, fault.message, None)
        else LoginResponse(true, LoginSucceeded, Some(jwt.sign(Payload(user.email, user.id))))
  }
}
