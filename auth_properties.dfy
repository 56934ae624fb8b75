/** What the two operations promise together: the uniform failure of login,
    that a registered user can log in, and that repeated signups keep the
    table consistent and never register an email twice. */
module AuthProperties {
  import opened Results
  import opened PrismaStore
  import opened AuthWorkflow

  /** An unknown email and a known email with a wrong password give the very same login response,
      whenever neither the lookup nor the compare throws. */
  lemma LoginFailuresIndistinguishable(t: Table, unknown: LoginDto, wrong: LoginDto, bcrypt: Bcrypt, jwt: JwtService,
                                       fault: Fault)
    requires Consistent(t)
    requires !Fires(fault, PrismaFindUnique) && !Fires(fault, BcryptCompare)
    requires !HasEmail(t, unknown.email)
    requires wrong.email in t.users && !bcrypt.compare(wrong.password, t.users[wrong.email].password)
    ensures Login(t, unknown, bcrypt, jwt, fault) == Login(t, wrong, bcrypt, jwt, fault)
    ensures Login(t, unknown, bcrypt, jwt, fault) == LoginResponse(false, InvalidCredentials, None)
  {
  }

  /** After a successful signup, logging in with the same email and password
      succeeds and the token signs the new row's email and id. */
  lemma SignupThenLogin(t: Table, dto: SignupDto, bcrypt: Bcrypt, jwt: JwtService, fault: Fault)
    requires Consistent(t) && HashVerifies(bcrypt)
    requires Succeeded(Signup(t, dto, bcrypt, fault))
    ensures var s := Signup(t, dto, bcrypt, fault);
      var u := s.outcome.value.user.value;
      Login(s.table, LoginDto(dto.email.value, dto.password.value), bcrypt, jwt, NoFault)
        == LoginResponse(true, LoginSucceeded, Some(jwt.sign(Payload(u.email, u.id))))
  {
  }

  /** One signup request: its body and the library failure, if any, it meets. */
  datatype SignupRequest = SignupRequest(dto: SignupDto, fault: Fault)

  /** Every row of `before` is in `after`, unchanged. */
  ghost predicate KeepsRows(before: Table, after: Table) {
    forall e :: e in before.users ==> e in after.users && after.users[e] == before.users[e]
  }

  /** The steps of handling the requests one after another, each on the table the previous one left. */
  function SignupAll(t: Table, reqs: seq<SignupRequest>, bcrypt: Bcrypt): (r: seq<SignupStep>)
    requires Consistent(t)
    ensures |r| == |reqs|
    ensures forall i :: 0 <= i < |r| ==> Consistent(r[i].table)
    ensures forall i, e :: 0 <= i < |r| && e in t.users ==> e in r[i].table.users && r[i].table.users[e] == t.users[e]
    ensures forall i, j :: 0 <= i && j == i + 1 && j < |r| ==> KeepsRows(r[i].table, r[j].table)
    decreases |reqs|
  {
    if reqs == [] then []
    else
      var s := Signup(t, reqs[0].dto, bcrypt, reqs[0].fault);
      [s] + SignupAll(s.table, reqs[1..], bcrypt)
  }

  /** The table after all the steps. */
  function Final(t: Table, steps: seq<SignupStep>): Table {
    if steps == [] then t else steps[|steps| - 1].table
  }

  /** A request for this email with every field given, whose lookup does not throw. */
  predicate AsksFor(req: SignupRequest, email: string) {
    AllFieldsGiven(req.dto) && req.dto.email.value == email && !Fires(req.fault, PrismaFindUnique)
  }

  /** Once an email is taken, every further request for it is answered
      'User already exists' and the table does not change. */
  lemma {:induction false} TakenStaysTaken(t: Table, reqs: seq<SignupRequest>, bcrypt: Bcrypt, email: string)
    requires Consistent(t) && HasEmail(t, email)
    requires forall i :: 0 <= i < |reqs| ==> AsksFor(reqs[i], email)
    ensures forall i :: 0 <= i < |reqs| ==>
              SignupAll(t, reqs, bcrypt)[i] == SignupStep(t, Returns(SignupResponse(false, UserExists, None)))
    decreases |reqs|
  {
    if reqs != [] {
      TakenStaysTaken(t, reqs[1..], bcrypt, email);
    }
  }

  /** Fault-free signups for one new email, handled one after another: the
      first registers it and every later one is told the user exists. */
  lemma RepeatedSignupRegistersOnce(t: Table, reqs: seq<SignupRequest>, bcrypt: Bcrypt, email: string)
    requires Consistent(t) && !HasEmail(t, email) && |reqs| > 0
    requires forall i :: 0 <= i < |reqs| ==> AsksFor(reqs[i], email) && reqs[i].fault == NoFault
    ensures var steps := SignupAll(t, reqs, bcrypt);
      && Succeeded(steps[0])
      && (forall i :: 1 <= i < |steps| ==> steps[i].outcome == Returns(SignupResponse(false, UserExists, None)))
      && Final(t, steps).users.Keys == t.users.Keys + {email}
  {
    var s := Signup(t, reqs[0].dto, bcrypt, reqs[0].fault);
    assert HasEmail(s.table, email) by {
      var u := s.outcome.value.user.value;
      assert s.table.users[email] == u && u in s.table.users.Values;
    }
    var rest := reqs[1..];
    assert forall i :: 0 <= i < |rest| ==> AsksFor(rest[i], email) by {
      forall i | 0 <= i < |rest| ensures AsksFor(rest[i], email) { assert rest[i] == reqs[i + 1]; }
    }
    TakenStaysTaken(s.table, rest, bcrypt, email);
    var steps := SignupAll(t, reqs, bcrypt);
    assert steps == [s] + SignupAll(s.table, rest, bcrypt);
  }

  /** A user who registered can still log in after any number of later signups. */
  lemma RegisteredUserCanLogIn(t: Table, dto: SignupDto, fault: Fault, later: seq<SignupRequest>,
                               bcrypt: Bcrypt, jwt: JwtService)
    requires Consistent(t) && HashVerifies(bcrypt)
    requires Succeeded(Signup(t, dto, bcrypt, fault))
    ensures var s := Signup(t, dto, bcrypt, fault);
      var u := s.outcome.value.user.value;
      var t' := Final(s.table, SignupAll(s.table, later, bcrypt));
      && Consistent(t')
      && Login(t', LoginDto(dto.email.value, dto.password.value), bcrypt, jwt, NoFault)
           == LoginResponse(true, LoginSucceeded, Some(jwt.sign(Payload(u.email, u.id))))
  {
  }
}
