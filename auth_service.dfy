/** The `AuthService` class: it holds the Prisma client's user table, the JWT
    service and the bcrypt functions, and its `Signup` method changes the
    table in place, step by step, as the awaited calls of the service do.
    `login` writes nothing: it is `AuthWorkflow.Login` applied to
    `prisma.Snapshot()`, the table's current value. */
module Service {
  import opened Results
  import opened PrismaStore
  import opened AuthWorkflow

  class AuthService {
    const prisma: UserDelegate
    const jwtService: JwtService
    const bcrypt: Bcrypt

    ghost predicate Valid()
      reads this, prisma
    {
      prisma.Valid()
    }

    constructor (prisma: UserDelegate, jwtService: JwtService, bcrypt: Bcrypt)
      requires prisma.Valid()
      ensures Valid()
      ensures this.prisma == prisma && this.jwtService == jwtService && this.bcrypt == bcrypt
    {
      this.prisma := prisma;
      this.jwtService := jwtService;
      this.bcrypt := bcrypt;
    }

    /** Registers a user. The table after the call and the way the call
        settles are exactly those of `AuthWorkflow.Signup` on the table before. */
    method Signup(dto: SignupDto, fault: Fault) returns (r: Outcome<SignupResponse>)
      requires Valid()
      modifies prisma
      ensures Valid()
      ensures var s := AuthWorkflow.Signup(old(prisma.Snapshot()), dto, bcrypt, fault);
        prisma.Snapshot() == s.table && r == s.outcome
    {
      if !Truthy(dto.email) || !Truthy(dto.password) || !Truthy(dto.name) {
        return Returns(SignupResponse(false, MissingFields, None));
      }
      var email, password, name := dto.email.value, dto.password.value, dto.name.value;

      if Fires(fault, PrismaFindUnique) {
        return Throws(fault.message);
      }
      var userExists := FindUnique(prisma.Snapshot(), email);
      if userExists.Some? {
        return Returns(SignupResponse(false, UserExists, None));
      }

      if Fires(fault, BcryptHash) {
        return Throws(fault.message);
      }
      var hashedPassword := bcrypt.hash(password, SaltRounds);

      if Fires(fault, PrismaCreate) {
        return Throws(fault.message);
      }
      var created := prisma.Create(email, hashedPassword, name);
      match created
      case Throws(message) =>
        r := Throws(message);
      case Returns(user) =>
        r := Returns(SignupResponse(true, Registered, Some(user)));
    }
  }
}
