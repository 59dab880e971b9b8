/**
  The member table and MemberServiceImpl of the `com.kh.shopit` package: sign-up with duplicate
  e-mail / phone checks, login against an opaque password encoder, and look-up by id.
  The package's `Member` entity and `MemberResponseDto` are not part of this model. The model
  gives them the columns and fields of the login package, without the social-login columns
  that nothing in this package reads or writes. The login controller reads the member's role
  (MemberController.java:42), which the entity's default makes USER.
*/
module ShopitMembers {
  import opened Wrappers

  /** The only role a member of this package ever has (`Role.USER`). */
  datatype Role = User

  /** A row of the member table; `createdAt` is the time of its first save. */
  datatype Member = Member(id: int, name: string, email: string, password: string, phoneNumber: Option<string>,
                           role: Role, createdAt: int)

  datatype MemberCreateDto = MemberCreateDto(name: string, email: string, password: string, phoneNumber: Option<string>)

  datatype MemberLoginDto = MemberLoginDto(email: string, password: string)

  datatype MemberResponseDto = MemberResponseDto(id: int, name: string, email: string, phoneNumber: Option<string>,
                                                 role: Role, createdAt: int)

  datatype DuplicateField = Email | PhoneNumber

  datatype CredentialFault = UnknownEmail | PasswordMismatch

  datatype MemberError =
    | UserAlreadyExists(field: DuplicateField)
    | InvalidCredentials(fault: CredentialFault)
    | UserNotFound

  predicate ExistsByEmail(members: seq<Member>, email: string) {
    exists i :: 0 <= i < |members| && members[i].email == email
  }

  /** A null argument matches the members without a phone number (IS NULL). */
  predicate ExistsByPhoneNumber(members: seq<Member>, phoneNumber: Option<string>) {
    exists i :: 0 <= i < |members| && members[i].phoneNumber == phoneNumber
  }

  /** `findByEmail`. */
  function FindByEmail(members: seq<Member>, email: string): (r: Option<Member>)
    ensures r.Some? ==> r.value in members && r.value.email == email
    ensures r.None? <==> !ExistsByEmail(members, email)
  {
    if members == [] then None
    else if members[0].email == email then Some(members[0])
    else
      var r := FindByEmail(members[1..], email);
      assert ExistsByEmail(members[1..], email) ==> ExistsByEmail(members, email) by {
        if ExistsByEmail(members[1..], email) {
          var i :| 0 <= i < |members[1..]| && members[1..][i].email == email;
          assert members[i + 1].email == email;
        }
      }
      r
  }

  ghost predicate WellFormed(members: seq<Member>, nextId: int) {
    && (forall m :: m in members ==> m.id < nextId)
    && (forall i, j :: 0 <= i < j < |members| ==> members[i].id != members[j].id)
    && (forall i, j :: 0 <= i < j < |members| ==> members[i].email != members[j].email)
  }

  /** `login`: fails on an unknown e-mail or a password mismatch, otherwise gives the member. */
  function Login(members: seq<Member>, dto: MemberLoginDto, matches: (string, string) -> bool): (r: Result<Member, MemberError>)
    ensures r.Success? ==> r.value in members && r.value.email == dto.email && matches(dto.password, r.value.password)
    ensures !ExistsByEmail(members, dto.email) <==> r == Failure(InvalidCredentials(UnknownEmail))
    ensures r.Failure? ==> r.error.InvalidCredentials?
  {
    match FindByEmail(members, dto.email)
    case None => Failure(InvalidCredentials(UnknownEmail))
    case Some(member) =>
      if !matches(dto.password, member.password) then Failure(InvalidCredentials(PasswordMismatch))
      else Success(member)
  }

  /** With e-mails unique, a mismatching password is the only other way login fails. */
  lemma LoginFailsIff(members: seq<Member>, nextId: int, dto: MemberLoginDto, matches: (string, string) -> bool)
    requires WellFormed(members, nextId)
    ensures Login(members, dto, matches) == Failure(InvalidCredentials(PasswordMismatch)) <==>
            exists m :: m in members && m.email == dto.email && !matches(dto.password, m.password)
  {
    if m :| m in members && m.email == dto.email && !matches(dto.password, m.password) {
      var f := FindByEmail(members, dto.email);
      var i :| 0 <= i < |members| && members[i] == m;
      var j :| 0 <= j < |members| && members[j] == f.value;
      assert i == j;
    }
  }

  /** `MemberResponseDto.from`: the member's fields without the password. */
  function ResponseOf(m: Member): (r: MemberResponseDto)
  {
    MemberResponseDto(m.id, m.name, m.email, m.phoneNumber, m.role, m.createdAt)
  }

  /** `getMemberInfo`: the member with this id, or UserNotFound. */
  function GetMemberInfo(members: seq<Member>, memberId: int): (r: Result<MemberResponseDto, MemberError>)
    ensures r.Failure? <==> forall m :: m in members ==> m.id != memberId
    ensures r.Failure? ==> r.error == UserNotFound
    ensures r.Success? ==> exists m :: m in members && m.id == memberId &&
                                       r.value == ResponseOf(m)
  {
    if members == [] then Failure(UserNotFound)
    else if members[0].id == memberId then Success(ResponseOf(members[0]))
    else GetMemberInfo(members[1..], memberId)
  }

  /**
    A member saved with an id no other member has reads back, every field included. `create`
    gives the new member the next id, which the table invariant keeps above every stored id.
  */
  lemma {:induction false} SaveThenGetInfo(members: seq<Member>, m: Member)
    requires forall x :: x in members ==> x.id != m.id
    ensures GetMemberInfo(members + [m], m.id) == Success(ResponseOf(m))
  {
    if members != [] {
      assert (members + [m])[1..] == members[1..] + [m];
      SaveThenGetInfo(members[1..], m);
    }
  }

  class MemberServiceImpl {
    var members: seq<Member>
    var nextId: int

    ghost predicate Valid()
      reads this
    {
      WellFormed(members, nextId)
    }

    constructor ()
      ensures Valid() && members == [] && nextId == 1
    {
      members := [];
      nextId := 1;
    }

    /** `create`: refuses a known e-mail, then a known phone number; otherwise stores one member. */
    method Create(dto: MemberCreateDto, encode: string -> string, now: int) returns (r: Result<Member, MemberError>)
      requires Valid()
      modifies this
      ensures Valid()
      ensures ExistsByEmail(old(members), dto.email) ==>
                r == Failure(UserAlreadyExists(Email)) && members == old(members) && nextId == old(nextId)
      ensures !ExistsByEmail(old(members), dto.email) && ExistsByPhoneNumber(old(members), dto.phoneNumber) ==>
                r == Failure(UserAlreadyExists(PhoneNumber)) && members == old(members) && nextId == old(nextId)
      ensures !ExistsByEmail(old(members), dto.email) && !ExistsByPhoneNumber(old(members), dto.phoneNumber) ==>
                && r == Success(Member(old(nextId), dto.name, dto.email, encode(dto.password), dto.phoneNumber, User, now))
                && members == old(members) + [r.value]
                && nextId == old(nextId) + 1
    {
      if ExistsByEmail(members, dto.email) {
        return Failure(UserAlreadyExists(Email));
      }
      if ExistsByPhoneNumber(members, dto.phoneNumber) {
        return Failure(UserAlreadyExists(PhoneNumber));
      }
      var member := Member(nextId, dto.name, dto.email, encode(dto.password), dto.phoneNumber, User, now);
      members := members + [member];
      nextId := nextId + 1;
      r := Success(member);
    }
  }
}
