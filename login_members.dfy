/**
  The member table and MemberServiceImpl of the `com.kh.login` package: sign-up with duplicate
  e-mail / phone checks, login against an opaque password encoder, look-ups by e-mail and by
  social account, and creation of OAuth members.

  The password encoder is passed in as two functions (`encode`, `matches`); generated ids are
  taken from a counter the table owns.
*/
module LoginMembers {
  import opened Wrappers

  datatype SocialType = Google | Kakao

  /** The only role the service ever assigns (`Role.USER`, the entity's default). */
  datatype Role = User

  /**
    A row of the member table. A nullable column is an `Option`; `createdAt` is the time
    `@PrePersist` stamps when the row is first saved.
  */
  datatype Member = Member(
    id: int,
    name: string,
    email: string,
    password: string,
    phoneNumber: Option<string>,
    socialType: Option<SocialType>,
    socialId: Option<string>,
    role: Role,
    createdAt: int)

  datatype MemberCreateDto = MemberCreateDto(name: string, email: string, password: string, phoneNumber: Option<string>)

  datatype MemberLoginDto = MemberLoginDto(email: string, password: string)

  datatype MemberResponseDto = MemberResponseDto(id: int, name: string, email: string, phoneNumber: Option<string>,
                                                 role: Role, createdAt: int)

  datatype DuplicateField = Email | PhoneNumber

  datatype CredentialFault = UnknownEmail | PasswordMismatch

  datatype MemberError =
    | UserAlreadyExists(field: DuplicateField)
    | InvalidCredentials(fault: CredentialFault)
    | UserNotFound
      /** The store's unique constraint on e-mail refused the insert. */
    | DuplicateKey
      /** A query declared to return one row found more than one. */
    | IncorrectResultSize

  /** `existsByEmail`. */
  predicate ExistsByEmail(members: seq<Member>, email: string) {
    exists i :: 0 <= i < |members| && members[i].email == email
  }

  /** `existsByPhoneNumber`; a null argument matches the members without a phone number (IS NULL). */
  predicate ExistsByPhoneNumber(members: seq<Member>, phoneNumber: Option<string>) {
    exists i :: 0 <= i < |members| && members[i].phoneNumber == phoneNumber
  }

  /** `findByEmail`: the member with this e-mail, if any. */
  function FindByEmail(members: seq<Member>, email: string): (r: Option<Member>)
    ensures r.Some? ==> r.value in members && r.value.email == email
    ensures r.None? <==> !ExistsByEmail(members, email)
  {
    if members == [] then None
    else if members[0].email == email then Some(members[0])
    else
      var r := FindByEmail(members[1..], email);
      assert ExistsByEmail(members[1..], email) ==> ExistsByEmail(members, email) by {
        if ExistsByEmail(members[1..], email) {
          var i :| 0 <= i < |members[1..]| && members[1..][i].email == email;
          assert members[i + 1].email == email;
        }
      }
      r
  }

  /** `findById`. */
  function FindById(members: seq<Member>, id: int): (r: Option<Member>)
    ensures r.Some? ==> r.value in members && r.value.id == id
    ensures r.None? <==> (forall m :: m in members ==> m.id != id)
  {
    if members == [] then None
    else if members[0].id == id then Some(members[0])
    else FindById(members[1..], id)
  }

  /** The store's unique constraints: ids, e-mails and non-null phone numbers identify one row. */
  ghost predicate WellFormed(members: seq<Member>, nextId: int) {
    && (forall m :: m in members ==> m.id < nextId)
    && (forall i, j :: 0 <= i < j < |members| ==> members[i].id != members[j].id)
    && (forall i, j :: 0 <= i < j < |members| ==> members[i].email != members[j].email)
    && (forall i, j :: 0 <= i < j < |members| && members[i].phoneNumber.Some? ==> members[i].phoneNumber != members[j].phoneNumber)
  }

  /** `login`: the member with this e-mail, provided the raw password matches the stored one. */
  function Login(members: seq<Member>, dto: MemberLoginDto, matches: (string, string) -> bool): (r: Result<Member, MemberError>)
    ensures r.Success? ==> r.value in members && r.value.email == dto.email && matches(dto.password, r.value.password)
    ensures !ExistsByEmail(members, dto.email) <==> r == Failure(InvalidCredentials(UnknownEmail))
    ensures r.Failure? ==> r.error.InvalidCredentials?
  {
    match FindByEmail(members, dto.email)
    case None => Failure(InvalidCredentials(UnknownEmail))
    case Some(member) =>
      if !matches(dto.password, member.password) then Failure(InvalidCredentials(PasswordMismatch))
      else Success(member)
  }

  /** With e-mails unique, login succeeds exactly when some member has the e-mail and a matching password. */
  lemma LoginSucceedsIff(members: seq<Member>, nextId: int, dto: MemberLoginDto, matches: (string, string) -> bool)
    requires WellFormed(members, nextId)
    ensures Login(members, dto, matches).Success? <==>
            exists m :: m in members && m.email == dto.email && matches(dto.password, m.password)
  {
    if m :| m in members && m.email == dto.email && matches(dto.password, m.password) {
      var f := FindByEmail(members, dto.email);
      var i :| 0 <= i < |members| && members[i] == m;
      var j :| 0 <= j < |members| && members[j] == f.value;
      assert i == j;
    }
  }

  /** `MemberResponseDto.from`. */
  function ResponseOf(member: Member): MemberResponseDto
  {
    MemberResponseDto(member.id, member.name, member.email, member.phoneNumber, member.role, member.createdAt)
  }

  /** `getMemberInfoByEmail`. */
  function GetMemberInfoByEmail(members: seq<Member>, email: string): (r: Result<MemberResponseDto, MemberError>)
    ensures r.Failure? <==> !ExistsByEmail(members, email)
    ensures r.Failure? ==> r.error == UserNotFound
    ensures r.Success? ==> exists m :: m in members && m.email == email && r.value == ResponseOf(m)
  {
    match FindByEmail(members, email)
    case None => Failure(UserNotFound)
    case Some(member) => Success(ResponseOf(member))
  }

  /** The member is linked to this social account. */
  predicate HasSocial(m: Member, socialId: string, socialType: SocialType) {
    m.socialId == Some(socialId) && m.socialType == Some(socialType)
  }

  /**
    `getMemberBySocialId`, that is `findBySocialIdAndSocialType(..).orElse(null)`: no row gives
    `None` (the `null` the source returns), one row gives that member, and two or more rows make
    the `Optional` query throw, since the store does not keep social accounts unique.
  */
  function GetMemberBySocialId(members: seq<Member>, socialId: string, socialType: SocialType): (r: Result<Option<Member>, MemberError>)
    ensures r == Success(None) <==> forall i :: 0 <= i < |members| ==> !HasSocial(members[i], socialId, socialType)
    ensures r.Success? && r.value.Some? ==>
              exists i :: 0 <= i < |members| && members[i] == r.value.value && HasSocial(members[i], socialId, socialType) &&
                          forall j :: 0 <= j < |members| && j != i ==> !HasSocial(members[j], socialId, socialType)
    ensures r.Failure? <==>
              exists i, j :: 0 <= i < j < |members| && HasSocial(members[i], socialId, socialType) && HasSocial(members[j], socialId, socialType)
    ensures r.Failure? ==> r.error == IncorrectResultSize
  {
    if members == [] then Success(None)
    else
      var rest := GetMemberBySocialId(members[1..], socialId, socialType);
      if !HasSocial(members[0], socialId, socialType) then rest
      else if rest == Success(None) then Success(Some(members[0]))
      else Failure(IncorrectResultSize)
  }

  /** The member table together with the service that writes to it. */
  class MemberServiceImpl {
    var members: seq<Member>
    var nextId: int

    ghost predicate Valid()
      reads this
    {
      WellFormed(members, nextId)
    }

    constructor ()
      ensures Valid() && members == [] && nextId == 1
    {
      members := [];
      nextId := 1;
    }

    /**
      `create`: refuses a known e-mail, then a known phone number (a null one matches members
      without a phone); otherwise stores one member with the encoded password.
    */
    method Create(dto: MemberCreateDto, encode: string -> string, now: int) returns (r: Result<Member, MemberError>)
      requires Valid()
      modifies this
      ensures Valid()
      ensures ExistsByEmail(old(members), dto.email) ==>
                r == Failure(UserAlreadyExists(Email)) && members == old(members) && nextId == old(nextId)
      ensures !ExistsByEmail(old(members), dto.email) && ExistsByPhoneNumber(old(members), dto.phoneNumber) ==>
                r == Failure(UserAlreadyExists(PhoneNumber)) && members == old(members) && nextId == old(nextId)
      ensures !ExistsByEmail(old(members), dto.email) && !ExistsByPhoneNumber(old(members), dto.phoneNumber) ==>
                && r == Success(Member(old(nextId), dto.name, dto.email, encode(dto.password), dto.phoneNumber, None, None, User, now))
                && members == old(members) + [r.value]
                && nextId == old(nextId) + 1
    {
      if ExistsByEmail(members, dto.email) {
        return Failure(UserAlreadyExists(Email));
      }
      if ExistsByPhoneNumber(members, dto.phoneNumber) {
        return Failure(UserAlreadyExists(PhoneNumber));
      }
      var member := Member(nextId, dto.name, dto.email, encode(dto.password), dto.phoneNumber, None, None, User, now);
      members := members + [member];
      nextId := nextId + 1;
      r := Success(member);
    }

    /**
      `createOauth`: stores a member with an empty password, no phone number and the given
      social account. The service does not check the e-mail itself; the store's unique
      constraint refuses a known one.
    */
    method CreateOauth(socialId: string, email: string, name: string, socialType: SocialType, now: int)
      returns (r: Result<Member, MemberError>)
      requires Valid()
      modifies this
      ensures Valid()
      ensures ExistsByEmail(old(members), email) ==>
                r == Failure(DuplicateKey) && members == old(members) && nextId == old(nextId)
      ensures !ExistsByEmail(old(members), email) ==>
                && r == Success(Member(old(nextId), name, email, "", None, Some(socialType), Some(socialId), User, now))
                && members == old(members) + [r.value]
                && nextId == old(nextId) + 1
    {
      if ExistsByEmail(members, email) {
        return Failure(DuplicateKey);
      }
      var member := Member(nextId, name, email, "", None, Some(socialType), Some(socialId), User, now);
      members := members + [member];
      nextId := nextId + 1;
      r := Success(member);
    }
  }

  /** Once `create` has stored a member, logging in with the same raw password finds it. */
  lemma {:induction false} CreateThenLogin(members: seq<Member>, nextId: int, dto: MemberCreateDto, now: int,
                                           encode: string -> string, matches: (string, string) -> bool)
    requires WellFormed(members, nextId)
    requires !ExistsByEmail(members, dto.email)
    requires matches(dto.password, encode(dto.password))
    ensures var m := Member(nextId, dto.name, dto.email, encode(dto.password), dto.phoneNumber, None, None, User, now);
            Login(members + [m], MemberLoginDto(dto.email, dto.password), matches) == Success(m)
  {
    var m := Member(nextId, dto.name, dto.email, encode(dto.password), dto.phoneNumber, None, None, User, now);
    FindByEmailAppend(members, m);
  }

  lemma {:induction false} FindByEmailAppend(members: seq<Member>, m: Member)
    requires !ExistsByEmail(members, m.email)
    ensures FindByEmail(members + [m], m.email) == Some(m)
  {
    if members != [] {
      assert (members + [m])[1..] == members[1..] + [m];
      FindByEmailAppend(members[1..], m);
    }
  }

  /** A member just signed up reads back with the time it was saved. */
  lemma CreateThenGetInfo(members: seq<Member>, m: Member)
    requires !ExistsByEmail(members, m.email)
    ensures GetMemberInfoByEmail(members + [m], m.email) ==
              Success(MemberResponseDto(m.id, m.name, m.email, m.phoneNumber, m.role, m.createdAt))
  {
    FindByEmailAppend(members, m);
  }

  /**
    The OAuth sign-in flow looks the social account up before creating it: when the look-up
    found nobody, the member `createOauth` saves is the one the next look-up returns.
  */
  lemma {:induction false} CreateOauthThenFind(members: seq<Member>, m: Member, socialId: string, socialType: SocialType)
    requires GetMemberBySocialId(members, socialId, socialType) == Success(None)
    requires HasSocial(m, socialId, socialType)
    ensures GetMemberBySocialId(members + [m], socialId, socialType) == Success(Some(m))
  {
    var ms := members + [m];
    assert forall i :: 0 <= i < |members| ==> ms[i] == members[i];
    assert HasSocial(ms[|members|], socialId, socialType);
  }
}
