/** The member manager: registration, the login decision, partial update and
    soft delete of members. Password hashing and password verification are
    foreign calls; they enter as the function parameters `hash` and `verify`. */
module MembersService {
  import opened Models

  /** The body of a registration request; the password is the raw one. */
  datatype MemberRequest = MemberRequest(memberId: string, memberPw: string, memberName: string, memberEmail: string)

  /** The body of a profile update; a null field leaves the column as it is. */
  datatype MemberPatch = MemberPatch(memberPw: Option<string>, memberName: Option<string>, memberEmail: Option<string>)

  /** What a successful login returns about the member, apart from the tokens. */
  datatype LoginData = LoginData(memberNo: nat, memberId: string, memberName: string, memberEmail: string)

  /** Every member sits under its own number, below the next number to hand out. */
  predicate MemberTableOk(members: map<nat, Member>, next: nat)
  {
    forall k :: k in members ==> members[k].memberNo == k && k < next && members[k].life.WellFormed()
  }

  /** The unique constraint on member_id: it covers deleted rows too. */
  predicate UniqueLoginIds(members: map<nat, Member>)
  {
    forall a, b :: a in members && b in members && members[a].memberId == members[b].memberId ==> a == b
  }

  /** Some row, deleted or not, already holds login id `memberId`. */
  predicate LoginIdTaken(members: map<nat, Member>, memberId: string)
  {
    exists k :: k in members && members[k].memberId == memberId
  }

  /** The row create_member inserts: the hash of the password in place of the password. */
  function NewMember(req: MemberRequest, no: nat, hash: string -> string, now: Time): Member
  {
    Member(no, req.memberId, hash(req.memberPw), req.memberName, req.memberEmail, Created(now))
  }

  /** Registering an id that no row holds keeps login ids unique. */
  lemma RegistrationKeepsIdsUnique(members: map<nat, Member>, no: nat, m: Member)
    requires UniqueLoginIds(members)
    requires no !in members && !LoginIdTaken(members, m.memberId)
    ensures UniqueLoginIds(members[no := m])
  {
  }

  /** login_proc without the tokens: it fails when no live member holds the id,
      fails when the password does not verify against the stored hash, and
      otherwise returns that member's number, id, name and email. */
  function Login(members: map<nat, Member>, memberId: string, memberPw: string,
                 verify: (string, string) -> bool): (r: Result<LoginData>)
    requires UniqueLoginIds(members)
    ensures r.Ok? || r == Err(NotFound) || r == Err(PasswordMismatch)
    ensures r == Err(NotFound) <==>
              !exists k :: k in members && members[k].memberId == memberId && members[k].life.Active()
    ensures r == Err(PasswordMismatch) <==>
              exists k :: k in members && members[k].memberId == memberId && members[k].life.Active()
                          && !verify(memberPw, members[k].memberPw)
    ensures r.Ok? ==>
              exists k :: k in members && members[k].memberId == memberId && members[k].life.Active()
                          && verify(memberPw, members[k].memberPw)
                          && r.value == LoginData(k, members[k].memberId, members[k].memberName, members[k].memberEmail)
  {
    if exists k :: k in members && members[k].memberId == memberId && members[k].life.isDeleted == F then
      var k :| k in members && members[k].memberId == memberId && members[k].life.isDeleted == F;
      if !verify(memberPw, members[k].memberPw) then Err(PasswordMismatch)
      else Ok(LoginData(k, members[k].memberId, members[k].memberName, members[k].memberEmail))
    else Err(NotFound)
  }

  /** The lookup of member_modify and member_delete: a live row with that number. */
  function FindMember(members: map<nat, Member>, memberNo: nat): (r: Result<Member>)
    ensures r.Err? <==> memberNo !in members || !members[memberNo].life.Active()
    ensures r.Err? ==> r.error == NotFound
    ensures r.Ok? ==> memberNo in members && r.value == members[memberNo]
  {
    if memberNo !in members || members[memberNo].life.isDeleted != F then Err(NotFound)
    else Ok(members[memberNo])
  }

  /** The row after member_modify: a non-null password is stored hashed, a
      non-null name or email is stored as given, null fields are skipped, and
      number, login id and audit columns stay. */
  function ApplyMemberPatch(m: Member, p: MemberPatch, hash: string -> string): (r: Member)
    ensures r.memberNo == m.memberNo && r.memberId == m.memberId && r.life == m.life
    ensures r.memberPw == if p.memberPw.Some? then hash(p.memberPw.value) else m.memberPw
    ensures r.memberName == if p.memberName.Some? then p.memberName.value else m.memberName
    ensures r.memberEmail == if p.memberEmail.Some? then p.memberEmail.value else m.memberEmail
    ensures p == MemberPatch(None, None, None) ==> r == m
  {
    var withPw := match p.memberPw case Some(pw) => m.(memberPw := hash(pw)) case None => m;
    var withName := match p.memberName case Some(n) => withPw.(memberName := n) case None => withPw;
    match p.memberEmail case Some(e) => withName.(memberEmail := e) case None => withName
  }

  /** A member just registered can log in with the password it registered
      with, whenever the verifier accepts a password against its own hash. */
  lemma RegisteredMemberCanLogIn(members: map<nat, Member>, req: MemberRequest, no: nat,
                                 hash: string -> string, verify: (string, string) -> bool, now: Time)
    requires UniqueLoginIds(members)
    requires no !in members && !LoginIdTaken(members, req.memberId)
    requires verify(req.memberPw, hash(req.memberPw))
    ensures var m := NewMember(req, no, hash, now);
            UniqueLoginIds(members[no := m]) &&
            Login(members[no := m], req.memberId, req.memberPw, verify)
              == Ok(LoginData(no, req.memberId, req.memberName, req.memberEmail))
  {
    var m := NewMember(req, no, hash, now);
    var after := members[no := m];
    RegistrationKeepsIdsUnique(members, no, m);
    assert after[no].memberId == req.memberId && after[no].life.Active();
    var r := Login(after, req.memberId, req.memberPw, verify);
    assert r.Ok?;
    var k :| k in after && after[k].memberId == req.memberId && after[k].life.Active()
             && verify(req.memberPw, after[k].memberPw)
             && r.value == LoginData(k, after[k].memberId, after[k].memberName, after[k].memberEmail);
    assert k == no;
  }

  /** After member_delete the member's login id no longer logs in. */
  lemma DeletedMemberCannotLogIn(members: map<nat, Member>, memberNo: nat, memberPw: string,
                                 verify: (string, string) -> bool, now: Time)
    requires UniqueLoginIds(members)
    requires FindMember(members, memberNo).Ok?
    ensures var m := members[memberNo];
            var after := members[memberNo := m.(life := SoftDeleted(m.life, now))];
            UniqueLoginIds(after) && Login(after, m.memberId, memberPw, verify) == Err(NotFound)
  {
  }
}
