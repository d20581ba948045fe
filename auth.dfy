/** The registration and invitation checks of src/utils/auth.ts: the UNSW
    e-mail test, the ordered registration checks, which roles may invite
    which, and the guards of `inviteUser` and `validateToken`. The database
    queries become parameters holding the rows they would return. */
module Auth {
  import Text
  import opened Skills

  /** The `UserType` enum. */
  datatype UserType = Student | Tutor | Coordinator | Client | Admin

  /** The string value of each `UserType` member. */
  function RoleName(u: UserType): string {
    match u
    case Student => "Student"
    case Tutor => "Tutor"
    case Coordinator => "Coordinator"
    case Client => "Client"
    case Admin => "Admin"
  }

  // ---------------------------------------------------------------------
  // isUnswEmail

  /** A character `\b` treats as part of a word: `[A-Za-z0-9_]`. */
  predicate WordChar(c: char) {
    'a' <= c <= 'z' || 'A' <= c <= 'Z' || '0' <= c <= '9' || c == '_'
  }

  /** The first index of `c` in `s`, or -1. */
  function IndexOf(s: string, c: char): (i: int)
    ensures -1 <= i < |s|
    ensures i >= 0 ==> s[i] == c && c !in s[..i]
    ensures i < 0 ==> c !in s
  {
    if s == [] then -1
    else if s[0] == c then 0
    else
      var j := IndexOf(s[1..], c);
      assert j >= 0 ==> s[1..][..j] == s[1..j + 1] && s[..j + 1] == [s[0]] + s[1..j + 1];
      if j < 0 then -1 else j + 1
  }

  /** "unsw" starts at `p` of the domain, with a word boundary on either
      side; the '@' before the domain counts as a non-word character. */
  predicate UnswAt(domain: string, p: int) {
    0 <= p && p + 4 <= |domain| && domain[p..p + 4] == "unsw" &&
    (p == 0 || !WordChar(domain[p - 1])) &&
    (p + 4 == |domain| || !WordChar(domain[p + 4]))
  }

  /** The domain holds the word "unsw". */
  predicate HasUnswWord(domain: string) {
    exists p :: 0 <= p < |domain| && UnswAt(domain, p)
  }

  /** The regular expression on an already lower-cased address: a
      non-empty local part, the only '@', and a domain holding the word
      "unsw". */
  predicate IsUnswAddress(e: string) {
    var at := IndexOf(e, '@');
    at > 0 && '@' !in e[at + 1..] && HasUnswWord(e[at + 1..])
  }

  /** `isUnswEmail`: `/^[^@]+@[^@]*\bunsw\b[^@]*$/i` on the lower-cased
      address. */
  predicate IsUnswEmail(email: string) {
    IsUnswAddress(Text.ToLower(email))
  }

  /** The shape the regular expression matches, written as a decomposition
      `local @ before unsw after` of the lower-cased address. */
  predicate MatchesAt(e: string, local: string, before: string, after: string) {
    e == local + "@" + before + "unsw" + after &&
    |local| > 0 && '@' !in local && '@' !in before && '@' !in after &&
    (before == [] || !WordChar(before[|before| - 1])) &&
    (after == [] || !WordChar(after[0]))
  }

  lemma AddressGivesMatch(e: string) returns (local: string, before: string, after: string)
    requires IsUnswAddress(e)
    ensures MatchesAt(e, local, before, after)
  {
    var at := IndexOf(e, '@');
    var domain := e[at + 1..];
    var p :| 0 <= p < |domain| && UnswAt(domain, p);
    local, before, after := e[..at], domain[..p], domain[p + 4..];
    Around(domain, p, p + 4);
    Around(e, at, at + 1);
    assert e[at..at + 1] == "@";
    Regroup(local, "@", before, "unsw", after);
    NotInSlice(domain, '@', 0, p);
    NotInSlice(domain, '@', p + 4, |domain|);
    assert before == [] || before[|before| - 1] == domain[p - 1];
    assert after == [] || after[0] == domain[p + 4];
    assert MatchesAt(e, local, before, after);
  }

  lemma MatchGivesAddress(e: string, local: string, before: string, after: string)
    requires MatchesAt(e, local, before, after)
    ensures IsUnswAddress(e)
  {
    var domain := before + "unsw" + after;
    assert e == local + ['@'] + domain;
    SplitAtSeparator(local, domain, '@');
    assert UnswAt(domain, |before|) by {
      assert domain[|before|..|before| + 4] == "unsw";
    }
    assert '@' !in domain by {
      assert '@' !in "unsw";
    }
    assert HasUnswWord(domain);
  }

  /** A string is what lies before, at and after a slice of it. */
  lemma Around(s: string, i: int, j: int)
    requires 0 <= i <= j <= |s|
    ensures s == s[..i] + s[i..j] + s[j..]
  {
  }

  lemma Regroup(a: string, b: string, c: string, d: string, f: string)
    ensures a + b + (c + d + f) == a + b + c + d + f
  {
  }

  /** A character absent from a string is absent from its slices. */
  lemma NotInSlice(s: string, c: char, i: int, j: int)
    requires c !in s
    requires 0 <= i <= j <= |s|
    ensures c !in s[i..j] && (i == 0 ==> c !in s[..j]) && (j == |s| ==> c !in s[i..])
  {
    assert forall k :: 0 <= k < j - i ==> s[i..j][k] == s[i + k];
    assert s[..j] == s[0..j] && s[i..] == s[i..|s|];
  }

  /** In `a + [c] + b` with `c` not in `a`, the first `c` is at `|a|` and
      what follows it is `b`. */
  lemma SplitAtSeparator(a: string, b: string, c: char)
    requires c !in a
    ensures IndexOf(a + [c] + b, c) == |a|
    ensures (a + [c] + b)[|a| + 1..] == b
  {
    var s := a + [c] + b;
    assert s[..|a|] == a;
    IndexOfAt(s, c, |a|);
  }

  /** The first occurrence is where `IndexOf` stops. */
  lemma {:induction false} IndexOfAt(s: string, c: char, i: int)
    requires 0 <= i < |s| && s[i] == c && c !in s[..i]
    ensures IndexOf(s, c) == i
  {
    if i > 0 {
      assert s[0] in s[..i];
      assert s[1..][..i - 1] == s[1..i];
      assert forall k :: 0 <= k < i - 1 ==> s[1..i][k] == s[..i][k + 1];
      IndexOfAt(s[1..], c, i - 1);
    }
  }

  /** The check accepts exactly the addresses the regular expression
      matches. */
  lemma UnswEmailMatches(email: string)
    ensures IsUnswEmail(email) <==>
            exists local, before, after :: MatchesAt(Text.ToLower(email), local, before, after)
  {
    var e := Text.ToLower(email);
    if IsUnswEmail(email) {
      var local, before, after := AddressGivesMatch(e);
    }
    if exists local, before, after :: MatchesAt(e, local, before, after) {
      var local, before, after :| MatchesAt(e, local, before, after);
      MatchGivesAddress(e, local, before, after);
    }
  }

  /** Upper-case letters are lowered before the match. */
  lemma UnswEmailIgnoresCase(email: string)
    ensures IsUnswEmail(Text.ToLower(email)) == IsUnswEmail(email)
  {
    Text.ToLowerIdempotent(email);
  }

  lemma UnswAddressExample()
    ensures IsUnswAddress("z1234567@unsw.edu.au")
  {
    MatchGivesAddress("z1234567@unsw.edu.au", "z1234567", "", ".edu.au");
  }

  /** "unswx" is not the word "unsw". */
  lemma UnswPrefixRejected()
    ensures !HasUnswWord("unswx.com")
  {
    forall p | 0 <= p < 9 ensures !UnswAt("unswx.com", p) {
      if p == 0 {
        assert "unswx.com"[4] == 'x';
      }
    }
  }

  /** An address with nothing before the '@' is refused. */
  lemma EmptyLocalRejected(domain: string)
    ensures !IsUnswAddress("@" + domain)
  {
    assert ("@" + domain)[0] == '@';
  }

  // ---------------------------------------------------------------------
  // registerCheck

  /** `RegisterUser`, with `zid` "" when not given. */
  datatype RegisterUser = RegisterUser(email: string, password: string, confirmPassword: string,
                                       role: UserType, zid: string)

  /** A row of the `users` table as `select('email, zid')` returns it. */
  datatype ExistingUser = ExistingUser(email: string, zid: string)

  const PasswordMismatch := "Password does not match"
  const NotUnswEmail := "Must be UNSW email"
  const InvalidZid := "Invalid zID"
  const AlreadyTaken := "Email or zID already taken!"

  /** `/^z\d{7}$/`. */
  predicate ValidZid(zid: string) {
    |zid| == 8 && zid[0] == 'z' && forall i :: 1 <= i < 8 ==> '0' <= zid[i] <= '9'
  }

  /** The predicate passed to `data.some`: the same e-mail, or the same
      non-empty zID, ignoring case. */
  predicate Clashes(d: ExistingUser, user: RegisterUser) {
    Text.ToLower(d.email) == Text.ToLower(user.email) ||
    (Text.ToLower(d.zid) == Text.ToLower(user.zid) && |d.zid| != 0)
  }

  /** `data.some(…)`. */
  predicate AnyClash(users: seq<ExistingUser>, user: RegisterUser) {
    users != [] && (Clashes(users[0], user) || AnyClash(users[1..], user))
  }

  lemma {:induction false} AnyClashExists(users: seq<ExistingUser>, user: RegisterUser)
    ensures AnyClash(users, user) <==> exists d :: d in users && Clashes(d, user)
  {
    if users != [] {
      AnyClashExists(users[1..], user);
      if exists d :: d in users && Clashes(d, user) {
        var d :| d in users && Clashes(d, user);
        if d != users[0] {
          assert d in users[1..];
        }
      }
    }
  }

  /** `registerCheck`: the message of the first check that fails, or "".
      `existing` is the `data` of the users query, None when it failed. */
  function RegisterCheck(user: RegisterUser, existing: Option<seq<ExistingUser>>): (msg: string)
    ensures msg == PasswordMismatch <==> user.password != user.confirmPassword
    ensures msg == NotUnswEmail <==>
              user.password == user.confirmPassword && user.role != Client && !IsUnswEmail(user.email)
    ensures msg == InvalidZid <==>
              user.password == user.confirmPassword && (user.role == Client || IsUnswEmail(user.email)) &&
              user.zid != "" && !ValidZid(user.zid)
    ensures msg == "" <==>
              user.password == user.confirmPassword && (user.role == Client || IsUnswEmail(user.email)) &&
              (user.zid == "" || ValidZid(user.zid)) &&
              !(existing.Some? && exists d :: d in existing.value && Clashes(d, user))
    ensures msg in {PasswordMismatch, NotUnswEmail, InvalidZid, AlreadyTaken, ""}
  {
    assert existing.Some? ==> (AnyClash(existing.value, user) <==> exists d :: d in existing.value && Clashes(d, user)) by {
      if existing.Some? {
        AnyClashExists(existing.value, user);
      }
    }
    if user.password != user.confirmPassword then PasswordMismatch
    else if user.role != Client && !IsUnswEmail(user.email) then NotUnswEmail
    else if user.zid != "" && !ValidZid(user.zid) then InvalidZid
    else if existing.Some? && AnyClash(existing.value, user) then AlreadyTaken
    else ""
  }

  /** Clients may register with any e-mail address; every other role
      needs a UNSW address. */
  lemma ClientEmailUnchecked(user: RegisterUser, existing: Option<seq<ExistingUser>>)
    requires user.role == Client
    ensures RegisterCheck(user, existing) != NotUnswEmail
  {
  }

  /** An account whose e-mail is already registered, in any case, is
      refused once the earlier checks pass. */
  lemma TakenEmailRefused(user: RegisterUser, users: seq<ExistingUser>, d: ExistingUser)
    requires d in users
    requires Text.ToLower(d.email) == Text.ToLower(user.email)
    ensures RegisterCheck(user, Some(users)) != ""
  {
    assert Clashes(d, user);
  }

  /** Two accounts without a zID never clash on the zID. */
  lemma EmptyZidNeverClashes(user: RegisterUser, d: ExistingUser)
    requires d.zid == ""
    ensures Clashes(d, user) <==> Text.ToLower(d.email) == Text.ToLower(user.email)
  {
  }

  lemma ZidExamples()
    ensures ValidZid("z1234567")
    ensures !ValidZid("z123456")
    ensures !ValidZid("Z1234567")
  {
  }

  // ---------------------------------------------------------------------
  // validateRoles and inviteUser

  /** `validateRoles`: whether an inviter whose role string is `role` may
      invite someone as `invitee`. Role strings that name no case of the
      `switch`, such as "Admin", fall to its `default` and may invite
      anyone. */
  function ValidateRoles(role: string, invitee: UserType): (ok: bool)
    ensures role == "Client" ==> !ok
    ensures role == "Student" ==> (ok <==> invitee == Student)
    ensures role == "Tutor" ==> (ok <==> invitee in {Client, Student, Tutor})
    ensures role == "Coordinator" ==> (ok <==> invitee != Admin)
    ensures role !in {"Coordinator", "Tutor", "Student", "Client"} ==> ok
  {
    assert invitee == Admin || invitee in [Coordinator, Client, Student, Tutor];
    if role == "Coordinator" then invitee in [Coordinator, Client, Student, Tutor]
    else if role == "Tutor" then invitee in [Client, Student, Tutor]
    else if role == "Student" then invitee in [Student]
    else if role == "Client" then false
    else true
  }

  /** What a Student may invite a Tutor may, and what a Tutor may a
      Coordinator may; Admin invites anyone. */
  lemma RolesNested(invitee: UserType)
    ensures ValidateRoles("Student", invitee) ==> ValidateRoles("Tutor", invitee)
    ensures ValidateRoles("Tutor", invitee) ==> ValidateRoles("Coordinator", invitee)
    ensures ValidateRoles("Coordinator", invitee) ==> ValidateRoles(RoleName(Admin), invitee)
  {
  }

  /** No one may invite an Admin except an Admin (or an unrecognised
      role). */
  lemma AdminInvitedOnlyByUnlisted(role: UserType)
    ensures ValidateRoles(RoleName(role), Admin) <==> role == Admin
  {
  }

  /** The inviter's stored role, first letter upper-cased, is what
      `validateRoles` sees. */
  function InviterAllowed(storedRole: string, invitee: UserType): (ok: bool)
    ensures forall u: UserType :: storedRole == Text.ToLower(RoleName(u)) ==> (ok <==> ValidateRoles(RoleName(u), invitee))
  {
    assert forall u: UserType :: storedRole == Text.ToLower(RoleName(u)) ==> Text.Capitalize(storedRole) == RoleName(u) by {
      forall u: UserType ensures storedRole == Text.ToLower(RoleName(u)) ==> Text.Capitalize(storedRole) == RoleName(u) {
        LowerRoleCapitalised(u);
      }
    }
    ValidateRoles(Text.Capitalize(storedRole), invitee)
  }

  /** The lower-case role strings the `users` table stores capitalise back
      to the enum values. */
  lemma LowerRoleCapitalised(u: UserType)
    ensures Text.Capitalize(Text.ToLower(RoleName(u))) == RoleName(u)
  {
    var s := RoleName(u);
    assert 'A' <= s[0] <= 'Z';
    assert forall i :: 1 <= i < |s| ==> 'a' <= s[i] <= 'z';
    CapitalizeLowered(s);
  }

  /** A capitalised word survives lowering and capitalising again. */
  lemma CapitalizeLowered(s: string)
    requires |s| > 0 && 'A' <= s[0] <= 'Z'
    requires forall i :: 1 <= i < |s| ==> 'a' <= s[i] <= 'z'
    ensures Text.Capitalize(Text.ToLower(s)) == s
  {
    var r := Text.Capitalize(Text.ToLower(s));
    assert r[0] == s[0];
    forall i | 1 <= i < |s| ensures r[i] == s[i] {
      assert r[1..][i - 1] == Text.ToLower(s)[1..][i - 1];
    }
  }

  /** A row of the `invites` table. */
  datatype Invite = Invite(iss: string, email: string, role: string)

  const AlreadyInvited := "User has already been invited"
  const EmailExists := "Email already exists"
  const FetchFailed := "Failed to fetch user"
  const InsertFailed := "Failed to insert invite"
  const NotPermitted := "Not enough permissions"

  /** `inviteUser` up to the e-mail: the invite row it inserts, or the
      message it throws. The awaited lookups are parameters: whether the
      address was already invited, whether it already has an account, the
      inviter's stored role (None when the lookup fails) and whether the
      insert succeeds. */
  function InviteUser(id: string, email: string, role: UserType, alreadyInvited: bool, emailExists: bool,
                      inviterRole: Option<string>, insertOk: bool): (r: Result<Invite>)
    ensures r.Ok? <==> !alreadyInvited && !emailExists && inviterRole.Some? &&
                       InviterAllowed(inviterRole.value, role) && insertOk
    ensures r.Ok? ==> r.value == Invite(id, email, RoleName(role))
    ensures r == Err(AlreadyInvited) <==> alreadyInvited
    ensures r == Err(EmailExists) <==> !alreadyInvited && emailExists
    ensures r == Err(FetchFailed) <==> !alreadyInvited && !emailExists && inviterRole.None?
    ensures r == Err(NotPermitted) <==> !alreadyInvited && !emailExists && inviterRole.Some? &&
                                         !InviterAllowed(inviterRole.value, role)
    ensures r == Err(InsertFailed) <==> !alreadyInvited && !emailExists && inviterRole.Some? &&
                                         InviterAllowed(inviterRole.value, role) && !insertOk
  {
    if alreadyInvited then Err(AlreadyInvited)
    else if emailExists then Err(EmailExists)
    else if inviterRole.None? then Err(FetchFailed)
    else if InviterAllowed(inviterRole.value, role) then
      if insertOk then Ok(Invite(id, email, RoleName(role))) else Err(InsertFailed)
    else Err(NotPermitted)
  }

  /** A student may invite students only, whatever else holds. */
  lemma StudentInvitesStudents(id: string, email: string, role: UserType, insertOk: bool)
    requires role != Student
    ensures InviteUser(id, email, role, false, false, Some("student"), insertOk) == Err(NotPermitted)
  {
    LowerRoleCapitalised(Student);
  }

  // ---------------------------------------------------------------------
  // validateToken

  /** `RegisterToken`. */
  datatype RegisterToken = RegisterToken(iss: string, email: string, role: UserType)

  /** The invites the token's query selects. */
  function Matching(token: RegisterToken, invites: seq<Invite>): (ms: seq<Invite>)
    ensures |ms| <= |invites|
    ensures forall m :: m in ms <==> m in invites && m == Invite(token.iss, token.email, RoleName(token.role))
  {
    if invites == [] then []
    else
      var rest := Matching(token, invites[1..]);
      assert forall m :: m in invites <==> m == invites[0] || m in invites[1..];
      if invites[0] == Invite(token.iss, token.email, RoleName(token.role)) then [invites[0]] + rest else rest
  }

  /** `validateToken`: false at once when the e-mail or the issuer is
      empty; otherwise whether `.single()` finds exactly one matching
      invite. */
  function ValidateToken(token: RegisterToken, invites: seq<Invite>): (ok: bool)
    ensures token.email == "" || token.iss == "" ==> !ok
    ensures ok ==> Invite(token.iss, token.email, RoleName(token.role)) in invites
    ensures !(Invite(token.iss, token.email, RoleName(token.role)) in invites) ==> !ok
  {
    if token.email == "" || token.iss == "" then false
    else
      var ms := Matching(token, invites);
      assert |ms| == 1 ==> ms[0] in ms;
      |ms| == 1
  }

  /** A single matching invite validates a token with both fields set. */
  lemma SingleInviteValidates(token: RegisterToken, others: seq<Invite>)
    requires token.email != "" && token.iss != ""
    requires Invite(token.iss, token.email, RoleName(token.role)) !in others
    ensures ValidateToken(token, others + [Invite(token.iss, token.email, RoleName(token.role))])
  {
    var inv := Invite(token.iss, token.email, RoleName(token.role));
    MatchingAppend(token, others, inv);
    NoneMatching(token, others);
  }

  lemma {:induction false} NoneMatching(token: RegisterToken, invites: seq<Invite>)
    requires Invite(token.iss, token.email, RoleName(token.role)) !in invites
    ensures Matching(token, invites) == []
  {
    if invites != [] {
      assert invites[0] != Invite(token.iss, token.email, RoleName(token.role));
      assert forall m :: m in invites[1..] ==> m in invites;
      NoneMatching(token, invites[1..]);
    }
  }

  lemma {:induction false} MatchingAppend(token: RegisterToken, invites: seq<Invite>, inv: Invite)
    ensures Matching(token, invites + [inv]) ==
            Matching(token, invites) + (if inv == Invite(token.iss, token.email, RoleName(token.role)) then [inv] else [])
  {
    if invites != [] {
      assert (invites + [inv])[1..] == invites[1..] + [inv];
      MatchingAppend(token, invites[1..], inv);
    }
  }

  /** Two identical invite rows make `.single()` fail, so the token is
      refused. */
  lemma DuplicateInviteRefused(token: RegisterToken, invites: seq<Invite>)
    requires |invites| == 2
    requires invites[0] == invites[1] == Invite(token.iss, token.email, RoleName(token.role))
    ensures !ValidateToken(token, invites)
  {
    assert invites[1..] == [invites[1]];
    assert invites[1..][1..] == [];
  }
}
