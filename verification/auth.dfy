/** Account management of the backend (convex/auth.ts): sign-up, sign-in,
    the current-user query, hex encoding of digests and tokens, and the
    password-reset flow. The user table is a sequence in insertion order;
    an index's `.first()` is the earliest inserted match. SHA-256 digests,
    random bytes, fresh ids and the clock are parameters. */
module Auth {
  import opened Wrappers
  import opened Text

  type Byte = b: int | 0 <= b < 256

  datatype User = User(
    id: string,
    email: string,
    password: string,
    name: string,
    createdAt: int,
    resetToken: Option<string>,
    resetTokenExpiry: Option<int>)

  type Users = seq<User>

  const UserExists: string := "User already exists"
  const InvalidCredentials: string := "Invalid email or password"
  const InvalidToken: string := "Invalid or expired token"
  /** One hour in milliseconds. */
  const ResetWindow: int := 1000 * 60 * 60
  const TokenBytes: nat := 32

  // ---------------------------------------------------------------------
  // Lookups

  function FindBy(users: Users, p: User -> bool): (r: Option<nat>)
    ensures r.Some? ==> r.value < |users| && p(users[r.value]) && forall k :: 0 <= k < r.value ==> !p(users[k])
    ensures r.None? ==> forall k :: 0 <= k < |users| ==> !p(users[k])
  {
    if |users| == 0 then None
    else if p(users[0]) then Some(0)
    else
      match FindBy(users[1..], p)
      case None => None
      case Some(k) => Some(k + 1)
  }

  /** The index of the first user with this email. */
  function ByEmail(users: Users, email: string): (r: Option<nat>)
    ensures r.Some? ==> r.value < |users| && users[r.value].email == email
    ensures r.Some? ==> forall k :: 0 <= k < r.value ==> users[k].email != email
    ensures r.None? <==> forall k :: 0 <= k < |users| ==> users[k].email != email
  {
    FindBy(users, (u: User) => u.email == email)
  }

  /** The index of the first user holding this reset token. */
  function ByToken(users: Users, token: string): (r: Option<nat>)
    ensures r.Some? ==> r.value < |users| && users[r.value].resetToken == Some(token)
    ensures r.Some? ==> forall k :: 0 <= k < r.value ==> users[k].resetToken != Some(token)
    ensures r.None? <==> forall k :: 0 <= k < |users| ==> users[k].resetToken != Some(token)
  {
    FindBy(users, (u: User) => u.resetToken == Some(token))
  }

  predicate UniqueEmails(users: Users) {
    forall i, j :: 0 <= i < j < |users| ==> users[i].email != users[j].email
  }

  predicate HasUserId(users: Users, id: string) {
    exists i :: 0 <= i < |users| && users[i].id == id
  }

  // ---------------------------------------------------------------------
  // Sign-up and sign-in

  datatype SignUpArgs = SignUpArgs(email: string, password: string, name: Option<string>, hashedPassword: string)

  datatype SignUpReply = SignUpReply(userId: string, email: string, name: Option<string>)

  /** `args.name || args.email.split('@')[0]`. */
  function DisplayName(args: SignUpArgs): string {
    if args.name.Some? && |args.name.value| > 0 then args.name.value else Split(args.email, '@')[0]
  }

  /** `signUp`: refuses an email already registered; otherwise appends a
      user under the fresh id `id`, created `now`, storing the client-side
      hash as the password. The reply echoes the name argument as given. */
  function SignUp(users: Users, args: SignUpArgs, id: string, now: int): (r: Result<(Users, SignUpReply), string>)
    requires !HasUserId(users, id)
    ensures r.Failure? <==> ByEmail(users, args.email).Some?
    ensures r.Failure? ==> r.error == UserExists
    ensures r.Success? ==> |r.value.0| == |users| + 1 && r.value.0[..|users|] == users
  {
    if ByEmail(users, args.email).Some? then Failure(UserExists)
    else
      var user := User(id, args.email, args.hashedPassword, DisplayName(args), now, None, None);
      Success((users + [user], SignUpReply(id, args.email, args.name)))
  }

  datatype SignInArgs = SignInArgs(email: string, password: string, hashedPassword: string, token: string)

  datatype SignInReply =
    | SignedIn(userId: string, email: string, name: string, token: string)
    | SignInFailed(error: string)

  /** `signIn`: compares the stored password with the client-side hash of
      the first user with that email; echoes the client's token. */
  function SignIn(users: Users, args: SignInArgs): SignInReply {
    match ByEmail(users, args.email)
    case None => SignInFailed(InvalidCredentials)
    case Some(i) =>
      var u := users[i];
      if u.password != args.hashedPassword then SignInFailed(InvalidCredentials)
      else SignedIn(u.id, u.email, u.name, args.token)
  }

  datatype CurrentUser = CurrentUser(id: string, email: string, name: string)

  /** `getCurrentUser`: id, email and name of the user with that id. */
  function GetCurrentUser(users: Users, id: string): (r: Option<CurrentUser>)
    ensures r.None? <==> !HasUserId(users, id)
    ensures r.Some? ==> r.value.id == id
    ensures r.Some? ==> exists i ::
      && 0 <= i < |users| && users[i].id == id
      && (forall k :: 0 <= k < i ==> users[k].id != id)
      && r.value == CurrentUser(id, users[i].email, users[i].name)
  {
    match FindBy(users, (u: User) => u.id == id)
    case None => None
    case Some(i) => Some(CurrentUser(users[i].id, users[i].email, users[i].name))
  }

  /** Every stored user is returned as stored, with its own email and
      name, when no earlier user holds the same id. */
  lemma CurrentUserIsStored(users: Users, i: nat)
    requires i < |users|
    requires forall k :: 0 <= k < i ==> users[k].id != users[i].id
    ensures GetCurrentUser(users, users[i].id) == Some(CurrentUser(users[i].id, users[i].email, users[i].name))
  {
    var r := FindBy(users, (u: User) => u.id == users[i].id);
    assert r.Some? && r.value <= i;
  }

  // ---------------------------------------------------------------------
  // Hex encoding

  predicate IsHexDigit(c: char) {
    '0' <= c <= '9' || 'a' <= c <= 'f'
  }

  function HexDigit(d: nat): (c: char)
    requires d < 16
    ensures IsHexDigit(c)
  {
    if d < 10 then ('0' as int + d) as char else ('a' as int + d - 10) as char
  }

  function HexValue(c: char): (d: nat)
    requires IsHexDigit(c)
    ensures d < 16 && HexDigit(d) == c
  {
    if c <= '9' then c as int - '0' as int else c as int - 'a' as int + 10
  }

  /** `b.toString(16).padStart(2, '0')`. */
  function HexByte(b: Byte): (r: string)
    ensures |r| == 2 && IsHexDigit(r[0]) && IsHexDigit(r[1])
  {
    [HexDigit(b / 16), HexDigit(b % 16)]
  }

  /** The bytes as lowercase hex, two digits each, joined. */
  function Hex(bytes: seq<Byte>): (r: string)
    ensures |r| == 2 * |bytes|
    ensures forall i :: 0 <= i < |r| ==> IsHexDigit(r[i])
  {
    if |bytes| == 0 then [] else HexByte(bytes[0]) + Hex(bytes[1..])
  }

  /** Reads a string of hex digit pairs back into bytes. */
  function Unhex(s: string): (r: seq<Byte>)
    requires |s| % 2 == 0
    requires forall i :: 0 <= i < |s| ==> IsHexDigit(s[i])
    ensures |r| == |s| / 2
  {
    if |s| == 0 then [] else [HexValue(s[0]) * 16 + HexValue(s[1])] + Unhex(s[2..])
  }

  /** The hex text of a SHA-256 digest (`hashPassword`, given the digest). */
  function HashHex(digest: seq<Byte>): string {
    Hex(digest)
  }

  /** `generateToken`, given its 32 random bytes. */
  function TokenOf(random: seq<Byte>): string
    requires |random| == TokenBytes
  {
    Hex(random)
  }

  lemma {:induction false} HexRoundTrip(bytes: seq<Byte>)
    ensures Unhex(Hex(bytes)) == bytes
  {
    if |bytes| > 0 {
      var b := bytes[0];
      var s := Hex(bytes);
      assert s[0] == HexDigit(b / 16) && s[1] == HexDigit(b % 16);
      assert s[2..] == Hex(bytes[1..]);
      HexRoundTrip(bytes[1..]);
      assert HexValue(s[0]) == b / 16 && HexValue(s[1]) == b % 16 by {
        HexDigitInjective(HexValue(s[0]), b / 16);
        HexDigitInjective(HexValue(s[1]), b % 16);
      }
      assert bytes == [b] + bytes[1..];
    }
  }

  lemma HexDigitInjective(a: nat, b: nat)
    requires a < 16 && b < 16 && HexDigit(a) == HexDigit(b)
    ensures a == b
  {
  }

  /** Distinct byte strings have distinct hex texts; a token is 64 digits. */
  lemma HexInjective(a: seq<Byte>, b: seq<Byte>)
    ensures Hex(a) == Hex(b) ==> a == b
    ensures |a| == TokenBytes ==> |TokenOf(a)| == 64
  {
    if Hex(a) == Hex(b) {
      HexRoundTrip(a);
      HexRoundTrip(b);
    }
  }

  // ---------------------------------------------------------------------
  // Password reset

  datatype ResetRequestReply = ResetRequestReply(success: bool, token: Option<string>)

  /** `requestPasswordReset`: for a registered email, stores a fresh token
      (the hex of `random`) valid for an hour on the first user with that
      email and returns it; for an unknown email changes nothing. Success is
      reported either way. */
  function RequestPasswordReset(users: Users, email: string, random: seq<Byte>, now: int): (r: (Users, ResetRequestReply))
    requires |random| == TokenBytes
    ensures |r.0| == |users|
    ensures r.1.success
  {
    match ByEmail(users, email)
    case None => (users, ResetRequestReply(true, None))
    case Some(i) =>
      var token := TokenOf(random);
      (users[i := users[i].(resetToken := Some(token), resetTokenExpiry := Some(now + ResetWindow))],
       ResetRequestReply(true, Some(token)))
  }

  /** The token check shared by `resetPassword` and `verifyResetToken`: the
      first holder of the token must have a truthy expiry no earlier than
      `now`. */
  predicate TokenValid(users: Users, token: string, now: int) {
    match ByToken(users, token)
    case None => false
    case Some(i) =>
      var e := users[i].resetTokenExpiry;
      e.Some? && e.value != 0 && e.value >= now
  }

  /** `resetPassword`: stores the new hash on the token's holder and clears
      the token and its expiry. */
  function ResetPassword(users: Users, token: string, hashedPassword: string, now: int): (r: (Users, Result<(), string>))
    ensures |r.0| == |users|
    ensures r.1.Failure? <==> !TokenValid(users, token, now)
    ensures r.1.Failure? ==> r.0 == users && r.1.error == InvalidToken
  {
    if !TokenValid(users, token, now) then (users, Failure(InvalidToken))
    else
      var i := ByToken(users, token).value;
      (users[i := users[i].(password := hashedPassword, resetToken := None, resetTokenExpiry := None)], Success(()))
  }

  /** `verifyResetToken`. */
  function VerifyResetToken(users: Users, token: string, now: int): bool {
    TokenValid(users, token, now)
  }

  // ---------------------------------------------------------------------
  // Properties

  /** A successful sign-up appends a user with the new id, the given email,
      the hash as password, the display name, and no reset token; the
      reply's name is the argument, not the stored name. Unique emails stay
      unique. */
  lemma SignUpFacts(users: Users, args: SignUpArgs, id: string, now: int)
    requires !HasUserId(users, id)
    requires ByEmail(users, args.email).None?
    ensures var r := SignUp(users, args, id, now);
      && r.Success?
      && r.value.0[|users|] == User(id, args.email, args.hashedPassword, DisplayName(args), now, None, None)
      && r.value.1 == SignUpReply(id, args.email, args.name)
      && (UniqueEmails(users) ==> UniqueEmails(r.value.0))
  {
  }

  /** The stored name is the given name when non-empty, else the part of
      the email before its first `@` (the whole email when it has none). */
  lemma DisplayNameRule(args: SignUpArgs)
    ensures args.name.Some? && args.name.value != "" ==> DisplayName(args) == args.name.value
    ensures (args.name.None? || args.name.value == "") && '@' !in args.email ==> DisplayName(args) == args.email
    ensures (args.name.None? || args.name.value == "") ==>
      '@' !in DisplayName(args) && args.email[..|DisplayName(args)|] == DisplayName(args)
  {
    SplitFirst(args.email, '@');
  }

  /** Neither sign-up nor sign-in looks at the plaintext password. */
  lemma PlaintextIgnored(users: Users, up: SignUpArgs, inArgs: SignInArgs, id: string, now: int, other: string)
    requires !HasUserId(users, id)
    ensures SignUp(users, up, id, now) == SignUp(users, up.(password := other), id, now)
    ensures SignIn(users, inArgs) == SignIn(users, inArgs.(password := other))
  {
  }

  /** Sign-in succeeds exactly when the first user with the email stores
      the given hash, and both failures give the same error. */
  lemma SignInIff(users: Users, args: SignInArgs)
    ensures SignIn(users, args).SignedIn? <==>
      ByEmail(users, args.email).Some? && users[ByEmail(users, args.email).value].password == args.hashedPassword
    ensures SignIn(users, args).SignInFailed? ==> SignIn(users, args) == SignInFailed(InvalidCredentials)
    ensures SignIn(users, args).SignedIn? ==> SignIn(users, args).token == args.token
  {
  }

  /** Signing in with the hash just registered reaches the new user. */
  lemma SignUpThenSignIn(users: Users, args: SignUpArgs, id: string, now: int, token: string)
    requires !HasUserId(users, id)
    requires ByEmail(users, args.email).None?
    ensures var after := SignUp(users, args, id, now).value.0;
      SignIn(after, SignInArgs(args.email, args.password, args.hashedPassword, token))
        == SignedIn(id, args.email, DisplayName(args), token)
  {
    var after := SignUp(users, args, id, now).value.0;
    assert after[|users|].email == args.email;
    var k := ByEmail(after, args.email);
    assert k.Some?;
    assert forall j :: 0 <= j < |users| ==> after[j] == users[j];
    assert k.value == |users|;
  }

  /** The new account is visible to `getCurrentUser` under its id. */
  lemma SignUpThenCurrentUser(users: Users, args: SignUpArgs, id: string, now: int)
    requires !HasUserId(users, id)
    requires ByEmail(users, args.email).None?
    ensures GetCurrentUser(SignUp(users, args, id, now).value.0, id)
         == Some(CurrentUser(id, args.email, DisplayName(args)))
  {
    var after := SignUp(users, args, id, now).value.0;
    assert forall j :: 0 <= j < |users| ==> after[j] == users[j];
    assert after[|users|].id == id;
  }

  /** A reset request for an unknown email changes nothing and returns no
      token; for a known one it sets the token and its expiry on exactly the
      first user with that email. */
  lemma RequestResetFacts(users: Users, email: string, random: seq<Byte>, now: int)
    requires |random| == TokenBytes
    ensures var (after, reply) := RequestPasswordReset(users, email, random, now);
      && (ByEmail(users, email).None? ==> after == users && reply.token.None?)
      && (ByEmail(users, email).Some? ==>
            var i := ByEmail(users, email).value;
            && reply.token == Some(TokenOf(random))
            && |TokenOf(random)| == 64
            && after[i] == users[i].(resetToken := Some(TokenOf(random)), resetTokenExpiry := Some(now + ResetWindow))
            && (forall k :: 0 <= k < |users| && k != i ==> after[k] == users[k]))
  {
  }

  /** A fresh token works until its expiry inclusive and not after: right
      after a request, a reset with that token succeeds exactly when it
      happens no later than an hour after the request (provided no earlier
      user happens to hold the same token and the expiry is not 0). */
  lemma RequestThenReset(users: Users, email: string, random: seq<Byte>, now: int, later: int, hash: string)
    requires |random| == TokenBytes
    requires ByEmail(users, email).Some?
    requires forall k :: 0 <= k < |users| ==> users[k].resetToken != Some(TokenOf(random))
    requires now + ResetWindow != 0
    ensures var after := RequestPasswordReset(users, email, random, now).0;
      ResetPassword(after, TokenOf(random), hash, later).1.Success? <==> later <= now + ResetWindow
  {
    var after := RequestPasswordReset(users, email, random, now).0;
    var i := ByEmail(users, email).value;
    var k := ByToken(after, TokenOf(random));
    assert after[i].resetToken == Some(TokenOf(random));
    assert k.Some?;
    assert forall j :: 0 <= j < |users| && j != i ==> after[j] == users[j];
    assert k.value == i;
  }

  /** After a successful reset the holder has the new hash and no token;
      when no other user held the token, replaying it fails. */
  lemma ResetFacts(users: Users, token: string, hash: string, now: int, again: string, later: int)
    requires TokenValid(users, token, now)
    requires forall a, b :: 0 <= a < b < |users| && users[a].resetToken == Some(token) ==> users[b].resetToken != Some(token)
    ensures var (after, r) := ResetPassword(users, token, hash, now);
      var i := ByToken(users, token).value;
      && r.Success?
      && after[i].password == hash && after[i].resetToken.None? && after[i].resetTokenExpiry.None?
      && (forall k :: 0 <= k < |users| && k != i ==> after[k] == users[k])
      && ResetPassword(after, token, again, later).1.Failure?
  {
    var (after, r) := ResetPassword(users, token, hash, now);
    var i := ByToken(users, token).value;
    forall k | 0 <= k < |after| ensures after[k].resetToken != Some(token) {
      if k != i {
        if k < i {
          assert users[k].resetToken != Some(token);
        } else {
          assert users[k].resetToken != Some(token);
        }
      }
    }
    assert ByToken(after, token).None?;
  }

  /** The token check answers exactly whether a reset at the same time
      would succeed. */
  lemma VerifyMatchesReset(users: Users, token: string, hash: string, now: int)
    ensures VerifyResetToken(users, token, now) <==> ResetPassword(users, token, hash, now).1.Success?
  {
  }
}
