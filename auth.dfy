/**
 * The account controller: registration, reset-token issue and reset-token
 * redemption over the `users` and `password_reset_tokens` tables.
 *
 * The salted bcrypt hash is a function parameter `hash`: the model only
 * records which digest is stored, never compares digests. The clock `now`
 * (milliseconds) and the random token are parameters of the handlers.
 */
module AuthController {

  import opened Schema
  import opened Store

  /** `new Date(Date.now() + 3600000)`: a reset token lives one hour. */
  const ResetTokenLifetimeMs: int := 3600000

  /** The minimum length `resetPassword` accepts for a new password. */
  const MinPasswordLength: nat := 6

  // ---------------------------------------------------------------------
  // register

  datatype RegisterRequest = RegisterRequest(email: Option<string>, password: Option<string>)

  /** `register`: both fields required, the email must be new; the stored password is its digest. */
  function RegisterSpec(t: Tables, req: RegisterRequest, hash: string -> Digest): (r: (Tables, Status))
    ensures r.1 == BadRequest || r.1 == Created(|t.users| + 1)
    ensures r.1 == BadRequest <==>
              !Truthy(req.email) || !Truthy(req.password) || FindUserByEmail(t.users, req.email.value).Some?
    ensures r.1 == BadRequest ==> r.0 == t
    ensures r.1.Created? ==>
              && r.0.users == t.users + [User(req.email.value, hash(req.password.value))]
              && r.0.documents == t.documents && r.0.versions == t.versions
              && r.0.shares == t.shares && r.0.resetTokens == t.resetTokens
  {
    if !Truthy(req.email) || !Truthy(req.password) then (t, BadRequest)
    else if FindUserByEmail(t.users, req.email.value).Some? then (t, BadRequest)
    else
      var user := User(req.email.value, hash(req.password.value));
      (t.(users := t.users + [user]), Created(|t.users| + 1))
  }

  method Register(db: Database, req: RegisterRequest, hash: string -> Digest) returns (status: Status)
    modifies db
    ensures (db.Snapshot(), status) == RegisterSpec(old(db.Snapshot()), req, hash)
  {
    if !Truthy(req.email) || !Truthy(req.password) {
      return BadRequest;
    }
    var existing := FindUserByEmail(db.users, req.email.value);
    if existing.Some? {
      return BadRequest;
    }
    var hashedPassword := hash(req.password.value);
    db.users := db.users + [User(req.email.value, hashedPassword)];
    status := Created(|db.users|);
  }

  /** Registration never creates a second account for an email. */
  lemma RegisterKeepsEmailsUnique(t: Tables, req: RegisterRequest, hash: string -> Digest)
    requires UniqueEmails(t.users)
    ensures UniqueEmails(RegisterSpec(t, req, hash).0.users)
  {
    var r := RegisterSpec(t, req, hash);
    if r.1.Created? {
      var users' := r.0.users;
      forall i, j | 0 <= i < j < |users'|
        ensures users'[i].email != users'[j].email
      {
        if j == |t.users| {
          assert users'[i] == t.users[i];
        }
      }
    }
  }

  /** After a successful registration the email finds exactly the new account. */
  lemma RegisteredEmailFindsNewAccount(t: Tables, req: RegisterRequest, hash: string -> Digest)
    requires RegisterSpec(t, req, hash).1.Created?
    ensures var r := RegisterSpec(t, req, hash);
      FindUserByEmail(r.0.users, req.email.value) == Some(r.1.id)
  {
    var r := RegisterSpec(t, req, hash);
    assert r.0.users[|t.users|].email == req.email.value;
    assert forall i | 0 <= i < |t.users| :: r.0.users[i] == t.users[i];
  }

  // ---------------------------------------------------------------------
  // forgotPassword

  /**
   * `forgotPassword`: a known email gets a token row `(user, token, now + 1h)`;
   * a known and an unknown email get the same 200 response.
   */
  function ForgotPasswordSpec(t: Tables, email: Option<string>, now: int, token: string): (r: (Tables, Status))
    ensures !Truthy(email) ==> r == (t, BadRequest)
    ensures Truthy(email) ==> r.1 == Ok
    ensures Truthy(email) && FindUserByEmail(t.users, email.value).None? ==> r.0 == t
    ensures Truthy(email) && FindUserByEmail(t.users, email.value).Some? ==>
              r.0 == t.(resetTokens := t.resetTokens + [ResetToken(FindUserByEmail(t.users, email.value).value, token, now + ResetTokenLifetimeMs)])
  {
    if !Truthy(email) then (t, BadRequest)
    else
      match FindUserByEmail(t.users, email.value)
      case None => (t, Ok)
      case Some(u) => (t.(resetTokens := t.resetTokens + [ResetToken(u, token, now + ResetTokenLifetimeMs)]), Ok)
  }

  method ForgotPassword(db: Database, email: Option<string>, now: int, token: string) returns (status: Status)
    modifies db
    ensures (db.Snapshot(), status) == ForgotPasswordSpec(old(db.Snapshot()), email, now, token)
  {
    if !Truthy(email) {
      return BadRequest;
    }
    var userRow := FindUserByEmail(db.users, email.value);
    if userRow.None? {
      return Ok;
    }
    var expiresAt := now + ResetTokenLifetimeMs;
    db.resetTokens := db.resetTokens + [ResetToken(userRow.value, token, expiresAt)];
    return Ok;
  }

  /** The response to a non-empty email is the same whether or not an account exists for it. */
  lemma ForgotPasswordHidesAccounts(t: Tables, known: string, unknown: string, now: int, token: string)
    requires known != "" && unknown != ""
    requires FindUserByEmail(t.users, known).Some? && FindUserByEmail(t.users, unknown).None?
    ensures ForgotPasswordSpec(t, Some(known), now, token).1 == ForgotPasswordSpec(t, Some(unknown), now, token).1
    ensures ForgotPasswordSpec(t, Some(unknown), now, token).0 == t
  {
  }

  // ---------------------------------------------------------------------
  // resetPassword

  /** A token row that `resetPassword` accepts: the token matches and `expires_at > NOW()`. */
  predicate Live(row: ResetToken, token: string, now: int) {
    row.token == token && row.expiresAt > now
  }

  /** `SELECT * FROM password_reset_tokens WHERE token = ? AND expires_at > NOW()`, first row. */
  function FindLiveToken(rows: seq<ResetToken>, token: string, now: int): (r: Option<nat>)
    ensures r.None? <==> forall i | 0 <= i < |rows| :: !Live(rows[i], token, now)
    ensures r.Some? ==> r.value < |rows| && Live(rows[r.value], token, now)
    ensures r.Some? ==> forall i | 0 <= i < r.value :: !Live(rows[i], token, now)
  {
    if |rows| == 0 then None
    else
      match FindLiveToken(rows[..|rows| - 1], token, now)
      case Some(i) => Some(i)
      case None => if Live(rows[|rows| - 1], token, now) then Some(|rows| - 1) else None
  }

  /** The new password is rejected before any query: missing, or shorter than six characters. */
  predicate TooShort(newPassword: Option<string>) {
    !Truthy(newPassword) || |newPassword.value| < MinPasswordLength
  }

  /** `UPDATE users SET password = ? WHERE id = ?`: matches no row when the account is gone. */
  function SetPassword(users: seq<User>, id: UserId, digest: Digest): (r: seq<User>)
    ensures |r| == |users|
    ensures forall j | 0 <= j < |users| && j != id - 1 :: r[j] == users[j]
    ensures 1 <= id <= |users| ==> r[id - 1] == User(users[id - 1].email, digest)
  {
    if 1 <= id <= |users| then users[id - 1 := users[id - 1].(password := digest)] else users
  }

  /** The table without row `i`: `DELETE FROM password_reset_tokens WHERE id = ?`. */
  function RemoveAt(rows: seq<ResetToken>, i: nat): (r: seq<ResetToken>)
    requires i < |rows|
    ensures |r| == |rows| - 1
    ensures forall j | 0 <= j < i :: r[j] == rows[j]
    ensures forall j | i < j < |rows| :: r[j - 1] == rows[j]
  {
    rows[..i] + rows[i + 1..]
  }

  /**
   * `resetPassword`: a long enough password and a live token set the token
   * user's password digest and delete that one token row; anything else is a
   * 400 with no change.
   */
  function ResetPasswordSpec(t: Tables, token: string, newPassword: Option<string>, now: int, hash: string -> Digest): (r: (Tables, Status))
    ensures r.1 == Ok || r.1 == BadRequest
    ensures r.1 == Ok <==> !TooShort(newPassword) && exists i | 0 <= i < |t.resetTokens| :: Live(t.resetTokens[i], token, now)
    ensures r.1 == BadRequest ==> r.0 == t
    ensures r.1 == Ok ==>
              var i := FindLiveToken(t.resetTokens, token, now).value;
              && r.0.users == SetPassword(t.users, t.resetTokens[i].user, hash(newPassword.value))
              && r.0.resetTokens == RemoveAt(t.resetTokens, i)
              && r.0.documents == t.documents && r.0.versions == t.versions && r.0.shares == t.shares
  {
    if TooShort(newPassword) then (t, BadRequest)
    else
      match FindLiveToken(t.resetTokens, token, now)
      case None => (t, BadRequest)
      case Some(i) =>
        var record := t.resetTokens[i];
        var users := SetPassword(t.users, record.user, hash(newPassword.value));
        (t.(users := users, resetTokens := RemoveAt(t.resetTokens, i)), Ok)
  }

  method ResetPassword(db: Database, token: string, newPassword: Option<string>, now: int, hash: string -> Digest)
    returns (status: Status)
    modifies db
    ensures (db.Snapshot(), status) == ResetPasswordSpec(old(db.Snapshot()), token, newPassword, now, hash)
  {
    if !Truthy(newPassword) || |newPassword.value| < MinPasswordLength {
      return BadRequest;
    }
    var tokenRow := FindLiveToken(db.resetTokens, token, now);
    if tokenRow.None? {
      return BadRequest;
    }
    var resetTokenRecord := db.resetTokens[tokenRow.value];
    var hashedPassword := hash(newPassword.value);
    db.users := SetPassword(db.users, resetTokenRecord.user, hashedPassword);
    db.resetTokens := RemoveAt(db.resetTokens, tokenRow.value);
    return Ok;
  }

  /** No two token rows carry the same token (what 32 random bytes are relied on for). */
  predicate TokensDistinct(rows: seq<ResetToken>) {
    forall i, j | 0 <= i < j < |rows| :: rows[i].token != rows[j].token
  }

  /** Issuing a token not already in the table keeps tokens distinct. */
  lemma ForgotPasswordKeepsTokensDistinct(t: Tables, email: Option<string>, now: int, token: string)
    requires TokensDistinct(t.resetTokens)
    requires forall row | row in t.resetTokens :: row.token != token
    ensures TokensDistinct(ForgotPasswordSpec(t, email, now, token).0.resetTokens)
  {
    var rows' := ForgotPasswordSpec(t, email, now, token).0.resetTokens;
    forall i, j | 0 <= i < j < |rows'|
      ensures rows'[i].token != rows'[j].token
    {
      if j == |t.resetTokens| {
        assert rows'[i] in t.resetTokens;
      }
    }
  }

  /** Deleting row `i` of distinct tokens leaves distinct tokens, none of them row `i`'s. */
  lemma RemoveAtDropsToken(rows: seq<ResetToken>, i: nat)
    requires TokensDistinct(rows) && i < |rows|
    ensures forall row | row in RemoveAt(rows, i) :: row.token != rows[i].token
    ensures TokensDistinct(RemoveAt(rows, i))
  {
    var rows' := RemoveAt(rows, i);
    forall row | row in rows'
      ensures row.token != rows[i].token
    {
      var k :| 0 <= k < |rows'| && rows'[k] == row;
      if k < i {
        assert rows'[k] == rows[k];
      } else {
        assert rows'[k] == rows[k + 1];
      }
    }
    forall a, b | 0 <= a < b < |rows'|
      ensures rows'[a].token != rows'[b].token
    {
      var a0 := if a < i then a else a + 1;
      var b0 := if b < i then b else b + 1;
      assert rows'[a] == rows[a0] && rows'[b] == rows[b0];
    }
  }

  /** A successful reset leaves no row with that token when tokens were distinct. */
  lemma ResetConsumesToken(t: Tables, token: string, newPassword: Option<string>, now: int, hash: string -> Digest)
    requires TokensDistinct(t.resetTokens)
    requires ResetPasswordSpec(t, token, newPassword, now, hash).1 == Ok
    ensures forall row | row in ResetPasswordSpec(t, token, newPassword, now, hash).0.resetTokens :: row.token != token
    ensures TokensDistinct(ResetPasswordSpec(t, token, newPassword, now, hash).0.resetTokens)
  {
    var i := FindLiveToken(t.resetTokens, token, now).value;
    RemoveAtDropsToken(t.resetTokens, i);
  }

  /** The same token cannot be redeemed twice: the second attempt is a 400 that changes nothing. */
  lemma ResetTokenIsSingleUse(t: Tables, token: string, p1: Option<string>, now1: int, p2: Option<string>, now2: int, hash: string -> Digest)
    requires TokensDistinct(t.resetTokens)
    requires ResetPasswordSpec(t, token, p1, now1, hash).1 == Ok
    ensures var t1 := ResetPasswordSpec(t, token, p1, now1, hash).0;
      ResetPasswordSpec(t1, token, p2, now2, hash) == (t1, BadRequest)
  {
    var t1 := ResetPasswordSpec(t, token, p1, now1, hash).0;
    ResetConsumesToken(t, token, p1, now1, hash);
    forall i | 0 <= i < |t1.resetTokens|
      ensures !Live(t1.resetTokens[i], token, now2)
    {
      assert t1.resetTokens[i] in t1.resetTokens;
    }
  }

  /**
   * A token issued at `issued` for a known email resets that account's
   * password at any time `now` before the hour is up, and is refused from
   * then on.
   */
  lemma IssuedTokenRedeemableForOneHour(t: Tables, email: string, issued: int, token: string,
                                        newPassword: string, now: int, hash: string -> Digest)
    requires email != "" && FindUserByEmail(t.users, email).Some?
    requires forall row | row in t.resetTokens :: row.token != token
    requires |newPassword| >= MinPasswordLength
    ensures var t1 := ForgotPasswordSpec(t, Some(email), issued, token).0;
      var r := ResetPasswordSpec(t1, token, Some(newPassword), now, hash);
      var u := FindUserByEmail(t.users, email).value;
      && (now < issued + ResetTokenLifetimeMs ==>
            r.1 == Ok && r.0.users[u - 1] == User(email, hash(newPassword)) && r.0.resetTokens == t.resetTokens)
      && (now >= issued + ResetTokenLifetimeMs ==> r == (t1, BadRequest))
  {
    var row := ResetToken(FindUserByEmail(t.users, email).value, token, issued + ResetTokenLifetimeMs);
    FreshTokenIsOnlyLive(t.resetTokens, row, now);
    RemoveLastRow(t.resetTokens, row);
  }

  /** After appending a row with a token no other row has, the lookup finds that row exactly while it is live. */
  lemma FreshTokenIsOnlyLive(rows: seq<ResetToken>, row: ResetToken, now: int)
    requires forall r | r in rows :: r.token != row.token
    ensures FindLiveToken(rows + [row], row.token, now) == if row.expiresAt > now then Some(|rows|) else None
  {
    var rows' := rows + [row];
    assert rows'[..|rows|] == rows;
    forall i | 0 <= i < |rows|
      ensures !Live(rows[i], row.token, now)
    {
      assert rows[i] in rows;
    }
  }

  /** Deleting the row just appended gives back the table. */
  lemma RemoveLastRow(rows: seq<ResetToken>, row: ResetToken)
    ensures RemoveAt(rows + [row], |rows|) == rows
  {
    assert (rows + [row])[..|rows|] == rows;
  }


  /** Each account handler keeps emails unique and leaves the document tables alone. */
  lemma AccountHandlersPreserveValid(t: Tables, req: RegisterRequest, email: Option<string>, token: string,
                                     newPassword: Option<string>, now: int, hash: string -> Digest)
    requires Valid(t)
    ensures Valid(RegisterSpec(t, req, hash).0)
    ensures Valid(ForgotPasswordSpec(t, email, now, token).0)
    ensures Valid(ResetPasswordSpec(t, token, newPassword, now, hash).0)
  {
    RegisterKeepsEmailsUnique(t, req, hash);
    var r := ResetPasswordSpec(t, token, newPassword, now, hash);
    if r.1 == Ok {
      forall i, j | 0 <= i < j < |r.0.users|
        ensures r.0.users[i].email != r.0.users[j].email
      {
        assert r.0.users[i].email == t.users[i].email;
        assert r.0.users[j].email == t.users[j].email;
      }
    }
  }
}
