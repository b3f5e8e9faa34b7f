/** Admin-issued password resets: `AdminResetController::store` creates a record holding
    the SHA-256 of a random 60-character token, valid for 24 hours, and returns a link;
    `PublicResetController` checks a token (`show`) and spends it on a new password
    (`update`). The hash functions and the random token are parameters. */
module PasswordResets {
  import opened Wrappers
  import opened Seqs
  import opened Records
  import opened Text
  import opened Validation

  /** `Str::random(60)` */
  const TokenLength: nat := 60

  /** `addHours(24)` */
  const ResetLifetime: int := 24 * 3600

  const ResetPath: string := "/reset-password?token="

  /** `min:8` on the new password. */
  const MinPassword: nat := 8

  /** A row of `admin_password_resets`. */
  datatype ResetRecord = ResetRecord(
    id: nat,
    userId: nat,
    tokenHash: string,
    expiresAt: Instant,
    usedAt: Option<Instant>,
    createdByAdminId: Option<nat>)

  function ResetId(r: ResetRecord): nat { r.id }

  // ---------------------------------------------------------------- AdminResetController::store

  datatype IssueError = UserNotFound

  /** `rtrim($baseUrl, '/') . "/reset-password?token={$token}"` */
  function Link(baseUrl: string, token: string): string
  {
    RTrimChar(baseUrl, '/') + ResetPath + token
  }

  /** The link is the base URL without its trailing slashes, the reset path and the
      token, so the join never shows two slashes. */
  lemma LinkSpec(baseUrl: string, token: string)
    ensures var l := Link(baseUrl, token);
      var b := RTrimChar(baseUrl, '/');
      && b == baseUrl[..|b|]
      && (forall i :: |b| <= i < |baseUrl| ==> baseUrl[i] == '/')
      && l[..|b|] == b
      && l[|b|..|b| + |ResetPath|] == ResetPath
      && l[|b| + |ResetPath|..] == token
      && l[|b|] == '/'
      && (|b| > 0 ==> l[|b| - 1] != '/')
  {
    var b := RTrimChar(baseUrl, '/');
    var l := Link(baseUrl, token);
    assert l == b + (ResetPath + token);
    assert (ResetPath + token)[..|ResetPath|] == ResetPath;
  }

  /** The record `store` creates at `now` for a token whose hash is `tokenHash`. */
  function NewRecord(resets: seq<ResetRecord>, userId: nat, tokenHash: string, now: Instant, adminId: Option<nat>): ResetRecord
  {
    ResetRecord(NextId(resets, ResetId), userId, tokenHash, now + ResetLifetime, None, adminId)
  }

  /** `store`: the link and the new reset table, or not-found for an unknown user.
      `sha256` stands for `hash('sha256', ...)`, `adminId` for `Auth::id()`. */
  function IssueLink(users: seq<User>, resets: seq<ResetRecord>, userId: nat, token: string,
                     sha256: string -> string, now: Instant, adminId: Option<nat>, baseUrl: string)
    : Result<(string, seq<ResetRecord>), IssueError>
  {
    match FindUser(users, userId)
    case None => Err(UserNotFound)
    case Some(_) => Ok((Link(baseUrl, token), resets + [NewRecord(resets, userId, sha256(token), now, adminId)]))
  }

  /** An unknown user gives not-found; otherwise exactly one record is appended, holding
      the token's hash, the 24-hour expiry, the acting admin and no use, under a fresh id. */
  lemma IssueLinkSpec(users: seq<User>, resets: seq<ResetRecord>, userId: nat, token: string,
                      sha256: string -> string, now: Instant, adminId: Option<nat>, baseUrl: string)
    ensures var r := IssueLink(users, resets, userId, token, sha256, now, adminId, baseUrl);
      && (r.Err? <==> forall k :: 0 <= k < |users| ==> users[k].id != userId)
      && (r.Ok? ==>
            && r.value.0 == Link(baseUrl, token)
            && |r.value.1| == |resets| + 1
            && r.value.1[..|resets|] == resets
            && var rec := r.value.1[|resets|];
               && rec.userId == userId && rec.tokenHash == sha256(token)
               && rec.expiresAt == now + ResetLifetime && rec.usedAt.None? && rec.createdByAdminId == adminId
               && forall k :: 0 <= k < |resets| ==> resets[k].id != rec.id)
  {
  }

  // ---------------------------------------------------------------- PublicResetController

  /** `where('token_hash', $hash)->where('used_at', null)->where('expires_at', '>', now)` */
  predicate Usable(r: ResetRecord, tokenHash: string, now: Instant)
  {
    r.tokenHash == tokenHash && r.usedAt.None? && r.expiresAt > now
  }

  /** `->first()`: the first usable record in storage order. */
  function FindUsable(resets: seq<ResetRecord>, tokenHash: string, now: Instant): (r: Option<nat>)
    ensures r.Some? ==> r.value < |resets| && Usable(resets[r.value], tokenHash, now)
    ensures r.None? <==> forall k :: 0 <= k < |resets| ==> !Usable(resets[k], tokenHash, now)
  {
    IndexWhere(resets, (x: ResetRecord) => Usable(x, tokenHash, now))
  }

  datatype ShowResult = NoToken | InvalidOrExpired | ResetForm(token: string)

  /** `show` */
  function Show(resets: seq<ResetRecord>, token: Option<string>, sha256: string -> string, now: Instant): ShowResult
  {
    if !Truthy(token) then NoToken
    else if FindUsable(resets, sha256(token.value), now).None? then InvalidOrExpired
    else ResetForm(token.value)
  }

  /** The form is shown exactly for a token with an unused record of its hash that expires
      strictly after now; a missing token gets the error view. */
  lemma ShowSpec(resets: seq<ResetRecord>, token: Option<string>, sha256: string -> string, now: Instant)
    ensures Show(resets, token, sha256, now).ResetForm? <==>
      Truthy(token) && exists k :: 0 <= k < |resets| && resets[k].tokenHash == sha256(token.value)
                                     && resets[k].usedAt.None? && resets[k].expiresAt > now
    ensures !Truthy(token) ==> Show(resets, token, sha256, now) == NoToken
    ensures Show(resets, token, sha256, now).ResetForm? ==> Show(resets, token, sha256, now).token == token.value
  {
    if Truthy(token) && exists k :: 0 <= k < |resets| && resets[k].tokenHash == sha256(token.value)
                                     && resets[k].usedAt.None? && resets[k].expiresAt > now {
      var k :| 0 <= k < |resets| && resets[k].tokenHash == sha256(token.value) && resets[k].usedAt.None? && resets[k].expiresAt > now;
      assert Usable(resets[k], sha256(token.value), now);
    }
  }

  /** A freshly issued link opens the form at any time strictly before its expiry, and no
      record it created is usable from the expiry on. */
  lemma FreshLinkValid(users: seq<User>, resets: seq<ResetRecord>, userId: nat, token: string,
                       sha256: string -> string, now: Instant, adminId: Option<nat>, baseUrl: string, t: Instant)
    requires |token| == TokenLength
    requires IssueLink(users, resets, userId, token, sha256, now, adminId, baseUrl).Ok?
    ensures var resets' := IssueLink(users, resets, userId, token, sha256, now, adminId, baseUrl).value.1;
      && (t < now + ResetLifetime ==> Show(resets', Some(token), sha256, t) == ResetForm(token))
      && (t >= now + ResetLifetime ==> !Usable(resets'[|resets|], sha256(token), t))
  {
    var resets' := IssueLink(users, resets, userId, token, sha256, now, adminId, baseUrl).value.1;
    if t < now + ResetLifetime {
      assert Usable(resets'[|resets|], sha256(token), t);
    }
  }

  datatype UpdateError = TokenRequired | PasswordRequired | PasswordUnconfirmed | PasswordTooShort
                       | InvalidOrExpiredLink | UserMissing

  /** The fields of the `update` form. */
  datatype UpdateRequest = UpdateRequest(token: Option<string>, password: Option<string>, confirmation: Option<string>)

  /** `'token' => 'required'`, `'password' => 'required|confirmed|min:8'`: the first failing rule. */
  function CheckUpdate(req: UpdateRequest): (r: Option<UpdateError>)
    ensures r.None? <==>
      && req.token.Some? && Present(req.token.value)
      && req.password.Some? && Present(req.password.value)
      && req.confirmation == req.password && |req.password.value| >= MinPassword
    ensures r.Some? ==> r.value in {TokenRequired, PasswordRequired, PasswordUnconfirmed, PasswordTooShort}
  {
    if req.token.None? || !Present(req.token.value) then Some(TokenRequired)
    else if req.password.None? || !Present(req.password.value) then Some(PasswordRequired)
    else if req.confirmation != req.password then Some(PasswordUnconfirmed)
    else if |req.password.value| < MinPassword then Some(PasswordTooShort)
    else None
  }

  /** `update`: the new users and reset tables. `newHash` stands for the result of
      `Hash::make` on the new password; a record whose user is gone fails on the
      assignment and commits nothing. */
  function Redeem(users: seq<User>, resets: seq<ResetRecord>, req: UpdateRequest,
                  sha256: string -> string, newHash: string, now: Instant)
    : Result<(seq<User>, seq<ResetRecord>), UpdateError>
  {
    match CheckUpdate(req)
    case Some(e) => Err(e)
    case None =>
      match FindUsable(resets, sha256(req.token.value), now)
      case None => Err(InvalidOrExpiredLink)
      case Some(k) =>
        match FindUser(users, resets[k].userId)
        case None => Err(UserMissing)
        case Some(j) => Ok((users[j := users[j].(passwordHash := newHash)], resets[k := resets[k].(usedAt := Some(now))]))
  }

  /** A successful update changes exactly the password of the record's user and the
      record's use time; it needs a valid form and a usable record of the token. */
  lemma RedeemSpec(users: seq<User>, resets: seq<ResetRecord>, req: UpdateRequest,
                   sha256: string -> string, newHash: string, now: Instant)
    requires Redeem(users, resets, req, sha256, newHash, now).Ok?
    ensures var (users', resets') := Redeem(users, resets, req, sha256, newHash, now).value;
      && CheckUpdate(req).None?
      && |users'| == |users| && |resets'| == |resets|
      && exists k, j :: 0 <= k < |resets| && 0 <= j < |users|
           && Usable(resets[k], sha256(req.token.value), now) && users[j].id == resets[k].userId
           && resets'[k] == resets[k].(usedAt := Some(now)) && users'[j] == users[j].(passwordHash := newHash)
           && (forall i :: 0 <= i < |resets| && i != k ==> resets'[i] == resets[i])
           && (forall i :: 0 <= i < |users| && i != j ==> users'[i] == users[i])
  {
    var k := FindUsable(resets, sha256(req.token.value), now).value;
    var j := FindUser(users, resets[k].userId).value;
    var (users', resets') := Redeem(users, resets, req, sha256, newHash, now).value;
    assert resets'[k] == resets[k].(usedAt := Some(now));
    assert users'[j] == users[j].(passwordHash := newHash);
  }

  /** A token without a usable record is refused, whatever the form says. */
  lemma RedeemRefusesInvalid(users: seq<User>, resets: seq<ResetRecord>, req: UpdateRequest,
                             sha256: string -> string, newHash: string, now: Instant)
    requires req.token.Some? && forall k :: 0 <= k < |resets| ==> !Usable(resets[k], sha256(req.token.value), now)
    ensures Redeem(users, resets, req, sha256, newHash, now).Err?
  {
  }

  /** Tokens are one-shot: when no other record holds the token's hash, a successful update
      leaves the token failing both `show` and `update` at any later time. */
  lemma OneShot(users: seq<User>, resets: seq<ResetRecord>, req: UpdateRequest,
                sha256: string -> string, newHash: string, now: Instant, later: Instant, req2: UpdateRequest, newHash2: string)
    requires Redeem(users, resets, req, sha256, newHash, now).Ok?
    requires forall i, j :: 0 <= i < j < |resets| ==> resets[i].tokenHash != resets[j].tokenHash
    requires req2.token == req.token
    ensures var (users', resets') := Redeem(users, resets, req, sha256, newHash, now).value;
      && Show(resets', req.token, sha256, later) != ResetForm(req.token.value)
      && Redeem(users', resets', req2, sha256, newHash2, later).Err?
  {
    var h := sha256(req.token.value);
    var k := FindUsable(resets, h, now).value;
    var (users', resets') := Redeem(users, resets, req, sha256, newHash, now).value;
    forall i | 0 <= i < |resets'| ensures !Usable(resets'[i], h, later) {
      if i != k {
        assert resets'[i] == resets[i];
      }
    }
  }

  /** The tables `AdminResetController` and `PublicResetController` write. */
  class ResetDesk {
    var users: seq<User>
    var resets: seq<ResetRecord>

    constructor (users0: seq<User>, resets0: seq<ResetRecord>)
      ensures users == users0 && resets == resets0
    {
      users := users0;
      resets := resets0;
    }

    /** `AdminResetController::store` */
    method Store(userId: nat, token: string, sha256: string -> string, now: Instant, adminId: Option<nat>, baseUrl: string)
      returns (r: Result<string, IssueError>)
      modifies this
      ensures var expected := IssueLink(old(users), old(resets), userId, token, sha256, now, adminId, baseUrl);
        && (expected.Err? ==> r == Err(expected.error) && resets == old(resets))
        && (expected.Ok? ==> r == Ok(expected.value.0) && resets == expected.value.1)
      ensures users == old(users)
    {
      var found := FindUser(users, userId);
      if found.None? {
        return Err(UserNotFound);
      }
      var hash := sha256(token);
      resets := resets + [NewRecord(resets, userId, hash, now, adminId)];
      var link := RTrimChar(baseUrl, '/') + ResetPath + token;
      return Ok(link);
    }

    /** `PublicResetController::update`: a refused request changes no user and no record. */
    method Update(req: UpdateRequest, sha256: string -> string, newHash: string, now: Instant)
      returns (err: Option<UpdateError>)
      modifies this
      ensures var expected := Redeem(old(users), old(resets), req, sha256, newHash, now);
        && (expected.Err? ==> err == Some(expected.error) && users == old(users) && resets == old(resets))
        && (expected.Ok? ==> err.None? && users == expected.value.0 && resets == expected.value.1)
    {
      var invalid := CheckUpdate(req);
      if invalid.Some? {
        return invalid;
      }
      var hash := sha256(req.token.value);
      var record := FindUsable(resets, hash, now);
      if record.None? {
        return Some(InvalidOrExpiredLink);
      }
      var k := record.value;
      var user := FindUser(users, resets[k].userId);
      if user.None? {
        return Some(UserMissing);
      }
      var j := user.value;
      users := users[j := users[j].(passwordHash := newHash)];
      resets := resets[k := resets[k].(usedAt := Some(now))];
      return None;
    }
  }
}
