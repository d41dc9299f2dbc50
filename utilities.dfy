/**
 * The login flow of the utilities service (MakeLogin and its verification
 * code) and its two further lookups over the tables: a user's subscription
 * summary and a thread's public profile.
 */
module Utilities {
  import opened Wrappers
  import opened Strings
  import opened Json
  import opened Tables
  import opened Store

  // -------------------------------------------------------------- login code

  function Pow10(k: nat): nat {
    if k == 0 then 1 else 10 * Pow10(k - 1)
  }

  /** A number with k decimal digits is written with exactly k characters. */
  lemma {:induction false} DecimalLength(n: nat, k: nat)
    requires 1 <= k && Pow10(k - 1) <= n < Pow10(k)
    ensures |Numeral(n, 10)| == k
    decreases k
  {
    if k > 1 {
      assert Pow10(k - 1) == 10 * Pow10(k - 2);
      DecimalLength(n / 10, k - 1);
    }
  }

  /**
   * `fmt.Sprintf("%06d", rand.Intn(900000)+100000)` for a draw of
   * rand.Intn(900000). The number always has six digits, so the zero padding
   * of %06d adds nothing (LoginCodeShape).
   */
  function LoginCode(draw: int): string
    requires 0 <= draw < 900000
  {
    FormatInt(draw + 100000)
  }

  /**
   * The code is six decimal digits, never starting with 0, already as wide as
   * %06d pads, and reads back as the number drawn plus 100000.
   */
  lemma LoginCodeShape(draw: int)
    requires 0 <= draw < 900000
    ensures var code := LoginCode(draw);
      |code| == 6 && AllDigits(code) && code[0] != '0' && ZeroPad(code, 6) == code
      && Atoi(code) == Some(draw + 100000) && 100000 <= Atoi(code).value <= 999999
  {
    var n := draw + 100000;
    assert Pow10(5) == 100000 && Pow10(6) == 1000000;
    DecimalLength(n, 6);
    AtoiOfFormatInt(n);
    assert FormatInt(n) == Numeral(n, 10);
  }

  /** The meta value MakeLogin stores: `{"code": …, "timestamp": …}`, keys in json.Marshal's sorted order. */
  function ValidationValue(code: string, timestamp: string): Json {
    JObject([("code", JString(code)), ("timestamp", JString(timestamp))])
  }

  /** The text stored for a code holds "code" and the code itself, so Verify's two LIKE patterns both match it. */
  lemma ValidationValueMatches(code: string, timestamp: string)
    requires AllDigits(code)
    ensures var text := StoredText(Structured(ValidationValue(code, timestamp)));
      Like(text, "%code%") && Like(text, "%" + code + "%")
  {
    var text := StoredText(Structured(ValidationValue(code, timestamp)));
    assert forall i :: 0 <= i < |code| ==> IsBaseDigit(code[i], 10);
    var key := "code";
    assert forall i :: 0 <= i < |key| ==> !NeedsEscape(key[i]);
    PairContains(key, code, "timestamp", JString(timestamp));
    assert IsLiteral(code);
    LikeContains(text, code);
    LikeContains(text, key);
    assert "%" + key + "%" == "%code%";
  }

  // -------------------------------------------------------------- MakeLogin

  /**
   * The request body of a login, once it parsed as a JSON object: the email
   * (None when it is missing or not a string) and whether the keys `aud` and
   * `azp` of a federated identity token are present.
   */
  datatype LoginBody = LoginBody(email: Option<string>, hasAud: bool, hasAzp: bool)

  datatype LoginError = BadBody | Store(e: StoreError)

  /** What MakeLogin hands back: an error, a panic (a failed type assertion or a nil slice index), or the login. */
  datatype LoginOutcome = LoginFailed(error: LoginError) | Panicked | LoggedIn(userID: int, email: string, accessKey: string)

  /** The verification mail passed to the mail service (recipient, subject and the code it carries). */
  datatype Email = Email(recipient: string, subject: string, code: string)

  const Subject := "Your Login Verification Code"

  /** The email of a parsed body, when it has one. */
  function BodyEmail(body: Option<LoginBody>): Option<string> {
    if body.Some? then body.value.email else None
  }

  /** Both keys of a federated identity token are present. */
  predicate Federated(body: Option<LoginBody>) {
    body.Some? && body.value.hasAud && body.value.hasAzp
  }

  /**
   * MakeLogin. The random draw, the MD5 hash, the uuid of a new user's access
   * key and the formatted current time are inputs. A body that is not a JSON
   * object fails; a missing email panics. AddUser's error stops the login only
   * together with id 0, that is when no user row has the email; a known email
   * goes on with its id. With both `aud` and `azp` present the stored email and
   * access key are returned (a missing user row panics on the nil slice);
   * otherwise the code is stored under ("user", id, "validation_key"), the mail
   * is sent, and an empty access key is returned whatever the mail service
   * answers.
   */
  method MakeLogin(dm: DatabaseManager, body: Option<LoginBody>, draw: int, md5: string -> string,
                   freshKey: string, timestamp: string)
    returns (outcome: LoginOutcome, mail: Option<Email>)
    requires dm.db.Valid()
    requires 0 <= draw < 900000
    modifies dm.db`users, dm.db`nextUserID, dm.db`metas
    ensures dm.db.Valid()
    ensures body.None? ==> outcome == LoginFailed(BadBody)
    ensures body.Some? && body.value.email.None? ==> outcome == Panicked
    ensures BodyEmail(body).None? ==> unchanged(dm.db`users, dm.db`nextUserID, dm.db`metas) && mail.None?
    ensures BodyEmail(body).Some? ==> UsersAfterAdd(old(dm.db.users), old(dm.db.nextUserID), BodyEmail(body).value,
                                                    md5(LoginCode(draw)), freshKey, dm.systemID, dm.db.users, dm.db.nextUserID)
    ensures BodyEmail(body).Some? && UserWithEmail(old(dm.db.users), BodyEmail(body).value).None?
      ==> outcome == LoginFailed(Store(NoRows)) && mail.None? && dm.db.metas == old(dm.db.metas)
    ensures BodyEmail(body).Some? && UserWithEmail(old(dm.db.users), BodyEmail(body).value).Some? ==>
      var id := AddUserResult(old(dm.db.users), old(dm.db.nextUserID), BodyEmail(body).value).0;
      if Federated(body) then
        && dm.db.metas == old(dm.db.metas) && mail.None?
        && (outcome == Panicked <==> forall j :: 0 <= j < |dm.db.users| ==> dm.db.users[j].id != id)
        && (outcome != Panicked ==> exists j :: (0 <= j < |dm.db.users| && dm.db.users[j].id == id
              && outcome == LoggedIn(id, dm.db.users[j].email, dm.db.users[j].accessKey)))
      else
        && dm.db.metas == UpsertMeta(old(dm.db.metas), "user", id, "validation_key",
                                     StoredText(Structured(ValidationValue(LoginCode(draw), timestamp))))
        && mail == Some(Email(BodyEmail(body).value, Subject, LoginCode(draw)))
        && outcome == LoggedIn(id, BodyEmail(body).value, "")
  {
    if body.None? {
      return LoginFailed(BadBody), None;
    }
    var password := LoginCode(draw);
    if body.value.email.None? {
      return Panicked, None;
    }
    var email := body.value.email.value;
    var userID, err := dm.AddUser(email, md5(password), freshKey);
    if err.Some? && userID == 0 {
      return LoginFailed(Store(err.value)), None;
    }
    if body.value.hasAud && body.value.hasAzp {
      outcome := FederatedLogin(dm, userID);
      return outcome, None;
    }
    outcome, mail := SendCode(dm, userID, email, password, timestamp);
  }

  /** The `aud`/`azp` branch of MakeLogin: the stored email and access key, or a panic on the nil slice. */
  method FederatedLogin(dm: DatabaseManager, userID: int) returns (outcome: LoginOutcome)
    ensures outcome == Panicked <==> forall j :: 0 <= j < |dm.db.users| ==> dm.db.users[j].id != userID
    ensures outcome != Panicked ==> exists j :: (0 <= j < |dm.db.users| && dm.db.users[j].id == userID
      && outcome == LoggedIn(userID, dm.db.users[j].email, dm.db.users[j].accessKey))
  {
    var emailAndKey := dm.GetAccessKey(userID);
    if emailAndKey.None? {
      return Panicked;
    }
    return LoggedIn(userID, emailAndKey.value.0, emailAndKey.value.1);
  }

  /** The last part of MakeLogin: store the code with its timestamp, mail it, and log in without an access key. */
  method SendCode(dm: DatabaseManager, userID: int, email: string, code: string, timestamp: string)
    returns (outcome: LoginOutcome, mail: Option<Email>)
    requires dm.db.Valid()
    modifies dm.db`metas
    ensures dm.db.Valid()
    ensures dm.db.metas == UpsertMeta(old(dm.db.metas), "user", userID, "validation_key",
                                      StoredText(Structured(ValidationValue(code, timestamp))))
    ensures mail == Some(Email(email, Subject, code)) && outcome == LoggedIn(userID, email, "")
  {
    dm.AddMeta("user", userID, "validation_key", Structured(ValidationValue(code, timestamp)));
    mail := Some(Email(email, Subject, code));
    outcome := LoggedIn(userID, email, "");
  }

  // ------------------------------------------------------ subscription info

  /** `w.type = 'workspace' AND w.status = 1 AND w.author = ?` */
  predicate OwnedWorkspace(w: BlockRow, userID: int) {
    w.blockType == "workspace" && w.status == 1 && w.author == userID
  }

  /** `t.type = 'thread' AND t.status = 1` */
  predicate LiveThread(t: BlockRow) {
    t.blockType == "thread" && t.status == 1
  }

  /** The rows of `workspaces` the inner join pairs with thread t. */
  function JoinCount(t: BlockRow, workspaces: seq<BlockRow>, userID: int): nat {
    if workspaces == [] then 0
    else
      var here := if OwnedWorkspace(workspaces[0], userID) && t.parent == workspaces[0].id then 1 else 0;
      here + JoinCount(t, workspaces[1..], userID)
  }

  /** `COUNT(t.id)` over `blocks t INNER JOIN blocks w ON t.parent = w.id` with the two filters. */
  function ThreadCount(threads: seq<BlockRow>, blocks: seq<BlockRow>, userID: int): nat {
    if threads == [] then 0
    else
      var here := if LiveThread(threads[0]) then JoinCount(threads[0], blocks, userID) else 0;
      here + ThreadCount(threads[1..], blocks, userID)
  }

  /** t's parent is a live workspace of the user. */
  predicate InOwnedWorkspace(t: BlockRow, blocks: seq<BlockRow>, userID: int) {
    exists j :: 0 <= j < |blocks| && OwnedWorkspace(blocks[j], userID) && blocks[j].id == t.parent
  }

  /** The live threads that sit in one of the user's live workspaces. */
  function CountedThreads(threads: seq<BlockRow>, blocks: seq<BlockRow>, userID: int): (r: seq<BlockRow>)
    ensures forall t :: t in r <==> t in threads && LiveThread(t) && InOwnedWorkspace(t, blocks, userID)
  {
    if threads == [] then []
    else
      (if LiveThread(threads[0]) && InOwnedWorkspace(threads[0], blocks, userID) then [threads[0]] else [])
      + CountedThreads(threads[1..], blocks, userID)
  }

  lemma {:induction false} JoinCountNone(t: BlockRow, workspaces: seq<BlockRow>, userID: int)
    requires forall j :: 0 <= j < |workspaces| ==> workspaces[j].id != t.parent
    ensures JoinCount(t, workspaces, userID) == 0
    decreases |workspaces|
  {
    if workspaces != [] {
      JoinCountNone(t, workspaces[1..], userID);
    }
  }

  /** With ids strictly ascending, at most one workspace row can pair with a thread. */
  lemma {:induction false} JoinCountUnique(t: BlockRow, workspaces: seq<BlockRow>, userID: int)
    requires IdsAscending(workspaces)
    ensures JoinCount(t, workspaces, userID) == if InOwnedWorkspace(t, workspaces, userID) then 1 else 0
    decreases |workspaces|
  {
    if workspaces != [] {
      var rest := workspaces[1..];
      assert IdsAscending(rest);
      JoinCountUnique(t, rest, userID);
      if OwnedWorkspace(workspaces[0], userID) && t.parent == workspaces[0].id {
        JoinCountNone(t, rest, userID);
        assert !InOwnedWorkspace(t, rest, userID);
      }
      if InOwnedWorkspace(t, workspaces, userID) {
        var j :| 0 <= j < |workspaces| && OwnedWorkspace(workspaces[j], userID) && workspaces[j].id == t.parent;
        if j > 0 {
          assert rest[j - 1] == workspaces[j];
        }
      }
      if InOwnedWorkspace(t, rest, userID) {
        var j :| 0 <= j < |rest| && OwnedWorkspace(rest[j], userID) && rest[j].id == t.parent;
        assert workspaces[j + 1] == rest[j];
      }
    }
  }

  lemma {:induction false} ThreadCountCounts(threads: seq<BlockRow>, blocks: seq<BlockRow>, userID: int)
    requires IdsAscending(blocks)
    ensures ThreadCount(threads, blocks, userID) == |CountedThreads(threads, blocks, userID)|
    decreases |threads|
  {
    if threads != [] {
      JoinCountUnique(threads[0], blocks, userID);
      ThreadCountCounts(threads[1..], blocks, userID);
    }
  }

  /** `parent='user' AND parent_id=? AND meta_key='subscription'`, whatever the row's status. */
  predicate SubscriptionMeta(m: MetaRow, userID: int) {
    m.parent == "user" && m.parentID == userID && m.key == "subscription"
  }

  /**
   * The subscription summary: the first subscription meta's value ("" when
   * there is none), the expiry date ("" exactly when that value is empty;
   * otherwise it comes from the decoded JSON, which is not modelled), and the
   * thread count.
   */
  datatype Subscription = Subscription(userID: int, stored: string, expiryDate: Option<string>, threads: nat)

  /** GetSubscriptionInfo over the tables it queries. */
  function SubscriptionInfo(blocks: seq<BlockRow>, metas: seq<MetaRow>, userID: int): (r: Subscription)
    ensures r.userID == userID
    ensures (forall i :: 0 <= i < |metas| ==> !SubscriptionMeta(metas[i], userID)) ==> r.stored == "" && r.expiryDate == Some("")
    ensures r.stored != "" ==> exists i :: 0 <= i < |metas| && SubscriptionMeta(metas[i], userID) && metas[i].value == r.stored
    ensures forall i :: (0 <= i < |metas| && SubscriptionMeta(metas[i], userID)
      && (forall j :: 0 <= j < i ==> !SubscriptionMeta(metas[j], userID))) ==> r.stored == metas[i].value
    ensures r.expiryDate == Some("") <==> r.stored == ""
    ensures IdsAscending(blocks) ==> r.threads == |CountedThreads(blocks, blocks, userID)|
  {
    var k := FirstMatch(metas, (m: MetaRow) => SubscriptionMeta(m, userID));
    var stored := if k.Some? then metas[k.value].value else "";
    var threads := ThreadCount(blocks, blocks, userID);
    assert IdsAscending(blocks) ==> threads == |CountedThreads(blocks, blocks, userID)| by {
      if IdsAscending(blocks) {
        ThreadCountCounts(blocks, blocks, userID);
      }
    }
    Subscription(userID, stored, if stored == "" then Some("") else None, threads)
  }

  // ---------------------------------------------------------------- profile

  /** The columns GetProfile returns. */
  datatype Profile = Profile(id: int, title: string, slug: string, parent: int, author: int)

  /** `slug = ? AND type = 'thread' AND status = 1` */
  predicate ProfileRow(b: BlockRow, slug: string) {
    b.slug == slug && b.blockType == "thread" && b.status == 1
  }

  /** GetProfile: the first live thread with that slug; nothing (and no error) when there is none. */
  function GetProfile(blocks: seq<BlockRow>, slug: string): (r: Option<Profile>)
    ensures r.None? <==> forall i :: 0 <= i < |blocks| ==> !ProfileRow(blocks[i], slug)
    ensures r.Some? ==> exists i :: (0 <= i < |blocks| && ProfileRow(blocks[i], slug)
      && r.value == Profile(blocks[i].id, blocks[i].title, slug, blocks[i].parent, blocks[i].author))
  {
    var k := FirstMatch(blocks, (b: BlockRow) => ProfileRow(b, slug));
    if k.None? then None
    else
      var b := blocks[k.value];
      Some(Profile(b.id, b.title, b.slug, b.parent, b.author))
  }
}
