/**
 * The decision logic of the API handlers: each one builds a DatabaseManager
 * from the request's domain and access key, calls the store, and turns what
 * the store answers into the JSON it writes.
 */
module Api {
  import opened Wrappers
  import opened Strings
  import opened Json
  import opened Timestamps
  import opened Tables
  import opened Store
  import opened Utilities

  /** What a handler writes. */
  datatype Reply =
    | Crashed      // a panic, which gin's recovery turns into a 500
    | BadRequest   // 400 with status "fail": the body did not bind
    | NoReply      // the handler returns without writing a body
    | Fail         // status "fail", the payload nil or empty
    | LoginReply(success: bool, accessKey: string)
    | VerifyReply(success: bool, accessKey: string, email: string)
    | WorkspacesReply(workspaces: seq<BlockView>, limit: int, subscription: Subscription)
    | BlockReply(block: BlockView)
    | WorkspaceReply(workspace: BlockDetail, page: string, limit: int)
    | Success      // status "success" and nothing else

  /** NewDatabaseManager fails exactly for a non-empty access key that no user has. */
  predicate ManagerFails(users: seq<UserRow>, accessKey: string) {
    accessKey != "" && UserWithKey(users, accessKey).None?
  }

  /** GetCurrentUser of a manager that was built: 0 for an empty key, else the first user holding the key. */
  function CurrentUser(users: seq<UserRow>, accessKey: string): int
    requires !ManagerFails(users, accessKey)
  {
    if accessKey == "" then 0 else users[UserWithKey(users, accessKey).value].id
  }

  /** The page clamp of GetWorkspaces: a page number that does not parse, or is below 1, becomes 1. */
  function PageNumber(param: string): (page: int)
    ensures page >= 1
    ensures page == 1 || Atoi(param) == Some(page)
    ensures Atoi(param).Some? && Atoi(param).value >= 1 ==> page == Atoi(param).value
  {
    match Atoi(param)
    case Some(n) => if n < 1 then 1 else n
    case None => 1
  }

  /** The row Verify's query reads: the first meta value matching both `%code%` and `%<code>%`. */
  function CodeMeta(metas: seq<MetaRow>, code: string): Option<nat> {
    FirstMatch(metas, (m: MetaRow) => Like(m.value, "%code%") && Like(m.value, "%" + code + "%"))
  }

  /** The user id Verify scans from that row: its parent_id, or 0 when no row matches. */
  function CodeUser(metas: seq<MetaRow>, code: string): int {
    match CodeMeta(metas, code)
    case None => 0
    case Some(k) => metas[k].parentID
  }

  /** The block AddNewWorkspace asks for. */
  function WorkspaceInput(title: string): BlockInput {
    BlockInput("workspace", title, "", Some(0))
  }

  /** The privilege AddNewWorkspace grants the creator, as stored: `["admin"]`. */
  const AdminList := Structured(JArray([JString("admin")]))

  class ApiController {
    const db: Database

    constructor (db: Database)
      ensures this.db == db
    {
      this.db := db;
    }

    /**
     * Login: a failed manager answers "fail" with an empty key; otherwise the
     * answer is "success" exactly when MakeLogin returned an id above 0, with
     * the access key MakeLogin returned, which is empty on the code path.
     */
    method Login(domain: string, accessKey: string, body: Option<LoginBody>, draw: int, md5: string -> string,
                 freshKey: string, timestamp: string)
      returns (reply: Reply, mail: Option<Email>)
      requires db.Valid() && 0 <= draw < 900000
      modifies db`systems, db`nextSystemID, db`users, db`nextUserID, db`metas
      ensures db.Valid()
      ensures SystemsAfter(old(db.systems), old(db.nextSystemID), domain, db.systems, db.nextSystemID)
      ensures ManagerFails(old(db.users), accessKey) ==>
        && reply == LoginReply(false, "") && mail.None? && db.metas == old(db.metas)
        && db.users == old(db.users) && db.nextUserID == old(db.nextUserID)
      ensures !ManagerFails(old(db.users), accessKey) ==>
        if BodyEmail(body).None? then db.users == old(db.users) && db.nextUserID == old(db.nextUserID)
        else UsersAfterAdd(old(db.users), old(db.nextUserID), BodyEmail(body).value, md5(LoginCode(draw)), freshKey,
                           ResolvedSystem(old(db.systems), old(db.nextSystemID), domain), db.users, db.nextUserID)
      ensures !ManagerFails(old(db.users), accessKey) ==>
        var email := BodyEmail(body);
        && (body.None? ==> reply == LoginReply(false, "") && mail.None? && db.metas == old(db.metas))
        && (body.Some? && email.None? ==> reply == Crashed && mail.None? && db.metas == old(db.metas))
        && (email.Some? && UserWithEmail(old(db.users), email.value).None? ==>
              reply == LoginReply(false, "") && mail.None? && db.metas == old(db.metas))
        && (email.Some? && UserWithEmail(old(db.users), email.value).Some? ==>
              var id := AddUserResult(old(db.users), old(db.nextUserID), email.value).0;
              if Federated(body) then
                && mail.None? && db.metas == old(db.metas)
                && (reply == Crashed <==> forall j :: 0 <= j < |db.users| ==> db.users[j].id != id)
                && (reply != Crashed ==> exists j :: (0 <= j < |db.users| && db.users[j].id == id
                      && reply == LoginReply(id > 0, db.users[j].accessKey)))
              else
                && reply == LoginReply(id > 0, "")
                && mail == Some(Email(email.value, Subject, LoginCode(draw)))
                && db.metas == UpsertMeta(old(db.metas), "user", id, "validation_key",
                                          StoredText(Structured(ValidationValue(LoginCode(draw), timestamp)))))
    {
      var r := NewDatabaseManager(db, domain, accessKey);
      if r.Err? {
        return LoginReply(false, ""), None;
      }
      var outcome;
      outcome, mail := MakeLogin(r.value, body, draw, md5, freshKey, timestamp);
      match outcome {
        case Panicked => reply := Crashed;
        case LoginFailed(_) => reply := LoginReply(false, "");
        case LoggedIn(userID, _, newAccessKey) => reply := LoginReply(userID > 0, newAccessKey);
      }
    }

    /**
     * Verify: looks up the first meta row, of any owner and key, whose value
     * contains "code" and the submitted code; its parent_id, when above 0,
     * names the user whose email and access key are returned. A user with an
     * empty email, like no match, gives "fail" with empty key and email, and a
     * parent_id naming no user panics on the nil slice.
     */
    method Verify(domain: string, accessKey: string, code: Option<string>) returns (reply: Reply)
      requires db.Valid()
      modifies db`systems, db`nextSystemID
      ensures db.Valid()
      ensures SystemsAfter(old(db.systems), old(db.nextSystemID), domain, db.systems, db.nextSystemID)
      ensures ManagerFails(db.users, accessKey) ==> reply == LoginReply(false, "")
      ensures !ManagerFails(db.users, accessKey) && code.None? ==> reply == BadRequest
      ensures !ManagerFails(db.users, accessKey) && code.Some? ==>
        var uid := CodeUser(db.metas, code.value);
        var u := UserWithID(db.users, uid);
        && (reply == Crashed <==> uid > 0 && u.None?)
        && (reply != Crashed ==> reply.VerifyReply?)
        && (reply.VerifyReply? && reply.success <==> uid > 0 && u.Some? && db.users[u.value].email != "")
        && (reply.VerifyReply? && reply.success ==>
              reply.email == db.users[u.value].email && reply.accessKey == db.users[u.value].accessKey)
        && (reply.VerifyReply? && !reply.success ==> reply == VerifyReply(false, "", ""))
    {
      var r := NewDatabaseManager(db, domain, accessKey);
      if r.Err? {
        return LoginReply(false, "");
      }
      var dm := r.value;
      if code.None? {
        return BadRequest;
      }
      var userID := 0;
      var userEmail := "";
      var key := accessKey;
      var k := CodeMeta(db.metas, code.value);
      if k.Some? {
        userID := db.metas[k.value].parentID;
      }
      if userID > 0 {
        var emailAndKey := dm.GetAccessKey(userID);
        if emailAndKey.None? {
          return Crashed;
        }
        userEmail, key := emailAndKey.value.0, emailAndKey.value.1;
      }
      if userEmail == "" {
        userID := 0;
        key := "";
      }
      reply := VerifyReply(userID > 0, key, userEmail);
    }

    /**
     * GetWorkspaces: one page of 20 of the workspaces the current user may
     * see, newest first, with the user's subscription summary; a failed
     * manager, or an offset the 64-bit product turns negative, answers "fail".
     */
    method GetWorkspaces(domain: string, accessKey: string, pageParam: string) returns (reply: Reply)
      requires db.Valid()
      modifies db`systems, db`nextSystemID
      ensures db.Valid()
      ensures SystemsAfter(old(db.systems), old(db.nextSystemID), domain, db.systems, db.nextSystemID)
      ensures ManagerFails(db.users, accessKey) ==> reply == Fail
      ensures !ManagerFails(db.users, accessKey) ==>
        var uid := CurrentUser(db.users, accessKey);
        var offset := PageOffset(PageNumber(pageParam), 20);
        if offset < 0 then reply == Fail
        else reply == WorkspacesReply(Views(Window(Listing(db.blocks, db.metas, uid, "workspace", 0), offset, 20)), 20,
                                      SubscriptionInfo(db.blocks, db.metas, uid))
      ensures reply.WorkspacesReply? ==> |reply.workspaces| <= reply.limit == 20
      ensures reply.WorkspacesReply? ==> forall w :: w in reply.workspaces ==>
        exists b :: (b in db.blocks && w == View(b) && Listed(db.metas, CurrentUser(db.users, accessKey), "workspace", 0, b))
    {
      var page := PageNumber(pageParam);
      var r := NewDatabaseManager(db, domain, accessKey);
      if r.Err? {
        return Fail;
      }
      var dm := r.value;
      var userID := dm.userID;
      var workspaces := dm.GetBlocks(userID, "workspace", page, 20, 0);
      if workspaces.Err? {
        return Fail;
      }
      var subscription := SubscriptionInfo(db.blocks, db.metas, userID);
      PageListed(db.blocks, db.metas, userID, "workspace", 0, PageOffset(page, 20), 20);
      reply := WorkspacesReply(workspaces.value, 20, subscription);
    }

    /**
     * AddNewWorkspace: the body must bind before anything else; then, with a
     * manager, a workspace block with a fresh slug, empty content and parent 0
     * is written for the current user, and when it reads back the creator is
     * granted `["admin"]` on it. A fresh slug no row has yet is found again by
     * the creator's GetBlock.
     */
    method AddNewWorkspace(domain: string, accessKey: string, title: Option<string>, draws: seq<int>, now: DateTime)
      returns (reply: Reply)
      requires db.Valid() && Valid(now) && ValidDraws(draws, 15)
      modifies db`systems, db`nextSystemID, db`blocks, db`nextBlockID, db`metas
      ensures db.Valid()
      ensures title.None? ==>
        reply == BadRequest && unchanged(db`systems, db`nextSystemID, db`blocks, db`nextBlockID, db`metas)
      ensures title.Some? ==> SystemsAfter(old(db.systems), old(db.nextSystemID), domain, db.systems, db.nextSystemID)
      ensures title.Some? && ManagerFails(old(db.users), accessKey) ==>
        reply == Fail && db.blocks == old(db.blocks) && db.nextBlockID == old(db.nextBlockID) && db.metas == old(db.metas)
      ensures title.Some? && !ManagerFails(old(db.users), accessKey) ==>
        WorkspaceCreated(old(db.blocks), old(db.nextBlockID), old(db.metas), CurrentUser(old(db.users), accessKey),
                         title.value, SlugText(draws, 15), FormatStorage(now), db.blocks, db.nextBlockID, db.metas, reply)
    {
      if title.None? {
        return BadRequest;
      }
      var r := NewDatabaseManager(db, domain, accessKey);
      if r.Err? {
        return Fail;
      }
      reply := CreateWorkspace(r.value, title.value, draws, now);
    }

    /**
     * GetWorkspace: the first workspace with that slug the current user may
     * see, with the page parameter echoed; an empty slug answers "fail", and a
     * slug that finds nothing writes no answer at all.
     */
    method GetWorkspace(domain: string, accessKey: string, slug: string, page: string) returns (reply: Reply)
      requires db.Valid()
      modifies db`systems, db`nextSystemID
      ensures db.Valid()
      ensures SystemsAfter(old(db.systems), old(db.nextSystemID), domain, db.systems, db.nextSystemID)
      ensures ManagerFails(db.users, accessKey) ==> reply == Fail
      ensures !ManagerFails(db.users, accessKey) ==>
        var uid := CurrentUser(db.users, accessKey);
        var k := FindBlock(db.blocks, db.metas, uid, "workspace", 0, slug, 0);
        if slug == "" then reply == Fail
        else if k.None? then reply == NoReply
        else
          var b := db.blocks[k.value];
          && b.slug == slug && b.blockType == "workspace" && Visible(db.metas, "workspace", uid, b)
          && reply == WorkspaceReply(BlockDetail(View(b), Children(db.blocks, db.metas, uid, b.id),
                                                 Some(MetaMap(db.metas, "workspace", b.id))), page, 20)
    {
      var r := NewDatabaseManager(db, domain, accessKey);
      if r.Err? {
        return Fail;
      }
      var dm := r.value;
      var userID := dm.userID;
      if slug == "" {
        return Fail;
      }
      var workspace := dm.GetBlock(userID, "workspace", 0, slug, 0);
      if workspace.None? {
        return NoReply;
      }
      reply := WorkspaceReply(workspace.value, page, 20);
    }

    /**
     * UpdateWorkspace: with a manager it always answers "success"; only when
     * the slug finds a workspace the user may see does it record the user's id
     * as `last_updated_by` on that workspace. Blocks are never written.
     */
    method UpdateWorkspace(domain: string, accessKey: string, slug: string) returns (reply: Reply)
      requires db.Valid()
      modifies db`systems, db`nextSystemID, db`metas
      ensures db.Valid()
      ensures SystemsAfter(old(db.systems), old(db.nextSystemID), domain, db.systems, db.nextSystemID)
      ensures ManagerFails(old(db.users), accessKey) ==> reply == Fail && db.metas == old(db.metas)
      ensures !ManagerFails(old(db.users), accessKey) ==>
        var uid := CurrentUser(old(db.users), accessKey);
        var k := if slug == "" then None else FindBlock(db.blocks, old(db.metas), uid, "workspace", 0, slug, 0);
        && reply == Success
        && db.metas == if k.None? then old(db.metas)
                       else UpsertMeta(old(db.metas), "workspace", db.blocks[k.value].id, "last_updated_by", FormatInt(uid))
    {
      var r := NewDatabaseManager(db, domain, accessKey);
      if r.Err? {
        return Fail;
      }
      var dm := r.value;
      var userID := dm.userID;
      if slug != "" {
        var workspace := dm.GetBlock(userID, "workspace", 0, slug, 0);
        if workspace.Some? {
          EncodeInt(userID);
          dm.AddMeta("workspace", workspace.value.block.id, "last_updated_by", Structured(JInt(userID)));
        }
      }
      reply := Success;
    }
  }

  /** Every block on a page of GetBlocks is the view of a row its WHERE clause selects. */
  lemma PageListed(blocks: seq<BlockRow>, metas: seq<MetaRow>, userID: int, blockType: string, parent: int, offset: int, limit: int)
    requires offset >= 0 && limit >= 0
    ensures forall w :: w in Views(Window(Listing(blocks, metas, userID, blockType, parent), offset, limit)) ==>
      exists b :: b in blocks && w == View(b) && Listed(metas, userID, blockType, parent, b)
  {
    var l := Listing(blocks, metas, userID, blockType, parent);
    var page := Window(l, offset, limit);
    ListingSound(blocks, metas, userID, blockType, parent);
    forall w | w in Views(page)
      ensures exists b :: b in blocks && w == View(b) && Listed(metas, userID, blockType, parent, b)
    {
      var i :| 0 <= i < |page| && Views(page)[i] == w;
      var b := page[i];
      WindowIn(l, offset, limit, i);
      assert b in blocks && Listed(metas, userID, blockType, parent, b);
      assert w == View(b);
    }
  }

  /** The part of AddNewWorkspace after the manager is built: AddBlock, then the creator's privilege. */
  method CreateWorkspace(dm: DatabaseManager, title: string, draws: seq<int>, now: DateTime) returns (reply: Reply)
    requires dm.db.Valid() && Valid(now) && ValidDraws(draws, 15)
    modifies dm.db`blocks, dm.db`nextBlockID, dm.db`metas
    ensures dm.db.Valid()
    ensures WorkspaceCreated(old(dm.db.blocks), old(dm.db.nextBlockID), old(dm.db.metas), dm.userID,
                             title, SlugText(draws, 15), FormatStorage(now), dm.db.blocks, dm.db.nextBlockID, dm.db.metas, reply)
  {
    var userID := dm.userID;
    var block := dm.AddBlock(userID, WorkspaceInput(title), "", draws, now);
    if block.Err? {
      return Fail;
    }
    EncodeAdminList();
    dm.AddMeta("workspace", block.value.id, PrivilegeKey(userID), AdminList);
    reply := BlockReply(block.value);
  }

  /**
   * What AddNewWorkspace does to the tables once it has a manager: the
   * workspace block is upserted by slug for the user (the block counter moving
   * on only when the slug is new), and only when it reads
   * back is the user granted `["admin"]` on the block read, which is answered.
   */
  ghost predicate WorkspaceCreated(blocks: seq<BlockRow>, next: int, metas: seq<MetaRow>, userID: int, title: string,
                                   slug: string, now: string, blocksAfter: seq<BlockRow>, nextAfter: int,
                                   metasAfter: seq<MetaRow>, reply: Reply) {
    && blocksAfter == UpsertBlock(blocks, next, userID, WorkspaceInput(title), slug, now)
    && nextAfter == (if SlugIndex(blocks, slug).Some? then next else next + 1)
    && match LiveSlugIndex(blocksAfter, slug)
       case None => reply == Fail && metasAfter == metas
       case Some(k) =>
         reply == BlockReply(View(blocksAfter[k]))
         && metasAfter == UpsertMeta(metas, "workspace", blocksAfter[k].id, PrivilegeKey(userID), "[\"admin\"]")
  }

  /**
   * A workspace created under a slug no row has is answered as the new last
   * row with the next id; its creator's GetBlock by that slug then finds it,
   * and the creator holds the privilege on it.
   */
  lemma CreatorFindsWorkspace(blocks: seq<BlockRow>, next: int, metas: seq<MetaRow>, userID: int, title: string,
                              slug: string, now: string, blocksAfter: seq<BlockRow>, nextAfter: int,
                              metasAfter: seq<MetaRow>, reply: Reply)
    requires SlugsUnique(blocks) && SlugIndex(blocks, slug).None? && slug != ""
    requires WorkspaceCreated(blocks, next, metas, userID, title, slug, now, blocksAfter, nextAfter, metasAfter, reply)
    ensures reply.BlockReply? && reply.block.id == next && reply.block.author == userID && nextAfter == next + 1
    ensures FindBlock(blocksAfter, metasAfter, userID, "workspace", 0, slug, 0) == Some(|blocks|)
    ensures Grants(metasAfter, "workspace", userID, next)
  {
    InsertNew(blocks, next, userID, WorkspaceInput(title), slug, now);
    assert blocksAfter[|blocks|] == NewBlock(next, userID, WorkspaceInput(title), slug, now);
    UpsertGrants(metas, "workspace", next, userID, "[\"admin\"]");
    assert blocksAfter[..|blocks|] == blocks;
    FindsOnlyNewSlug(blocks, blocksAfter, metasAfter, userID, slug);
  }

  /** Writing a user's privilege meta on a block grants that user the block. */
  lemma UpsertGrants(metas: seq<MetaRow>, parent: string, id: int, userID: int, value: string)
    ensures Grants(UpsertMeta(metas, parent, id, PrivilegeKey(userID), value), parent, userID, id)
  {
    var after := UpsertMeta(metas, parent, id, PrivilegeKey(userID), value);
    if HasMeta(metas, parent, id, PrivilegeKey(userID)) {
      var i :| 0 <= i < |metas| && Names(metas[i], parent, id, PrivilegeKey(userID));
      assert Names(after[i], parent, id, PrivilegeKey(userID));
    } else {
      assert after[|metas|] == MetaRow(parent, id, PrivilegeKey(userID), value, 1);
    }
  }

  /** A slug that no earlier row carries is found at the row appended with it, once its creator is granted it. */
  lemma FindsOnlyNewSlug(blocks: seq<BlockRow>, blocksAfter: seq<BlockRow>, metas: seq<MetaRow>, userID: int, slug: string)
    requires SlugIndex(blocks, slug).None? && slug != ""
    requires |blocksAfter| == |blocks| + 1 && blocksAfter[..|blocks|] == blocks
    requires blocksAfter[|blocks|].slug == slug && blocksAfter[|blocks|].status == 1
    requires blocksAfter[|blocks|].blockType == "workspace" && blocksAfter[|blocks|].author == userID
    ensures FindBlock(blocksAfter, metas, userID, "workspace", 0, slug, 0) == Some(|blocks|)
  {
    forall j | 0 <= j < |blocks| ensures blocksAfter[j].slug != slug {
      assert blocksAfter[j] == blocks[j];
    }
    assert Selects(metas, userID, "workspace", 0, slug, 0, blocksAfter[|blocks|]);
  }

  // ------------------------------------------------------------ login flow

  /** Any value matches `%%`, so an empty code matches every meta value that contains "code". */
  lemma {:induction false} LikeDoublePercent(s: string)
    ensures Like(s, "%%")
    decreases |s|
  {
    var p := "%%";
    assert p[1..] == "%";
    LikePercent(s);
  }

  /** With an empty code, Verify's query reads the first meta value containing "code", whatever it belongs to. */
  lemma EmptyCodeMatchesAny(metas: seq<MetaRow>)
    ensures CodeMeta(metas, "") == FirstMatch(metas, (m: MetaRow) => ContainsSub(m.value, "code"))
  {
    assert "%" + "" + "%" == "%%";
    forall m: MetaRow ensures (Like(m.value, "%code%") && Like(m.value, "%%")) == ContainsSub(m.value, "code") {
      LikeDoublePercent(m.value);
      LikeCodeContains(m.value);
    }
    FirstMatchSame(metas, (m: MetaRow) => Like(m.value, "%code%") && Like(m.value, "%" + "" + "%"),
                   (m: MetaRow) => ContainsSub(m.value, "code"));
  }

  lemma LikeCodeContains(s: string)
    ensures Like(s, "%code%") <==> ContainsSub(s, "code")
  {
    var q := "code";
    assert IsLiteral(q);
    LikeContains(s, q);
    assert "%" + q + "%" == "%code%";
  }

  /** FirstMatch depends on its predicate only through the rows' verdicts. */
  lemma {:induction false} FirstMatchSame<T>(rows: seq<T>, p: T -> bool, q: T -> bool)
    requires forall x :: p(x) == q(x)
    ensures FirstMatch(rows, p) == FirstMatch(rows, q)
    decreases |rows|
  {
    if rows != [] {
      FirstMatchSame(rows[1..], p, q);
    }
  }

  /**
   * The code MakeLogin stores is matched by Verify: once the validation row of
   * a user is in the table, Verify's query with that code finds a row (the
   * first matching one, which need not be this user's).
   */
  lemma CodeIsFound(metas: seq<MetaRow>, i: nat, draw: int, timestamp: string)
    requires 0 <= draw < 900000 && i < |metas|
    requires metas[i].value == StoredText(Structured(ValidationValue(LoginCode(draw), timestamp)))
    ensures CodeMeta(metas, LoginCode(draw)).Some?
    ensures CodeMeta(metas, LoginCode(draw)).value <= i
  {
    LoginCodeShape(draw);
    ValidationValueMatches(LoginCode(draw), timestamp);
  }
}
