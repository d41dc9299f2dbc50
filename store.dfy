/**
 * DatabaseManager: the store layer over the four tables. A Database holds the
 * tables and their AUTO_INCREMENT counters and executes the statements; a
 * DatabaseManager, bound to one request's domain and access key, decides which
 * statements to run.
 */
module Store {
  import opened Wrappers
  import opened Strings
  import opened Timestamps
  import opened Tables

  class Database {
    var systems: seq<SystemRow>
    var users: seq<UserRow>
    var blocks: seq<BlockRow>
    var metas: seq<MetaRow>
    var nextSystemID: int
    var nextUserID: int
    var nextBlockID: int

    /**
     * What the store's own writes keep true: one meta row per triple, one block
     * per slug, and block ids ascending in table order below the counter.
     */
    ghost predicate Valid()
      reads this
    {
      MetaKeysUnique(metas) && SlugsUnique(blocks) && IdsAscending(blocks) && IdsBelow(blocks, nextBlockID)
    }

    constructor ()
      ensures Valid()
      ensures systems == [] && users == [] && blocks == [] && metas == []
      ensures nextSystemID == 1 && nextUserID == 1 && nextBlockID == 1
    {
      systems, users, blocks, metas := [], [], [], [];
      nextSystemID, nextUserID, nextBlockID := 1, 1, 1;
    }

    /** `INSERT INTO systems (subdomain, domain, status) VALUES (?, ?, 1)`; returns LastInsertId. */
    method InsertSystem(subdomain: string, domain: string) returns (id: int)
      modifies this`systems, this`nextSystemID
      ensures id == old(nextSystemID) && nextSystemID == id + 1
      ensures systems == old(systems) + [SystemRow(id, subdomain, domain, 1)]
    {
      id := nextSystemID;
      systems := systems + [SystemRow(id, subdomain, domain, 1)];
      nextSystemID := nextSystemID + 1;
    }

    /** `INSERT INTO users (email, password, access_key, system_id) VALUES (?, ?, ?, ?)`; returns LastInsertId. */
    method InsertUser(email: string, password: string, accessKey: string, systemID: int) returns (id: int)
      modifies this`users, this`nextUserID
      ensures id == old(nextUserID) && nextUserID == id + 1
      ensures users == old(users) + [UserRow(id, email, password, accessKey, systemID)]
    {
      id := nextUserID;
      users := users + [UserRow(id, email, password, accessKey, systemID)];
      nextUserID := nextUserID + 1;
    }

    /** `INSERT INTO blocks (...) VALUES (..., 1)` */
    method InsertBlock(author: int, input: BlockInput, slug: string, now: string) returns (id: int)
      modifies this`blocks, this`nextBlockID
      ensures id == old(nextBlockID) && nextBlockID == id + 1
      ensures blocks == old(blocks) + [NewBlock(id, author, input, slug, now)]
    {
      id := nextBlockID;
      blocks := blocks + [NewBlock(id, author, input, slug, now)];
      nextBlockID := nextBlockID + 1;
    }

    /** `UPDATE blocks SET title = ?, content = ?, modified_at = ? WHERE slug = ?` */
    method UpdateBlocksBySlug(slug: string, title: string, content: string, now: string)
      modifies this`blocks
      ensures blocks == UpdateBySlug(old(blocks), slug, title, content, now)
    {
      blocks := UpdateBySlug(blocks, slug, title, content, now);
    }

    /** `UPDATE blocks SET status = 0 WHERE id = ?` */
    method SetBlockStatusZero(id: int)
      modifies this`blocks
      ensures blocks == SetStatusZero(old(blocks), id)
    {
      blocks := SetStatusZero(blocks, id);
    }

    /** `INSERT INTO metas (parent, parent_id, meta_key, meta_value, status) VALUES (?, ?, ?, ?, 1)` */
    method InsertMeta(parent: string, parentID: int, key: string, value: string)
      modifies this`metas
      ensures metas == old(metas) + [MetaRow(parent, parentID, key, value, 1)]
    {
      metas := metas + [MetaRow(parent, parentID, key, value, 1)];
    }

    /** `UPDATE metas SET meta_value = ?, status = 1 WHERE parent = ? AND parent_id = ? AND meta_key = ?` */
    method UpdateMetas(parent: string, parentID: int, key: string, value: string)
      modifies this`metas
      ensures metas == SetMeta(old(metas), parent, parentID, key, value)
    {
      metas := SetMeta(metas, parent, parentID, key, value);
    }
  }

  /**
   * What getSystemIDByDomain does to the systems table: the first active system
   * serving the domain is reused, otherwise a row with subdomain = domain =
   * the input and status 1 is appended and its fresh id returned.
   */
  ghost predicate SystemResolved(before: seq<SystemRow>, next: int, domain: string, id: int, after: seq<SystemRow>, nextAfter: int) {
    match SystemFor(before, domain)
    case Some(k) => id == before[k].id && after == before && nextAfter == next
    case None => id == next && after == before + [SystemRow(next, domain, domain, 1)] && nextAfter == next + 1
  }

  /** The system id NewDatabaseManager settles on: 0 for an empty domain, else what getSystemIDByDomain returns. */
  function ResolvedSystem(systems: seq<SystemRow>, next: int, domain: string): int {
    if domain == "" then 0
    else match SystemFor(systems, domain)
      case Some(k) => systems[k].id
      case None => next
  }

  /**
   * The systems table and its counter once NewDatabaseManager has run, whether
   * or not it then fails on the access key: untouched for an empty domain,
   * otherwise as the domain's resolution leaves them.
   */
  ghost predicate SystemsAfter(before: seq<SystemRow>, next: int, domain: string, after: seq<SystemRow>, nextAfter: int) {
    if domain == "" then after == before && nextAfter == next
    else SystemResolved(before, next, domain, ResolvedSystem(before, next, domain), after, nextAfter)
  }

  /** The id and the error AddUser reports for an email, given the users table and its counter. */
  function AddUserResult(users: seq<UserRow>, next: int, email: string): (int, Option<StoreError>) {
    match UserWithEmail(users, email)
    case None => (0, Some(NoRows))
    case Some(k) => if users[k].id > 0 then (users[k].id, Some(UserExists)) else (next, None)
  }

  /** The users table after AddUser: one row appended, with the next id, only when the matching row's id is not positive. */
  ghost predicate UsersAfterAdd(before: seq<UserRow>, next: int, email: string, password: string, accessKey: string,
                                systemID: int, after: seq<UserRow>, nextAfter: int) {
    match UserWithEmail(before, email)
    case Some(k) =>
      if before[k].id > 0 then after == before && nextAfter == next
      else after == before + [UserRow(next, email, password, accessKey, systemID)] && nextAfter == next + 1
    case None => after == before && nextAfter == next
  }

  /** The 36 characters NewSlug draws from. */
  const SlugLetters := "abcdefghijklmnopqrstuvwxyz0123456789"

  predicate IsSlugChar(c: char) { 'a' <= c <= 'z' || '0' <= c <= '9' }

  predicate ValidDraws(draws: seq<int>, n: nat) {
    |draws| >= n && forall i :: 0 <= i < n ==> 0 <= draws[i] < |SlugLetters|
  }

  /** The slug n draws of rand.Intn(36) spell. */
  function SlugText(draws: seq<int>, n: nat): (s: string)
    requires ValidDraws(draws, n)
    ensures |s| == n && forall i :: 0 <= i < n ==> s[i] == SlugLetters[draws[i]]
  {
    seq(n, i requires 0 <= i < n => SlugLetters[draws[i]])
  }

  /** Every slug character is a lower-case letter or a digit. */
  lemma SlugTextChars(draws: seq<int>, n: nat)
    requires ValidDraws(draws, n)
    ensures forall i :: 0 <= i < n ==> IsSlugChar(SlugText(draws, n)[i])
  {
    forall d | 0 <= d < |SlugLetters| ensures IsSlugChar(SlugLetters[d]) {
      if d < 26 {
        assert SlugLetters[d] as int == 'a' as int + d;
      } else {
        assert SlugLetters[d] as int == '0' as int + (d - 26);
      }
    }
  }

  /** NewSlug(n): fills a byte buffer with n letters of the slug alphabet, one draw each. */
  method NewSlug(n: nat, draws: seq<int>) returns (s: string)
    requires ValidDraws(draws, n)
    ensures s == SlugText(draws, n)
    ensures |s| == n && forall i :: 0 <= i < n ==> IsSlugChar(s[i])
  {
    var b := new char[n];
    for i := 0 to n
      invariant forall j :: 0 <= j < i ==> b[j] == SlugLetters[draws[j]]
    {
      b[i] := SlugLetters[draws[i]];
    }
    s := b[..];
    SlugTextChars(draws, n);
  }

  /** The slug AddBlock works with: the given one, or a fresh NewSlug(15) when it is empty. */
  function ChosenSlug(slug: string, draws: seq<int>): string
    requires slug == "" ==> ValidDraws(draws, 15)
  {
    if slug == "" then SlugText(draws, 15) else slug
  }

  /** GetBlock's result: the block, its children when there are any, and its metas. */
  datatype BlockDetail = BlockDetail(block: BlockView, children: Option<seq<BlockView>>, metas: Option<map<string, string>>)

  /** The children GetBlock attaches: GetBlocks(userID, "entry", 1, 999999, id), omitted when empty. */
  function Children(blocks: seq<BlockRow>, metas: seq<MetaRow>, userID: int, id: int): Option<seq<BlockView>> {
    var c := Views(Window(Listing(blocks, metas, userID, "entry", id), 0, 999999));
    if c == [] then None else Some(c)
  }

  class DatabaseManager {
    const db: Database
    const domain: string
    const accessKey: string
    var userID: int
    var systemID: int

    /** The struct literal of NewDatabaseManager; both ids start at Go's zero value. */
    constructor Init(db: Database, domain: string, accessKey: string)
      ensures this.db == db && this.domain == domain && this.accessKey == accessKey
      ensures userID == 0 && systemID == 0
    {
      this.db := db;
      this.domain := domain;
      this.accessKey := accessKey;
      userID := 0;
      systemID := 0;
    }

    /** getSystemIDByDomain */
    method GetSystemIDByDomain(domain: string) returns (id: int)
      requires db.Valid()
      modifies db`systems, db`nextSystemID
      ensures db.Valid()
      ensures SystemResolved(old(db.systems), old(db.nextSystemID), domain, id, db.systems, db.nextSystemID)
    {
      var k := SystemFor(db.systems, domain);
      if k.Some? {
        id := db.systems[k.value].id;
      } else {
        id := db.InsertSystem(domain, domain);
      }
    }

    /** getUserIDByAccessKey: the id of the first user with that access key. */
    method GetUserIDByAccessKey(key: string) returns (r: Result<int, StoreError>)
      ensures r.Ok? <==> exists j :: 0 <= j < |db.users| && db.users[j].accessKey == key
      ensures r.Ok? ==> exists j :: 0 <= j < |db.users| && db.users[j].accessKey == key && db.users[j].id == r.value
      ensures r.Err? ==> r.error == UserNotFound
      ensures r.Ok? ==> r.value == db.users[UserWithKey(db.users, key).value].id
    {
      var k := UserWithKey(db.users, key);
      if k.None? {
        return Err(UserNotFound);
      }
      return Ok(db.users[k.value].id);
    }

    /**
     * AddUser, as written: any failure of the lookup, no row included, returns
     * 0 with that error; an existing id above 0 is returned with "user already
     * exists"; only a matching row whose id is not positive leads to the insert.
     */
    method AddUser(email: string, password: string, freshKey: string) returns (id: int, err: Option<StoreError>)
      modifies db`users, db`nextUserID
      ensures (id, err) == AddUserResult(old(db.users), old(db.nextUserID), email)
      ensures UsersAfterAdd(old(db.users), old(db.nextUserID), email, password, freshKey, systemID, db.users, db.nextUserID)
    {
      var k := UserWithEmail(db.users, email);
      if k.None? {
        return 0, Some(NoRows);
      }
      id := db.users[k.value].id;
      if id > 0 {
        return id, Some(UserExists);
      }
      id := db.InsertUser(email, password, freshKey, systemID);
      err := None;
    }

    /** GetAccessKey: the email and access key of the first user with that id, or nothing. */
    method GetAccessKey(id: int) returns (r: Option<(string, string)>)
      ensures r.Some? <==> exists j :: 0 <= j < |db.users| && db.users[j].id == id
      ensures r.Some? ==> exists j :: (0 <= j < |db.users| && db.users[j].id == id
        && r.value == (db.users[j].email, db.users[j].accessKey))
      ensures r.Some? ==> var u := db.users[UserWithID(db.users, id).value]; r.value == (u.email, u.accessKey)
    {
      var k := UserWithID(db.users, id);
      if k.None? {
        return None;
      }
      var u := db.users[k.value];
      return Some((u.email, u.accessKey));
    }

    /** AddMeta: the value is stored as text (a string verbatim, anything else as JSON), updating or inserting the triple. */
    method AddMeta(parent: string, parentID: int, key: string, value: MetaValue)
      requires db.Valid()
      modifies db`metas
      ensures db.Valid()
      ensures db.metas == UpsertMeta(old(db.metas), parent, parentID, key, StoredText(value))
    {
      var text := StoredText(value);
      UpsertMetaUnique(db.metas, parent, parentID, key, text);
      var present := HasMeta(db.metas, parent, parentID, key);
      if present {
        db.UpdateMetas(parent, parentID, key, text);
      } else {
        db.InsertMeta(parent, parentID, key, text);
      }
    }

    /** GetMeta: the value of the first live row of the triple, "" when there is none. */
    method GetMeta(parent: string, parentID: int, key: string) returns (value: string)
      ensures (exists i :: 0 <= i < |db.metas| && Names(db.metas[i], parent, parentID, key) && db.metas[i].status == 1)
        ==> MetaLookup(db.metas, parent, parentID, key) == Some(value)
      ensures MetaLookup(db.metas, parent, parentID, key).None? ==> value == ""
    {
      var found := MetaLookup(db.metas, parent, parentID, key);
      value := if found.Some? then found.value else "";
    }

    /**
     * AddBlock: upsert by slug (a fresh 15-character slug when none is given),
     * then read the block back, which succeeds only while its status is 1.
     */
    method AddBlock(userID: int, input: BlockInput, slug: string, draws: seq<int>, now: DateTime)
      returns (r: Result<BlockView, StoreError>)
      requires db.Valid() && Valid(now)
      requires slug == "" ==> ValidDraws(draws, 15)
      modifies db`blocks, db`nextBlockID
      ensures db.Valid()
      ensures var s := ChosenSlug(slug, draws);
        && db.blocks == UpsertBlock(old(db.blocks), old(db.nextBlockID), userID, input, s, FormatStorage(now))
        && db.nextBlockID == old(db.nextBlockID) + (if SlugIndex(old(db.blocks), s).Some? then 0 else 1)
        && r == match LiveSlugIndex(db.blocks, s)
             case None => Err(NoRows)
             case Some(k) => Ok(View(db.blocks[k]))
    {
      var s := slug;
      if s == "" {
        s := NewSlug(15, draws);
      }
      var stamp := FormatStorage(now);
      var existing := SlugIndex(db.blocks, s);
      if existing.Some? {
        UpdateExisting(db.blocks, db.nextBlockID, userID, input, s, stamp);
        db.UpdateBlocksBySlug(s, input.title, input.content, stamp);
      } else {
        InsertNew(db.blocks, db.nextBlockID, userID, input, s, stamp);
        var _ := db.InsertBlock(userID, input, s, stamp);
      }
      var k := LiveSlugIndex(db.blocks, s);
      if k.None? {
        return Err(NoRows);
      }
      return Ok(View(db.blocks[k.value]));
    }

    /**
     * GetBlocks: the visible blocks of a type (under a parent when one is
     * given), newest first, one page of them; a negative LIMIT or OFFSET is an
     * error.
     */
    method GetBlocks(userID: int, blockType: string, page: int, entriesPerPage: int, parent: int)
      returns (r: Result<seq<BlockView>, StoreError>)
      ensures var offset := PageOffset(page, entriesPerPage);
        r == if entriesPerPage < 0 || offset < 0 then Err(InvalidLimit)
             else Ok(Views(Window(Listing(db.blocks, db.metas, userID, blockType, parent), offset, entriesPerPage)))
      ensures r.Ok? && IdsAscending(db.blocks) ==> forall i, j :: 0 <= i < j < |r.value| ==> r.value[i].id > r.value[j].id
    {
      var offset := PageOffset(page, entriesPerPage);
      if entriesPerPage < 0 || offset < 0 {
        return Err(InvalidLimit);
      }
      var listing := Listing(db.blocks, db.metas, userID, blockType, parent);
      var rows := Window(listing, offset, entriesPerPage);
      if IdsAscending(db.blocks) {
        ListingDescending(db.blocks, db.metas, userID, blockType, parent);
        WindowDescending(listing, offset, entriesPerPage);
      }
      var blocks := ScanBlocks(rows);
      return Ok(blocks);
    }

    /**
     * GetMetas: every meta of the owner, keyed by meta_key, a later row winning.
     * With keys, the IN list's placeholders have no arguments bound to them and
     * the query is refused.
     */
    method GetMetas(id: int, parent: string, metaKeys: seq<string>) returns (r: Result<map<string, string>, StoreError>)
      ensures r == if |metaKeys| > 0 then Err(ArgumentMismatch) else Ok(MetaMap(db.metas, parent, id))
    {
      if |metaKeys| > 0 {
        return Err(ArgumentMismatch);
      }
      var metas: map<string, string> := map[];
      var i := 0;
      while i < |db.metas|
        invariant 0 <= i <= |db.metas|
        invariant metas == MetaMap(db.metas[..i], parent, id)
      {
        var m := db.metas[i];
        assert db.metas[..i + 1][..i] == db.metas[..i];
        if Owned(m, parent, id) {
          metas := metas[m.key := m.value];
        }
        i := i + 1;
      }
      assert db.metas[..i] == db.metas;
      return Ok(metas);
    }

    /** GetBlock: the first block the filters select, with its children and its metas. */
    method GetBlock(userID: int, blockType: string, id: int, slug: string, parent: int) returns (r: Option<BlockDetail>)
      ensures var k := FindBlock(db.blocks, db.metas, userID, blockType, id, slug, parent);
        && (r.None? <==> k.None?)
        && (r.Some? ==> var b := db.blocks[k.value];
             r.value == BlockDetail(View(b), Children(db.blocks, db.metas, userID, b.id), Some(MetaMap(db.metas, b.blockType, b.id))))
    {
      var k := FindBlock(db.blocks, db.metas, userID, blockType, id, slug, parent);
      if k.None? {
        return None;
      }
      var b := db.blocks[k.value];
      var children := GetBlocks(userID, "entry", 1, 999999, b.id);
      var kids: Option<seq<BlockView>> := None;
      if children.Ok? && children.value != [] {
        kids := Some(children.value);
      }
      var metas := GetMetas(b.id, b.blockType, []);
      var owned: Option<map<string, string>> := None;
      if metas.Ok? {
        owned := Some(metas.value);
      }
      return Some(BlockDetail(View(b), kids, owned));
    }

    /** DeleteBlock: a soft delete, status 0 on the rows with that id. */
    method DeleteBlock(id: int)
      requires db.Valid()
      modifies db`blocks
      ensures db.Valid()
      ensures db.blocks == SetStatusZero(old(db.blocks), id)
    {
      db.SetBlockStatusZero(id);
      assert forall i :: 0 <= i < |db.blocks| ==> db.blocks[i].slug == old(db.blocks)[i].slug && db.blocks[i].id == old(db.blocks)[i].id;
    }
  }

  /** The `rows.Next()` loop of GetBlocks: one view appended per row, in result order. */
  method ScanBlocks(rows: seq<BlockRow>) returns (blocks: seq<BlockView>)
    ensures blocks == Views(rows)
  {
    blocks := [];
    var i := 0;
    while i < |rows|
      invariant 0 <= i <= |rows|
      invariant |blocks| == i && forall j :: 0 <= j < i ==> blocks[j] == View(rows[j])
    {
      blocks := blocks + [View(rows[i])];
      i := i + 1;
    }
  }

  /**
   * NewDatabaseManager: resolves the domain to a system (none for an empty
   * domain), then the access key to a user (none for an empty key). An unknown
   * access key fails the constructor, after a system row may have been added.
   */
  method NewDatabaseManager(db: Database, domain: string, accessKey: string) returns (r: Result<DatabaseManager, StoreError>)
    requires db.Valid()
    modifies db`systems, db`nextSystemID
    ensures db.Valid()
    ensures domain == "" ==> db.systems == old(db.systems) && db.nextSystemID == old(db.nextSystemID)
    ensures r.Err? <==> accessKey != "" && UserWithKey(db.users, accessKey).None?
    ensures r.Err? ==> r.error == UserNotFound
    ensures r.Ok? ==> fresh(r.value) && r.value.db == db && r.value.domain == domain && r.value.accessKey == accessKey
    ensures r.Ok? ==> (domain == "" ==> r.value.systemID == 0)
    ensures domain != "" ==> exists id :: (SystemResolved(old(db.systems), old(db.nextSystemID), domain, id, db.systems, db.nextSystemID)
      && (r.Ok? ==> r.value.systemID == id))
    ensures r.Ok? ==> r.value.userID == if accessKey == "" then 0 else db.users[UserWithKey(db.users, accessKey).value].id
    ensures SystemsAfter(old(db.systems), old(db.nextSystemID), domain, db.systems, db.nextSystemID)
    ensures r.Ok? ==> r.value.systemID == ResolvedSystem(old(db.systems), old(db.nextSystemID), domain)
  {
    var dm := new DatabaseManager.Init(db, domain, accessKey);
    if domain == "" {
      dm.systemID := 0;
    } else {
      var id := dm.GetSystemIDByDomain(domain);
      dm.systemID := id;
    }
    if accessKey == "" {
      dm.userID := 0;
    } else {
      var u := dm.GetUserIDByAccessKey(accessKey);
      if u.Err? {
        return Err(u.error);
      }
      dm.userID := u.value;
    }
    return Ok(dm);
  }
}
