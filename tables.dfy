/**
 * The four tables the program keeps (systems, users, blocks, metas) as
 * sequences of rows in table order, and the meaning of each SQL statement the
 * store issues as a function over those rows. A query without ORDER BY reads
 * its first matching row in table order; ids come from AUTO_INCREMENT, so table
 * order is ascending id order. String comparisons are exact.
 */
module Tables {
  import opened Wrappers
  import opened Strings
  import opened Timestamps
  import Json

  datatype SystemRow = SystemRow(id: int, subdomain: string, domain: string, status: int)

  datatype UserRow = UserRow(id: int, email: string, password: string, accessKey: string, systemID: int)

  datatype BlockRow = BlockRow(
    id: int, blockType: string, title: string, content: string, author: int,
    slug: string, parent: int, createdAt: string, modifiedAt: string, status: int)

  datatype MetaRow = MetaRow(parent: string, parentID: int, key: string, value: string, status: int)

  /**
   * The errors the store reports: sql.ErrNoRows, the two messages of its own,
   * the placeholder/argument count mismatch database/sql refuses, and a
   * negative LIMIT or OFFSET, which MySQL refuses.
   */
  datatype StoreError = NoRows | UserNotFound | UserExists | ArgumentMismatch | InvalidLimit

  /** The index of the first row that satisfies p, as QueryRow reads it. */
  function FirstMatch<T>(rows: seq<T>, p: T -> bool): (r: Option<nat>)
    ensures r.Some? ==> r.value < |rows| && p(rows[r.value]) && forall j :: 0 <= j < r.value ==> !p(rows[j])
    ensures r.None? ==> forall j :: 0 <= j < |rows| ==> !p(rows[j])
  {
    if rows == [] then None
    else if p(rows[0]) then Some(0)
    else
      match FirstMatch(rows[1..], p)
      case None => None
      case Some(k) => Some(k + 1)
  }

  // ------------------------------------------------------------ systems, users

  /** `(subdomain = ? OR domain = ?) AND status = 1` */
  predicate Serves(s: SystemRow, domain: string) {
    (s.subdomain == domain || s.domain == domain) && s.status == 1
  }

  function SystemFor(systems: seq<SystemRow>, domain: string): (r: Option<nat>)
    ensures r.Some? ==> r.value < |systems| && Serves(systems[r.value], domain)
    ensures r.Some? ==> forall j :: 0 <= j < r.value ==> !Serves(systems[j], domain)
    ensures r.None? ==> forall j :: 0 <= j < |systems| ==> !Serves(systems[j], domain)
  {
    FirstMatch(systems, (s: SystemRow) => Serves(s, domain))
  }

  /** Once a system row for a domain has been added, the next resolution of that domain finds it. */
  lemma AddedSystemServes(systems: seq<SystemRow>, id: int, domain: string)
    requires SystemFor(systems, domain).None?
    ensures SystemFor(systems + [SystemRow(id, domain, domain, 1)], domain) == Some(|systems|)
  {
    var t := systems + [SystemRow(id, domain, domain, 1)];
    assert Serves(t[|systems|], domain);
    assert forall j :: 0 <= j < |systems| ==> t[j] == systems[j];
  }

  function UserWithKey(users: seq<UserRow>, key: string): (r: Option<nat>)
    ensures r.Some? ==> r.value < |users| && users[r.value].accessKey == key
    ensures r.None? ==> forall j :: 0 <= j < |users| ==> users[j].accessKey != key
  {
    FirstMatch(users, (u: UserRow) => u.accessKey == key)
  }

  function UserWithEmail(users: seq<UserRow>, email: string): (r: Option<nat>)
    ensures r.Some? ==> r.value < |users| && users[r.value].email == email
    ensures r.None? ==> forall j :: 0 <= j < |users| ==> users[j].email != email
  {
    FirstMatch(users, (u: UserRow) => u.email == email)
  }

  function UserWithID(users: seq<UserRow>, id: int): (r: Option<nat>)
    ensures r.Some? ==> r.value < |users| && users[r.value].id == id
    ensures r.None? ==> forall j :: 0 <= j < |users| ==> users[j].id != id
  {
    FirstMatch(users, (u: UserRow) => u.id == id)
  }

  // -------------------------------------------------------------------- metas

  /** What AddMeta is given: a string, stored verbatim, or any other value, stored as its JSON. */
  datatype MetaValue = Text(s: string) | Structured(j: Json.Json)

  function StoredText(v: MetaValue): string {
    match v
    case Text(s) => s
    case Structured(j) => Json.Encode(j)
  }

  /** `parent = ? AND parent_id = ? AND meta_key = ?` */
  predicate Names(m: MetaRow, parent: string, parentID: int, key: string) {
    m.parent == parent && m.parentID == parentID && m.key == key
  }

  predicate HasMeta(metas: seq<MetaRow>, parent: string, parentID: int, key: string) {
    exists i :: 0 <= i < |metas| && Names(metas[i], parent, parentID, key)
  }

  /** At most one row per (parent, parent_id, meta_key): AddMeta only inserts a missing triple. */
  predicate MetaKeysUnique(metas: seq<MetaRow>) {
    forall i, j :: 0 <= i < j < |metas| ==>
      !Names(metas[j], metas[i].parent, metas[i].parentID, metas[i].key)
  }

  /** `UPDATE metas SET meta_value = ?, status = 1 WHERE parent = ? AND parent_id = ? AND meta_key = ?` */
  function SetMeta(metas: seq<MetaRow>, parent: string, parentID: int, key: string, value: string): (r: seq<MetaRow>)
    ensures |r| == |metas|
  {
    seq(|metas|, i requires 0 <= i < |metas| =>
      if Names(metas[i], parent, parentID, key) then metas[i].(value := value, status := 1) else metas[i])
  }

  /** AddMeta: update the existing triple, or insert it with status 1. */
  function UpsertMeta(metas: seq<MetaRow>, parent: string, parentID: int, key: string, value: string): seq<MetaRow> {
    if HasMeta(metas, parent, parentID, key) then SetMeta(metas, parent, parentID, key, value)
    else metas + [MetaRow(parent, parentID, key, value, 1)]
  }

  /** `SELECT meta_value ... AND status = 1`, first row. */
  function MetaLookup(metas: seq<MetaRow>, parent: string, parentID: int, key: string): (r: Option<string>)
    ensures r.Some? <==> exists i :: 0 <= i < |metas| && Names(metas[i], parent, parentID, key) && metas[i].status == 1
    ensures r.Some? ==> exists i :: (0 <= i < |metas| && Names(metas[i], parent, parentID, key) && metas[i].status == 1
      && metas[i].value == r.value && forall j :: 0 <= j < i ==> !(Names(metas[j], parent, parentID, key) && metas[j].status == 1))
  {
    match FirstMatch(metas, (m: MetaRow) => Names(m, parent, parentID, key) && m.status == 1)
    case None => None
    case Some(k) => Some(metas[k].value)
  }

  /** AddMeta keeps the triples unique. */
  lemma UpsertMetaUnique(metas: seq<MetaRow>, parent: string, parentID: int, key: string, value: string)
    requires MetaKeysUnique(metas)
    ensures MetaKeysUnique(UpsertMeta(metas, parent, parentID, key, value))
  {
    var r := UpsertMeta(metas, parent, parentID, key, value);
    forall i, j | 0 <= i < j < |r|
      ensures !Names(r[j], r[i].parent, r[i].parentID, r[i].key)
    {
      if j == |metas| {
        assert r[j] == MetaRow(parent, parentID, key, value, 1);
        assert r[i] == metas[i];
      }
    }
  }

  /**
   * After AddMeta the triple has exactly the new value and status 1, even when
   * a soft-deleted row held it before; every row of another triple keeps its
   * place and contents; and GetMeta reads the new value back.
   */
  lemma UpsertMetaEffect(metas: seq<MetaRow>, parent: string, parentID: int, key: string, value: string)
    requires MetaKeysUnique(metas)
    ensures var r := UpsertMeta(metas, parent, parentID, key, value);
      && |r| == |metas| + (if HasMeta(metas, parent, parentID, key) then 0 else 1)
      && (forall i :: 0 <= i < |metas| && !Names(metas[i], parent, parentID, key) ==> r[i] == metas[i])
      && (forall i :: 0 <= i < |r| && Names(r[i], parent, parentID, key) ==> r[i] == MetaRow(parent, parentID, key, value, 1))
      && (exists i :: 0 <= i < |r| && r[i] == MetaRow(parent, parentID, key, value, 1))
      && (forall i, j :: 0 <= i < |r| && 0 <= j < |r| && Names(r[i], parent, parentID, key) && Names(r[j], parent, parentID, key) ==> i == j)
      && MetaLookup(r, parent, parentID, key) == Some(value)
  {
    var r := UpsertMeta(metas, parent, parentID, key, value);
    var row := MetaRow(parent, parentID, key, value, 1);
    UpsertMetaUnique(metas, parent, parentID, key, value);
    var k: nat;
    if HasMeta(metas, parent, parentID, key) {
      k :| k < |metas| && Names(metas[k], parent, parentID, key);
    } else {
      k := |metas|;
    }
    assert r[k] == row;
  }

  // ------------------------------------------------------------------- blocks

  /** Block ids strictly ascend in table order. */
  predicate IdsAscending(blocks: seq<BlockRow>) {
    forall i, j :: 0 <= i < j < |blocks| ==> blocks[i].id < blocks[j].id
  }

  predicate IdsDescending(blocks: seq<BlockRow>) {
    forall i, j :: 0 <= i < j < |blocks| ==> blocks[i].id > blocks[j].id
  }

  predicate IdsBelow(blocks: seq<BlockRow>, next: int) {
    forall i :: 0 <= i < |blocks| ==> blocks[i].id < next
  }

  /** At most one row per slug: AddBlock only inserts a slug no row has. */
  predicate SlugsUnique(blocks: seq<BlockRow>) {
    forall i, j :: 0 <= i < j < |blocks| ==> blocks[i].slug != blocks[j].slug
  }

  /** `SELECT id FROM blocks WHERE slug = ?`, whatever the row's status. */
  function SlugIndex(blocks: seq<BlockRow>, slug: string): (r: Option<nat>)
    ensures r.Some? ==> r.value < |blocks| && blocks[r.value].slug == slug
    ensures r.None? ==> forall j :: 0 <= j < |blocks| ==> blocks[j].slug != slug
  {
    FirstMatch(blocks, (b: BlockRow) => b.slug == slug)
  }

  /** `... WHERE slug = ? AND status = 1`, the read-back at the end of AddBlock. */
  function LiveSlugIndex(blocks: seq<BlockRow>, slug: string): (r: Option<nat>)
    ensures r.Some? ==> r.value < |blocks| && blocks[r.value].slug == slug && blocks[r.value].status == 1
    ensures r.None? ==> forall j :: 0 <= j < |blocks| ==> blocks[j].slug != slug || blocks[j].status != 1
  {
    FirstMatch(blocks, (b: BlockRow) => b.slug == slug && b.status == 1)
  }

  /** The fields of the `block` map AddBlock reads; parent is present only when it holds an int. */
  datatype BlockInput = BlockInput(blockType: string, title: string, content: string, parent: Option<int>)

  function StoredParent(p: Option<int>): int {
    match p
    case Some(n) => n
    case None => 0
  }

  /** `UPDATE blocks SET title = ?, content = ?, modified_at = ? WHERE slug = ?` */
  function UpdateBySlug(blocks: seq<BlockRow>, slug: string, title: string, content: string, now: string): (r: seq<BlockRow>)
    ensures |r| == |blocks|
  {
    seq(|blocks|, i requires 0 <= i < |blocks| =>
      if blocks[i].slug == slug then blocks[i].(title := title, content := content, modifiedAt := now) else blocks[i])
  }

  /** The row `INSERT INTO blocks (...) VALUES (..., 1)` adds. */
  function NewBlock(id: int, author: int, input: BlockInput, slug: string, now: string): BlockRow {
    BlockRow(id, input.blockType, input.title, input.content, author, slug, StoredParent(input.parent), now, now, 1)
  }

  /** The write AddBlock makes: an update of the row with that slug, or an insert. */
  function UpsertBlock(blocks: seq<BlockRow>, id: int, author: int, input: BlockInput, slug: string, now: string): seq<BlockRow> {
    if SlugIndex(blocks, slug).Some? then UpdateBySlug(blocks, slug, input.title, input.content, now)
    else blocks + [NewBlock(id, author, input, slug, now)]
  }

  /**
   * AddBlock on a slug that exists, whatever its status: that row changes in
   * title, content and modified_at only, every other row is untouched, the
   * table keeps its size, and the read-back finds the row only when its status
   * is 1, so a soft-deleted slug is updated and then reported as an error.
   */
  lemma UpdateExisting(blocks: seq<BlockRow>, id: int, author: int, input: BlockInput, slug: string, now: string)
    requires SlugsUnique(blocks) && SlugIndex(blocks, slug).Some?
    ensures var k := SlugIndex(blocks, slug).value; var r := UpsertBlock(blocks, id, author, input, slug, now);
      && |r| == |blocks|
      && r[k] == blocks[k].(title := input.title, content := input.content, modifiedAt := now)
      && (forall i :: 0 <= i < |blocks| && i != k ==> r[i] == blocks[i])
      && SlugsUnique(r)
      && (IdsAscending(blocks) ==> IdsAscending(r))
      && LiveSlugIndex(r, slug) == if blocks[k].status == 1 then Some(k) else None
  {
    var k := SlugIndex(blocks, slug).value;
    var r := UpsertBlock(blocks, id, author, input, slug, now);
    forall i | 0 <= i < |blocks| && i != k ensures r[i] == blocks[i] {
      if i < k {
        assert blocks[i].slug != blocks[k].slug;
      } else {
        assert blocks[k].slug != blocks[i].slug;
      }
    }
    assert forall i :: 0 <= i < |r| ==> r[i].slug == blocks[i].slug && r[i].id == blocks[i].id && r[i].status == blocks[i].status;
  }

  /**
   * AddBlock on a slug no row has: exactly one row is added, at the end, with
   * the caller as author, status 1 and the given parent (0 when none was
   * given), and the read-back finds it.
   */
  lemma InsertNew(blocks: seq<BlockRow>, id: int, author: int, input: BlockInput, slug: string, now: string)
    requires SlugsUnique(blocks) && SlugIndex(blocks, slug).None?
    ensures var r := UpsertBlock(blocks, id, author, input, slug, now);
      && r == blocks + [r[|blocks|]]
      && r[|blocks|].author == author && r[|blocks|].status == 1 && r[|blocks|].slug == slug
      && r[|blocks|].parent == (if input.parent.Some? then input.parent.value else 0)
      && SlugsUnique(r)
      && (IdsAscending(blocks) && IdsBelow(blocks, id) ==> IdsAscending(r))
      && LiveSlugIndex(r, slug) == Some(|blocks|)
  {
    var r := UpsertBlock(blocks, id, author, input, slug, now);
    assert forall j :: 0 <= j < |blocks| ==> r[j] == blocks[j];
  }

  /** `UPDATE blocks SET status = 0 WHERE id = ?` */
  function SetStatusZero(blocks: seq<BlockRow>, id: int): (r: seq<BlockRow>)
    ensures |r| == |blocks|
  {
    seq(|blocks|, i requires 0 <= i < |blocks| => if blocks[i].id == id then blocks[i].(status := 0) else blocks[i])
  }

  // --------------------------------------------------------------- visibility

  /** The meta key that shares a block with a user: `privilege_<userID>`. */
  function PrivilegeKey(userID: int): string {
    "privilege_" + FormatInt(userID)
  }

  /** Different users have different privilege keys. */
  lemma PrivilegeKeyInjective(a: int, b: int)
    requires PrivilegeKey(a) == PrivilegeKey(b)
    ensures a == b
  {
    var p := "privilege_";
    assert PrivilegeKey(a)[|p|..] == FormatInt(a);
    assert PrivilegeKey(b)[|p|..] == FormatInt(b);
    FormatIntInjective(a, b);
  }

  /**
   * `id IN (SELECT parent_id FROM metas WHERE parent = ? AND meta_key = ?)`:
   * some meta row under `parent`, keyed by the user's privilege key, names the
   * block. The meta row's own status is not consulted.
   */
  predicate Grants(metas: seq<MetaRow>, parent: string, userID: int, id: int) {
    exists i :: 0 <= i < |metas| && metas[i].parent == parent && metas[i].key == PrivilegeKey(userID) && metas[i].parentID == id
  }

  /** `author = ? OR id IN (...)` */
  predicate Visible(metas: seq<MetaRow>, parent: string, userID: int, b: BlockRow) {
    b.author == userID || Grants(metas, parent, userID, b.id)
  }

  /** The WHERE clause of GetBlocks. */
  predicate Listed(metas: seq<MetaRow>, userID: int, blockType: string, parent: int, b: BlockRow) {
    Visible(metas, blockType, userID, b) && b.blockType == blockType && b.status == 1
    && (parent > 0 ==> b.parent == parent)
  }

  /** Every row GetBlocks' WHERE clause selects, `ORDER BY id DESC` (newest row first). */
  function Listing(blocks: seq<BlockRow>, metas: seq<MetaRow>, userID: int, blockType: string, parent: int): seq<BlockRow>
    decreases |blocks|
  {
    if blocks == [] then []
    else
      var last := blocks[|blocks| - 1];
      (if Listed(metas, userID, blockType, parent, last) then [last] else [])
      + Listing(blocks[..|blocks| - 1], metas, userID, blockType, parent)
  }

  /** Everything listed is a row of the table the WHERE clause selects. */
  lemma {:induction false} ListingSound(blocks: seq<BlockRow>, metas: seq<MetaRow>, userID: int, blockType: string, parent: int)
    ensures forall b :: b in Listing(blocks, metas, userID, blockType, parent) ==>
      b in blocks && Listed(metas, userID, blockType, parent, b)
    decreases |blocks|
  {
    if blocks != [] {
      var init := blocks[..|blocks| - 1];
      var last := blocks[|blocks| - 1];
      ListingSound(init, metas, userID, blockType, parent);
      assert forall b :: b in init ==> b in blocks;
    }
  }

  /** Every row the WHERE clause selects is listed. */
  lemma {:induction false} ListingComplete(blocks: seq<BlockRow>, metas: seq<MetaRow>, userID: int, blockType: string, parent: int)
    ensures forall b :: b in blocks && Listed(metas, userID, blockType, parent, b) ==> b in Listing(blocks, metas, userID, blockType, parent)
    decreases |blocks|
  {
    if blocks != [] {
      var init := blocks[..|blocks| - 1];
      var last := blocks[|blocks| - 1];
      ListingComplete(init, metas, userID, blockType, parent);
      assert blocks == init + [last];
      forall b | b in blocks && Listed(metas, userID, blockType, parent, b)
        ensures b in Listing(blocks, metas, userID, blockType, parent)
      {
        if b != last {
          assert b in init;
        }
      }
    }
  }

  /** With ascending ids in the table, the listing's ids strictly descend. */
  lemma {:induction false} ListingDescending(blocks: seq<BlockRow>, metas: seq<MetaRow>, userID: int, blockType: string, parent: int)
    requires IdsAscending(blocks)
    ensures IdsDescending(Listing(blocks, metas, userID, blockType, parent))
    decreases |blocks|
  {
    if blocks != [] {
      var init := blocks[..|blocks| - 1];
      var last := blocks[|blocks| - 1];
      ListingDescending(init, metas, userID, blockType, parent);
      ListingSound(init, metas, userID, blockType, parent);
      var rest := Listing(init, metas, userID, blockType, parent);
      forall j | 0 <= j < |rest| ensures rest[j].id < last.id {
        assert rest[j] in rest;
        var k :| 0 <= k < |init| && init[k] == rest[j];
        assert init[k] == blocks[k];
      }
      var head := if Listed(metas, userID, blockType, parent, last) then [last] else [];
      var r := Listing(blocks, metas, userID, blockType, parent);
      assert r == head + rest;
      forall i, j | 0 <= i < j < |r| ensures r[i].id > r[j].id {
        assert r[j] == rest[j - |head|];
        if i >= |head| {
          assert r[i] == rest[i - |head|];
        } else {
          assert r[i] == last;
          assert rest[j - |head|].id < last.id;
        }
      }
    }
  }

  /** `LIMIT limit OFFSET offset` applied to a result. */
  function Window<T>(s: seq<T>, offset: nat, limit: nat): (r: seq<T>)
    ensures |r| <= limit
    ensures offset < |s| ==> r == s[offset..if offset + limit < |s| then offset + limit else |s|]
    ensures offset >= |s| ==> r == []
  {
    var lo := if offset < |s| then offset else |s|;
    var hi := if offset + limit < |s| then offset + limit else |s|;
    s[lo..hi]
  }

  /** A page holds only rows of the result it was cut from. */
  lemma WindowIn<T>(s: seq<T>, offset: nat, limit: nat, i: nat)
    requires i < |Window(s, offset, limit)|
    ensures Window(s, offset, limit)[i] in s
  {
    assert Window(s, offset, limit)[i] == s[offset + i];
  }

  /** A page of a newest-first result is itself newest first. */
  lemma WindowDescending(s: seq<BlockRow>, offset: nat, limit: nat)
    requires IdsDescending(s)
    ensures IdsDescending(Window(s, offset, limit))
  {
    var w := Window(s, offset, limit);
    forall i, j | 0 <= i < j < |w| ensures w[i].id > w[j].id {
      assert w[i] == s[offset + i] && w[j] == s[offset + j];
    }
  }

  /** Two consecutive pages together are the double-sized page: pages neither overlap nor skip a row. */
  lemma WindowsAdjoin<T>(s: seq<T>, offset: nat, limit: nat)
    ensures Window(s, offset, limit) + Window(s, offset + limit, limit) == Window(s, offset, limit + limit)
  {
  }

  /** `(page - 1) * entriesPerPage` in Go's 64-bit int, which wraps on overflow. */
  function PageOffset(page: int, entriesPerPage: int): (r: int)
    ensures InInt64(r)
    ensures InInt64((page - 1) * entriesPerPage) ==> r == (page - 1) * entriesPerPage
  {
    WrapInt64((page - 1) * entriesPerPage)
  }

  // ----------------------------------------------------------------- GetBlock

  /** The WHERE clause of GetBlock; each optional filter applies only when its argument is set. */
  predicate Selects(metas: seq<MetaRow>, userID: int, blockType: string, id: int, slug: string, parent: int, b: BlockRow) {
    b.status > 0 && Visible(metas, blockType, userID, b)
    && (blockType != "" ==> b.blockType == blockType)
    && (id > 0 ==> b.id == id)
    && (slug != "" ==> b.slug == slug)
    && (parent > 0 ==> b.parent == parent)
  }

  function FindBlock(blocks: seq<BlockRow>, metas: seq<MetaRow>, userID: int, blockType: string, id: int, slug: string, parent: int): (r: Option<nat>)
    ensures r.Some? ==> r.value < |blocks| && Selects(metas, userID, blockType, id, slug, parent, blocks[r.value])
    ensures r.Some? ==> forall j :: 0 <= j < r.value ==> !Selects(metas, userID, blockType, id, slug, parent, blocks[j])
    ensures r.None? ==> forall j :: 0 <= j < |blocks| ==> !Selects(metas, userID, blockType, id, slug, parent, blocks[j])
  {
    FirstMatch(blocks, (b: BlockRow) => Selects(metas, userID, blockType, id, slug, parent, b))
  }

  /**
   * With an empty type the privilege subquery asks for metas under the parent
   * "", which no writer of this program creates, so GetBlock then finds only
   * blocks the user wrote.
   */
  lemma UntypedFindsAuthored(blocks: seq<BlockRow>, metas: seq<MetaRow>, userID: int, id: int, slug: string, parent: int)
    requires forall i :: 0 <= i < |metas| ==> metas[i].parent != ""
    requires FindBlock(blocks, metas, userID, "", id, slug, parent).Some?
    ensures blocks[FindBlock(blocks, metas, userID, "", id, slug, parent).value].author == userID
  {
  }

  /**
   * DeleteBlock changes only the status of the rows with that id, to 0; after
   * it neither GetBlock nor GetBlocks returns such a row, for any user and any
   * filter.
   */
  lemma DeleteHides(blocks: seq<BlockRow>, metas: seq<MetaRow>, id: int, userID: int, blockType: string, slug: string, findID: int, parent: int)
    ensures var r := SetStatusZero(blocks, id);
      && (forall i :: 0 <= i < |r| ==> r[i].(status := blocks[i].status) == blocks[i])
      && (forall i :: 0 <= i < |r| ==> r[i].status == if blocks[i].id == id then 0 else blocks[i].status)
      && (FindBlock(r, metas, userID, blockType, findID, slug, parent).Some? ==>
           r[FindBlock(r, metas, userID, blockType, findID, slug, parent).value].id != id)
      && (forall b :: b in Listing(r, metas, userID, blockType, parent) ==> b.id != id)
  {
    var r := SetStatusZero(blocks, id);
    ListingSound(r, metas, userID, blockType, parent);
    var l := Listing(r, metas, userID, blockType, parent);
    forall b | b in l ensures b.id != id {
      var k :| 0 <= k < |r| && r[k] == b;
    }
  }

  // -------------------------------------------------------------- read models

  /** The fields GetBlocks and GetBlock report for a block, times in RFC 3339. */
  datatype BlockView = BlockView(
    id: int, blockType: string, title: string, content: string, author: int,
    slug: string, parent: int, createdAt: string, modifiedAt: string)

  function View(b: BlockRow): BlockView {
    BlockView(b.id, b.blockType, b.title, b.content, b.author, b.slug, b.parent,
              FormatTimeToISO(b.createdAt), FormatTimeToISO(b.modifiedAt))
  }

  /** A block written by AddBlock reads back with its times in RFC 3339 form. */
  lemma ViewOfStored(b: BlockRow, created: DateTime, modified: DateTime)
    requires Valid(created) && Valid(modified)
    requires b.createdAt == FormatStorage(created) && b.modifiedAt == FormatStorage(modified)
    ensures View(b).createdAt == FormatRFC3339(created) && View(b).modifiedAt == FormatRFC3339(modified)
    ensures View(b).id == b.id && View(b).slug == b.slug && View(b).author == b.author
  {
    ParseFormat(created);
    ParseFormat(modified);
  }

  function Views(rows: seq<BlockRow>): (r: seq<BlockView>)
    ensures |r| == |rows| && forall i :: 0 <= i < |rows| ==> r[i] == View(rows[i])
  {
    seq(|rows|, i requires 0 <= i < |rows| => View(rows[i]))
  }

  /** A meta row that belongs to the given owner (`parent = ? AND parent_id = ?`). */
  predicate Owned(m: MetaRow, parent: string, id: int) {
    m.parent == parent && m.parentID == id
  }

  /**
   * The map GetMetas builds from the owner's rows in table order: a later row
   * with the same key overwrites an earlier one. Meta status is not consulted.
   */
  function MetaMap(metas: seq<MetaRow>, parent: string, id: int): map<string, string>
    decreases |metas|
  {
    if metas == [] then map[]
    else
      var m := MetaMap(metas[..|metas| - 1], parent, id);
      var last := metas[|metas| - 1];
      if Owned(last, parent, id) then m[last.key := last.value] else m
  }

  /** A key is in the map exactly when some row of the owner carries it. */
  lemma {:induction false} MetaMapKeys(metas: seq<MetaRow>, parent: string, id: int, key: string)
    ensures key in MetaMap(metas, parent, id) <==>
      exists i :: 0 <= i < |metas| && Owned(metas[i], parent, id) && metas[i].key == key
    decreases |metas|
  {
    if metas != [] {
      var init := metas[..|metas| - 1];
      MetaMapKeys(init, parent, id, key);
      if exists i :: 0 <= i < |init| && Owned(init[i], parent, id) && init[i].key == key {
        var i :| 0 <= i < |init| && Owned(init[i], parent, id) && init[i].key == key;
        assert metas[i] == init[i];
      }
      if exists i :: 0 <= i < |metas| && Owned(metas[i], parent, id) && metas[i].key == key {
        var i :| 0 <= i < |metas| && Owned(metas[i], parent, id) && metas[i].key == key;
        if i < |init| {
          assert init[i] == metas[i];
        }
      }
    }
  }

  /** With unique triples, the map holds each of the owner's rows' values under its key. */
  lemma {:induction false} MetaMapValue(metas: seq<MetaRow>, parent: string, id: int, i: nat)
    requires MetaKeysUnique(metas)
    requires i < |metas| && Owned(metas[i], parent, id)
    ensures metas[i].key in MetaMap(metas, parent, id)
    ensures MetaMap(metas, parent, id)[metas[i].key] == metas[i].value
    decreases |metas|
  {
    var init := metas[..|metas| - 1];
    var last := metas[|metas| - 1];
    if i < |init| {
      assert init[i] == metas[i];
      assert MetaKeysUnique(init) by {
        forall a, b | 0 <= a < b < |init| ensures !Names(init[b], init[a].parent, init[a].parentID, init[a].key) {
          assert init[a] == metas[a] && init[b] == metas[b];
        }
      }
      MetaMapValue(init, parent, id, i);
      assert !Names(last, metas[i].parent, metas[i].parentID, metas[i].key);
    }
  }
}
