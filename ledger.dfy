/**
  The bot's SQLite database, held in memory: the `content` table with its
  AUTOINCREMENT ids and active flags, the `users` table keyed by user id,
  and the append-only `purchases` table. The SQL statements of the
  `ContentBot` methods become functions over these tables, and the
  statements that write become methods of the `ContentBot` class.

  The CURRENT_TIMESTAMP defaults (`created_at`, `joined_at`,
  `purchased_at`) are modelled by an insertion counter `clock`, so rows
  inserted later carry larger stamps.
*/
module Ledger {
  import opened Wrappers

  /** The range of a SQLite INTEGER (a signed 64-bit value). */
  const MinInt64: int := -0x8000_0000_0000_0000
  const MaxInt64: int := 0x7FFF_FFFF_FFFF_FFFF

  predicate InInt64(x: int) {
    MinInt64 <= x <= MaxInt64
  }

  /** A row of `content`. A NULL column is None; `title` is NOT NULL, and
      `price_stars` takes its DEFAULT 0 only when the INSERT omits it. */
  datatype ContentRow = ContentRow(
    id: nat,
    title: string,
    description: Option<string>,
    mediaType: Option<string>,
    mediaFileId: Option<string>,
    priceStars: Option<int>,
    createdAt: nat,
    isActive: bool)

  /** A row of `users`, keyed by its user id. */
  datatype UserRow = UserRow(
    username: Option<string>,
    firstName: Option<string>,
    lastName: Option<string>,
    joinedAt: nat,
    isActive: bool)

  /** A row of `purchases`. */
  datatype Purchase = Purchase(
    userId: int,
    contentId: int,
    starsPaid: int,
    paymentId: Option<string>,
    purchasedAt: nat)

  /** One dict of `get_content_list`; `isActive` is None where the dict
      has no `is_active` key. */
  datatype Listing = Listing(
    id: nat,
    title: string,
    description: Option<string>,
    mediaType: Option<string>,
    priceStars: Option<int>,
    isActive: Option<bool>)

  /** The dict `get_content_by_id` returns. */
  datatype Detail = Detail(
    id: nat,
    title: string,
    description: Option<string>,
    mediaType: Option<string>,
    mediaFileId: Option<string>,
    priceStars: Option<int>)

  // ---------------------------------------------------------------------
  // The content table and its queries
  // ---------------------------------------------------------------------

  /** Rows in insertion order: ids and creation stamps both increase. */
  ghost predicate Chronological(rows: seq<ContentRow>) {
    forall i, j :: 0 <= i < j < |rows| ==> rows[i].id < rows[j].id && rows[i].createdAt < rows[j].createdAt
  }

  /** `SELECT ... FROM content [WHERE is_active = 1] ORDER BY created_at DESC`:
      the rows, newest first, keeping only the active ones when asked. The
      result is no longer than the table, and filtered it holds active rows only. */
  function SelectContent(rows: seq<ContentRow>, activeOnly: bool): (q: seq<ContentRow>)
    ensures |q| <= |rows|
    ensures activeOnly ==> forall i :: 0 <= i < |q| ==> q[i].isActive
    decreases |rows|
  {
    if rows == [] then []
    else
      var last := rows[|rows| - 1];
      (if !activeOnly || last.isActive then [last] else []) + SelectContent(rows[..|rows| - 1], activeOnly)
  }

  /** Exactly the rows of the table are selected, and only active ones when filtering. */
  lemma {:induction false} SelectContentMembers(rows: seq<ContentRow>, activeOnly: bool)
    ensures forall r :: r in SelectContent(rows, activeOnly) <==> r in rows && (activeOnly ==> r.isActive)
    decreases |rows|
  {
    if rows != [] {
      var init := rows[..|rows| - 1];
      SelectContentMembers(init, activeOnly);
      assert rows == init + [rows[|rows| - 1]];
    }
  }

  /** Unfiltered, the selection is the whole table in reverse insertion order. */
  lemma {:induction false} SelectAllReversesTable(rows: seq<ContentRow>)
    ensures |SelectContent(rows, false)| == |rows|
    ensures forall k :: 0 <= k < |rows| ==> SelectContent(rows, false)[k] == rows[|rows| - 1 - k]
    decreases |rows|
  {
    if rows != [] {
      var init := rows[..|rows| - 1];
      SelectAllReversesTable(init);
      var q := SelectContent(rows, false);
      forall k | 0 <= k < |rows| ensures q[k] == rows[|rows| - 1 - k] {
        if k > 0 {
          assert q[k] == SelectContent(init, false)[k - 1];
        }
      }
    }
  }

  /** The selection is ordered by creation stamp (and id), newest first. */
  lemma {:induction false} SelectContentNewestFirst(rows: seq<ContentRow>, activeOnly: bool)
    requires Chronological(rows)
    ensures forall i, j :: 0 <= i < j < |SelectContent(rows, activeOnly)| ==>
      SelectContent(rows, activeOnly)[j].createdAt < SelectContent(rows, activeOnly)[i].createdAt &&
      SelectContent(rows, activeOnly)[j].id < SelectContent(rows, activeOnly)[i].id
    decreases |rows|
  {
    if rows != [] {
      var init := rows[..|rows| - 1];
      var last := rows[|rows| - 1];
      assert Chronological(init);
      SelectContentNewestFirst(init, activeOnly);
      SelectContentMembers(init, activeOnly);
      var rest := SelectContent(init, activeOnly);
      forall r | r in rest ensures r.createdAt < last.createdAt && r.id < last.id {
        var k :| 0 <= k < |init| && init[k] == r;
        assert rows[k] == r;
      }
    }
  }

  /** The dict built for one selected row; the status key only when unrestricted. */
  function ListingOf(r: ContentRow, activeOnly: bool): Listing {
    Listing(r.id, r.title, r.description, r.mediaType, r.priceStars,
            if activeOnly then None else Some(r.isActive))
  }

  /** The list `get_content_list` returns for the given restriction. */
  function ContentList(rows: seq<ContentRow>, activeOnly: bool): seq<Listing> {
    var q := SelectContent(rows, activeOnly);
    seq(|q|, k requires 0 <= k < |q| => ListingOf(q[k], activeOnly))
  }

  /** The listing a normal user sees: the active rows, each without a status key. */
  lemma RestrictedListingIsActiveRows(rows: seq<ContentRow>)
    ensures forall x :: x in ContentList(rows, true) ==>
      x.isActive.None? && exists r :: r in rows && r.isActive && x == ListingOf(r, true)
    ensures forall r :: r in rows && r.isActive ==> ListingOf(r, true) in ContentList(rows, true)
  {
    SelectContentMembers(rows, true);
    var q := SelectContent(rows, true);
    var l := ContentList(rows, true);
    forall x | x in l ensures x.isActive.None? && exists r :: r in rows && r.isActive && x == ListingOf(r, true) {
      var k :| 0 <= k < |l| && l[k] == x;
      assert q[k] in q;
    }
    forall r | r in rows && r.isActive ensures ListingOf(r, true) in l {
      var k :| 0 <= k < |q| && q[k] == r;
      assert l[k] == ListingOf(r, true);
    }
  }

  /** The listing the administrator (or an anonymous caller) sees: every row,
      newest first, each with its status. */
  lemma UnrestrictedListingIsWholeTable(rows: seq<ContentRow>)
    ensures |ContentList(rows, false)| == |rows|
    ensures forall k :: 0 <= k < |rows| ==>
      ContentList(rows, false)[k] == ListingOf(rows[|rows| - 1 - k], false) &&
      ContentList(rows, false)[k].isActive == Some(rows[|rows| - 1 - k].isActive)
  {
    SelectAllReversesTable(rows);
  }

  /** Either listing lists newer content before older content. */
  lemma ListingNewestFirst(rows: seq<ContentRow>, activeOnly: bool)
    requires Chronological(rows)
    ensures forall i, j :: 0 <= i < j < |ContentList(rows, activeOnly)| ==>
      ContentList(rows, activeOnly)[j].id < ContentList(rows, activeOnly)[i].id
  {
    SelectContentNewestFirst(rows, activeOnly);
  }

  /** `SELECT ... FROM content WHERE id = ? AND is_active = 1` with `fetchone()`. */
  function SelectActiveById(rows: seq<ContentRow>, id: int): (r: Option<ContentRow>)
    ensures r.Some? ==> r.value in rows && r.value.id == id && r.value.isActive
    ensures r.None? ==> forall k :: 0 <= k < |rows| ==> !(rows[k].id == id && rows[k].isActive)
    decreases |rows|
  {
    if rows == [] then None
    else if rows[0].id == id && rows[0].isActive then Some(rows[0])
    else SelectActiveById(rows[1..], id)
  }

  function DetailOf(r: ContentRow): Detail {
    Detail(r.id, r.title, r.description, r.mediaType, r.mediaFileId, r.priceStars)
  }

  // ---------------------------------------------------------------------
  // The purchases table
  // ---------------------------------------------------------------------

  /** `SELECT COUNT(*) FROM purchases WHERE user_id = ? AND content_id = ?`. */
  function PurchaseCount(ps: seq<Purchase>, userId: int, contentId: int): nat
    decreases |ps|
  {
    if ps == [] then 0
    else (if ps[0].userId == userId && ps[0].contentId == contentId then 1 else 0)
         + PurchaseCount(ps[1..], userId, contentId)
  }

  /** A positive count means some row records the pair, and conversely. */
  lemma {:induction false} PurchaseCountPositive(ps: seq<Purchase>, userId: int, contentId: int)
    ensures PurchaseCount(ps, userId, contentId) > 0 <==>
      exists i :: 0 <= i < |ps| && ps[i].userId == userId && ps[i].contentId == contentId
    decreases |ps|
  {
    if ps != [] {
      PurchaseCountPositive(ps[1..], userId, contentId);
      if PurchaseCount(ps[1..], userId, contentId) > 0 {
        var i :| 0 <= i < |ps[1..]| && ps[1..][i].userId == userId && ps[1..][i].contentId == contentId;
        assert ps[i + 1] == ps[1..][i];
      }
      forall i | 1 <= i < |ps| && ps[i].userId == userId && ps[i].contentId == contentId
        ensures PurchaseCount(ps[1..], userId, contentId) > 0
      {
        assert ps[1..][i - 1] == ps[i];
      }
    }
  }

  /** Counting over two blocks of rows adds up. */
  lemma {:induction false} PurchaseCountAppend(ps: seq<Purchase>, qs: seq<Purchase>, userId: int, contentId: int)
    ensures PurchaseCount(ps + qs, userId, contentId) == PurchaseCount(ps, userId, contentId) + PurchaseCount(qs, userId, contentId)
    decreases |ps|
  {
    if ps != [] {
      assert (ps + qs)[0] == ps[0] && (ps + qs)[1..] == ps[1..] + qs;
      PurchaseCountAppend(ps[1..], qs, userId, contentId);
    } else {
      assert ps + qs == qs;
    }
  }

  /** Ownership never goes away: appending rows keeps a positive count positive. */
  lemma PurchasesOnlyGrow(ps: seq<Purchase>, more: seq<Purchase>, userId: int, contentId: int)
    ensures PurchaseCount(ps, userId, contentId) > 0 ==> PurchaseCount(ps + more, userId, contentId) > 0
  {
    PurchaseCountAppend(ps, more, userId, contentId);
  }

  /** A duplicate purchase row (same user and content as an existing one)
      changes no answer of the COUNT(*) > 0 test. */
  lemma DuplicatePurchaseChangesNothing(ps: seq<Purchase>, dup: Purchase, userId: int, contentId: int)
    requires PurchaseCount(ps, dup.userId, dup.contentId) > 0
    ensures PurchaseCount(ps + [dup], userId, contentId) > 0 <==> PurchaseCount(ps, userId, contentId) > 0
  {
    PurchaseCountAppend(ps, [dup], userId, contentId);
    assert [dup][1..] == [];
  }

  // ---------------------------------------------------------------------
  // ContentBot
  // ---------------------------------------------------------------------

  class ContentBot {
    /** ADMIN_USER_ID, read once from the environment. */
    const adminId: int
    /** The `content` table in insertion order. */
    var content: seq<ContentRow>
    /** The AUTOINCREMENT counter of `content` (its `sqlite_sequence` entry). */
    var lastContentId: nat
    /** The `users` table. */
    var users: map<int, UserRow>
    /** The `purchases` table in insertion order. */
    var purchases: seq<Purchase>
    /** Stands for CURRENT_TIMESTAMP: the stamp the next insert gets. */
    var clock: nat

    /** What the database guarantees of the content table. */
    ghost predicate Valid()
      reads this
    {
      lastContentId <= MaxInt64 &&
      Chronological(content) &&
      forall k :: 0 <= k < |content| ==> 1 <= content[k].id <= lastContentId && content[k].createdAt < clock
    }

    /** `ContentBot()` on a fresh database file: `init_database` creates empty tables. */
    constructor (adminId: int)
      ensures Valid()
      ensures this.adminId == adminId
      ensures content == [] && users == map[] && purchases == [] && lastContentId == 0
    {
      this.adminId := adminId;
      content, users, purchases := [], map[], [];
      lastContentId, clock := 0, 0;
    }

    /** `ContentBot()` on an existing database file: CREATE TABLE IF NOT EXISTS
        keeps the tables as they are (rows may be inactive). */
    constructor Reopen(adminId: int, content: seq<ContentRow>, lastContentId: nat,
                       users: map<int, UserRow>, purchases: seq<Purchase>, clock: nat)
      requires lastContentId <= MaxInt64 && Chronological(content)
      requires forall k :: 0 <= k < |content| ==> 1 <= content[k].id <= lastContentId && content[k].createdAt < clock
      ensures Valid()
      ensures this.adminId == adminId && this.content == content && this.lastContentId == lastContentId
      ensures this.users == users && this.purchases == purchases && this.clock == clock
    {
      this.adminId := adminId;
      this.content, this.users, this.purchases := content, users, purchases;
      this.lastContentId, this.clock := lastContentId, clock;
    }

    /** `is_admin`: the one configured id. */
    predicate IsAdmin(userId: int) {
      userId == adminId
    }

    /** `user_id and not is_admin(user_id)`: the caller gets the restricted
        listing; None and 0 are falsy in Python. */
    predicate ActiveOnlyFor(userId: Option<int>) {
      userId.Some? && userId.value != 0 && !IsAdmin(userId.value)
    }

    /** Who sees what in `get_content_list`: the administrator, a missing id and
        the falsy id 0 get every row with its status; any other user gets the
        active rows only, without a status. */
    lemma ListingForCaller(userId: Option<int>)
      ensures var list := ContentList(content, ActiveOnlyFor(userId));
              (userId.None? || userId == Some(0) || IsAdmin(userId.value)) ==>
                |list| == |content| && (forall x :: x in list ==> x.isActive.Some?) &&
                forall k :: 0 <= k < |content| ==> list[k] == ListingOf(content[|content| - 1 - k], false)
      ensures var list := ContentList(content, ActiveOnlyFor(userId));
              (userId.Some? && userId.value != 0 && !IsAdmin(userId.value)) ==>
                forall x :: x in list ==> x.isActive.None? && exists r :: r in content && r.isActive && x == ListingOf(r, true)
    {
      UnrestrictedListingIsWholeTable(content);
      RestrictedListingIsActiveRows(content);
      var list := ContentList(content, false);
      forall x | x in list ensures x.isActive.Some? {
        var k :| 0 <= k < |list| && list[k] == x;
      }
    }

    /** `register_user`: INSERT OR REPLACE replaces the whole row, so the latest
        names win and `joined_at` and `is_active` take their defaults again. */
    method RegisterUser(userId: int, username: Option<string> := None,
                        firstName: Option<string> := None, lastName: Option<string> := None)
      requires Valid()
      modifies this
      ensures Valid()
      ensures users == old(users)[userId := UserRow(username, firstName, lastName, old(clock), true)]
      ensures clock == old(clock) + 1
      ensures content == old(content) && lastContentId == old(lastContentId) && purchases == old(purchases)
    {
      users := users[userId := UserRow(username, firstName, lastName, clock, true)];
      clock := clock + 1;
    }

    /** `get_content_list`: runs the query, then the loop turns each fetched
        row into a dict, with the status key only for an unrestricted caller. */
    method GetContentList(userId: Option<int> := None) returns (list: seq<Listing>)
      ensures list == ContentList(content, ActiveOnlyFor(userId))
    {
      var activeOnly := ActiveOnlyFor(userId);
      var rows := SelectContent(content, activeOnly);
      list := [];
      for i := 0 to |rows|
        invariant |list| == i
        invariant forall k :: 0 <= k < i ==> list[k] == ListingOf(rows[k], activeOnly)
      {
        list := list + [ListingOf(rows[i], ActiveOnlyFor(userId))];
      }
    }

    /** `add_content`: one new active row with the next AUTOINCREMENT id, or
        False when the INSERT raises: a None title violates NOT NULL, a price
        outside 64 bits cannot be bound, and the id counter may be exhausted.
        A None price is bound as NULL. */
    method AddContent(title: Option<string>, description: Option<string>, mediaType: Option<string>,
                      mediaFileId: Option<string>, priceStars: Option<int> := Some(0)) returns (ok: bool)
      requires Valid()
      modifies this
      ensures Valid()
      ensures ok <==> title.Some? && (priceStars.Some? ==> InInt64(priceStars.value)) && old(lastContentId) < MaxInt64
      ensures ok ==> content == old(content) + [ContentRow(old(lastContentId) + 1, title.value, description,
                                                           mediaType, mediaFileId, priceStars, old(clock), true)]
      ensures ok ==> lastContentId == old(lastContentId) + 1 && clock == old(clock) + 1
      ensures ok ==> forall k :: 0 <= k < |old(content)| ==> old(content)[k].id != lastContentId
      ensures !ok ==> content == old(content) && lastContentId == old(lastContentId) && clock == old(clock)
      ensures users == old(users) && purchases == old(purchases)
    {
      if title.None? || (priceStars.Some? && !InInt64(priceStars.value)) || lastContentId == MaxInt64 {
        return false;
      }
      var row := ContentRow(lastContentId + 1, title.value, description, mediaType, mediaFileId,
                            priceStars, clock, true);
      content := content + [row];
      lastContentId, clock := lastContentId + 1, clock + 1;
      ok := true;
    }

    /** `has_purchased_content`: COUNT(*) > 0, i.e. some purchase row records
        this user and this content. */
    function HasPurchasedContent(userId: int, contentId: int): (b: bool)
      reads this
      ensures b <==> exists i :: 0 <= i < |purchases| && purchases[i].userId == userId && purchases[i].contentId == contentId
    {
      PurchaseCountPositive(purchases, userId, contentId);
      PurchaseCount(purchases, userId, contentId) > 0
    }

    /** `get_content_by_id`: the row with this id if it is active, else None. */
    function GetContentById(contentId: int): (d: Option<Detail>)
      requires Valid()
      reads this
      ensures d.Some? <==> exists k :: 0 <= k < |content| && content[k].id == contentId && content[k].isActive
      ensures forall k :: 0 <= k < |content| && content[k].id == contentId && content[k].isActive ==>
        d == Some(DetailOf(content[k]))
      ensures d.Some? ==> d.value.id == contentId
    {
      match SelectActiveById(content, contentId)
      case None => None
      case Some(r) => Some(DetailOf(r))
    }

    /** The INSERT INTO purchases of `successful_payment`. SQLite does not
        enforce the foreign keys here, so any pair is accepted. */
    method InsertPurchase(userId: int, contentId: int, starsPaid: int, paymentId: Option<string>)
      requires Valid()
      modifies this
      ensures Valid()
      ensures purchases == old(purchases) + [Purchase(userId, contentId, starsPaid, paymentId, old(clock))]
      ensures clock == old(clock) + 1
      ensures content == old(content) && lastContentId == old(lastContentId) && users == old(users)
      ensures HasPurchasedContent(userId, contentId)
      ensures forall u, c :: old(HasPurchasedContent(u, c)) ==> HasPurchasedContent(u, c)
    {
      ghost var before := purchases;
      purchases := purchases + [Purchase(userId, contentId, starsPaid, paymentId, clock)];
      clock := clock + 1;
      assert purchases[|before|].userId == userId && purchases[|before|].contentId == contentId;
      forall u, c | old(HasPurchasedContent(u, c)) ensures HasPurchasedContent(u, c) {
        var i :| 0 <= i < |before| && before[i].userId == u && before[i].contentId == c;
        assert purchases[i] == before[i];
      }
    }
  }
}
