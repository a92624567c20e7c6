# Content bot ledger and access gate, in Dafny

`main.py` is a Telegram bot that sells media content for Telegram Stars in
private chats. It keeps three SQLite tables (`content`, `users`,
`purchases`). Users browse a catalog of inline buttons. Pressing
`view_content_<id>` either delivers the item or shows a locked preview with a
`buy_content_<id>` button. That button issues an invoice with the payload
`content_<id>`. When the payment succeeds, the bot writes a purchase row.

This project models that logic:

- `wrappers.dfy` (module `Wrappers`): `Option` and `Result`.
- `tokens.dfy` (module `Tokens`): three Python string operations — `str.split` with a
  one-character separator, `str(n)` and `int(s)` — plus the four button and payload
  tokens. It proves that the view, buy, manage and payload tokens decode back to
  their ids, and which other strings the decoder also accepts.
- `ledger.dfy` (module `Ledger`): the database. The class `ContentBot` keeps the
  tables as fields: `content: seq<ContentRow>`, the AUTOINCREMENT counter,
  `users: map<int, UserRow>` and `purchases: seq<Purchase>`. Its methods change
  these fields the way the SQL statements do. The SELECT statements are functions
  over the tables (`SelectContent`, `SelectActiveById`, `PurchaseCount`), and
  lemmas state what those queries mean.
- `handlers.dfy` (module `Handlers`): `handle_callback` becomes a function that
  returns the reply the bot would send (`CallbackReply`). `successful_payment`
  becomes a method that writes the purchase row and returns its reply.

Modelling choices:

- The CURRENT_TIMESTAMP columns are an insertion counter, `clock`.
- `ContentBot.Valid()` keeps the content rows in insertion order, with ids and
  creation stamps both rising. So `ORDER BY created_at DESC` is the table in
  reverse.
- `IsAdmin` and `ActiveOnlyFor` (the `user_id and not is_admin(user_id)` test)
  are small predicates. The listing contracts and lemmas use them.
- `price_stars` has no NOT NULL constraint, and `add_content` binds whatever it is given, so a price is `Option<int>`. In Python `None == 0` is false, so a NULL-priced row is gated like a priced one.
- `Gate` is line 337 and `SendFor` is lines 341-363. Both are used by
  `HandleCallback`.

The `buy_content_<id>` branch (main.py:390-409) issues an invoice for any
active content. It checks neither the price nor earlier purchases
(`BuyButtonIssuesInvoice`).

The view branch decodes any data that starts with `view_content_`, not only
the buttons the catalog builds: `view_content_05`, `view_content_+5` and
`view_content_5_x` all reach row 5. The gate properties are therefore stated
for every such data string.

## Model

| member | source | states |
|---|---|---|
| Tokens.Split | main.py:329 | `split("_")` always yields at least one part and no part contains the separator |
| Tokens.SplitLength | main.py:329 | `split("_")` has one part more than the string has underscores |
| Tokens.JoinSplit | main.py:329 | joining the parts of a split with the separator gives back the string |
| Tokens.SplitJoin | main.py:329 | splitting a join of separator-free parts gives back exactly those parts |
| Tokens.NatToDecimal | main.py:284 | `str(id)` is a non-empty string of ASCII digits without a leading zero |
| Tokens.ParseInt | main.py:329 | `int()` reads a non-empty digit string as its value, leading zeros allowed, and rejects every string without a digit |
| Tokens.DigitsValueOfDecimal | main.py:329 | the digits of `str(n)` denote n |
| Tokens.ParseIntOfDecimal | main.py:329 | `int(str(n)) == n` for every natural n |
| Tokens.ParseIntOfNegativeDecimal | main.py:329 | `int("-" + str(n)) == -n`: a signed id part is accepted and decodes to a negative id |
| Tokens.DecimalOfDigitsValue | main.py:284 | `str(int(s)) == s` for every canonical digit string, so `str` spells each id one way only |
| Tokens.StartsWith | main.py:328 | Python's `str.startswith`: the string begins with the prefix; it is the dispatch test of lines 328, 390 and 411, and the token functions' contracts state which prefix each token passes |
| Tokens.FieldAsInt | main.py:329 | `int(s.split("_")[k])` raises IndexError exactly when s has fewer than k underscores; otherwise it is Ok exactly when `int()` accepts part k, with the value `int()` gives it |
| Tokens.CallbackId | main.py:328-329 | behind the `view_content_` or `buy_content_` prefix the third field always exists, so decoding can only fail in `int()` |
| Tokens.PayloadContentId | main.py:464 | behind the `content_` prefix the second field always exists, so decoding can only fail in `int()` |
| Tokens.SplitTwoWordToken | main.py:329 | `w1_w2_<digits>` splits into exactly the three words when w1 and w2 hold no underscore |
| Tokens.ViewToken | main.py:284 | `view_content_<id>` passes the view prefix test, and `int(split("_")[2])` recovers id |
| Tokens.BuyToken | main.py:369 | `buy_content_<id>` passes the buy prefix test, fails the view prefix test, and decodes to id |
| Tokens.ManageToken | main.py:439 | `manage_content_<id>` matches neither the view nor the buy prefix, though its third field decodes to id |
| Tokens.PayloadToken | main.py:405 | the invoice payload `content_<id>` decodes with `int(split("_")[1])` to id |
| Tokens.TokensInjective | main.py:284 | distinct ids give distinct view, buy and payload tokens |
| Tokens.CallbackIdIgnoresTail | main.py:329 | the decoder reads only the third field: `view_content_<id>_<anything>` still decodes to id |
| Tokens.ViewDataDecodesTail | main.py:328-329 | after `view_content_`, a tail without underscores decodes to exactly what `int()` makes of it, and to ValueError when `int()` rejects it |
| Tokens.LeadingZeroDecodes | main.py:329 | `view_content_05` names content 5 |
| Tokens.SignDecodes | main.py:329 | `view_content_+5` names content 5 |
| Tokens.SpaceDecodes | main.py:329 | `view_content_ 5` names content 5 |
| Ledger.SelectContent | main.py:112-124 | the query returns no more rows than the table holds, and with `WHERE is_active = 1` only active ones |
| Ledger.SelectContentMembers | main.py:110-124 | the content query returns exactly the table's rows, and with the non-admin filter only the active ones |
| Ledger.SelectAllReversesTable | main.py:120-124 | the unfiltered query returns every row, newest first: position k holds the k-th row from the end |
| Ledger.SelectContentNewestFirst | main.py:112-124 | in both queries, creation stamps and ids strictly decrease along the result |
| Ledger.ListingOf | main.py:128-144 | the dict built from one row: id, title, description, media type and price, plus `is_active` only for an unrestricted caller; what the lists made of it hold is stated by `RestrictedListingIsActiveRows` and `UnrestrictedListingIsWholeTable` |
| Ledger.ContentList | main.py:126-144 | one dict per selected row, in query order; the two lemmas below state its contents for each caller |
| Ledger.RestrictedListingIsActiveRows | main.py:110-135 | a normal user's list holds exactly the dicts of the active rows, none of them with an `is_active` key |
| Ledger.UnrestrictedListingIsWholeTable | main.py:118-144 | the admin or anonymous list holds one dict per row, newest first, each carrying the row's `is_active` |
| Ledger.ListingNewestFirst | main.py:116-123 | both lists put newer content before older content |
| Ledger.SelectActiveById | main.py:188-192 | the lookup returns a row of the table with that id that is active, and returns None only when no such row exists |
| Ledger.DetailOf | main.py:197-205 | the dict of `get_content_by_id`: the six selected columns of the row; its contract is stated through `ContentBot.GetContentById` |
| Ledger.PurchaseCount | main.py:174-179 | `SELECT COUNT(*)` over the purchase rows; its meaning is stated by `PurchaseCountPositive` and `PurchaseCountAppend` |
| Ledger.PurchaseCountPositive | main.py:174-179 | `COUNT(*) > 0` holds exactly when some purchase row records the user and the content |
| Ledger.PurchaseCountAppend | main.py:174-179 | the counts over two blocks of purchase rows add up |
| Ledger.PurchasesOnlyGrow | main.py:470-476 | appending purchase rows never turns a positive count back to zero |
| Ledger.DuplicatePurchaseChangesNothing | main.py:169-181 | a duplicate purchase row changes no answer of the ownership test |
| Ledger.ContentBot.constructor | main.py:38-85 | a fresh database starts with empty tables and the counter at 0 |
| Ledger.ContentBot.Reopen | main.py:38-85 | CREATE TABLE IF NOT EXISTS keeps an existing database exactly as it was |
| Ledger.ContentBot.IsAdmin | main.py:87-89 | `is_admin` compares with the one configured id; what it decides for the listing is stated by `ListingForCaller` |
| Ledger.ContentBot.ActiveOnlyFor | main.py:110 | the `user_id and not is_admin(user_id)` test; its effect on the listing is stated by `ListingForCaller` |
| Ledger.ContentBot.ListingForCaller | main.py:105-147 | the admin, a missing id and the falsy id 0 get the dict of every row, newest first, each with its status; any other user gets only dicts of active rows, without a status |
| Ledger.ContentBot.RegisterUser | main.py:91-103 | INSERT OR REPLACE: one row per user id; the latest names win, and `joined_at` and `is_active` are reset to their defaults; no other table changes |
| Ledger.ContentBot.GetContentList | main.py:105-147 | the loop returns one dict per fetched row, in query order: the restricted listing for a truthy non-admin id, and the full listing for the admin, None or 0 |
| Ledger.ContentBot.AddContent | main.py:149-167 | True iff the insert succeeds. It then appends one active row with a fresh id (one past the counter), the given price (None is stored as NULL) and the current stamp. False when the title is None, the price exceeds 64 bits or the id counter is exhausted, and then nothing changes |
| Ledger.ContentBot.HasPurchasedContent | main.py:169-181 | true exactly when some purchase row records this user and this content |
| Ledger.ContentBot.GetContentById | main.py:183-206 | a record iff a row with that id exists and is active; the record is that row's columns; None otherwise |
| Ledger.ContentBot.InsertPurchase | main.py:467-476 | appends exactly one purchase row. Afterwards the user owns the content, and every earlier ownership still holds |
| Handlers.Gate | main.py:337 | content priced 0 is always delivered; any other price, NULL included, exactly when the user has bought it |
| Handlers.SendFor | main.py:341-363 | `photo`, `video` and `document` each select their own send call, exactly; every other type, or none, falls back to the caption as text |
| Handlers.HandleCallback | main.py:320-449 | a delivery or preview only for a view button whose content exists. A delivery only when that content is free or bought. A preview only for priced, unbought content, with a buy button that decodes to the same id. An invoice only for a buy button, with a payload that decodes to the same id. "No permission" exactly for non-admins pressing admin buttons |
| Handlers.Bindable | main.py:470-473 | the three integers the purchase INSERT binds fit a SQLite INTEGER; `SuccessfulPayment` states what happens when they do not |
| Handlers.SuccessfulPayment | main.py:458-487 | an undecodable payload writes nothing, and neither does an id, user or amount outside 64 bits (OverflowError). Otherwise exactly one purchase row is appended and the user then owns the content. The reply confirms with the title iff the content is still active, and otherwise is the failure after the commit. Every row it writes fits 64 bits |
| Handlers.PaymentUnlocksContent | main.py:458-476 | after a successful payment for active content, by a user and for an amount that fit 64 bits, its view button delivers it, and earlier ownerships remain |
| Handlers.FreeContentIsDelivered | main.py:328-363 | free active content is delivered on every view data naming it, whatever the purchase history |
| Handlers.PricedContentNeedsPurchase | main.py:328-388 | on every view data naming active content whose price is not 0 (NULL included), it is delivered iff the user has a purchase row. Otherwise the reply is a preview with `buy_content_<id>` |
| Handlers.DeliveryFollowsMediaType | main.py:339-363 | a delivery sends the stored file id. `photo`, `video` and `document` each select their own send call, exactly; any other type falls back to the caption as text |
| Handlers.MissingContentIsNotFound | main.py:328-396 | every view or buy data naming an id with no active row answers "not found" |
| Handlers.BuyButtonIssuesInvoice | main.py:390-409 | every buy data naming active content issues an invoice for its price and title, whose payload decodes to the content id |
| Handlers.LockedPreviewLeadsToInvoice | main.py:365-409 | pressing a preview's buy button yields an invoice for the same price, whose payload names the previewed content |
| Handlers.CatalogButtonOpensContent | main.py:263-285 | a catalog button shown to a normal user always opens a delivery or a preview, never "not found" |
| Handlers.InactiveContentIsNotFoundForAdmin | main.py:276-285 | the admin's catalog lists an inactive row, but its button answers "not found" |
| Handlers.AdminButtonsNeedAdmin | main.py:411-414 | every `admin_` button pressed by a non-admin is refused |
| Handlers.ManageButtonsAreIgnored | main.py:434-440 | no branch handles the `manage_content_<id>` buttons; pressing one only acknowledges the press |

## Left out

- SQLite connections, cursors, `commit`/`close`, schema DDL, and failures of the database file itself. The tables are held in memory.
- Every Telegram SDK call (`send_photo`, `send_video`, `send_document`, `send_invoice`, `edit_message_text`, `reply_text`, `query.answer`). These are foreign I/O: each handler returns the reply as a value (`CallbackReply`, `PaymentReply`).
- Message text, Markdown and button layout, including the caption format: Python prints a NULL description as `None`. The replies carry the title, description, price and token instead. The keyboard loop over the admin list (main.py:434-440) is presentation; `AdminManage` carries the listing it renders.
- `start`, `help_command` and `admin_command`. These are text and wiring; `/start` calls `RegisterUser`. From `catalog_command`, only the listing it shows and its `view_content_` token are modelled.
- `pre_checkout_handler`: it always answers ok.
- Logging, environment configuration, the global instance, `main()` startup and polling, async scheduling.
- The purchase table's own AUTOINCREMENT id, and real clock time. Timestamps are an insertion counter. CURRENT_TIMESTAMP has one-second resolution, and SQLite may order rows with equal `created_at` either way; the model orders them by insertion.
- Ledger.ContentBot.AddContent: models only the three failures that follow from the inputs and the table. A locked or full database, or strings SQLite cannot encode, raise in the source too.
- Ledger.ContentBot.RegisterUser: a user id outside 64 bits raises OverflowError in the source, and the model does not model that exception.
- Ledger.ContentBot.GetContentById: for an id outside 64 bits the source raises OverflowError; the model answers None.
- Ledger.ContentBot.HasPurchasedContent: for an id outside 64 bits the source raises OverflowError; the model answers from the rows. The bot's own inserts never write such ids (`SuccessfulPayment` writes only 64-bit values), so a true answer needs rows already in a reopened database.
- Handlers.SuccessfulPayment: `ConfirmationFailed` stands for the TypeError the source raises on `content['title']` after the row is committed, and `InsertRaised` for the OverflowError that escapes before anything is written. The reply text is not modelled.
- `int()` is modelled by `Tokens.ParseInt` on ASCII white space, an optional sign and ASCII digits. Unicode digits and white space, and underscores between digits, are not modelled. The handlers only parse the pieces left by `split("_")`, which contain no underscore.
- An invoice for a NULL-priced row carries `priceStars == None`; what `LabeledPrice` and the Telegram API do with it is SDK behaviour and not modelled.
- `is_active` is a SQLite BOOLEAN stored as an integer. The model uses `bool`, so stored values other than 0 and 1 are not modelled.
- `main()` exits when ADMIN_USER_ID is 0. The model accepts any admin id.
