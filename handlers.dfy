/**
  The Telegram handlers that hold logic: the button callback (`handle_callback`)
  with its access gate, and the successful-payment handler that records a
  purchase. Calls into the Telegram SDK are not made; each handler returns
  the reply it would send, as a value.
*/
module Handlers {
  import opened Wrappers
  import opened Tokens
  import opened Ledger

  /** The SDK call that delivers unlocked content. */
  datatype Media =
    | Photo     // send_photo
    | Video     // send_video
    | Document  // send_document
    | Caption   // edit_message_text with the caption only

  /** The access decision for one user and one content item. */
  datatype Access = Direct | Locked

  /** What one button press makes the bot do. */
  datatype CallbackReply =
    | Raised(error: TokenError)  // int()/index failure escapes the handler
    | NotFound                   // "content not found"
    | Deliver(send: Media, fileId: Option<string>, title: string, description: Option<string>)
    | LockedPreview(title: string, description: Option<string>, priceStars: Option<int>, buyData: string)
    | Invoice(title: string, description: Option<string>, payload: string, priceStars: Option<int>)
    | AdminDenied                // "no administrator permission"
    | AdminAddHelp               // the /add_content instructions
    | AdminNothingToManage       // the full listing is empty
    | AdminManage(items: seq<Listing>)
    | NoReply                    // only query.answer()

  /** What the successful-payment handler does. */
  datatype PaymentReply =
    | PayloadRejected(error: TokenError)  // raises before anything is written
    | Confirmed(title: string, starsPaid: int)
    | InsertRaised                        // OverflowError binding a value outside 64 bits; nothing written
    | ConfirmationFailed                  // raises after the purchase was committed

  const AdminPrefix: string := "admin_"

  /** The gate: free content is always delivered, priced content exactly
      when the user has bought it. A NULL price is not `== 0` in Python, so
      it is gated like a price. */
  function Gate(priceStars: Option<int>, purchased: bool): (a: Access)
    ensures priceStars == Some(0) ==> a == Direct
    ensures priceStars != Some(0) ==> (a == Direct <==> purchased)
  {
    if priceStars == Some(0) || purchased then Direct else Locked
  }

  /** The send primitive chosen by `media_type`; anything else is shown as text. */
  function SendFor(mediaType: Option<string>): (m: Media)
    ensures m == Photo <==> mediaType == Some("photo")
    ensures m == Video <==> mediaType == Some("video")
    ensures m == Document <==> mediaType == Some("document")
    ensures m == Caption <==> mediaType !in {Some("photo"), Some("video"), Some("document")}
  {
    if mediaType == Some("photo") then Photo
    else if mediaType == Some("video") then Video
    else if mediaType == Some("document") then Document
    else Caption
  }

  /** `handle_callback`: the reply to the button whose data is `data`,
      pressed by `userId`. */
  function HandleCallback(bot: ContentBot, userId: int, data: string): (reply: CallbackReply)
    requires bot.Valid()
    reads bot
    ensures reply.Deliver? || reply.LockedPreview? ==>
      StartsWith(data, ViewPrefix) && CallbackId(data).Ok? &&
      bot.GetContentById(CallbackId(data).value).Some?
    ensures reply.Deliver? ==>
      var id := CallbackId(data).value;
      bot.GetContentById(id).value.priceStars == Some(0) || bot.HasPurchasedContent(userId, id)
    ensures reply.LockedPreview? ==>
      reply.priceStars != Some(0) && !bot.HasPurchasedContent(userId, CallbackId(data).value) &&
      StartsWith(reply.buyData, BuyPrefix) && CallbackId(reply.buyData) == CallbackId(data)
    ensures reply.Invoice? ==>
      StartsWith(data, BuyPrefix) && CallbackId(data).Ok? &&
      PayloadContentId(reply.payload) == CallbackId(data)
    ensures reply.AdminDenied? || reply.AdminAddHelp? || reply.AdminManage? || reply.AdminNothingToManage? ==>
      StartsWith(data, AdminPrefix) && (reply.AdminDenied? <==> !bot.IsAdmin(userId))
    ensures StartsWith(data, AdminPrefix) ==> (reply == AdminDenied <==> !bot.IsAdmin(userId))
  {
    if StartsWith(data, ViewPrefix) then
      match CallbackId(data)
      case Err(e) => Raised(e)
      case Ok(contentId) =>
        match bot.GetContentById(contentId)
        case None => NotFound
        case Some(c) =>
          match Gate(c.priceStars, bot.HasPurchasedContent(userId, contentId))
          case Direct => Deliver(SendFor(c.mediaType), c.mediaFileId, c.title, c.description)
          case Locked =>
            LockedPreview(c.title, c.description, c.priceStars, BuyToken(contentId))
    else if StartsWith(data, BuyPrefix) then
      match CallbackId(data)
      case Err(e) => Raised(e)
      case Ok(contentId) =>
        match bot.GetContentById(contentId)
        case None => NotFound
        case Some(c) =>
          Invoice(c.title, c.description, PayloadToken(contentId), c.priceStars)
    else if StartsWith(data, AdminPrefix) then
      if !bot.IsAdmin(userId) then AdminDenied
      else if data == "admin_add_content" then AdminAddHelp
      else if data == "admin_manage_content" then
        var items := ContentList(bot.content, bot.ActiveOnlyFor(None));
        if items == [] then AdminNothingToManage else AdminManage(items)
      else NoReply
    else NoReply
  }

  /** The values the INSERT INTO purchases binds as SQLite INTEGERs; a value
      outside 64 bits makes `execute` raise OverflowError. */
  predicate Bindable(userId: int, contentId: int, totalAmount: int) {
    InInt64(userId) && InInt64(contentId) && InInt64(totalAmount)
  }

  /** `successful_payment`: decode the payload, record the purchase, then
      confirm with the title of the bought content. */
  method SuccessfulPayment(bot: ContentBot, userId: int, payload: string, totalAmount: int,
                           chargeId: Option<string>) returns (reply: PaymentReply)
    requires bot.Valid()
    modifies bot
    ensures bot.Valid()
    ensures PayloadContentId(payload).Err? ==>
      reply == PayloadRejected(PayloadContentId(payload).error) &&
      bot.purchases == old(bot.purchases) && bot.clock == old(bot.clock)
    ensures PayloadContentId(payload).Ok? && !Bindable(userId, PayloadContentId(payload).value, totalAmount) ==>
      reply == InsertRaised && bot.purchases == old(bot.purchases) && bot.clock == old(bot.clock)
    ensures PayloadContentId(payload).Ok? && Bindable(userId, PayloadContentId(payload).value, totalAmount) ==>
      bot.purchases == old(bot.purchases) + [Purchase(userId, PayloadContentId(payload).value, totalAmount,
                                                      chargeId, old(bot.clock))] &&
      bot.clock == old(bot.clock) + 1 &&
      bot.HasPurchasedContent(userId, PayloadContentId(payload).value)
    ensures PayloadContentId(payload).Ok? && Bindable(userId, PayloadContentId(payload).value, totalAmount) ==>
      (reply.Confirmed? <==> bot.GetContentById(PayloadContentId(payload).value).Some?) &&
      (reply.Confirmed? ==> reply == Confirmed(bot.GetContentById(PayloadContentId(payload).value).value.title,
                                               totalAmount)) &&
      (bot.GetContentById(PayloadContentId(payload).value).None? ==> reply == ConfirmationFailed)
    ensures forall u, c :: old(bot.HasPurchasedContent(u, c)) ==> bot.HasPurchasedContent(u, c)
    ensures forall i :: 0 <= i < |bot.purchases| ==>
      (i < |old(bot.purchases)| && bot.purchases[i] == old(bot.purchases)[i]) ||
      Bindable(bot.purchases[i].userId, bot.purchases[i].contentId, bot.purchases[i].starsPaid)
    ensures bot.content == old(bot.content) && bot.users == old(bot.users)
    ensures bot.lastContentId == old(bot.lastContentId)
  {
    var contentId := PayloadContentId(payload);
    if contentId.Err? {
      return PayloadRejected(contentId.error);
    }
    if !Bindable(userId, contentId.value, totalAmount) {
      return InsertRaised;
    }
    bot.InsertPurchase(userId, contentId.value, totalAmount, chargeId);
    var bought := bot.GetContentById(contentId.value);
    if bought.None? {
      return ConfirmationFailed;
    }
    reply := Confirmed(bought.value.title, totalAmount);
  }

  /** After `successful_payment` for a content item, its view button delivers
      it, and every purchase the user had before still counts. Telegram's user
      ids and amounts fit the 64-bit column; content ids do by `Valid()`. */
  method PaymentUnlocksContent(bot: ContentBot, userId: int, k: nat, totalAmount: int, chargeId: Option<string>)
    requires bot.Valid()
    requires k < |bot.content| && bot.content[k].isActive
    requires InInt64(userId) && InInt64(totalAmount)
    modifies bot
    ensures bot.Valid() && bot.content == old(bot.content)
    ensures HandleCallback(bot, userId, ViewToken(bot.content[k].id)).Deliver?
    ensures forall c :: old(bot.HasPurchasedContent(userId, c)) ==> bot.HasPurchasedContent(userId, c)
  {
    var id := bot.content[k].id;
    var reply := SuccessfulPayment(bot, userId, PayloadToken(id), totalAmount, chargeId);
    if bot.content[k].priceStars == Some(0) {
      FreeContentIsDelivered(bot, userId, ViewToken(id), k);
    } else {
      PricedContentNeedsPurchase(bot, userId, ViewToken(id), k);
    }
  }

  // ---------------------------------------------------------------------
  // Properties of the gate as the buttons reach it
  // ---------------------------------------------------------------------

  // The properties from `FreeContentIsDelivered` to `LockedPreviewLeadsToInvoice`
  // hold for every callback data the view or buy branch accepts, not only for
  // the canonical tokens: `view_content_05` and `view_content_5_x` reach row 5
  // as well (`LeadingZeroDecodes`, `CallbackIdIgnoresTail`). The catalog and
  // administration properties after them are about the buttons the bot builds.

  /** Free active content is delivered on any view button naming it,
      whatever the user has or has not bought. */
  lemma FreeContentIsDelivered(bot: ContentBot, userId: int, data: string, k: nat)
    requires bot.Valid()
    requires k < |bot.content| && bot.content[k].isActive && bot.content[k].priceStars == Some(0)
    requires StartsWith(data, ViewPrefix) && CallbackId(data) == Ok(bot.content[k].id)
    ensures HandleCallback(bot, userId, data).Deliver?
  {
  }

  /** Priced active content (a NULL price included) is delivered on a view
      button naming it iff the user has a purchase row for it; otherwise a
      locked preview offers the buy button for the same id. */
  lemma PricedContentNeedsPurchase(bot: ContentBot, userId: int, data: string, k: nat)
    requires bot.Valid()
    requires k < |bot.content| && bot.content[k].isActive && bot.content[k].priceStars != Some(0)
    requires StartsWith(data, ViewPrefix) && CallbackId(data) == Ok(bot.content[k].id)
    ensures var c := bot.content[k];
            var reply := HandleCallback(bot, userId, data);
            (reply.Deliver? <==> bot.HasPurchasedContent(userId, c.id)) &&
            (!bot.HasPurchasedContent(userId, c.id) ==>
               reply == LockedPreview(c.title, c.description, c.priceStars, BuyToken(c.id)))
  {
  }

  /** A delivery sends the stored file with the matching SDK call:
      photo, video and document each have their own, any other type
      (or none) falls back to the caption as text. */
  lemma DeliveryFollowsMediaType(bot: ContentBot, userId: int, data: string, k: nat)
    requires bot.Valid()
    requires k < |bot.content|
    requires CallbackId(data) == Ok(bot.content[k].id)
    ensures var c := bot.content[k];
            var reply := HandleCallback(bot, userId, data);
            reply.Deliver? ==>
              reply.fileId == c.mediaFileId && reply.title == c.title && reply.description == c.description &&
              (reply.send == Photo <==> c.mediaType == Some("photo")) &&
              (reply.send == Video <==> c.mediaType == Some("video")) &&
              (reply.send == Document <==> c.mediaType == Some("document"))
  {
  }

  /** An id with no active row is never shown nor sold, whatever button
      names it. */
  lemma MissingContentIsNotFound(bot: ContentBot, userId: int, data: string, id: int)
    requires bot.Valid()
    requires forall k :: 0 <= k < |bot.content| ==> !(bot.content[k].id == id && bot.content[k].isActive)
    requires StartsWith(data, ViewPrefix) || StartsWith(data, BuyPrefix)
    requires CallbackId(data) == Ok(id)
    ensures HandleCallback(bot, userId, data) == NotFound
  {
  }

  /** Any buy button naming active content issues an invoice for its price
      whose payload decodes back to the content id. The handler checks
      neither the price nor earlier purchases. */
  lemma BuyButtonIssuesInvoice(bot: ContentBot, userId: int, data: string, k: nat)
    requires bot.Valid()
    requires k < |bot.content| && bot.content[k].isActive
    requires StartsWith(data, BuyPrefix) && CallbackId(data) == Ok(bot.content[k].id)
    ensures var c := bot.content[k];
            var reply := HandleCallback(bot, userId, data);
            reply == Invoice(c.title, c.description, PayloadToken(c.id), c.priceStars) &&
            PayloadContentId(reply.payload) == Ok(c.id)
  {
    assert data[0] == 'b';
  }

  /** The whole purchase path: pressing the button of a locked preview yields
      an invoice whose payload names the previewed content. */
  lemma LockedPreviewLeadsToInvoice(bot: ContentBot, userId: int, data: string)
    requires bot.Valid()
    requires HandleCallback(bot, userId, data).LockedPreview?
    ensures var preview := HandleCallback(bot, userId, data);
            var invoice := HandleCallback(bot, userId, preview.buyData);
            invoice.Invoice? && CallbackId(data).Ok? && PayloadContentId(invoice.payload) == CallbackId(data) &&
            invoice.priceStars == preview.priceStars && invoice.priceStars != Some(0)
  {
  }

  /** A button the catalog shows a normal user never answers "not found" and
      never raises: the restricted listing holds active rows only. */
  lemma CatalogButtonOpensContent(bot: ContentBot, userId: int, i: nat)
    requires bot.Valid()
    requires bot.ActiveOnlyFor(Some(userId))
    requires i < |ContentList(bot.content, bot.ActiveOnlyFor(Some(userId)))|
    ensures var item := ContentList(bot.content, bot.ActiveOnlyFor(Some(userId)))[i];
            var reply := HandleCallback(bot, userId, ViewToken(item.id));
            reply.Deliver? || reply.LockedPreview?
  {
    var rows := SelectContent(bot.content, true);
    SelectContentMembers(bot.content, true);
    assert rows[i] in rows;
    var k :| 0 <= k < |bot.content| && bot.content[k] == rows[i];
  }

  /** The administrator's catalog lists inactive rows too, but their buttons
      answer "not found", because the lookup keeps active rows only. */
  lemma InactiveContentIsNotFoundForAdmin(bot: ContentBot, k: nat)
    requires bot.Valid()
    requires k < |bot.content| && !bot.content[k].isActive
    ensures ListingOf(bot.content[k], false) in ContentList(bot.content, bot.ActiveOnlyFor(Some(bot.adminId)))
    ensures HandleCallback(bot, bot.adminId, ViewToken(bot.content[k].id)) == NotFound
  {
    UnrestrictedListingIsWholeTable(bot.content);
    var n := |bot.content|;
    assert ContentList(bot.content, false)[n - 1 - k] == ListingOf(bot.content[k], false);
    MissingContentIsNotFound(bot, bot.adminId, ViewToken(bot.content[k].id), bot.content[k].id);
  }

  /** Administration buttons are refused to everyone but the administrator. */
  lemma AdminButtonsNeedAdmin(bot: ContentBot, userId: int, data: string)
    requires bot.Valid()
    requires StartsWith(data, AdminPrefix) && !bot.IsAdmin(userId)
    ensures HandleCallback(bot, userId, data) == AdminDenied
  {
  }

  /** No branch handles the `manage_content_` buttons of the administration
      list: pressing one only acknowledges the press. */
  lemma ManageButtonsAreIgnored(bot: ContentBot, userId: int, id: nat)
    requires bot.Valid()
    ensures HandleCallback(bot, userId, ManageToken(id)) == NoReply
  {
    assert ManageToken(id)[0] == 'm';
  }
}
