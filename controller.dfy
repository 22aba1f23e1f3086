/**
  The status decision of each request handler, as a pure function of the
  request input and the service's result.  HTTP plumbing and JSON binding are
  not modelled: a response is one of the variants below.
 */
module Controller {
  import opened Wrappers
  import opened Entities
  import opened Accounts
  import opened Messages

  /** What a 200 response carries: an entity, a list of messages, or the number 1. */
  datatype Body =
    | AccountJson(account: Account)
    | MessageJson(message: Message)
    | MessagesJson(messages: set<Message>)
    | Count(n: int)

  /** 200 with a body, 200 with an empty body, 400, 401 or 409. */
  datatype Response = Ok(body: Body) | OkEmpty | BadRequest | Unauthorized | Conflict

  function StatusCode(r: Response): (code: int)
  {
    match r
    case Ok(_) => 200
    case OkEmpty => 200
    case BadRequest => 400
    case Unauthorized => 401
    case Conflict => 409
  }

  /** `POST /register`: the account on success; otherwise 400 for bad input and 409 for anything else. */
  function RegisterAccount(account: AccountBody, registered: Option<Account>): (r: Response)
    ensures r.Ok? <==> registered.Some?
    ensures registered.Some? ==> r.body == AccountJson(registered.value)
    ensures r == BadRequest <==> registered.None? && !ValidRegistration(account)
    ensures r == Conflict <==> registered.None? && ValidRegistration(account)
  {
    if registered.Some? then Ok(AccountJson(registered.value))
    else if !ValidRegistration(account) then BadRequest
    else Conflict
  }

  /** `POST /login`: the account on success, 401 otherwise. */
  function LoginAccount(loggedIn: Option<Account>): (r: Response)
    ensures r.Ok? <==> loggedIn.Some?
    ensures loggedIn.Some? ==> r.body == AccountJson(loggedIn.value)
    ensures loggedIn.None? ==> StatusCode(r) == 401
  {
    if loggedIn.Some? then Ok(AccountJson(loggedIn.value)) else Unauthorized
  }

  /** `GET /messages`: always 200 with the service's messages. */
  function GetAllMessages(messages: set<Message>): (r: Response)
    ensures StatusCode(r) == 200 && r.Ok? && r.body.MessagesJson? && r.body.messages == messages
  {
    Ok(MessagesJson(messages))
  }

  /** `POST /messages`: the message on success, 400 otherwise. */
  function CreateMessage(created: Option<Message>): (r: Response)
    ensures r.Ok? <==> created.Some?
    ensures created.Some? ==> r.body == MessageJson(created.value)
    ensures created.None? ==> StatusCode(r) == 400
  {
    if created.Some? then Ok(MessageJson(created.value)) else BadRequest
  }

  /** `GET /messages/{id}`: 200 in every case; the body is empty when no message was found. */
  function GetMessageById(found: Option<Message>): (r: Response)
    ensures StatusCode(r) == 200
    ensures r == OkEmpty <==> found.None?
    ensures found.Some? ==> r.body == MessageJson(found.value)
  {
    if found.Some? then Ok(MessageJson(found.value)) else OkEmpty
  }

  /** `DELETE /messages/{id}`: 200 in every case; body 1 when a message was removed, empty otherwise. */
  function DeleteMessageById(deleted: Option<Message>): (r: Response)
    ensures StatusCode(r) == 200
    ensures r == OkEmpty <==> deleted.None?
    ensures deleted.Some? ==> r.body == Count(1)
  {
    if deleted.Some? then Ok(Count(1)) else OkEmpty
  }

  /**
    `PATCH /messages/{id}`, first half: the handler's own text check.  A response
    here means the handler answers at once, without calling the service.
   */
  function UpdateMessageTextPrecheck(updatedMsg: MessageBody): (r: Option<Response>)
    ensures r.Some? <==> !ValidText(updatedMsg.messageText)
    ensures r.Some? ==> StatusCode(r.value) == 400
  {
    var newText := updatedMsg.messageText;
    if newText.None? || newText.value == "" || |newText.value| > MaxTextLength then Some(BadRequest) else None
  }

  /** `PATCH /messages/{id}`, second half: body 1 when the service updated a message, 400 otherwise. */
  function UpdateMessageText(updated: Option<Message>): (r: Response)
    ensures r.Ok? <==> updated.Some?
    ensures updated.Some? ==> r.body == Count(1)
    ensures updated.None? ==> StatusCode(r) == 400
  {
    if updated.Some? then Ok(Count(1)) else BadRequest
  }

  /** `GET /accounts/{id}/messages`: always 200 with the service's messages, possibly none. */
  function GetMessagesByAccountId(messages: set<Message>): (r: Response)
    ensures StatusCode(r) == 200 && r.Ok? && r.body.MessagesJson? && r.body.messages == messages
  {
    Ok(MessagesJson(messages))
  }

  /**
    Given any result the registration service may return, the handler answers 409
    exactly for a well-formed request whose username is taken, and 400 exactly for
    a malformed one.
   */
  lemma RegisterConflictIffDuplicate(accounts: map<int, Account>, account: AccountBody, registered: Option<Account>)
    requires registered.Some? <==> RegisterSucceeds(accounts, account)
    ensures StatusCode(RegisterAccount(account, registered)) == 409
            <==> ValidRegistration(account) && UsernameTaken(accounts, account.username.value)
    ensures StatusCode(RegisterAccount(account, registered)) == 400 <==> !ValidRegistration(account)
    ensures StatusCode(RegisterAccount(account, registered)) == 200 <==> RegisterSucceeds(accounts, account)
  {
  }

  /**
    A patch that passes the handler's check reaches a service whose own text check
    then passes too, so the answer depends only on whether the message is stored.
   */
  lemma UpdateAnswerDependsOnlyOnLookup(updatedMsg: MessageBody, stored: bool, updated: Option<Message>)
    requires UpdateMessageTextPrecheck(updatedMsg).None?
    requires updated.Some? <==> ValidText(updatedMsg.messageText) && stored
    ensures StatusCode(UpdateMessageText(updated)) == (if stored then 200 else 400)
  {
  }
}
