/**
  Each endpoint end to end: the handler's decision composed with the service
  call it makes, over one account table and one message table shared by both
  services.  The frame of every method says which table a request may change.
 */
module Requests {
  import opened Wrappers
  import opened Entities
  import opened Repositories
  import opened Accounts
  import opened Messages
  import opened Controller

  /** `POST /register`.  409 exactly for a duplicate username; the message table keeps its invariant. */
  method Register(app: MessageService, account: AccountBody) returns (resp: Response)
    requires app.Valid()
    modifies app.accountService.accountRepository
    ensures app.Valid()
    ensures StatusCode(resp) == 409
            <==> ValidRegistration(account) && UsernameTaken(old(app.accountService.accountRepository.accounts), account.username.value)
    ensures StatusCode(resp) == 400 <==> !ValidRegistration(account)
    ensures StatusCode(resp) == 200 <==> RegisterSucceeds(old(app.accountService.accountRepository.accounts), account)
    ensures StatusCode(resp) != 200 ==> app.accountService.accountRepository.accounts == old(app.accountService.accountRepository.accounts)
    ensures StatusCode(resp) == 200 ==>
              && resp.Ok? && resp.body.AccountJson?
              && Some(resp.body.account.username) == account.username
              && Some(resp.body.account.password) == account.password
              && resp.body.account.accountId !in old(app.accountService.accountRepository.accounts)
              && app.accountService.accountRepository.accounts
                 == old(app.accountService.accountRepository.accounts)[resp.body.account.accountId := resp.body.account]
  {
    ghost var before := app.accountService.accountRepository.accounts;
    var registered := app.accountService.RegisterAccount(account);
    AuthorsExistUnderMoreAccounts(app.messageRepository.messages, before, app.accountService.accountRepository.accounts);
    RegisterConflictIffDuplicate(before, account, registered);
    resp := Controller.RegisterAccount(account, registered);
  }

  /** `POST /login`.  200 exactly when a stored account has this username and this password. */
  method Login(app: MessageService, account: AccountBody) returns (resp: Response)
    requires app.Valid()
    ensures StatusCode(resp) == 200
            <==> exists id :: id in app.accountService.accountRepository.accounts
                   && Matches(app.accountService.accountRepository.accounts[id], account.username, account.password)
    ensures StatusCode(resp) != 200 ==> StatusCode(resp) == 401
    ensures StatusCode(resp) == 200 ==>
              && resp.Ok? && resp.body.AccountJson?
              && resp.body.account.accountId in app.accountService.accountRepository.accounts
              && app.accountService.accountRepository.accounts[resp.body.account.accountId] == resp.body.account
              && Matches(resp.body.account, account.username, account.password)
  {
    var loggedIn := app.accountService.LoginAccount(account.username, account.password);
    resp := Controller.LoginAccount(loggedIn);
  }

  /** `GET /messages`.  Always 200, with every stored message. */
  method GetAllMessages(app: MessageService) returns (resp: Response)
    requires app.Valid()
    ensures StatusCode(resp) == 200 && resp.Ok? && resp.body.MessagesJson?
    ensures forall id :: id in app.messageRepository.messages ==> app.messageRepository.messages[id] in resp.body.messages
    ensures forall m :: m in resp.body.messages ==> m.messageId in app.messageRepository.messages && app.messageRepository.messages[m.messageId] == m
  {
    var messages := app.GetAllMessages();
    resp := Controller.GetAllMessages(messages);
  }

  /** `POST /messages`.  200 exactly for a valid text by a stored account; only the message table may change. */
  method CreateMessage(app: MessageService, message: MessageBody) returns (resp: Response)
    requires app.Valid()
    modifies app.messageRepository
    ensures app.Valid()
    ensures StatusCode(resp) == 200 <==> CreateSucceeds(app.accountService.accountRepository.accounts, message)
    ensures StatusCode(resp) != 200 ==> StatusCode(resp) == 400
    ensures StatusCode(resp) != 200 ==> app.messageRepository.messages == old(app.messageRepository.messages)
    ensures StatusCode(resp) == 200 ==>
              && resp.Ok? && resp.body.MessageJson?
              && resp.body.message.postedBy == message.postedBy
              && Some(resp.body.message.messageText) == message.messageText
              && resp.body.message.timePostedEpoch == message.timePostedEpoch
              && resp.body.message.messageId !in old(app.messageRepository.messages)
              && app.messageRepository.messages == old(app.messageRepository.messages)[resp.body.message.messageId := resp.body.message]
  {
    var created := app.CreateMessage(message);
    resp := Controller.CreateMessage(created);
  }

  /** `GET /messages/{id}`.  Always 200; the stored message, or an empty body when there is none. */
  method GetMessageById(app: MessageService, messageId: int) returns (resp: Response)
    requires app.Valid()
    ensures StatusCode(resp) == 200
    ensures resp == OkEmpty <==> messageId !in app.messageRepository.messages
    ensures messageId in app.messageRepository.messages ==> resp == Ok(MessageJson(app.messageRepository.messages[messageId]))
  {
    var found := app.GetMessageById(messageId);
    resp := Controller.GetMessageById(found);
  }

  /** `DELETE /messages/{id}`.  Always 200: body 1 when the message was stored, empty otherwise. */
  method DeleteMessage(app: MessageService, messageId: int) returns (resp: Response)
    requires app.Valid()
    modifies app.messageRepository
    ensures app.Valid()
    ensures StatusCode(resp) == 200
    ensures resp == OkEmpty <==> messageId !in old(app.messageRepository.messages)
    ensures resp != OkEmpty ==> resp == Ok(Count(1))
    ensures app.messageRepository.messages == old(app.messageRepository.messages) - {messageId}
  {
    var deleted := app.DeleteMessage(messageId);
    resp := Controller.DeleteMessageById(deleted);
  }

  /**
    `PATCH /messages/{id}`.  A null, empty or over-long text is answered 400 by the
    handler itself and the store is not touched; otherwise 200 exactly when the
    message is stored.
   */
  method UpdateMessageText(app: MessageService, messageId: int, updatedMsg: MessageBody) returns (resp: Response)
    requires app.Valid()
    modifies app.messageRepository
    ensures app.Valid()
    ensures !ValidText(updatedMsg.messageText) ==> resp == BadRequest
    ensures StatusCode(resp) == 200 <==> ValidText(updatedMsg.messageText) && messageId in old(app.messageRepository.messages)
    ensures StatusCode(resp) != 200 ==> StatusCode(resp) == 400
    ensures StatusCode(resp) != 200 ==> app.messageRepository.messages == old(app.messageRepository.messages)
    ensures StatusCode(resp) == 200 ==>
              && resp == Ok(Count(1))
              && app.messageRepository.messages
                 == old(app.messageRepository.messages)[messageId := old(app.messageRepository.messages)[messageId].(messageText := updatedMsg.messageText.value)]
  {
    var early := UpdateMessageTextPrecheck(updatedMsg);
    if early.Some? {
      return early.value;
    }
    var updated := app.UpdateMessageText(messageId, updatedMsg.messageText);
    UpdateAnswerDependsOnlyOnLookup(updatedMsg, messageId in old(app.messageRepository.messages), updated);
    resp := Controller.UpdateMessageText(updated);
  }

  /** `GET /accounts/{id}/messages`.  Always 200, with exactly the messages this account posted. */
  method GetMessagesByAccountId(app: MessageService, accountId: int) returns (resp: Response)
    requires app.Valid()
    ensures StatusCode(resp) == 200 && resp.Ok? && resp.body.MessagesJson?
    ensures forall m :: m in resp.body.messages
              <==> m.messageId in app.messageRepository.messages && app.messageRepository.messages[m.messageId] == m && m.postedBy == accountId
  {
    var messages := app.GetMessagesByAccountId(accountId);
    resp := Controller.GetMessagesByAccountId(messages);
  }
}
