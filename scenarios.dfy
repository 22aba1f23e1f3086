/**
  Client methods that replay typical request sequences against a fresh store and
  prove the answers from the contracts alone.
 */
module Scenarios {
  import opened Wrappers
  import opened Entities
  import opened Repositories
  import opened Accounts
  import opened Messages
  import opened Controller
  import opened Requests

  /** A fresh application: empty account and message tables wired to both services. */
  method NewApplication() returns (app: MessageService)
    ensures app.Valid()
    ensures fresh(app.messageRepository) && fresh(app.accountService.accountRepository)
    ensures app.messageRepository.messages == map[] && app.accountService.accountRepository.accounts == map[]
  {
    var accountRepository := new AccountRepository();
    var accounts := new AccountService(accountRepository);
    var messageRepository := new MessageRepository();
    app := new MessageService(messageRepository, accounts);
  }

  /** Register, log in, post, read back, reject an empty edit, then delete twice. */
  method RegisterLoginPostEditDelete()
  {
    var app := NewApplication();

    var first := Register(app, AccountBody(Some("alice"), Some("pass1")));
    assert StatusCode(first) == 200;
    var again := Register(app, AccountBody(Some("alice"), Some("pass2")));
    assert UsernameTaken(app.accountService.accountRepository.accounts, "alice");
    assert StatusCode(again) == 409;
    var short := Register(app, AccountBody(Some("bob"), Some("abc")));
    assert StatusCode(short) == 400;

    var good := Login(app, AccountBody(Some("alice"), Some("pass1")));
    assert StatusCode(good) == 200;
    var bad := Login(app, AccountBody(Some("alice"), Some("wrong")));
    assert StatusCode(bad) == 401;

    var alice := app.accountService.LoginAccount(Some("alice"), Some("pass1"));
    var posted := app.CreateMessage(MessageBody(alice.value.accountId, Some("hello"), 0));
    assert posted.Some?;
    var id := posted.value.messageId;
    var read := app.GetMessageById(id);
    assert read == posted;

    var before := app.messageRepository.messages;
    var emptyEdit := Requests.UpdateMessageText(app, id, MessageBody(0, Some(""), 0));
    assert StatusCode(emptyEdit) == 400;
    assert app.messageRepository.messages == before;

    var removed := DeleteMessage(app, id);
    assert removed == Ok(Count(1));
    var removedAgain := DeleteMessage(app, id);
    assert removedAgain == OkEmpty;
  }

  /** A second delete of the same id finds nothing, whatever the table held. */
  method DeleteTwice(app: MessageService, messageId: int) returns (first: Option<Message>, second: Option<Message>)
    requires app.Valid()
    modifies app.messageRepository
    ensures app.Valid()
    ensures first.Some? <==> messageId in old(app.messageRepository.messages)
    ensures second == None
  {
    first := app.DeleteMessage(messageId);
    second := app.DeleteMessage(messageId);
  }
}
