/**
  Message logic: create with text and author checks, reads by id, by author and
  in full, an in-place text update and a delete that hands back the removed row.
 */
module Messages {
  import opened Wrappers
  import opened Entities
  import opened Repositories
  import opened Accounts

  /** The longest message text create and update accept. */
  const MaxTextLength := 255

  /** The text check shared by create and update: non-null, non-empty, at most 255 characters. */
  predicate ValidText(text: Option<string>)
  {
    text.Some? && 0 < |text.value| <= MaxTextLength
  }

  /** Creation succeeds exactly when the text passes its check and the author is a stored account. */
  predicate CreateSucceeds(accounts: map<int, Account>, message: MessageBody)
  {
    ValidText(message.messageText) && message.postedBy in accounts
  }

  /** Every stored message names a stored account as its author. */
  predicate AuthorsExist(messages: map<int, Message>, accounts: map<int, Account>)
  {
    forall id :: id in messages ==> messages[id].postedBy in accounts
  }

  /** Every stored message text passed the text check. */
  predicate TextsValid(messages: map<int, Message>)
  {
    forall id :: id in messages ==> ValidText(Some(messages[id].messageText))
  }

  /** With a stored author, a text of 255 characters is accepted and one of 256 is rejected. */
  lemma CreateTextBoundary(accounts: map<int, Account>, message: MessageBody)
    requires message.postedBy in accounts && message.messageText.Some?
    ensures CreateSucceeds(accounts, message) <==> 1 <= |message.messageText.value| <= 255
    ensures |message.messageText.value| == 255 ==> CreateSucceeds(accounts, message)
    ensures |message.messageText.value| == 256 ==> !CreateSucceeds(accounts, message)
  {
  }

  /** Accounts are never removed, so a message table whose authors exist keeps them when accounts are added. */
  lemma AuthorsExistUnderMoreAccounts(messages: map<int, Message>, before: map<int, Account>, after: map<int, Account>)
    requires AuthorsExist(messages, before) && before.Keys <= after.Keys
    ensures AuthorsExist(messages, after)
  {
  }

  class MessageService {
    const messageRepository: MessageRepository
    const accountService: AccountService

    /** The table invariant: rows under their own ids, existing authors, checked texts. */
    ghost predicate Valid()
      reads this, messageRepository, accountService, accountService.accountRepository
    {
      && messageRepository.Valid()
      && accountService.Valid()
      && AuthorsExist(messageRepository.messages, accountService.accountRepository.accounts)
      && TextsValid(messageRepository.messages)
    }

    constructor (repository: MessageRepository, accounts: AccountService)
      requires repository.messages == map[] && repository.Valid() && accounts.Valid()
      ensures messageRepository == repository && accountService == accounts && Valid()
    {
      messageRepository := repository;
      accountService := accounts;
    }

    /** Every stored message, each the row kept under its own id. */
    method GetAllMessages() returns (r: set<Message>)
      requires Valid()
      ensures forall id :: id in messageRepository.messages ==> messageRepository.messages[id] in r
      ensures forall m :: m in r ==> m.messageId in messageRepository.messages && messageRepository.messages[m.messageId] == m
    {
      r := messageRepository.FindAll();
    }

    /**
      Rejects a null, empty or over-long text and an author that is not a stored
      account; otherwise saves the message under a fresh id and returns it.
     */
    method CreateMessage(message: MessageBody) returns (r: Option<Message>)
      requires Valid()
      modifies messageRepository
      ensures Valid()
      ensures r.Some? <==> CreateSucceeds(accountService.accountRepository.accounts, message)
      ensures r.None? ==> messageRepository.messages == old(messageRepository.messages)
      ensures r.Some? ==> && r.value.messageId !in old(messageRepository.messages)
                          && r.value.postedBy == message.postedBy
                          && Some(r.value.messageText) == message.messageText
                          && r.value.timePostedEpoch == message.timePostedEpoch
                          && messageRepository.messages == old(messageRepository.messages)[r.value.messageId := r.value]
    {
      if !ValidText(message.messageText) {
        return None;
      }
      var authorExists := accountService.IsValidUser(message.postedBy);
      if !authorExists {
        return None;
      }
      var created := messageRepository.Save(None, message.postedBy, message.messageText.value, message.timePostedEpoch);
      return Some(created);
    }

    /** The stored message with this id, if any. */
    method GetMessageById(messageId: int) returns (r: Option<Message>)
      ensures r.Some? <==> messageId in messageRepository.messages
      ensures r.Some? ==> r.value == messageRepository.messages[messageId]
    {
      r := messageRepository.FindById(messageId);
    }

    /** Removes the message with this id if it is stored, and returns it as it was before the removal. */
    method DeleteMessage(messageId: int) returns (r: Option<Message>)
      requires Valid()
      modifies messageRepository
      ensures Valid()
      ensures r.Some? <==> messageId in old(messageRepository.messages)
      ensures r.Some? ==> r.value == old(messageRepository.messages)[messageId]
      ensures messageRepository.messages == old(messageRepository.messages) - {messageId}
    {
      r := messageRepository.FindById(messageId);
      if r.Some? {
        messageRepository.DeleteById(messageId);
      }
    }

    /**
      Rejects a null, empty or over-long text before any lookup; otherwise replaces
      the text of the stored message with this id, if there is one, and returns it.
     */
    method UpdateMessageText(messageId: int, newText: Option<string>) returns (r: Option<Message>)
      requires Valid()
      modifies messageRepository
      ensures Valid()
      ensures r.Some? <==> ValidText(newText) && messageId in old(messageRepository.messages)
      ensures r.None? ==> messageRepository.messages == old(messageRepository.messages)
      ensures r.Some? ==> && r.value == old(messageRepository.messages)[messageId].(messageText := newText.value)
                          && messageRepository.messages == old(messageRepository.messages)[messageId := r.value]
    {
      if !ValidText(newText) {
        return None;
      }
      var found := messageRepository.FindById(messageId);
      if found.Some? {
        var message := found.value.(messageText := newText.value);
        var updated := messageRepository.Save(Some(message.messageId), message.postedBy, message.messageText, message.timePostedEpoch);
        return Some(updated);
      }
      return None;
    }

    /** Exactly the stored messages whose author is this account; empty when it has posted none. */
    method GetMessagesByAccountId(accountId: int) returns (r: set<Message>)
      requires Valid()
      ensures forall m :: m in r <==> m.messageId in messageRepository.messages && messageRepository.messages[m.messageId] == m && m.postedBy == accountId
      ensures r == {} <==> forall id :: id in messageRepository.messages ==> messageRepository.messages[id].postedBy != accountId
    {
      r := messageRepository.FindByPostedBy(accountId);
    }
  }
}
