/**
  The two Spring Data repositories, reduced to the operations the services call.
  Each owns one table, a map from generated id to record.  How ids are generated
  is not modelled: an insert uses some key the table does not hold.
 */
module Repositories {
  import opened Wrappers
  import opened Entities

  lemma HasElement(keys: set<int>)
    requires keys != {}
    ensures exists k :: k in keys
  {
    if forall k :: k !in keys { assert false; }
  }

  /** A strict upper bound of a finite set of ids: the witness that a fresh id always exists. */
  ghost function KeyBound(keys: set<int>): (b: int)
    ensures forall k :: k in keys ==> k < b
    decreases keys
  {
    if keys == {} then 0
    else
      HasElement(keys);
      var x :| x in keys;
      var rest := keys - {x};
      var b := KeyBound(rest);
      assert forall k :: k in keys ==> k == x || k in rest;
      if b <= x then x + 1 else b
  }

  /** The account table. */
  class AccountRepository {
    var accounts: map<int, Account>

    /** Every row is stored under its own id. */
    ghost predicate Valid()
      reads this
    {
      forall id :: id in accounts ==> accounts[id].accountId == id
    }

    constructor ()
      ensures Valid() && accounts == map[]
    {
      accounts := map[];
    }

    /** A derived query on the username column; a null username matches no stored row. */
    method FindByUsername(username: Option<string>) returns (r: Option<Account>)
      requires Valid()
      ensures r.Some? ==> username.Some? && r.value.username == username.value
      ensures r.Some? ==> r.value.accountId in accounts && accounts[r.value.accountId] == r.value
      ensures r.None? ==> username.None? || !UsernameTaken(accounts, username.value)
    {
      if username.Some? && UsernameTaken(accounts, username.value) {
        var id :| id in accounts && accounts[id].username == username.value;
        r := Some(accounts[id]);
      } else {
        r := None;
      }
    }

    method FindById(id: int) returns (r: Option<Account>)
      ensures r.Some? <==> id in accounts
      ensures r.Some? ==> r.value == accounts[id]
    {
      r := if id in accounts then Some(accounts[id]) else None;
    }

    /** Inserts a new row under an id the table does not hold yet. */
    method Save(username: string, password: string) returns (saved: Account)
      requires Valid()
      modifies this
      ensures Valid()
      ensures saved.accountId !in old(accounts)
      ensures saved.username == username && saved.password == password
      ensures accounts == old(accounts)[saved.accountId := saved]
    {
      ghost var bound := KeyBound(accounts.Keys);
      assert bound !in accounts;
      var id :| id !in accounts;
      saved := Account(id, username, password);
      accounts := accounts[id := saved];
    }
  }

  /** The message table. */
  class MessageRepository {
    var messages: map<int, Message>

    /** Every row is stored under its own id. */
    ghost predicate Valid()
      reads this
    {
      forall id :: id in messages ==> messages[id].messageId == id
    }

    constructor ()
      ensures Valid() && messages == map[]
    {
      messages := map[];
    }

    /** Every stored row; the order of a JPA result list is not modelled. */
    method FindAll() returns (r: set<Message>)
      ensures r == set id | id in messages :: messages[id]
    {
      r := set id | id in messages :: messages[id];
    }

    method FindById(id: int) returns (r: Option<Message>)
      ensures r.Some? <==> id in messages
      ensures r.Some? ==> r.value == messages[id]
    {
      r := if id in messages then Some(messages[id]) else None;
    }

    /** A derived query on the postedBy column. */
    method FindByPostedBy(postedBy: int) returns (r: set<Message>)
      ensures r == set id | id in messages && messages[id].postedBy == postedBy :: messages[id]
    {
      r := set id | id in messages && messages[id].postedBy == postedBy :: messages[id];
    }

    /**
      JPA `save`: a record whose id the table holds replaces that row; any other
      record is inserted under a fresh id.
     */
    method Save(messageId: Option<int>, postedBy: int, messageText: string, timePostedEpoch: int)
      returns (saved: Message)
      requires Valid()
      modifies this
      ensures Valid()
      ensures messageId.Some? && messageId.value in old(messages) ==> saved.messageId == messageId.value
      ensures !(messageId.Some? && messageId.value in old(messages)) ==> saved.messageId !in old(messages)
      ensures saved.postedBy == postedBy && saved.messageText == messageText
      ensures saved.timePostedEpoch == timePostedEpoch
      ensures messages == old(messages)[saved.messageId := saved]
    {
      var id: int;
      if messageId.Some? && messageId.value in messages {
        id := messageId.value;
      } else {
        ghost var bound := KeyBound(messages.Keys);
        assert bound !in messages;
        id :| id !in messages;
      }
      saved := Message(id, postedBy, messageText, timePostedEpoch);
      messages := messages[id := saved];
    }

    /** Removes the row with this id, if any. */
    method DeleteById(id: int)
      modifies this
      ensures messages == old(messages) - {id}
    {
      messages := messages - {id};
    }
  }
}
