/**
  The two persisted entities and the request bodies the controller binds.
  Stored records have non-null text fields: only validated values ever reach the store.
 */
module Entities {
  import opened Wrappers

  /** A stored account row: generated id, username, plain-text password. */
  datatype Account = Account(accountId: int, username: string, password: string)

  /** A stored message row; the posted-time field is passed through unchanged. */
  datatype Message = Message(messageId: int, postedBy: int, messageText: string, timePostedEpoch: int)

  /** The JSON body of `/register` and `/login`; either field may be null. */
  datatype AccountBody = AccountBody(username: Option<string>, password: Option<string>)

  /** The JSON body of `POST /messages` and `PATCH /messages/{id}`; the text may be null. */
  datatype MessageBody = MessageBody(postedBy: int, messageText: Option<string>, timePostedEpoch: int)

  /** True iff some stored account has exactly this username. */
  predicate UsernameTaken(accounts: map<int, Account>, username: string)
  {
    exists id :: id in accounts && accounts[id].username == username
  }

  /** No two stored accounts share a username. */
  predicate UniqueUsernames(accounts: map<int, Account>)
  {
    forall i, j :: i in accounts && j in accounts && accounts[i].username == accounts[j].username ==> i == j
  }
}
