# Social-media backend: account and message logic

This project models the business logic of a small Spring social-media backend:

- account registration, login and the user-existence test (`AccountService`);
- create, read, update, delete and filter operations on short text messages (`MessageService`);
- the status decision each REST handler of `SocialMediaController` makes from its input and the service's result.

The two Spring Data repositories are classes that each own one table, a `map` from generated id to record.
They offer only the operations the services call:

- `findByUsername`, `findById` and `save` on accounts;
- `findAll`, `findById`, `findByPostedBy`, `save` and `deleteById` on messages.

An insert stores the record under some id the table does not hold yet.
The existence of such an id is proved through the ghost function `Repositories.KeyBound`.
Java `null` and `Optional` become `Wrappers.Option`, and strings are `seq<char>`.
The Java source of the entity classes and of the repository interfaces is not part of this model.
The records in `entities.dfy` and the operations in `repositories.dfy` follow the getters and repository calls that the services make.

Modules, leaf first:

- `wrappers.dfy`: `Option`.
- `entities.dfy`: the stored `Account` and `Message` records, the request bodies, and the username predicates.
- `repositories.dfy`: `AccountRepository` and `MessageRepository`.
- `account_service.dfy`: module `Accounts`. It holds the class `AccountService`. Its invariant `Valid()` says rows sit under their own ids, usernames are unique, and every stored account passed the registration check.
- `message_service.dfy`: module `Messages`. It holds the class `MessageService`. Its invariant says every stored message names a stored account as author and has a text of 1 to 255 characters.
- `controller.dfy`: module `Controller`. Each handler is a pure function from the request input and the service result to a `Response`: 200 with a body, 200 with an empty body, 400, 401 or 409.
- `requests.dfy`: module `Requests`. It composes each handler with the service call it makes. These contracts state the end-to-end properties, for example that 409 happens exactly for a duplicate username, and that a patch with a bad text leaves the store untouched.
- `scenarios.dfy`: client methods. They replay a register, login, post, edit and delete sequence on a fresh store, and prove every answer from the contracts alone.

Two behaviours are modelled exactly as the code has them:

- The posted-time field is neither assigned nor checked. `createMessage` saves whatever value the request carries.
- A message that is not found is answered with 200 and an empty body on read and delete. It is answered with 400 on patch.

## Model

| member | source | states |
|---|---|---|
| `Accounts.AccountService.RegisterAccount` | src/main/java/com/example/service/AccountService.java:18-28 | succeeds iff the username is non-null and non-empty, the password is non-null with at least 4 characters, and no stored account has that username; on failure the table is unchanged; on success the account, with the given username and password, is stored under an id new to the table and nothing else changes; unique usernames and the other table invariants are kept |
| `Accounts.AccountService.LoginAccount` | src/main/java/com/example/service/AccountService.java:30-33 | present iff some stored account has exactly this username and exactly this password (both non-null), and then it is that stored row; the table is not modified |
| `Accounts.AccountService.IsValidUser` | src/main/java/com/example/service/AccountService.java:35-37 | true iff the id is a key of the account table; changes nothing |
| `Accounts.InsertKeepsUsernamesUnique` | src/main/java/com/example/service/AccountService.java:23-27 | storing an account whose username is free, under a fresh id, keeps all usernames unique |
| `Accounts.MatchIsUnique` | src/main/java/com/example/service/AccountService.java:30-33 | with unique usernames, at most one stored account matches a login attempt |
| `Accounts.PasswordLengthBoundary` | src/main/java/com/example/service/AccountService.java:19-20 | for a non-empty username the input check passes iff the password has at least 4 characters: length 4 passes, length 3 fails |
| `Messages.MessageService.GetAllMessages` | src/main/java/com/example/service/MessageService.java:21-23 | every stored message is in the result, and every result element is the row stored under its own id |
| `Messages.MessageService.CreateMessage` | src/main/java/com/example/service/MessageService.java:25-33 | succeeds iff the text is non-null with 1 to 255 characters and the author is a stored account id; on failure the table is unchanged; on success the message with the given author, text and time is stored under a fresh id, and no other message changes; existing authors and valid texts stay invariant |
| `Messages.MessageService.GetMessageById` | src/main/java/com/example/service/MessageService.java:35-37 | present iff the id is stored, and then it is the stored message; no effect |
| `Messages.MessageService.DeleteMessage` | src/main/java/com/example/service/MessageService.java:39-43 | returns the message as it was before removal iff the id was stored, and empty otherwise; exactly that key leaves the table |
| `Messages.MessageService.UpdateMessageText` | src/main/java/com/example/service/MessageService.java:45-57 | succeeds iff the new text is non-null with 1 to 255 characters and the id is stored; then the stored message only gets the new text (same id, author and time) and is returned, and no other message changes; otherwise the table is unchanged |
| `Messages.MessageService.GetMessagesByAccountId` | src/main/java/com/example/service/MessageService.java:59-61 | exactly the stored messages whose author is the given account; empty iff that account has posted none |
| `Messages.CreateTextBoundary` | src/main/java/com/example/service/MessageService.java:26-28 | with a stored author, creation succeeds iff the text has 1 to 255 characters: 255 is accepted, 256 is rejected |
| `Messages.AuthorsExistUnderMoreAccounts` | src/main/java/com/example/service/MessageService.java:28 | the existing-author invariant survives any growth of the account table; accounts are never removed |
| `Controller.RegisterAccount` | src/main/java/com/example/controller/SocialMediaController.java:46-56 | 200 with the account iff the service returned one; otherwise 400 iff the input fails the registration check, and 409 iff it passes |
| `Controller.LoginAccount` | src/main/java/com/example/controller/SocialMediaController.java:61-68 | 200 with the account iff the service returned one, 401 otherwise |
| `Controller.GetAllMessages` | src/main/java/com/example/controller/SocialMediaController.java:73-76 | always 200 with the service's messages |
| `Controller.CreateMessage` | src/main/java/com/example/controller/SocialMediaController.java:81-88 | 200 with the message iff the service returned one, 400 otherwise |
| `Controller.GetMessageById` | src/main/java/com/example/controller/SocialMediaController.java:93-100 | always 200, never 404; empty body iff nothing was found, otherwise the message |
| `Controller.DeleteMessageById` | src/main/java/com/example/controller/SocialMediaController.java:105-112 | always 200; empty body iff nothing was removed, otherwise body 1 |
| `Controller.UpdateMessageTextPrecheck` | src/main/java/com/example/controller/SocialMediaController.java:118-121 | answers 400 at once, before the service, iff the text is null, empty or longer than 255 |
| `Controller.UpdateMessageText` | src/main/java/com/example/controller/SocialMediaController.java:122-127 | 200 with body 1 iff the service updated a message, 400 otherwise |
| `Controller.GetMessagesByAccountId` | src/main/java/com/example/controller/SocialMediaController.java:133-136 | always 200 with the service's messages, possibly none |
| `Controller.RegisterConflictIffDuplicate` | src/main/java/com/example/controller/SocialMediaController.java:47-55 | for any result the registration service may give: 409 iff the input is well-formed and its username is taken, 400 iff the input is malformed, 200 iff registration succeeds |
| `Controller.UpdateAnswerDependsOnlyOnLookup` | src/main/java/com/example/controller/SocialMediaController.java:119-127 | once the handler's text check passes, the service's own check passes too, so the answer is 200 iff the message is stored and 400 otherwise |
| `Requests.Register` | src/main/java/com/example/controller/SocialMediaController.java:46-56 | end to end: 409 iff well-formed with a taken username, 400 iff malformed, 200 iff registered; only a 200 changes the account table, by exactly the returned account; the message invariant is kept |
| `Requests.Login` | src/main/java/com/example/controller/SocialMediaController.java:61-68 | end to end: 200 iff a stored account has exactly this username and password, 401 otherwise; a 200 carries that stored account |
| `Requests.GetAllMessages` | src/main/java/com/example/controller/SocialMediaController.java:73-76 | end to end: 200 with a list holding exactly the stored messages, each the row under its own id |
| `Requests.CreateMessage` | src/main/java/com/example/controller/SocialMediaController.java:81-88 | end to end: 200 iff the text is valid and the author is stored, 400 otherwise with the table unchanged; on 200 the returned message, with the request's author, text and time, is new under a fresh id and nothing else changes |
| `Requests.GetMessageById` | src/main/java/com/example/controller/SocialMediaController.java:93-100 | end to end: always 200; the stored message, or an empty body iff the id is absent |
| `Requests.DeleteMessage` | src/main/java/com/example/controller/SocialMediaController.java:105-112 | end to end: always 200; body 1 iff the id was stored, empty body otherwise; that key is gone afterwards |
| `Requests.UpdateMessageText` | src/main/java/com/example/controller/SocialMediaController.java:117-128 | end to end: a null, empty or over-long text gets 400 and the store is untouched; otherwise 200 iff the id is stored, with body 1 and only that message's text replaced, and 400 with the store untouched if not |
| `Requests.GetMessagesByAccountId` | src/main/java/com/example/controller/SocialMediaController.java:133-136 | end to end: 200 with exactly the stored messages posted by that account |
| `Scenarios.DeleteTwice` | src/main/java/com/example/service/MessageService.java:39-43 | a second delete of the same id returns empty, whatever the table held |

## Left out

- Spring itself is not modelled: annotations, `ResponseEntity`, HTTP status plumbing and JSON binding. A response is a datatype variant with its status code.
- Repository internals are not modelled: SQL, derived-query generation and the persistence context. A derived query is exact equality on the column, so case-insensitive collations are not modelled.
- The id-generation strategy is not modelled: an insert takes some id the table does not hold, and nothing more is promised.
- Request bodies carry no client-supplied id. With JPA's `save`, such an id could merge into an existing row; that path is not modelled.
- `Repositories.AccountRepository.FindByUsername` picks any account with the username. Spring Data would throw if there were several. The service invariant of unique usernames rules that case out.
- Null-unboxing failures, such as a null `postedBy`, are not modelled, and neither are exceptions thrown by the store. `postedBy` and the posted time are plain integers.
- Transactions, atomicity and request concurrency belong to the hosting framework and are not modelled.
- The posted time has no semantics here. It is carried through `save` unchanged.
- `findAll` and `findByPostedBy` return Java lists. They are modelled as sets of messages, because the code promises membership only, not order. Stored messages have distinct ids, so no duplicates are lost.
- Text and password lengths count Dafny characters (Unicode scalar values). Java's `length()` counts UTF-16 code units, so the two differ for characters outside the Basic Multilingual Plane.
- Accounts or messages placed in the tables by anything other than these services are not modelled. Every table starts empty and is changed only by the operations above.
