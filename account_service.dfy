/**
  Account logic: registration with input checks and a unique username,
  login by exact credential match, and an existence test on account ids.
 */
module Accounts {
  import opened Wrappers
  import opened Entities
  import opened Repositories

  /** The shortest password registration accepts. */
  const MinPasswordLength := 4

  /** The input check of registration: a non-empty username and a password of at least four characters. */
  predicate ValidRegistration(account: AccountBody)
  {
    && account.username.Some? && account.username.value != ""
    && account.password.Some? && |account.password.value| >= MinPasswordLength
  }

  /** Registration succeeds exactly when the input passes its check and the username is still free. */
  predicate RegisterSucceeds(accounts: map<int, Account>, account: AccountBody)
  {
    ValidRegistration(account) && !UsernameTaken(accounts, account.username.value)
  }

  /** A stored account matches a login attempt when both fields are non-null and equal to the stored ones. */
  predicate Matches(a: Account, username: Option<string>, password: Option<string>)
  {
    username == Some(a.username) && password == Some(a.password)
  }

  /** Every stored account passed the registration check. */
  predicate CredentialsValid(accounts: map<int, Account>)
  {
    forall id :: id in accounts ==> ValidRegistration(AccountBody(Some(accounts[id].username), Some(accounts[id].password)))
  }

  /** For a non-empty username the password check is "at least four characters": four passes, three fails. */
  lemma PasswordLengthBoundary(username: string, password: string)
    requires username != ""
    ensures ValidRegistration(AccountBody(Some(username), Some(password))) <==> |password| >= MinPasswordLength
    ensures |password| == 4 ==> ValidRegistration(AccountBody(Some(username), Some(password)))
    ensures |password| == 3 ==> !ValidRegistration(AccountBody(Some(username), Some(password)))
  {
  }

  /** Inserting an account whose username is free under a fresh id keeps usernames unique. */
  lemma InsertKeepsUsernamesUnique(accounts: map<int, Account>, a: Account)
    requires UniqueUsernames(accounts)
    requires a.accountId !in accounts && !UsernameTaken(accounts, a.username)
    ensures UniqueUsernames(accounts[a.accountId := a])
  {
  }

  /** Under unique usernames, at most one stored account matches a login attempt. */
  lemma MatchIsUnique(accounts: map<int, Account>, username: Option<string>, password: Option<string>, i: int, j: int)
    requires UniqueUsernames(accounts)
    requires i in accounts && Matches(accounts[i], username, password)
    requires j in accounts && Matches(accounts[j], username, password)
    ensures i == j
  {
  }

  class AccountService {
    const accountRepository: AccountRepository

    /** The table invariant registration keeps: rows under their own ids, unique usernames, checked credentials. */
    ghost predicate Valid()
      reads this, accountRepository
    {
      && accountRepository.Valid()
      && UniqueUsernames(accountRepository.accounts)
      && CredentialsValid(accountRepository.accounts)
    }

    constructor (repository: AccountRepository)
      requires repository.accounts == map[] && repository.Valid()
      ensures accountRepository == repository && Valid()
    {
      accountRepository := repository;
    }

    /**
      Rejects a null or empty username and a null or short password, then a taken
      username; otherwise saves the account under a fresh id and returns it.
     */
    method RegisterAccount(account: AccountBody) returns (r: Option<Account>)
      requires Valid()
      modifies accountRepository
      ensures Valid()
      ensures r.Some? <==> RegisterSucceeds(old(accountRepository.accounts), account)
      ensures r.None? ==> accountRepository.accounts == old(accountRepository.accounts)
      ensures r.Some? ==> && r.value.accountId !in old(accountRepository.accounts)
                          && Some(r.value.username) == account.username
                          && Some(r.value.password) == account.password
                          && accountRepository.accounts == old(accountRepository.accounts)[r.value.accountId := r.value]
    {
      if !ValidRegistration(account) {
        return None;
      }
      var existing := accountRepository.FindByUsername(account.username);
      if existing.Some? {
        return None;
      }
      ghost var before := accountRepository.accounts;
      var saved := accountRepository.Save(account.username.value, account.password.value);
      InsertKeepsUsernamesUnique(before, saved);
      return Some(saved);
    }

    /** Looks the username up and keeps the account only if its password equals the given one exactly. */
    method LoginAccount(username: Option<string>, password: Option<string>) returns (r: Option<Account>)
      requires Valid()
      ensures r.Some? <==> exists id :: id in accountRepository.accounts && Matches(accountRepository.accounts[id], username, password)
      ensures r.Some? ==> && r.value.accountId in accountRepository.accounts
                          && accountRepository.accounts[r.value.accountId] == r.value
                          && Matches(r.value, username, password)
    {
      var found := accountRepository.FindByUsername(username);
      if found.Some? && Some(found.value.password) == password {
        r := found;
      } else {
        r := None;
      }
    }

    /** True iff some stored account has this id. */
    method IsValidUser(userId: int) returns (b: bool)
      ensures b <==> userId in accountRepository.accounts
    {
      var found := accountRepository.FindById(userId);
      b := found.Some?;
    }
  }
}
