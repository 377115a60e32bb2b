/** The account list and the two decisions taken over it: the login credential
    check and the filtering of signal targets to known usernames. */
module Accounts {
  import opened Fields

  /** One record of the account list. */
  datatype Account = Account(username: string, password: string)

  /** The status codes the login endpoint answers with. */
  const BadRequest := 400
  const LoginOk := 200
  const Unauthorized := 401

  predicate Matches(account: Account, username: string, password: string) {
    account.username == username && account.password == password
  }

  /** `accounts.find(...)`: the position of the first account whose username and
      password are both exactly the given ones. */
  function FindAccount(accounts: seq<Account>, username: string, password: string): (r: Option<nat>)
    ensures r.Some? ==> r.value < |accounts| && Matches(accounts[r.value], username, password)
    ensures r.Some? ==> forall j :: 0 <= j < r.value ==> !Matches(accounts[j], username, password)
    ensures r.None? ==> forall j :: 0 <= j < |accounts| ==> !Matches(accounts[j], username, password)
  {
    if |accounts| == 0 then None
    else if Matches(accounts[0], username, password) then Some(0)
    else match FindAccount(accounts[1..], username, password)
      case None => None
      case Some(k) => Some(k + 1)
  }

  /** The login endpoint's decision: 400 when a credential is missing or empty,
      200 when some account matches both, 401 otherwise. */
  function Login(accounts: seq<Account>, username: Option<string>, password: Option<string>): (status: int)
    ensures status == BadRequest <==> !Truthy(username) || !Truthy(password)
    ensures status == LoginOk <==>
      Truthy(username) && Truthy(password) &&
      exists j :: 0 <= j < |accounts| && Matches(accounts[j], username.value, password.value)
    ensures status == Unauthorized <==>
      Truthy(username) && Truthy(password) &&
      forall j :: 0 <= j < |accounts| ==> !Matches(accounts[j], username.value, password.value)
  {
    if !Truthy(username) || !Truthy(password) then BadRequest
    else if FindAccount(accounts, username.value, password.value).Some? then LoginOk
    else Unauthorized
  }

  /** `accounts.some(account => account.username === u)`. */
  function Known(accounts: seq<Account>, u: string): (b: bool)
    ensures b <==> exists j :: 0 <= j < |accounts| && accounts[j].username == u
  {
    if |accounts| == 0 then false
    else if accounts[0].username == u then true
    else
      var rest := Known(accounts[1..], u);
      assert rest ==> exists j :: 0 <= j < |accounts| && accounts[j].username == u by {
        if rest {
          var j :| 0 <= j < |accounts[1..]| && accounts[1..][j].username == u;
          assert accounts[j + 1].username == u;
        }
      }
      rest
  }

  /** The signal's target list filtered to usernames of the account list, in
      their original order and with their repetitions. */
  function ValidTargets(accounts: seq<Account>, targets: seq<string>): (r: seq<string>)
    ensures |r| <= |targets|
    ensures forall i :: 0 <= i < |r| ==> Known(accounts, r[i])
  {
    if |targets| == 0 then []
    else (if Known(accounts, targets[0]) then [targets[0]] else []) + ValidTargets(accounts, targets[1..])
  }

  /** A known username stays in the target list as often as it was listed; an
      unknown one is dropped. */
  lemma {:induction false} ValidTargetsCount(accounts: seq<Account>, targets: seq<string>, u: string)
    ensures multiset(ValidTargets(accounts, targets))[u] == if Known(accounts, u) then multiset(targets)[u] else 0
  {
    if |targets| > 0 {
      ValidTargetsCount(accounts, targets[1..], u);
      assert targets == [targets[0]] + targets[1..];
    }
  }
}
