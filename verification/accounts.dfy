/** The account store (`accounts.json`): an ordered list of offline accounts, and the
    account-menu actions that delete an account or make one current. */
module Accounts {
  import opened Wrappers
  import opened Text
  import opened LauncherConfig

  /** One stored account; `createdAt` is the ISO timestamp taken when it was added. */
  datatype Account = Account(id: int, username: string, kind: string, createdAt: string)

  const OfflineKind: string := "offline"

  /** What reading `accounts.json` can give. */
  datatype AccountsFile = NoAccountsFile | MalformedAccounts | AccountList(accounts: seq<Account>)

  /** `load_accounts()` (Cobalt_Launcher_Nano_0.7_alpha.py:53-60): a missing or
      undecodable file reads as the empty list. */
  function LoadAccounts(f: AccountsFile): (r: seq<Account>)
    ensures f.AccountList? ==> r == f.accounts
    ensures !f.AccountList? ==> r == []
  {
    if f.AccountList? then f.accounts else []
  }

  // ------------------------------------------------------------------ add

  /** `add_offline_account(username)` (Cobalt_Launcher_Nano_0.7_alpha.py:66-76): the
      stored list and the record that was appended to it. */
  datatype Added = Added(accounts: seq<Account>, account: Account)

  function AddOffline(accounts: seq<Account>, username: string, now: string): (r: Added)
    ensures |r.accounts| == |accounts| + 1
    ensures r.accounts[..|accounts|] == accounts
    ensures r.accounts[|accounts|] == r.account
    ensures r.account.id == |accounts| + 1
    ensures r.account.username == username && r.account.kind == OfflineKind
    ensures r.account.createdAt == now
  {
    var account := Account(|accounts| + 1, username, OfflineKind, now);
    Added(accounts + [account], account)
  }

  /** The ids are exactly 1, 2, ..., n in list order: what adds alone produce. */
  predicate IdsSequential(accounts: seq<Account>) {
    forall i :: 0 <= i < |accounts| ==> accounts[i].id == i + 1
  }

  predicate UniqueIds(accounts: seq<Account>) {
    forall i, j :: 0 <= i < j < |accounts| ==> accounts[i].id != accounts[j].id
  }

  predicate HasId(accounts: seq<Account>, id: int) {
    exists i :: 0 <= i < |accounts| && accounts[i].id == id
  }

  /** When the ids are 1..n, the id an add hands out is not in use, and the list
      stays numbered 1..n+1. */
  lemma AddToSequentialIsFresh(accounts: seq<Account>, username: string, now: string)
    requires IdsSequential(accounts)
    ensures !HasId(accounts, AddOffline(accounts, username, now).account.id)
    ensures IdsSequential(AddOffline(accounts, username, now).accounts)
  {
  }

  lemma SequentialIsUnique(accounts: seq<Account>)
    requires IdsSequential(accounts)
    ensures UniqueIds(accounts)
  {
  }

  /** Adding each of `names` in turn, starting from `accounts`. */
  function AddAll(accounts: seq<Account>, names: seq<string>, now: string): seq<Account>
    decreases |names|
  {
    if |names| == 0 then accounts
    else AddAll(AddOffline(accounts, names[0], now).accounts, names[1..], now)
  }

  /** Starting from a store numbered 1..n (the empty store included), any run of adds
      without deletes keeps the ids 1..m, so all ids stay distinct. */
  lemma {:induction false} AddsKeepIdsUnique(accounts: seq<Account>, names: seq<string>, now: string)
    requires IdsSequential(accounts)
    ensures IdsSequential(AddAll(accounts, names, now))
    ensures UniqueIds(AddAll(accounts, names, now))
    ensures |AddAll(accounts, names, now)| == |accounts| + |names|
    decreases |names|
  {
    if |names| > 0 {
      AddToSequentialIsFresh(accounts, names[0], now);
      AddsKeepIdsUnique(AddOffline(accounts, names[0], now).accounts, names[1..], now);
    } else {
      SequentialIsUnique(accounts);
    }
  }

  // --------------------------------------------------------------- delete

  /** The list comprehension of `delete_account` (Cobalt_Launcher_Nano_0.7_alpha.py:80):
      keep, in order, every account whose id differs from `id`. */
  function WithoutId(accounts: seq<Account>, id: int): (r: seq<Account>)
    ensures forall a :: a in r <==> a in accounts && a.id != id
    ensures |r| <= |accounts|
  {
    if |accounts| == 0 then []
    else (if accounts[0].id != id then [accounts[0]] else []) + WithoutId(accounts[1..], id)
  }

  /** Filtering distributes over concatenation: it keeps the relative order of the
      accounts it keeps. */
  lemma {:induction false} WithoutIdAppend(a: seq<Account>, b: seq<Account>, id: int)
    ensures WithoutId(a + b, id) == WithoutId(a, id) + WithoutId(b, id)
  {
    if |a| > 0 {
      var head := if a[0].id != id then [a[0]] else [];
      assert (a + b)[0] == a[0] && (a + b)[1..] == a[1..] + b;
      assert WithoutId(a + b, id) == head + WithoutId(a[1..] + b, id);
      WithoutIdAppend(a[1..], b, id);
      Regroup(head, WithoutId(a[1..], id), WithoutId(b, id));
    } else {
      assert a + b == b;
    }
  }

  /** Accounts with other ids are untouched: a list without `id` is returned as is. */
  lemma {:induction false} WithoutAbsentId(accounts: seq<Account>, id: int)
    requires !HasId(accounts, id)
    ensures WithoutId(accounts, id) == accounts
  {
    if |accounts| > 0 {
      assert !HasId(accounts[1..], id) by {
        forall i | 0 <= i < |accounts[1..]| ensures accounts[1..][i].id != id {
          assert accounts[1..][i] == accounts[i + 1];
        }
      }
      WithoutAbsentId(accounts[1..], id);
      assert accounts == [accounts[0]] + accounts[1..];
    }
  }

  /** `delete_account(id)` (Cobalt_Launcher_Nano_0.7_alpha.py:78-82): the stored list
      and the flag it returns. */
  datatype Deleted = Deleted(accounts: seq<Account>, ok: bool)

  function Delete(accounts: seq<Account>, id: int): (r: Deleted)
    ensures r.accounts == WithoutId(accounts, id)
    ensures !HasId(r.accounts, id)
    ensures r.ok
  {
    Deleted(WithoutId(accounts, id), true)
  }

  /** Deleting keeps the ids distinct (a filter of a list with distinct ids). */
  lemma {:induction false} DeleteKeepsIdsUnique(accounts: seq<Account>, id: int)
    requires UniqueIds(accounts)
    ensures UniqueIds(Delete(accounts, id).accounts)
  {
    if |accounts| > 0 {
      var tail := accounts[1..];
      assert UniqueIds(tail) by {
        forall i, j | 0 <= i < j < |tail| ensures tail[i].id != tail[j].id {
          assert tail[i] == accounts[i + 1] && tail[j] == accounts[j + 1];
        }
      }
      DeleteKeepsIdsUnique(tail, id);
      var rest := WithoutId(tail, id);
      assert forall a :: a in rest ==> a.id != accounts[0].id by {
        forall a | a in rest ensures a.id != accounts[0].id {
          var k :| 0 <= k < |tail| && tail[k] == a;
          assert accounts[k + 1] == a;
        }
      }
    }
  }

  /** What the menu reports after "delete account" (Cobalt_Launcher_Nano_0.7_alpha.py:244-250). */
  datatype DeleteReport = NotANumber | ReportedDeleted | ReportedNotFound

  /** Menu choice 3: a digit string is turned into an id and deleted. */
  function DeleteCommand(accounts: seq<Account>, input: string): (r: (seq<Account>, DeleteReport))
    ensures !IsDigits(input) ==> r == (accounts, NotANumber)
    ensures IsDigits(input) ==> r.0 == WithoutId(accounts, DecimalValue(input))
  {
    if IsDigits(input) then
      var d := Delete(accounts, DecimalValue(input));
      (d.accounts, if d.ok then ReportedDeleted else ReportedNotFound)
    else (accounts, NotANumber)
  }

  /** Because `delete_account` always returns `True`, the menu's "not found" message
      can never be shown, even for an id that is not in the list. */
  lemma DeleteNeverReportsNotFound(accounts: seq<Account>, input: string)
    ensures DeleteCommand(accounts, input).1 != ReportedNotFound
    ensures IsDigits(input) ==> DeleteCommand(accounts, input).1 == ReportedDeleted
  {
  }

  /** The corrected delete: the flag says whether an account with that id was there. */
  function DeleteChecked(accounts: seq<Account>, id: int): (r: Deleted)
    ensures r.accounts == Delete(accounts, id).accounts
    ensures r.ok <==> HasId(accounts, id)
  {
    Deleted(WithoutId(accounts, id), HasId(accounts, id))
  }

  /** Menu choice 3 with the corrected delete. */
  function DeleteCommandChecked(accounts: seq<Account>, input: string): (r: (seq<Account>, DeleteReport))
    ensures r.0 == DeleteCommand(accounts, input).0
  {
    if IsDigits(input) then
      var d := DeleteChecked(accounts, DecimalValue(input));
      (d.accounts, if d.ok then ReportedDeleted else ReportedNotFound)
    else (accounts, NotANumber)
  }

  /** With the corrected delete the menu says "not found" exactly when no account has the
      typed id, and then the list is left as it was. */
  lemma CheckedDeleteReportsNotFound(accounts: seq<Account>, input: string)
    requires IsDigits(input)
    ensures DeleteCommandChecked(accounts, input).1 == ReportedNotFound <==> !HasId(accounts, DecimalValue(input))
    ensures DeleteCommandChecked(accounts, input).1 == ReportedNotFound ==>
              DeleteCommandChecked(accounts, input).0 == accounts
  {
    if !HasId(accounts, DecimalValue(input)) {
      WithoutAbsentId(accounts, DecimalValue(input));
    }
  }

  // ------------------------------------------------------------------ get

  /** `get_account_by_id(id)` (Cobalt_Launcher_Nano_0.7_alpha.py:84-89): the first account
      with that id, or none. */
  function FindById(accounts: seq<Account>, id: int): (r: Option<Account>)
    ensures r.None? <==> !HasId(accounts, id)
    ensures r.Some? ==> r.value in accounts && r.value.id == id
  {
    if |accounts| == 0 then None
    else if accounts[0].id == id then Some(accounts[0])
    else
      assert forall i :: 1 <= i < |accounts| ==> accounts[i] == accounts[1..][i - 1];
      FindById(accounts[1..], id)
  }

  /** `FindById` returns the earliest match even when ids repeat. */
  lemma {:induction false} FindByIdIsFirst(accounts: seq<Account>, id: int, k: nat)
    requires k < |accounts| && accounts[k].id == id
    requires forall j :: 0 <= j < k ==> accounts[j].id != id
    ensures FindById(accounts, id) == Some(accounts[k])
  {
    if k > 0 {
      FindByIdIsFirst(accounts[1..], id, k - 1);
    }
  }

  /** What the menu does on "select current account" (Cobalt_Launcher_Nano_0.7_alpha.py:252-261). */
  datatype SelectReport = SelectNotANumber | Selected(account: Account) | SelectNotFound

  /** Menu choice 4: a digit string names an account; if one has that id, the settings
      record's `current_account` becomes its id. */
  function SelectCommand(cfg: Config, accounts: seq<Account>, input: string): (r: (Config, SelectReport))
    ensures !r.1.Selected? ==> r.0 == cfg
    ensures !IsDigits(input) ==> r.1 == SelectNotANumber
    ensures r.1.Selected? ==> r.0 == cfg[AccountKey := Int(r.1.account.id)]
    ensures r.1.Selected? ==> r.1.account in accounts && r.1.account.id == DecimalValue(input)
    ensures IsDigits(input) && HasId(accounts, DecimalValue(input)) ==> r.1.Selected?
  {
    if !IsDigits(input) then (cfg, SelectNotANumber)
    else match FindById(accounts, DecimalValue(input))
      case Some(acc) => (cfg[AccountKey := Int(acc.id)], Selected(acc))
      case None => (cfg, SelectNotFound)
  }

  // ------------------------------------------------- finding: id re-use

  /** As written, a delete followed by an add can hand out an id that is still in use:
      with accounts 1 and 2, deleting 1 and adding a new account gives it id 2 again. */
  lemma DeleteThenAddDuplicatesId(now: string)
    ensures var start := AddAll([], ["a", "b"], now);
            var afterDelete := Delete(start, 1).accounts;
            var afterAdd := AddOffline(afterDelete, "c", now).accounts;
            |afterAdd| == 2 && afterAdd[0].id == 2 && afterAdd[1].id == 2 && !UniqueIds(afterAdd)
  {
    var start := AddAll([], ["a", "b"], now);
    assert start == [Account(1, "a", OfflineKind, now), Account(2, "b", OfflineKind, now)];
    var afterDelete := Delete(start, 1).accounts;
    assert afterDelete == [Account(2, "b", OfflineKind, now)];
  }

  /** Largest id in the list, 0 for the empty list. */
  function MaxId(accounts: seq<Account>): (m: int)
    ensures forall i :: 0 <= i < |accounts| ==> accounts[i].id <= m
    ensures |accounts| == 0 ==> m == 0
  {
    if |accounts| == 0 then 0
    else
      var rest := MaxId(accounts[1..]);
      assert forall i :: 1 <= i < |accounts| ==> accounts[i] == accounts[1..][i - 1];
      if |accounts| == 1 || accounts[0].id > rest then accounts[0].id else rest
  }

  /** The corrected add: the new id is one more than the largest id present, so it is
      never in use, whatever deletions came before. */
  function AddOfflineFresh(accounts: seq<Account>, username: string, now: string): (r: Added)
    ensures r.accounts == accounts + [r.account]
    ensures r.account.kind == OfflineKind && r.account.username == username
    ensures !HasId(accounts, r.account.id)
  {
    var account := Account(MaxId(accounts) + 1, username, OfflineKind, now);
    Added(accounts + [account], account)
  }

  /** The store's operations as the account menu issues them. */
  datatype StoreOp = AddOp(username: string) | DeleteOp(id: int)

  function ApplyFresh(accounts: seq<Account>, ops: seq<StoreOp>, now: string): seq<Account>
    decreases |ops|
  {
    if |ops| == 0 then accounts
    else
      var next := match ops[0]
        case AddOp(name) => AddOfflineFresh(accounts, name, now).accounts
        case DeleteOp(id) => Delete(accounts, id).accounts;
      ApplyFresh(next, ops[1..], now)
  }

  /** With the corrected add, ids stay distinct under any mix of adds and deletes. */
  lemma {:induction false} FreshOpsKeepIdsUnique(accounts: seq<Account>, ops: seq<StoreOp>, now: string)
    requires UniqueIds(accounts)
    ensures UniqueIds(ApplyFresh(accounts, ops, now))
    decreases |ops|
  {
    if |ops| > 0 {
      match ops[0]
      case AddOp(name) =>
        var r := AddOfflineFresh(accounts, name, now);
        assert UniqueIds(r.accounts) by {
          forall i, j | 0 <= i < j < |r.accounts| ensures r.accounts[i].id != r.accounts[j].id {
            if j == |accounts| {
              assert r.accounts[i] == accounts[i];
            } else {
              assert r.accounts[i] == accounts[i] && r.accounts[j] == accounts[j];
            }
          }
        }
        FreshOpsKeepIdsUnique(r.accounts, ops[1..], now);
      case DeleteOp(id) =>
        DeleteKeepsIdsUnique(accounts, id);
        FreshOpsKeepIdsUnique(Delete(accounts, id).accounts, ops[1..], now);
    }
  }
}
