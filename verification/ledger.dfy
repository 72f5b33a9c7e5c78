/** The account ledger behind the Express backend: the `users` collection as a
    map from e-mail address to account, and the `transactions` collection as
    an append-only log. `/api/register` and `/api/transfer` are pure state
    transitions over it. */
module Ledger {
  import opened Util

  type Email = string

  /** Opening balance given to every newly registered account: 1000 in the
      currency, counted here in cents like every amount of the model. */
  const InitialBalance: int := 100_000

  /** A document of the `users` collection. The password is kept opaque: the
      bcrypt hash the source stores is a foreign computation. */
  datatype Account = Account(
    fullName: string,
    email: Email,
    password: string,
    isAdmin: bool,
    balance: int,
    createdAt: int)

  /** A document of the `transactions` collection. `note` is whatever the
      request carried, possibly nothing. */
  datatype TxRecord = TxRecord(
    senderEmail: Email,
    recipientEmail: Email,
    amount: int,
    note: Option<string>,
    timestamp: int)

  /** Both collections. Keying the accounts by e-mail reflects that the
      registration handler never admits a second account with the same address. */
  datatype State = State(accounts: map<Email, Account>, log: seq<TxRecord>)

  /** The HTTP 400 "All fields are required." and "User already exists" replies. */
  datatype RegisterError = MissingField | AlreadyExists

  /** The HTTP 400 "Invalid transfer data.", 404 "Sender or recipient not found."
      and 400 "Insufficient funds." replies. */
  datatype TransferError = InvalidTransferData | NotFound | InsufficientFunds

  datatype Reply<+E> = Done | Rejected(error: E)

  /** The state after a request together with the reply sent to the caller. */
  datatype Step<+E> = Step(state: State, reply: Reply<E>)

  /** The account a successful registration inserts. */
  function NewAccount(fullName: string, email: Email, password: string, now: int): Account
  {
    Account(fullName, email, password, false, InitialBalance, now)
  }

  /** `/api/register`: an empty field is rejected first, then an address already
      in use; otherwise exactly one fresh account is inserted. */
  function Register(st: State, fullName: string, email: Email, password: string, now: int): (r: Step<RegisterError>)
    ensures r.reply == Rejected(MissingField) <==> fullName == [] || email == [] || password == []
    ensures r.reply == Rejected(AlreadyExists) <==>
              fullName != [] && email != [] && password != [] && email in st.accounts
    ensures r.reply.Rejected? ==> r.state == st
    ensures r.reply.Done? ==>
              && email !in st.accounts
              && r.state.log == st.log
              && r.state.accounts.Keys == st.accounts.Keys + {email}
              && r.state.accounts[email].balance == InitialBalance
              && !r.state.accounts[email].isAdmin
              && r.state.accounts[email].email == email
              && r.state.accounts[email].fullName == fullName
              && r.state.accounts[email].createdAt == now
              && (forall e :: e in st.accounts ==> r.state.accounts[e] == st.accounts[e])
  {
    if fullName == [] || email == [] || password == [] then
      Step(st, Rejected(MissingField))
    else if email in st.accounts then
      Step(st, Rejected(AlreadyExists))
    else
      Step(State(st.accounts[email := NewAccount(fullName, email, password, now)], st.log), Done)
  }

  /** The `$inc` update applied to one account document. */
  function Increment(accts: map<Email, Account>, e: Email, delta: int): (r: map<Email, Account>)
    requires e in accts
    ensures r.Keys == accts.Keys
    ensures r[e] == accts[e].(balance := accts[e].balance + delta)
    ensures forall x :: x in accts && x != e ==> r[x] == accts[x]
  {
    accts[e := accts[e].(balance := accts[e].balance + delta)]
  }

  /** The debit-then-credit of a successful transfer. */
  function Settle(accts: map<Email, Account>, sender: Email, recipient: Email, m: int): (r: map<Email, Account>)
    requires sender in accts && recipient in accts
    ensures r.Keys == accts.Keys
    ensures forall e :: e in accts ==>
              r[e] == accts[e].(balance := accts[e].balance + Movement(e, sender, recipient, m))
  {
    Increment(Increment(accts, sender, -m), recipient, m)
  }

  /** The signed effect of a transfer of `amount` from `sender` to `recipient`
      on the balance of `e`. */
  function Movement(e: Email, sender: Email, recipient: Email, amount: int): int
  {
    (if e == recipient then amount else 0) - (if e == sender then amount else 0)
  }

  /** `/api/transfer`. The request is validated before any lookup, then both
      accounts must exist, then the sender must hold at least `amount`
      (`amount` is in cents, and `None` when it does not parse as a number). On success the
      sender is debited, the recipient credited, as two successive updates, and
      one record stamped `now` is appended to the log. A self-transfer is
      accepted: its debit and credit cancel. */
  function Transfer(st: State, senderEmail: Email, recipientEmail: Email, amount: Option<int>,
                    note: Option<string>, now: int): (r: Step<TransferError>)
    ensures r.reply == Rejected(InvalidTransferData) <==>
              senderEmail == [] || recipientEmail == [] || amount.None? || amount.value <= 0
    ensures r.reply == Rejected(NotFound) <==>
              && senderEmail != [] && recipientEmail != [] && amount.Some? && amount.value > 0
              && (senderEmail !in st.accounts || recipientEmail !in st.accounts)
    ensures r.reply == Rejected(InsufficientFunds) <==>
              && senderEmail != [] && recipientEmail != [] && amount.Some? && amount.value > 0
              && senderEmail in st.accounts && recipientEmail in st.accounts
              && st.accounts[senderEmail].balance < amount.value
    ensures r.reply.Rejected? ==> r.state == st
    ensures r.reply.Done? ==>
              && amount.Some? && amount.value > 0
              && senderEmail in st.accounts && recipientEmail in st.accounts
              && r.state.log == st.log + [TxRecord(senderEmail, recipientEmail, amount.value, note, now)]
              && r.state.accounts.Keys == st.accounts.Keys
              && r.state.accounts[senderEmail].balance >= 0
              && (forall e :: e in st.accounts ==>
                    r.state.accounts[e] == st.accounts[e].(balance := st.accounts[e].balance
                      + Movement(e, senderEmail, recipientEmail, amount.value)))
  {
    if senderEmail == [] || recipientEmail == [] || amount.None? || amount.value <= 0 then
      Step(st, Rejected(InvalidTransferData))
    else if senderEmail !in st.accounts || recipientEmail !in st.accounts then
      Step(st, Rejected(NotFound))
    else if st.accounts[senderEmail].balance < amount.value then
      Step(st, Rejected(InsufficientFunds))
    else
      var m := amount.value;
      Step(State(Settle(st.accounts, senderEmail, recipientEmail, m), st.log + [TxRecord(senderEmail, recipientEmail, m, note, now)]), Done)
  }

  /** A self-transfer that succeeds leaves the account's balance as it was, yet
      still logs a record. */
  lemma SelfTransferKeepsBalance(st: State, e: Email, amount: Option<int>, note: Option<string>, now: int)
    requires Transfer(st, e, e, amount, note, now).reply.Done?
    ensures Transfer(st, e, e, amount, note, now).state.accounts[e] == st.accounts[e]
    ensures |Transfer(st, e, e, amount, note, now).state.log| == |st.log| + 1
  {
  }

  /** A balance exactly equal to the amount is enough: the funds check is strict. */
  lemma ExactBalanceSuffices(st: State, s: Email, t: Email, m: int, note: Option<string>, now: int)
    requires s != [] && t != [] && m > 0
    requires s in st.accounts && t in st.accounts && st.accounts[s].balance == m
    ensures Transfer(st, s, t, Some(m), note, now).reply.Done?
    ensures s != t ==> Transfer(st, s, t, Some(m), note, now).state.accounts[s].balance == 0
  {
  }

  // ---------------------------------------------------------------------------
  // Total money

  /** Sum of the balances of the accounts whose addresses are in `keys`. */
  ghost function SumBalances(accts: map<Email, Account>, keys: set<Email>): int
    requires keys <= accts.Keys
    decreases keys
  {
    if keys == {} then 0
    else
      var k :| k in keys;
      accts[k].balance + SumBalances(accts, keys - {k})
  }

  /** The money held by all accounts together. */
  ghost function TotalBalance(accts: map<Email, Account>): int
  {
    SumBalances(accts, accts.Keys)
  }

  /** Any element can be split off first, whichever one the sum happened to pick. */
  lemma {:induction false} SumBalancesRemove(accts: map<Email, Account>, keys: set<Email>, k: Email)
    requires keys <= accts.Keys && k in keys
    ensures SumBalances(accts, keys) == accts[k].balance + SumBalances(accts, keys - {k})
    decreases keys
  {
    var j :| j in keys && SumBalances(accts, keys) == accts[j].balance + SumBalances(accts, keys - {j});
    if j != k {
      SumBalancesRemove(accts, keys - {j}, k);
      SumBalancesRemove(accts, keys - {k}, j);
      assert keys - {j} - {k} == keys - {k} - {j};
    }
  }

  /** The sum depends only on the balances of the summed accounts. */
  lemma {:induction false} SumBalancesFrame(a: map<Email, Account>, b: map<Email, Account>, keys: set<Email>)
    requires keys <= a.Keys && keys <= b.Keys
    requires forall e :: e in keys ==> a[e].balance == b[e].balance
    ensures SumBalances(a, keys) == SumBalances(b, keys)
    decreases keys
  {
    if keys != {} {
      var k :| k in keys && SumBalances(a, keys) == a[k].balance + SumBalances(a, keys - {k});
      SumBalancesRemove(b, keys, k);
      SumBalancesFrame(a, b, keys - {k});
    }
  }

  /** Replacing one account changes the total by the change of its balance;
      inserting a new one adds its balance. */
  lemma TotalBalanceUpdate(accts: map<Email, Account>, k: Email, v: Account)
    ensures k in accts ==>
              TotalBalance(accts[k := v]) == TotalBalance(accts) - accts[k].balance + v.balance
    ensures k !in accts ==> TotalBalance(accts[k := v]) == TotalBalance(accts) + v.balance
  {
    var updated := accts[k := v];
    SumBalancesRemove(updated, updated.Keys, k);
    SumBalancesFrame(updated, accts, accts.Keys - {k});
    if k in accts {
      assert updated.Keys == accts.Keys;
      SumBalancesRemove(accts, accts.Keys, k);
    } else {
      assert updated.Keys - {k} == accts.Keys - {k};
      assert accts.Keys - {k} == accts.Keys;
    }
  }

  /** An `$inc` update changes the total by exactly its increment. */
  lemma IncrementTotal(accts: map<Email, Account>, e: Email, delta: int)
    requires e in accts
    ensures TotalBalance(Increment(accts, e, delta)) == TotalBalance(accts) + delta
  {
    TotalBalanceUpdate(accts, e, accts[e].(balance := accts[e].balance + delta));
  }

  lemma SettleConservesTotal(accts: map<Email, Account>, sender: Email, recipient: Email, m: int)
    requires sender in accts && recipient in accts
    ensures TotalBalance(Settle(accts, sender, recipient, m)) == TotalBalance(accts)
  {
    IncrementTotal(accts, sender, -m);
    IncrementTotal(Increment(accts, sender, -m), recipient, m);
  }

  /** A transfer, successful or not, preserves the money in the system. */
  lemma TransferConservesTotal(st: State, s: Email, t: Email, amount: Option<int>, note: Option<string>, now: int)
    ensures TotalBalance(Transfer(st, s, t, amount, note, now).state.accounts) == TotalBalance(st.accounts)
  {
    var r := Transfer(st, s, t, amount, note, now);
    if r.reply.Done? {
      SettleConservesTotal(st.accounts, s, t, amount.value);
    }
  }

  /** A successful registration adds exactly the opening balance to the total. */
  lemma RegisterAddsInitialBalance(st: State, fullName: string, email: Email, password: string, now: int)
    ensures var r := Register(st, fullName, email, password, now);
            TotalBalance(r.state.accounts)
              == TotalBalance(st.accounts) + (if r.reply.Done? then InitialBalance else 0)
  {
    if fullName != [] && email != [] && password != [] && email !in st.accounts {
      TotalBalanceUpdate(st.accounts, email, NewAccount(fullName, email, password, now));
    }
  }

  // ---------------------------------------------------------------------------
  // Sequences of requests

  datatype Request =
    | RegisterRequest(fullName: string, email: Email, password: string, now: int)
    | TransferRequest(senderEmail: Email, recipientEmail: Email, amount: Option<int>,
                      note: Option<string>, now: int)

  /** The state after serving one request. */
  function Apply(st: State, req: Request): State
  {
    match req
    case RegisterRequest(n, e, p, now) => Register(st, n, e, p, now).state
    case TransferRequest(s, t, m, note, now) => Transfer(st, s, t, m, note, now).state
  }

  /** The state after serving the requests one after another. */
  function Run(st: State, reqs: seq<Request>): State
    decreases |reqs|
  {
    if reqs == [] then st else Run(Apply(st, reqs[0]), reqs[1..])
  }

  /** The ledger invariant: every account is filed under its own address and
      holds a non-negative balance, and every logged record moves a positive
      amount between registered accounts. */
  ghost predicate Valid(st: State)
  {
    && (forall e :: e in st.accounts ==> st.accounts[e].email == e && st.accounts[e].balance >= 0)
    && (forall i :: 0 <= i < |st.log| ==>
          && st.log[i].amount > 0
          && st.log[i].senderEmail in st.accounts
          && st.log[i].recipientEmail in st.accounts)
  }

  /** Every request keeps the ledger valid, no account is ever removed, and the
      log only grows. */
  lemma ApplyPreservesValid(st: State, req: Request)
    requires Valid(st)
    ensures Valid(Apply(st, req))
    ensures st.accounts.Keys <= Apply(st, req).accounts.Keys
    ensures st.log <= Apply(st, req).log
  {
    var st' := Apply(st, req);
    assert st.log <= st'.log;
    forall i | 0 <= i < |st'.log|
      ensures st'.log[i].amount > 0
      ensures st'.log[i].senderEmail in st'.accounts && st'.log[i].recipientEmail in st'.accounts
    {
      if i < |st.log| {
        assert st'.log[i] == st.log[i];
      }
    }
  }

  lemma {:induction false} RunPreservesValid(st: State, reqs: seq<Request>)
    requires Valid(st)
    ensures Valid(Run(st, reqs))
    ensures st.accounts.Keys <= Run(st, reqs).accounts.Keys
    ensures st.log <= Run(st, reqs).log
    decreases |reqs|
  {
    if reqs != [] {
      ApplyPreservesValid(st, reqs[0]);
      RunPreservesValid(Apply(st, reqs[0]), reqs[1..]);
    }
  }

  /** The money in the system is always the opening balances of the accounts
      registered so far: transfers never create or destroy any. */
  lemma {:induction false} RunTotalBalance(st: State, reqs: seq<Request>)
    ensures st.accounts.Keys <= Run(st, reqs).accounts.Keys
    ensures TotalBalance(Run(st, reqs).accounts)
              == TotalBalance(st.accounts)
                 + InitialBalance * (|Run(st, reqs).accounts| - |st.accounts|)
    decreases |reqs|
  {
    if reqs != [] {
      var st1 := Apply(st, reqs[0]);
      RunTotalBalance(st1, reqs[1..]);
      match reqs[0]
      case RegisterRequest(n, e, p, now) =>
        RegisterAddsInitialBalance(st, n, e, p, now);
        if Register(st, n, e, p, now).reply.Done? {
          assert |st1.accounts.Keys| == |st.accounts.Keys| + 1;
        }
      case TransferRequest(s, t, m, note, now) =>
        TransferConservesTotal(st, s, t, m, note, now);
    }
  }

  // ---------------------------------------------------------------------------
  // Reconciliation against the log

  /** The signed effect of one record on the balance of `e`. */
  function Flow(e: Email, t: TxRecord): int
  {
    Movement(e, t.senderEmail, t.recipientEmail, t.amount)
  }

  /** Credits minus debits of `e` over a stretch of the log. */
  function NetFlow(e: Email, log: seq<TxRecord>): int
    decreases |log|
  {
    if log == [] then 0 else Flow(e, log[0]) + NetFlow(e, log[1..])
  }

  lemma {:induction false} NetFlowAppend(e: Email, a: seq<TxRecord>, b: seq<TxRecord>)
    ensures NetFlow(e, a + b) == NetFlow(e, a) + NetFlow(e, b)
    decreases |a|
  {
    if a == [] {
      assert a + b == b;
    } else {
      assert (a + b)[0] == a[0];
      assert (a + b)[1..] == a[1..] + b;
      NetFlowAppend(e, a[1..], b);
    }
  }

  /** What `e` started with: its balance in `st`, or the opening balance if it
      registers later. */
  function Opening(st: State, e: Email): int
  {
    if e in st.accounts then st.accounts[e].balance else InitialBalance
  }

  /** One request changes each starting figure by the net flow of the records
      it appended. */
  lemma ApplyReconciles(st: State, req: Request, e: Email)
    requires Valid(st)
    ensures st.log <= Apply(st, req).log
    ensures Opening(Apply(st, req), e) == Opening(st, e) + NetFlow(e, Apply(st, req).log[|st.log|..])
  {
    var st' := Apply(st, req);
    ApplyPreservesValid(st, req);
    if |st'.log| == |st.log| {
      assert st'.log[|st.log|..] == [];
    } else {
      var rec := st'.log[|st.log|];
      assert st'.log[|st.log|..] == [rec];
      assert NetFlow(e, [rec]) == Flow(e, rec);
    }
  }

  /** Reconciliation: after any sequence of requests, the balance of every
      account equals what it started with plus its credits minus its debits in
      the records appended meanwhile. */
  lemma {:induction false} RunReconciles(st: State, reqs: seq<Request>, e: Email)
    requires Valid(st)
    requires e in Run(st, reqs).accounts
    ensures st.log <= Run(st, reqs).log
    ensures Run(st, reqs).accounts[e].balance
              == Opening(st, e) + NetFlow(e, Run(st, reqs).log[|st.log|..])
    decreases |reqs|
  {
    RunPreservesValid(st, reqs);
    if reqs == [] {
      assert st.log[|st.log|..] == [];
    } else {
      var st1 := Apply(st, reqs[0]);
      var fin := Run(st, reqs);
      ApplyReconciles(st, reqs[0], e);
      ApplyPreservesValid(st, reqs[0]);
      RunReconciles(st1, reqs[1..], e);
      assert fin.log[|st.log|..] == st1.log[|st.log|..] + fin.log[|st1.log|..];
      NetFlowAppend(e, st1.log[|st.log|..], fin.log[|st1.log|..]);
    }
  }
}
