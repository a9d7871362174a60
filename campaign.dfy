/** The two loops that drive a campaign (main.js): `sendtoAll`, which walks the recipient list for
    one wallet, and `startBot`, which walks the wallets. Each loop is a method that records what it
    does (balance reads, skips, sends, delays, aborts) in a trace, proved equal to a specification
    function; the properties of the campaign are lemmas about those functions. Randomness, the
    clock, the logger and the RPC replies are inputs indexed by position. */
module Campaign {
  import opened Common
  import opened Rpc
  import opened Primitives
  import opened Address
  import opened Account
  import opened SendResponse
  import opened Transfer
  import opened Passes

  /** `randomdelay()`: a whole number of milliseconds in [10000, 20000). */
  type DelayMs = ms: nat | 10000 <= ms < 20000 witness 10000

  /** `RandomAmount(0.01, 0.1, 2)`: an amount of units between 0.01 and 0.1. */
  type Amount = a: real | 0.01 <= a <= 0.1 witness 0.01

  /** Where in the handling of one recipient an exception escapes: before the balance is read
      (logging, drawing the amount), after it is read and before the send (logging the balance), or
      after the send and before the delay (logging the result). */
  datatype Stage = BeforeBalance | BeforeSend | AfterSend

  /** What the world supplies while one wallet runs, by recipient position: the random amount, the
      reply to the balance read, the network during the transfer, the random delay, and whether an
      exception escapes and where. */
  datatype Environment = Environment(amount: nat -> Amount, balance: nat -> Call<AccountRecord>,
                                     network: nat -> Network, pause: nat -> DelayMs,
                                     fault: nat -> Option<Stage>)

  /** What the loop body does for one recipient. `Interrupted` is an exception escaping before the
      send, after the balance read if `balanceRead` is present; a `Sent` whose `pause` is absent is an
      exception escaping after the send, before the delay. */
  datatype Action =
    | SkipSelf
    | Interrupted(balanceRead: Option<real>)
    | SkipLow(balance: real, amount: real)
    | Sent(balance: real, amount: real, outcome: TransferOutcome, pause: Option<nat>)

  /** One pass of the loop body: the position, the recipient there, and what happened. */
  datatype Visit = Visit(index: nat, to: string, action: Action)

  /** The loop ends after this pass: an exception escaped. */
  predicate Ends(v: Visit) {
    v.action.Interrupted? || (v.action.Sent? && v.action.pause.None?)
  }

  /** What the loop body does for the recipient at position `i`. */
  function Decide(wallet: Wallet, recipients: seq<string>, env: Environment, lib: Library, i: nat): Action
    requires i < |recipients|
  {
    var to := recipients[i];
    if to == wallet.address then SkipSelf
    else if env.fault(i) == Some(BeforeBalance) then Interrupted(None)
    else
      var amount := env.amount(i);
      var balance := Balance(env.balance(i));
      if env.fault(i) == Some(BeforeSend) then Interrupted(Some(balance))
      else if balance < amount then SkipLow(balance, amount)
      else
        var outcome := SendTransaction(wallet, to, amount, env.network(i), lib).outcome;
        Sent(balance, amount, outcome, if env.fault(i) == Some(AfterSend) then None else Some(env.pause(i)))
  }

  /** What the loop body would do at every position, each decided on its own. */
  function Visits(wallet: Wallet, recipients: seq<string>, env: Environment, lib: Library): (vs: seq<Visit>)
    ensures |vs| == |recipients|
    ensures forall k :: 0 <= k < |vs| ==> vs[k] == Visit(k, recipients[k], Decide(wallet, recipients, env, lib, k))
  {
    seq(|recipients|, k requires 0 <= k < |recipients| => Visit(k, recipients[k], Decide(wallet, recipients, env, lib, k)))
  }

  /** The passes of `sendtoAll` from position `i` on: one `try` surrounds the loop, so a pass that
      `Ends` it is the last. */
  function Steps(wallet: Wallet, recipients: seq<string>, env: Environment, lib: Library, i: nat): seq<Visit>
    requires i <= |recipients|
  {
    TakeThrough(Visits(wallet, recipients, env, lib), Ends, i)
  }

  /** One pass of the body of the `sendtoAll` loop for the recipient at position `i`; the returns
      stand for its `continue`s, and an `Ends` action for an exception leaving the loop. */
  method HandleRecipient(wallet: Wallet, recipients: seq<string>, env: Environment, lib: Library, i: nat)
    returns (action: Action)
    requires i < |recipients|
    ensures action == Decide(wallet, recipients, env, lib, i)
  {
    var to := recipients[i];
    if to == wallet.address {
      return SkipSelf;
    }
    if env.fault(i) == Some(BeforeBalance) {
      return Interrupted(None);
    }
    var amount := env.amount(i);
    var balance := Balance(env.balance(i));
    if env.fault(i) == Some(BeforeSend) {
      return Interrupted(Some(balance));
    }
    if balance < amount {
      return SkipLow(balance, amount);
    }
    var result := SendTransaction(wallet, to, amount, env.network(i), lib);
    if env.fault(i) == Some(AfterSend) {
      return Sent(balance, amount, result.outcome, None);
    }
    var pause := env.pause(i);
    action := Sent(balance, amount, result.outcome, Some(pause));
  }

  /** `sendtoAll(wallet)`. */
  method SendToAll(wallet: Wallet, recipients: seq<string>, env: Environment, lib: Library)
    returns (trace: seq<Visit>)
    ensures trace == Steps(wallet, recipients, env, lib, 0)
  {
    ghost var vs := Visits(wallet, recipients, env, lib);
    trace := [];
    var i := 0;
    while i < |recipients|
      invariant i <= |recipients|
      invariant trace + Steps(wallet, recipients, env, lib, i) == Steps(wallet, recipients, env, lib, 0)
    {
      var action := HandleRecipient(wallet, recipients, env, lib, i);
      var v := Visit(i, recipients[i], action);
      assert v == vs[i];
      TakeStep(vs, Ends, i, trace);
      trace := trace + [v];
      if Ends(v) {
        break;
      }
      i := i + 1;
    }
  }

  // ---------------------------------------------------------------------------------------------
  // Properties of one wallet's loop

  /** A recipient equal to the own address is skipped, and it is the only one skipped that way:
      for it no amount is drawn, no balance is read and nothing is sent. */
  predicate SelfSkippedOnly(v: Visit, wallet: Wallet) {
    v.action.SkipSelf? <==> v.to == wallet.address
  }

  /** A send goes out with the amount drawn for its position and only when the balance read there
      covers it; a low-balance skip is exactly the other case. */
  predicate Funded(v: Visit, env: Environment) {
    (v.action.Sent? ==>
       v.action.amount == env.amount(v.index) && v.action.balance == Balance(env.balance(v.index)) &&
       v.action.balance >= v.action.amount) &&
    (v.action.SkipLow? ==>
       v.action.amount == env.amount(v.index) && v.action.balance == Balance(env.balance(v.index)) &&
       v.action.balance < v.action.amount)
  }

  /** A send is followed by the delay drawn for its position unless an exception intervenes; no
      other action is followed by a delay. */
  predicate DelayedAfterSend(v: Visit, env: Environment) {
    v.action.Sent? ==>
      v.action.pause == if env.fault(v.index) == Some(AfterSend) then None else Some(env.pause(v.index) as nat)
  }

  lemma DecideFacts(wallet: Wallet, recipients: seq<string>, env: Environment, lib: Library, i: nat)
    requires i < |recipients|
    ensures var v := Visit(i, recipients[i], Decide(wallet, recipients, env, lib, i));
      SelfSkippedOnly(v, wallet) && Funded(v, env) && DelayedAfterSend(v, env)
  {
  }

  /** The k-th pass is for the k-th recipient from position `i`: positions are visited in list
      order, one pass each. */
  predicate InListOrder(trace: seq<Visit>, recipients: seq<string>, i: nat) {
    i + |trace| <= |recipients| &&
    forall k :: 0 <= k < |trace| ==> trace[k].index == i + k && trace[k].to == recipients[i + k]
  }

  predicate NoSelfContact(trace: seq<Visit>, wallet: Wallet) {
    forall k :: 0 <= k < |trace| ==> SelfSkippedOnly(trace[k], wallet)
  }

  predicate FundedSends(trace: seq<Visit>, env: Environment) {
    forall k :: 0 <= k < |trace| ==> Funded(trace[k], env)
  }

  predicate DelayAfterEachSend(trace: seq<Visit>, env: Environment) {
    forall k :: 0 <= k < |trace| ==> DelayedAfterSend(trace[k], env)
  }

  /** An exception ends the loop: it only ever happens in the last pass, and a loop that ran to
      the end of the list had none. */
  predicate AbortIsLast(trace: seq<Visit>, recipients: seq<string>, i: nat) {
    StopsOnlyLast(trace, Ends, |recipients|, i)
  }

  predicate VisitFacts(v: Visit, wallet: Wallet, env: Environment) {
    SelfSkippedOnly(v, wallet) && Funded(v, env) && DelayedAfterSend(v, env)
  }

  /** The passes from position `i` are those of positions `i`, `i + 1`, ... in turn. */
  lemma StepsAreVisits(wallet: Wallet, recipients: seq<string>, env: Environment, lib: Library, i: nat)
    requires i <= |recipients|
    ensures var s := Steps(wallet, recipients, env, lib, i);
      i + |s| <= |recipients| &&
      forall k :: 0 <= k < |s| ==> s[k] == Visit(i + k, recipients[i + k], Decide(wallet, recipients, env, lib, i + k))
  {
    var vs := Visits(wallet, recipients, env, lib);
    var s := TakeThrough(vs, Ends, i);
    TakeOrder(vs, Ends, i);
    forall k | 0 <= k < |s|
      ensures s[k] == Visit(i + k, recipients[i + k], Decide(wallet, recipients, env, lib, i + k))
    {
      assert s[k] == vs[i + k];
    }
  }

  /** Every pass of the loop keeps the per-visit facts. */
  lemma StepsFacts(wallet: Wallet, recipients: seq<string>, env: Environment, lib: Library, i: nat)
    requires i <= |recipients|
    ensures var s := Steps(wallet, recipients, env, lib, i);
      forall k :: 0 <= k < |s| ==> VisitFacts(s[k], wallet, env)
  {
    var s := Steps(wallet, recipients, env, lib, i);
    StepsAreVisits(wallet, recipients, env, lib, i);
    forall k | 0 <= k < |s| ensures VisitFacts(s[k], wallet, env) {
      DecideFacts(wallet, recipients, env, lib, i + k);
    }
  }

  /** What the loop does, as the source promises it: recipients are visited in list order, a
      recipient equal to the own address causes no draw, no balance read and no send, no send happens unless the balance covers the amount, a
      delay follows each send and nothing else, and an exception ends the wallet's loop. */
  lemma TraceProperties(wallet: Wallet, recipients: seq<string>, env: Environment, lib: Library)
    ensures var s := Steps(wallet, recipients, env, lib, 0);
      && InListOrder(s, recipients, 0) && NoSelfContact(s, wallet) && FundedSends(s, env)
      && DelayAfterEachSend(s, env) && AbortIsLast(s, recipients, 0)
  {
    StepsFacts(wallet, recipients, env, lib, 0);
    StepsAreVisits(wallet, recipients, env, lib, 0);
    TakeEnd(Visits(wallet, recipients, env, lib), Ends, 0);
  }

  /** Without exceptions the loop visits every recipient. */
  lemma NoFaultVisitsAll(wallet: Wallet, recipients: seq<string>, env: Environment, lib: Library, i: nat)
    requires i <= |recipients|
    requires forall p :: i <= p < |recipients| ==> env.fault(p).None?
    ensures |Steps(wallet, recipients, env, lib, i)| == |recipients| - i
  {
    var vs := Visits(wallet, recipients, env, lib);
    forall p | i <= p < |recipients| ensures !Ends(vs[p]) {
      assert vs[p].action == Decide(wallet, recipients, env, lib, p);
    }
    TakeAll(vs, Ends, i);
  }

  /** The replies and random draws at the wallet's own positions play no part: two environments
      that differ only there give the same passes. */
  lemma OwnPositionsIrrelevant(wallet: Wallet, recipients: seq<string>,
                               env1: Environment, env2: Environment, lib: Library, i: nat)
    requires i <= |recipients|
    requires forall p :: i <= p < |recipients| && recipients[p] != wallet.address ==>
      env1.amount(p) == env2.amount(p) && env1.balance(p) == env2.balance(p) &&
      env1.network(p) == env2.network(p) && env1.pause(p) == env2.pause(p) && env1.fault(p) == env2.fault(p)
    ensures Steps(wallet, recipients, env1, lib, i) == Steps(wallet, recipients, env2, lib, i)
  {
    var vs1 := Visits(wallet, recipients, env1, lib);
    var vs2 := Visits(wallet, recipients, env2, lib);
    forall p | i <= p < |recipients| ensures vs1[p] == vs2[p] {
      assert Decide(wallet, recipients, env1, lib, p) == Decide(wallet, recipients, env2, lib, p);
    }
    TakeAgree(vs1, vs2, Ends, i);
  }

  // ---------------------------------------------------------------------------------------------
  // The wallets

  /** What `startBot` does for one key: the address derivation throws, or the wallet's loop runs and
      is followed by a delay. */
  datatype WalletRun =
    | InvalidKey(index: nat)
    | Ran(index: nat, address: string, trace: seq<Visit>, pause: nat)

  /** What `startBot` does for the key at position `w`: the address derivation throws, or the
      wallet's loop runs and is followed by a delay. */
  function Entry(keys: seq<string>, recipients: seq<string>, envs: nat -> Environment,
                 pauses: nat -> DelayMs, lib: Library, w: nat): WalletRun
    requires w < |keys|
  {
    match AddressOf(lib.fromBase64(keys[w]), lib)
    case Failure(_) => InvalidKey(w)
    case Success(address) => Ran(w, address, Steps(Wallet(address, keys[w]), recipients, envs(w), lib, 0), pauses(w))
  }

  function Entries(keys: seq<string>, recipients: seq<string>, envs: nat -> Environment,
                   pauses: nat -> DelayMs, lib: Library): (es: seq<WalletRun>)
    ensures |es| == |keys|
    ensures forall w :: 0 <= w < |es| ==> es[w] == Entry(keys, recipients, envs, pauses, lib, w)
  {
    seq(|keys|, w requires 0 <= w < |keys| => Entry(keys, recipients, envs, pauses, lib, w))
  }

  /** The run stops after this entry: the address derivation threw. */
  predicate Stopped(r: WalletRun) {
    r.InvalidKey?
  }

  /** The wallets of `startBot` from position `w` on: nothing in `startBot` catches the exception
      an invalid key throws, so the run ends there. */
  function Run(keys: seq<string>, recipients: seq<string>, envs: nat -> Environment,
               pauses: nat -> DelayMs, lib: Library, w: nat): seq<WalletRun>
    requires w <= |keys|
  {
    TakeThrough(Entries(keys, recipients, envs, pauses, lib), Stopped, w)
  }

  /** `startBot()` after the banner: every wallet in turn, its recipient loop, then a delay. */
  method StartBot(keys: seq<string>, recipients: seq<string>, envs: nat -> Environment,
                  pauses: nat -> DelayMs, lib: Library) returns (log: seq<WalletRun>)
    ensures log == Run(keys, recipients, envs, pauses, lib, 0)
  {
    ghost var es := Entries(keys, recipients, envs, pauses, lib);
    log := [];
    var w := 0;
    while w < |keys|
      invariant w <= |keys|
      invariant log + Run(keys, recipients, envs, pauses, lib, w) == Run(keys, recipients, envs, pauses, lib, 0)
    {
      var derived := PrivateKeyToOctAddress(lib.fromBase64(keys[w]), lib);
      TakeStep(es, Stopped, w, log);
      if derived.Failure? {
        assert es[w] == InvalidKey(w);
        log := log + [InvalidKey(w)];
        break;
      }
      var wallet := Wallet(derived.value, keys[w]);
      var trace := SendToAll(wallet, recipients, envs(w), lib);
      var pause := pauses(w);
      var entry := Ran(w, wallet.address, trace, pause);
      assert es[w] == entry;
      log := log + [entry];
      w := w + 1;
    }
  }

  predicate ValidKey(key: string, lib: Library) {
    |lib.fromBase64(key)| == 32 || |lib.fromBase64(key)| == 64
  }

  /** The entry for key position `index`: it is an invalid-key entry exactly when the key has a
      wrong length, and a wallet that ran has the address its key derives and the passes of its
      own loop. */
  predicate Derived(r: WalletRun, keys: seq<string>, recipients: seq<string>, envs: nat -> Environment,
                    lib: Library) {
    r.index < |keys| &&
    (r.InvalidKey? <==> !ValidKey(keys[r.index], lib)) &&
    (r.Ran? ==>
       AddressOf(lib.fromBase64(keys[r.index]), lib) == Success(r.address) &&
       r.trace == Steps(Wallet(r.address, keys[r.index]), recipients, envs(r.index), lib, 0))
  }

  /** The k-th entry is for the k-th key from position `w`; an invalid key is the last entry, and
      only an invalid key stops the run before the end of the list. An exception inside one
      wallet's loop therefore never keeps the next wallet from running. */
  predicate RunShape(r: seq<WalletRun>, keys: seq<string>, recipients: seq<string>, envs: nat -> Environment,
                     lib: Library, w: nat) {
    EntriesDerived(r, keys, recipients, envs, lib, w) && StopIsLast(r, keys, w)
  }

  predicate EntriesDerived(r: seq<WalletRun>, keys: seq<string>, recipients: seq<string>, envs: nat -> Environment,
                           lib: Library, w: nat) {
    w + |r| <= |keys| &&
    forall k :: 0 <= k < |r| ==> r[k].index == w + k && Derived(r[k], keys, recipients, envs, lib)
  }

  predicate StopIsLast(r: seq<WalletRun>, keys: seq<string>, w: nat) {
    StopsOnlyLast(r, Stopped, |keys|, w)
  }

  /** The entry for key position `w` is for that key and derived from it. */
  lemma EntryDerived(keys: seq<string>, recipients: seq<string>, envs: nat -> Environment,
                     pauses: nat -> DelayMs, lib: Library, w: nat)
    requires w < |keys|
    ensures var e := Entry(keys, recipients, envs, pauses, lib, w);
      e.index == w && Derived(e, keys, recipients, envs, lib)
  {
  }

  lemma RunDerived(keys: seq<string>, recipients: seq<string>, envs: nat -> Environment,
                   pauses: nat -> DelayMs, lib: Library, w: nat)
    requires w <= |keys|
    ensures EntriesDerived(Run(keys, recipients, envs, pauses, lib, w), keys, recipients, envs, lib, w)
  {
    var es := Entries(keys, recipients, envs, pauses, lib);
    var r := TakeThrough(es, Stopped, w);
    TakeOrder(es, Stopped, w);
    forall k | 0 <= k < |r| ensures r[k].index == w + k && Derived(r[k], keys, recipients, envs, lib) {
      assert r[k] == es[w + k];
      EntryDerived(keys, recipients, envs, pauses, lib, w + k);
    }
  }

  lemma RunStops(keys: seq<string>, recipients: seq<string>, envs: nat -> Environment,
                 pauses: nat -> DelayMs, lib: Library, w: nat)
    requires w <= |keys|
    ensures StopIsLast(Run(keys, recipients, envs, pauses, lib, w), keys, w)
  {
    var es := Entries(keys, recipients, envs, pauses, lib);
    var r := TakeThrough(es, Stopped, w);
    TakeEnd(es, Stopped, w);
  }

  lemma RunProperties(keys: seq<string>, recipients: seq<string>, envs: nat -> Environment,
                      pauses: nat -> DelayMs, lib: Library, w: nat)
    requires w <= |keys|
    ensures RunShape(Run(keys, recipients, envs, pauses, lib, w), keys, recipients, envs, lib, w)
  {
    RunDerived(keys, recipients, envs, pauses, lib, w);
    RunStops(keys, recipients, envs, pauses, lib, w);
  }

  /** When every key has a valid length, every wallet runs, in key order. */
  lemma EveryWalletRuns(keys: seq<string>, recipients: seq<string>, envs: nat -> Environment,
                        pauses: nat -> DelayMs, lib: Library)
    requires forall p :: 0 <= p < |keys| ==> ValidKey(keys[p], lib)
    ensures var r := Run(keys, recipients, envs, pauses, lib, 0);
      |r| == |keys| && forall k :: 0 <= k < |r| ==> r[k].Ran? && r[k].index == k
  {
    RunProperties(keys, recipients, envs, pauses, lib, 0);
  }
}
