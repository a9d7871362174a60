/** Account state read over RPC (main.js): the next nonce from the confirmed record and the staging
    pool (`getCurrentNonce`), and the spendable balance (`getBalance`). Both work on the already
    parsed replies of GET /balance/{address} and GET /staging. */
module Account {
  import opened Common
  import opened Rpc

  /** The body of GET /balance/{address}. A field that is absent (or falsy, so that `|| 0`
      replaces it) is None. The balance is in whole units, as an exact number. */
  datatype AccountRecord = AccountRecord(nonce: Option<nat>, balance: Option<real>)

  /** One entry of `staged_transactions`; only the sender and the nonce are read. */
  datatype StagedTx = StagedTx(from: string, nonce: Option<nat>)

  /** The body of GET /staging. */
  datatype StagingPool = StagingPool(stagedTransactions: Option<seq<StagedTx>>)

  /** The nonce of a staged entry, `parseInt(tx.nonce || 0)`. */
  function EntryNonce(tx: StagedTx): nat {
    tx.nonce.GetOr(0)
  }

  /** The confirmed nonce: the record's nonce when the read returned 200 with a body, else 0. */
  function ConfirmedNonce(read: Call<AccountRecord>): (n: nat)
    ensures n != 0 ==> IsOkWithData(read)
  {
    if IsOkWithData(read) then read.response.data.value.nonce.GetOr(0) else 0
  }

  /** The staged entries a staging read contributes: those of a 200 reply with a body, else none. */
  function StagedEntries(read: Call<StagingPool>): seq<StagedTx> {
    if IsOkWithData(read) then read.response.data.value.stagedTransactions.GetOr([]) else []
  }

  /** `stagedTxs.filter(tx => tx.from === address).map(tx => parseInt(tx.nonce || 0))`: the nonces
      of exactly this sender's entries, in pool order. */
  function OwnNonces(address: string, txs: seq<StagedTx>): (r: seq<nat>)
    ensures |r| <= |txs|
    ensures forall tx :: tx in txs && tx.from == address ==> EntryNonce(tx) in r
    ensures forall n :: n in r ==> exists tx :: tx in txs && tx.from == address && EntryNonce(tx) == n
  {
    if txs == [] then []
    else
      var rest := OwnNonces(address, txs[1..]);
      assert forall tx :: tx in txs[1..] ==> tx in txs;
      if txs[0].from == address then [EntryNonce(txs[0])] + rest else rest
  }

  /** `Math.max(...xs)` of a non-empty list. */
  function Max(xs: seq<nat>): (m: nat)
    requires |xs| > 0
    ensures m in xs
    ensures forall x :: x in xs ==> x <= m
  {
    if |xs| == 1 then xs[0]
    else
      var m := Max(xs[1..]);
      assert forall x :: x in xs ==> x == xs[0] || x in xs[1..];
      if xs[0] >= m then xs[0] else m
  }

  /** `getCurrentNonce`: the larger of the confirmed nonce and this sender's largest staged nonce;
      0 when either read threw (the `catch` returns 0). It is an upper bound of the confirmed nonce
      and of every staged nonce of this sender, and it is one of them. */
  function ResolveNonce(address: string, balance: Call<AccountRecord>, staging: Call<StagingPool>): (r: nat)
    ensures balance.Threw? || staging.Threw? ==> r == 0
    ensures balance.Returned? && staging.Returned? ==>
      && r >= ConfirmedNonce(balance)
      && (forall tx :: tx in StagedEntries(staging) && tx.from == address ==> EntryNonce(tx) <= r)
      && (r == ConfirmedNonce(balance) ||
          exists tx :: tx in StagedEntries(staging) && tx.from == address && EntryNonce(tx) == r)
  {
    if balance.Threw? || staging.Threw? then 0
    else
      var confirmed := ConfirmedNonce(balance);
      var own := OwnNonces(address, StagedEntries(staging));
      if |own| > 0 then
        var maxStaged := Max(own);
        if confirmed >= maxStaged then confirmed else maxStaged
      else confirmed
  }

  /** Own nonces of a concatenated pool are those of each part, in order. */
  lemma {:induction false} OwnNoncesAppend(address: string, xs: seq<StagedTx>, ys: seq<StagedTx>)
    ensures OwnNonces(address, xs + ys) == OwnNonces(address, xs) + OwnNonces(address, ys)
  {
    if xs == [] {
      assert xs + ys == ys;
    } else {
      assert (xs + ys)[1..] == xs[1..] + ys;
      OwnNoncesAppend(address, xs[1..], ys);
    }
  }

  /** Adding another sender's entry anywhere in the pool never changes the resolved nonce. */
  lemma OtherSendersIgnored(address: string, balance: Call<AccountRecord>, status: int,
                            xs: seq<StagedTx>, other: StagedTx, ys: seq<StagedTx>, text: Option<string>)
    requires other.from != address
    ensures ResolveNonce(address, balance, Returned(Response(status, Some(StagingPool(Some(xs + [other] + ys))), text)))
         == ResolveNonce(address, balance, Returned(Response(status, Some(StagingPool(Some(xs + ys))), text)))
  {
    OwnNoncesAppend(address, xs + [other], ys);
    OwnNoncesAppend(address, xs, [other]);
    OwnNoncesAppend(address, xs, ys);
    assert OwnNonces(address, [other]) == [];
  }

  /** When both reads return 200 with a body, the resolved nonce is the confirmed nonce (0 if
      absent) or, if this sender has staged entries, the larger of it and their largest nonce. */
  lemma ResolveBothRead(address: string, record: AccountRecord, pool: StagingPool,
                        balanceText: Option<string>, stagingText: Option<string>)
    ensures var r := ResolveNonce(address, Returned(Response(StatusOk, Some(record), balanceText)),
                                           Returned(Response(StatusOk, Some(pool), stagingText)));
      var confirmed := record.nonce.GetOr(0);
      var own := OwnNonces(address, pool.stagedTransactions.GetOr([]));
      r == if own == [] then confirmed else if Max(own) > confirmed then Max(own) else confirmed
  {
  }

  /** A worked case: confirmed nonce 5, a staged nonce 7 of this sender and a staged nonce 9 of
      another sender resolve to 7. */
  lemma ResolveExample()
    ensures ResolveNonce("a",
      Returned(Response(StatusOk, Some(AccountRecord(Some(5), None)), None)),
      Returned(Response(StatusOk, Some(StagingPool(Some([StagedTx("b", Some(9)), StagedTx("a", Some(7))]))), None))) == 7
  {
    var t9, t7 := StagedTx("b", Some(9)), StagedTx("a", Some(7));
    assert OwnNonces("a", [t7]) == [7];
    assert [t9, t7][1..] == [t7];
    assert OwnNonces("a", [t9, t7]) == [7];
    ResolveBothRead("a", AccountRecord(Some(5), None), StagingPool(Some([t9, t7])), None, None);
  }

  /** `getBalance`: the record's balance when the read returned 200 with a body; 0 otherwise,
      including when the read threw. */
  function Balance(read: Call<AccountRecord>): (b: real)
    ensures b != 0.0 ==> IsOkWithData(read) && read.response.data.value.balance == Some(b)
    ensures IsOkWithData(read) ==> b == read.response.data.value.balance.GetOr(0.0)
  {
    if IsOkWithData(read) then read.response.data.value.balance.GetOr(0.0) else 0.0
  }
}
