/** One transfer, `sendTransaction` (main.js): resolve the nonce, decode the key, build and sign the
    transaction, post it, and interpret the reply. Every error inside is caught and reported as a
    failed outcome. The replies of the three RPC calls and the timestamp are inputs. */
module Transfer {
  import opened Common
  import opened Rpc
  import opened Primitives
  import opened Address
  import opened Account
  import opened SigningCodec
  import opened SendResponse

  /** The message `getKeyPair` throws whatever went wrong while reading the key. */
  const InvalidKeyError: string := "Invalid private key format"

  /** A wallet: its address and its private key as the base64 text it was loaded as. */
  datatype Wallet = Wallet(address: string, privateKey: string)

  /** `getKeyPair`: the key pair of a 32-byte seed or a 64-byte secret key; any other decoded length
      fails with `InvalidKeyError` (the inner message naming the size is only logged). */
  function GetKeyPair(privateKey: string, lib: Library): (r: Result<KeyPair, string>)
    ensures var n := |lib.fromBase64(privateKey)|; r.Failure? <==> n != 32 && n != 64
    ensures r.Failure? ==> r.error == InvalidKeyError
    ensures r.Success? ==> DeriveKeyPair(lib.fromBase64(privateKey), lib) == Some(r.value)
  {
    match DeriveKeyPair(lib.fromBase64(privateKey), lib)
    case Some(kp) => Success(kp)
    case None => Failure(InvalidKeyError)
  }

  /** What the network answers during one transfer: the two reads `getCurrentNonce` makes, the
      clock reading that becomes the timestamp, and the reply (or exception) of POST /send-tx for
      whatever transaction is posted. */
  datatype Network = Network(balanceRead: Call<AccountRecord>, stagingRead: Call<StagingPool>,
                             timestamp: string, post: SignedTransaction -> Call<Body>)

  /** A transfer: the signed transaction if one was posted, and the outcome reported. */
  datatype Attempt = Attempt(submitted: Option<SignedTransaction>, outcome: TransferOutcome)

  /** The outcome of the POST: a thrown transport error reports its message. */
  function PostOutcome(call: Call<Body>): (r: TransferOutcome)
    ensures call.Threw? ==> r == Failed(Some(call.message))
    ensures call.Returned? ==> r == Interpret(call.response)
  {
    match call
    case Threw(m) => Failed(Some(m))
    case Returned(reply) => Interpret(reply)
  }

  /** `sendTransaction(wallet, toAddress, amount)`. A key of the wrong length stops it before
      anything is posted; otherwise exactly one transaction is posted: from the wallet to `to`, with
      the next nonce, signed with the wallet's key, and the outcome is what its reply means. */
  function SendTransaction(wallet: Wallet, to: string, amount: Units, net: Network, lib: Library): (a: Attempt)
    ensures a.submitted.None? <==> GetKeyPair(wallet.privateKey, lib).Failure?
    ensures a.submitted.None? ==> a.outcome == Failed(Some(InvalidKeyError))
    ensures a.submitted.Some? ==>
      var st := a.submitted.value;
      && st.tx.from == wallet.address && st.tx.to == to && st.tx.timestamp == net.timestamp
      && st.tx.amount == MicroAmount(amount) && st.tx.ou == FeeTier(amount)
      && st.tx.nonce == ResolveNonce(wallet.address, net.balanceRead, net.stagingRead) + 1
      && st == SignTransaction(st.tx, GetKeyPair(wallet.privateKey, lib).value, lib)
      && a.outcome == PostOutcome(net.post(st))
  {
    var nonce := ResolveNonce(wallet.address, net.balanceRead, net.stagingRead);
    match GetKeyPair(wallet.privateKey, lib)
    case Failure(e) => Attempt(None, Failed(Some(e)))
    case Success(keyPair) =>
      var tx := BuildTransaction(wallet.address, to, amount, nonce, net.timestamp);
      var st := SignTransaction(tx, keyPair, lib);
      Attempt(Some(st), PostOutcome(net.post(st)))
  }

  /** The posted nonce is fresh: above the confirmed nonce and above every nonce this sender has in
      the staging pool, whenever both reads returned. */
  lemma NonceIsFresh(wallet: Wallet, to: string, amount: Units, net: Network, lib: Library)
    requires net.balanceRead.Returned? && net.stagingRead.Returned?
    requires SendTransaction(wallet, to, amount, net, lib).submitted.Some?
    ensures var tx := SendTransaction(wallet, to, amount, net, lib).submitted.value.tx;
      && tx.nonce > ConfirmedNonce(net.balanceRead)
      && forall e :: e in StagedEntries(net.stagingRead) && e.from == wallet.address ==> tx.nonce > EntryNonce(e)
  {
  }

  /** When either read throws, the nonce falls back to 0 and the transaction carries nonce 1,
      whatever the other read returned. */
  lemma NonceFallback(wallet: Wallet, to: string, amount: Units, net: Network, lib: Library)
    requires net.balanceRead.Threw? || net.stagingRead.Threw?
    requires SendTransaction(wallet, to, amount, net, lib).submitted.Some?
    ensures SendTransaction(wallet, to, amount, net, lib).submitted.value.tx.nonce == 1
  {
  }

  /** A transport error on the POST is reported with its message and nothing else is tried. */
  lemma TransportErrorReported(wallet: Wallet, to: string, amount: Units, net: Network, lib: Library,
                               message: string)
    requires GetKeyPair(wallet.privateKey, lib).Success?
    requires forall st :: net.post(st) == Threw(message)
    ensures SendTransaction(wallet, to, amount, net, lib).outcome == Failed(Some(message))
  {
  }

  /** A plain transaction is signed over exactly the JSON text it is posted with, so the signature
      and the posted fields agree. */
  lemma SignatureCoversPostedFields(wallet: Wallet, to: string, amount: Units, net: Network, lib: Library)
    requires SendTransaction(wallet, to, amount, net, lib).submitted.Some?
    requires WellFormed(SendTransaction(wallet, to, amount, net, lib).submitted.value.tx)
    ensures var st := SendTransaction(wallet, to, amount, net, lib).submitted.value;
      var kp := GetKeyPair(wallet.privateKey, lib).value;
      st.signature == lib.base64(lib.sign(lib.utf8(Serialize(st.tx)), kp.secretKey)[..64])
  {
    var st := SendTransaction(wallet, to, amount, net, lib).submitted.value;
    SignatureCoversFields(st.tx, GetKeyPair(wallet.privateKey, lib).value, lib);
  }
}
