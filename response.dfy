/** How `sendTransaction` (main.js) reads the reply to POST /send-tx: a 200 reply succeeds with a
    structured `accepted` body carrying `tx_hash`, or with text starting with "ok" in any case whose
    last space-separated token is the hash; anything else is a failure that reports the reply's text
    or, failing that, its JSON. */
module SendResponse {
  import opened Common
  import opened Text
  import opened Rpc

  /** The parsed body of the reply: its `status` and `tx_hash` fields when they hold strings, and its
      JSON text. A plain-text body has neither field. */
  datatype Body = Body(status: Option<string>, txHash: Option<string>, json: string)

  type Reply = Response<Body>

  /** `{success: true, hash}` or `{success: false, error}`; the error is absent when the reply had
      neither text nor a body (`JSON.stringify(undefined)`). */
  datatype TransferOutcome = Succeeded(hash: string) | Failed(error: Option<string>)

  const AcceptedStatus: string := "accepted"

  /** The Kelvin sign, whose lower case is 'k'. */
  const KelvinSign: char := '\U{212A}'

  /** `result.data?.status === 'accepted'`. */
  predicate IsAccepted(data: Option<Body>) {
    data.Some? && data.value.status == Some(AcceptedStatus)
  }

  /** `t.toLowerCase().startsWith('ok')`: the only characters whose lower case begins with 'o' are
      'o' and 'O', and the only ones whose lower case begins with 'k' are 'k', 'K' and the Kelvin
      sign; every other character lowers to text starting with some other character. */
  predicate StartsWithOkIgnoringCase(t: string) {
    |t| >= 2 && (t[0] == 'o' || t[0] == 'O') && (t[1] == 'k' || t[1] == 'K' || t[1] == KelvinSign)
  }

  /** `t.split(' ').at(-1)`: the text after the last space (all of it when there is none). */
  function LastToken(t: string): (h: string)
    ensures |h| <= |t| && t[|t| - |h|..] == h && ' ' !in h
    ensures h == t || t[|t| - |h| - 1] == ' '
  {
    var parts := Split(t, ' ');
    LastPiece(t, ' ');
    parts[|parts| - 1]
  }

  /** The hash a 200 reply carries: `tx_hash || ''` of an accepted body; otherwise the last token of
      an "ok" text; otherwise none. */
  function CandidateHash(data: Option<Body>, text: Option<string>): string {
    if IsAccepted(data) then data.value.txHash.GetOr("")
    else if text.Some? && StartsWithOkIgnoringCase(text.value) then LastToken(text.value)
    else ""
  }

  /** `result.text || JSON.stringify(result.data)`. */
  function ErrorReport(reply: Reply): (e: Option<string>)
    ensures reply.text.Some? && reply.text.value != "" ==> e == reply.text
    ensures (reply.text.None? || reply.text.value == "") ==>
      e == if reply.data.Some? then Some(reply.data.value.json) else None
  {
    if reply.text.Some? && reply.text.value != "" then reply.text
    else if reply.data.Some? then Some(reply.data.value.json)
    else None
  }

  /** The outcome of a reply that arrived. Success needs status 200 and a non-empty hash, taken from
      an accepted body when there is one (its text is then not looked at) and otherwise from an
      "ok" text, where it is the last space-free piece; every failure reports `ErrorReport`. */
  function Interpret(reply: Reply): (r: TransferOutcome)
    ensures r.Succeeded? <==>
      reply.status == StatusOk &&
      if IsAccepted(reply.data) then reply.data.value.txHash.GetOr("") != ""
      else reply.text.Some? && StartsWithOkIgnoringCase(reply.text.value) && LastToken(reply.text.value) != ""
    ensures r.Succeeded? ==> r.hash != ""
    ensures r.Succeeded? && IsAccepted(reply.data) ==> reply.data.value.txHash == Some(r.hash)
    ensures r.Succeeded? && !IsAccepted(reply.data) ==>
      var t := reply.text.value;
      |r.hash| <= |t| && t[|t| - |r.hash|..] == r.hash && ' ' !in r.hash && (r.hash == t || t[|t| - |r.hash| - 1] == ' ')
    ensures r.Failed? ==> r.error == ErrorReport(reply)
  {
    var hash := if reply.status == StatusOk then CandidateHash(reply.data, reply.text) else "";
    if hash != "" then Succeeded(hash)
    else Failed(ErrorReport(reply))
  }

  /** An accepted body decides the outcome on its own: the reply's text plays no part in success or
      in the hash, even when it is an "ok" text. */
  lemma AcceptedBlocksText(status: int, data: Option<Body>, t1: Option<string>, t2: Option<string>)
    requires IsAccepted(data)
    ensures Interpret(Response(status, data, t1)).Succeeded? == Interpret(Response(status, data, t2)).Succeeded?
    ensures Interpret(Response(status, data, t1)).Succeeded? ==>
      Interpret(Response(status, data, t1)) == Interpret(Response(status, data, t2))
  {
  }

  /** A reply with any status other than 200 is a failure, whatever its body says. */
  lemma NonOkFails(reply: Reply)
    requires reply.status != StatusOk
    ensures Interpret(reply) == Failed(ErrorReport(reply))
  {
  }

  /** An accepted body with hash "abc123" succeeds with that hash. */
  lemma AcceptedExample(json: string, text: Option<string>)
    ensures Interpret(Response(StatusOk, Some(Body(Some("accepted"), Some("abc123"), json)), text))
         == Succeeded("abc123")
  {
  }

  /** The token after the last space is the one that text ends with. */
  lemma LastTokenAfterSpace(a: string, b: string)
    requires ' ' !in b
    ensures LastToken(a + [' '] + b) == b
  {
    SplitAround(a, b, ' ');
    SplitWithoutSeparator(b, ' ');
  }

  /** An "ok" text followed by a space and a space-free token succeeds with that token as the
      hash, e.g. "OK abc123" with "abc123". */
  lemma OkTextSucceeds(a: string, h: string)
    requires StartsWithOkIgnoringCase(a) && h != [] && ' ' !in h
    ensures Interpret(Response(StatusOk, None, Some(a + [' '] + h))) == Succeeded(h)
  {
    var t := a + [' '] + h;
    assert t[0] == a[0] && t[1] == a[1];
    LastTokenAfterSpace(a, h);
  }

  /** Text "OK" with no token after it is a success too, with "OK" itself as the hash. */
  lemma BareOkExample()
    ensures Interpret(Response(StatusOk, None, Some("OK"))) == Succeeded("OK")
  {
    SplitWithoutSeparator("OK", ' ');
  }

  /** Status 500 with text "insufficient funds" fails with that text. */
  lemma ServerErrorExample(data: Option<Body>)
    ensures Interpret(Response(500, data, Some("insufficient funds"))) == Failed(Some("insufficient funds"))
  {
  }

  /** An "ok" text ending in a space names no hash: the reply fails and reports that text. */
  lemma TrailingSpaceFails(a: string)
    requires StartsWithOkIgnoringCase(a)
    ensures Interpret(Response(StatusOk, None, Some(a + [' ']))) == Failed(Some(a + [' ']))
  {
    assert a + [' '] == a + [' '] + [];
    LastTokenAfterSpace(a, []);
  }
}
