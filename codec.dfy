/** The transaction `sendTransaction` builds and the message it signs (main.js): the field values
    (micro-unit amount, fee tier, next nonce), their JSON text in the fixed key order, the
    canonicaliser applied before signing, and a reader for that text that shows the signed message
    determines the transaction. */
module SigningCodec {
  import opened Common
  import opened Text
  import opened Primitives

  /** Micro-units per unit (`microOCT`). */
  const MicroPerUnit: nat := 1_000_000

  /** Transfers strictly below this many units pay the low fee tier. */
  const LowFeeLimit: nat := 1000

  const LowFeeTier: string := "1"
  const HighFeeTier: string := "3"

  /** The JSON keys of a transaction, in the order the object literal lists them. */
  const FieldOrder: seq<string> := ["from", "to_", "amount", "nonce", "ou", "timestamp"]

  /** An amount in units, as the exact number the decimal text of `RandomAmount` denotes. */
  type Units = r: real | r >= 0.0

  /** The transaction object: sender, recipient, amount in micro-units (rendered as a string),
      nonce (rendered as a number), fee tier, and the timestamp as the JSON text of its number. */
  datatype Transaction = Transaction(from: string, to: string, amount: nat, nonce: nat, ou: string,
                                     timestamp: string)

  /** `Math.floor(amount * microOCT)`: the whole number of micro-units in the amount. */
  function MicroAmount(amount: Units): (m: nat)
    ensures m as real <= amount * MicroPerUnit as real < m as real + 1.0
  {
    (amount * MicroPerUnit as real).Floor
  }

  /** `amount < 1000 ? '1' : '3'`. */
  function FeeTier(amount: Units): string {
    if amount < LowFeeLimit as real then LowFeeTier else HighFeeTier
  }

  /** The fee tier can be read off the micro-unit amount: low exactly when it is below
      1000 units' worth of micro-units. */
  lemma FeeTierByMicroAmount(amount: Units)
    ensures FeeTier(amount) == LowFeeTier <==> MicroAmount(amount) < LowFeeLimit * MicroPerUnit
    ensures FeeTier(amount) == LowFeeTier || FeeTier(amount) == HighFeeTier
  {
    var m := MicroAmount(amount);
    if amount < LowFeeLimit as real {
      assert amount * MicroPerUnit as real < (LowFeeLimit * MicroPerUnit) as real;
    } else {
      assert amount * MicroPerUnit as real >= (LowFeeLimit * MicroPerUnit) as real;
    }
  }

  /** The transaction for a transfer of `amount` units whose sender's nonce resolved to
      `resolvedNonce`: it carries the next nonce, so a nonce strictly above the resolved one,
      and the fee tier agrees with the micro-unit amount. */
  function BuildTransaction(from: string, to: string, amount: Units, resolvedNonce: nat,
                            timestamp: string): (tx: Transaction)
    ensures tx.from == from && tx.to == to && tx.timestamp == timestamp
    ensures tx.nonce > resolvedNonce && tx.nonce >= 1
    ensures tx.amount as real <= amount * MicroPerUnit as real < tx.amount as real + 1.0
    ensures tx.ou == LowFeeTier <==> tx.amount < LowFeeLimit * MicroPerUnit
    ensures tx.ou == LowFeeTier || tx.ou == HighFeeTier
  {
    FeeTierByMicroAmount(amount);
    Transaction(from, to, MicroAmount(amount), resolvedNonce + 1, FeeTier(amount), timestamp)
  }

  // ---------------------------------------------------------------------------------------------
  // JSON text of the transaction

  /** A JSON string literal; the escaping JSON.stringify applies to quotes, backslashes and control
      characters is not modelled, so this is exact only for plain text. */
  function JsonString(s: string): string {
    "\"" + s + "\""
  }

  /** One `"key":value` member. */
  function Member(key: string, value: string): string {
    JsonString(key) + ":" + value
  }

  /** The members of `JSON.stringify(transaction)`, one per field, in key order. */
  function MemberTexts(tx: Transaction): (ms: seq<string>)
    ensures |ms| == |FieldOrder|
    ensures forall k :: 0 <= k < |ms| ==>
      var p := JsonString(FieldOrder[k]) + ":"; |p| <= |ms[k]| && ms[k][..|p|] == p
  {
    [Member("from", JsonString(tx.from)), Member("to_", JsonString(tx.to)),
     Member("amount", JsonString(Decimal(tx.amount))), Member("nonce", Decimal(tx.nonce)),
     Member("ou", JsonString(tx.ou)), Member("timestamp", tx.timestamp)]
  }

  /** `JSON.stringify(transaction)`. */
  function Serialize(tx: Transaction): string {
    "{" + Join(MemberTexts(tx), ',') + "}"
  }

  // ---------------------------------------------------------------------------------------------
  // The canonicaliser

  /** `.replace(/\s+/g, '')`: every whitespace character removed. */
  function StripWhitespace(s: string): (r: string)
    ensures NoWhitespace(r)
    ensures |r| <= |s|
    ensures forall c :: c in r ==> c in s
    ensures NoWhitespace(s) ==> r == s
  {
    if s == [] then []
    else
      var rest := StripWhitespace(s[1..]);
      assert forall c :: c in s[1..] ==> c in s;
      if IsWhitespace(s[0]) then rest else [s[0]] + rest
  }

  /** `.replace(/,X/g, 'X')` for a closing bracket X: each comma directly before X dropped, matches
      taken left to right without overlap. */
  function DropCommaBefore(s: string, close: char): (r: string)
    requires close != ','
    ensures |r| <= |s|
    ensures forall c :: c in r ==> c in s
  {
    if s == [] then []
    else if |s| >= 2 && s[0] == ',' && s[1] == close then
      var rest := DropCommaBefore(s[2..], close);
      assert forall c :: c in s[2..] ==> c in s;
      [close] + rest
    else
      var rest := DropCommaBefore(s[1..], close);
      assert forall c :: c in s[1..] ==> c in s;
      [s[0]] + rest
  }

  /** No comma directly before the bracket `close`. */
  predicate NoCommaBefore(s: string, close: char) {
    forall i :: 0 <= i < |s| - 1 ==> !(s[i] == ',' && s[i + 1] == close)
  }

  /** The whole rewriting the message goes through before it is signed. */
  function Canonicalize(s: string): (r: string)
    ensures NoWhitespace(r)
    ensures |r| <= |s|
    ensures forall c :: c in r ==> c in s
  {
    var t := StripWhitespace(s);
    var r := DropCommaBefore(DropCommaBefore(t, '}'), ']');
    assert forall i :: 0 <= i < |r| ==> r[i] in t;
    r
  }

  lemma {:induction false} DropCommaBeforeIdentity(s: string, close: char)
    requires close != ','
    requires NoCommaBefore(s, close)
    ensures DropCommaBefore(s, close) == s
  {
    if s != [] {
      assert NoCommaBefore(s[1..], close) by {
        forall i | 0 <= i < |s[1..]| - 1 ensures !(s[1..][i] == ',' && s[1..][i + 1] == close) {
          assert s[1..][i] == s[i + 1] && s[1..][i + 1] == s[i + 2];
        }
      }
      DropCommaBeforeIdentity(s[1..], close);
      assert s == [s[0]] + s[1..];
    }
  }

  /** Text that is already canonical is signed as it is: without whitespace and without a comma
      before `}` or `]`, the canonicaliser changes nothing. */
  lemma CanonicalizeIdentity(s: string)
    requires NoWhitespace(s) && NoCommaBefore(s, '}') && NoCommaBefore(s, ']')
    ensures Canonicalize(s) == s
  {
    DropCommaBeforeIdentity(s, '}');
    DropCommaBeforeIdentity(s, ']');
  }

  /** Matches do not overlap, so the rewriting is not idempotent: `,,}` becomes `,}`. */
  lemma CanonicalizeNotIdempotent()
    ensures Canonicalize(",,}") == ",}"
    ensures Canonicalize(Canonicalize(",,}")) == "}"
  {
    assert !IsWhitespace(',') && !IsWhitespace('}');
    assert StripWhitespace("}") == "}";
    assert ",,}"[1..] == ",}" && ",}"[1..] == "}";
    assert StripWhitespace(",,}") == ",,}";
    assert ",}"[2..] == [];
    assert DropCommaBefore(",}", '}') == "}";
    assert DropCommaBefore(",,}", '}') == ",}";
    assert DropCommaBefore("}", ']') == "}";
    assert DropCommaBefore(",}", ']') == ",}";
  }

  // ---------------------------------------------------------------------------------------------
  // Plain transactions: the message is the JSON text itself

  /** A character JSON.stringify writes unescaped that is neither whitespace nor a comma. */
  predicate PlainChar(c: char) {
    c as int >= 0x20 && c != '"' && c != '\\' && c != ',' && !IsWhitespace(c)
  }

  predicate PlainText(s: string) {
    forall i :: 0 <= i < |s| ==> PlainChar(s[i])
  }

  /** Fields whose text needs no escaping and survives canonicalisation. */
  predicate WellFormed(tx: Transaction) {
    PlainText(tx.from) && PlainText(tx.to) && PlainText(tx.ou) && PlainText(tx.timestamp)
  }

  /** Every comma of `s` is directly followed by a quote. */
  predicate CommasBeforeQuotes(s: string) {
    forall i :: 0 <= i < |s| && s[i] == ',' ==> i + 1 < |s| && s[i + 1] == '"'
  }

  /** Text without commas and whitespace. */
  predicate Bare(s: string) {
    ',' !in s && NoWhitespace(s)
  }

  lemma BareConcat(a: string, b: string)
    requires Bare(a) && Bare(b)
    ensures Bare(a + b)
  {
    forall i | 0 <= i < |a + b| ensures !IsWhitespace((a + b)[i]) {
      if i < |a| { assert (a + b)[i] == a[i]; } else { assert (a + b)[i] == b[i - |a|]; }
    }
  }

  lemma BarePlain(s: string)
    requires PlainText(s)
    ensures Bare(s)
  {
    assert forall c :: c in s ==> PlainChar(c);
  }

  lemma BareQuoted(s: string)
    requires Bare(s)
    ensures Bare(JsonString(s))
  {
    assert Bare("\"") by { assert !IsWhitespace('"'); }
    BareConcat("\"", s);
    BareConcat("\"" + s, "\"");
  }

  lemma BareMember(key: string, value: string)
    requires Bare(key) && Bare(value)
    ensures var m := Member(key, value); Bare(m) && m[0] == '"'
  {
    BareQuoted(key);
    assert Bare(":") by { assert !IsWhitespace(':'); }
    BareConcat(JsonString(key), ":");
    BareConcat(JsonString(key) + ":", value);
  }

  lemma BareDecimal(n: nat)
    ensures Bare(Decimal(n))
  {
    var d := Decimal(n);
    assert forall c :: c in d ==> IsDigit(c);
  }

  /** The members of a plain transaction start with a quote, hold no comma and no whitespace. */
  lemma PlainMembers(tx: Transaction)
    requires WellFormed(tx)
    ensures var ms := MemberTexts(tx);
      forall k :: 0 <= k < |ms| ==> |ms[k]| > 0 && ms[k][0] == '"' && Bare(ms[k])
  {
    BarePlain(tx.from);
    BarePlain(tx.to);
    BarePlain(tx.ou);
    BarePlain(tx.timestamp);
    BareDecimal(tx.amount);
    BareDecimal(tx.nonce);
    BareQuoted(tx.from);
    BareQuoted(tx.to);
    BareQuoted(Decimal(tx.amount));
    BareQuoted(tx.ou);
    assert Bare("from") && Bare("to_") && Bare("amount") && Bare("nonce") && Bare("ou") && Bare("timestamp");
    BareMember("from", JsonString(tx.from));
    BareMember("to_", JsonString(tx.to));
    BareMember("amount", JsonString(Decimal(tx.amount)));
    BareMember("nonce", Decimal(tx.nonce));
    BareMember("ou", JsonString(tx.ou));
    BareMember("timestamp", tx.timestamp);
  }

  /** Joining comma-free members that start with a quote: every comma is a separator, followed by
      the quote that opens the next member, and no whitespace appears. */
  lemma {:induction false} JoinOfMembers(parts: seq<string>)
    requires forall k :: 0 <= k < |parts| ==> |parts[k]| > 0 && parts[k][0] == '"' && Bare(parts[k])
    ensures CommasBeforeQuotes(Join(parts, ',')) && NoWhitespace(Join(parts, ','))
  {
    if |parts| > 1 {
      JoinOfMembers(parts[1..]);
      var head, tail := parts[0], Join(parts[1..], ',');
      var j := head + [','] + tail;
      assert Join(parts, ',') == j;
      assert tail == Join(parts[1..], ',') && |parts[1..]| >= 1;
      assert tail[0] == '"' by {
        if |parts[1..]| > 1 {
          assert tail == parts[1] + [','] + Join(parts[2..], ',') by { assert parts[1..][1..] == parts[2..]; }
        }
      }
      forall i | 0 <= i < |j| ensures !IsWhitespace(j[i]) && (j[i] == ',' ==> i + 1 < |j| && j[i + 1] == '"') {
        if i < |head| {
          assert j[i] == head[i] && j[i] in head;
        } else if i > |head| {
          assert j[i] == tail[i - |head| - 1];
          if j[i] == ',' { assert j[i + 1] == tail[i - |head|]; }
        } else {
          assert j[i + 1] == tail[0];
        }
      }
    }
  }

  /** The JSON text of a plain transaction is already canonical. */
  lemma SerializeIsCanonical(tx: Transaction)
    requires WellFormed(tx)
    ensures NoWhitespace(Serialize(tx))
    ensures NoCommaBefore(Serialize(tx), '}') && NoCommaBefore(Serialize(tx), ']')
  {
    PlainMembers(tx);
    var j := Join(MemberTexts(tx), ',');
    JoinOfMembers(MemberTexts(tx));
    var s := Serialize(tx);
    assert s == "{" + j + "}";
    forall i | 0 <= i < |s| ensures !IsWhitespace(s[i]) && (s[i] == ',' ==> i + 1 < |s| - 1 && s[i + 1] == '"') {
      if 0 < i < |s| - 1 {
        assert s[i] == j[i - 1];
        if s[i] == ',' { assert s[i + 1] == j[i]; }
      }
    }
  }

  /** The message `sendTransaction` signs. */
  function SigningMessage(tx: Transaction): string {
    Canonicalize(Serialize(tx))
  }

  /** For a plain transaction the signed message is exactly its JSON text. */
  lemma SigningMessageIsJson(tx: Transaction)
    requires WellFormed(tx)
    ensures SigningMessage(tx) == Serialize(tx)
  {
    SerializeIsCanonical(tx);
    CanonicalizeIdentity(Serialize(tx));
  }

  // ---------------------------------------------------------------------------------------------
  // Reading the JSON text back

  /** The value text of a member with the given key, if the member has that key. */
  function ValueOf(member: string, key: string): (v: Option<string>)
    ensures v.Some? ==> member == JsonString(key) + ":" + v.value
  {
    var p := JsonString(key) + ":";
    if |p| <= |member| && member[..|p|] == p then
      assert member == member[..|p|] + member[|p|..];
      Some(member[|p|..])
    else None
  }

  /** The contents of a JSON string literal. */
  function Unquote(v: string): (s: Option<string>)
    ensures s.Some? ==> v == JsonString(s.value)
  {
    if |v| >= 2 && v[0] == '"' && v[|v| - 1] == '"' then
      assert v == [v[0]] + v[1..|v| - 1] + [v[|v| - 1]];
      Some(v[1..|v| - 1])
    else None
  }

  /** A non-negative integer written in decimal digits. */
  function Numeral(v: string): (n: Option<nat>)
    ensures n.Some? ==> |v| >= 1 && AllDigits(v) && n.value == DecimalValue(v)
  {
    if |v| >= 1 && AllDigits(v) then Some(DecimalValue(v)) else None
  }

  function StringField(member: string, key: string): Option<string> {
    match ValueOf(member, key)
    case Some(v) => Unquote(v)
    case None => None
  }

  function NumberText(member: string, key: string): Option<nat> {
    match ValueOf(member, key)
    case Some(v) => Numeral(v)
    case None => None
  }

  function QuotedNumber(member: string, key: string): Option<nat> {
    match StringField(member, key)
    case Some(v) => Numeral(v)
    case None => None
  }

  /** Reads a transaction back from the text of its JSON object with the keys in order. */
  function ParseTransaction(s: string): Option<Transaction> {
    if |s| >= 2 && s[0] == '{' && s[|s| - 1] == '}' then
      var ms := Split(s[1..|s| - 1], ',');
      if |ms| != 6 then None
      else
        match (StringField(ms[0], "from"), StringField(ms[1], "to_"), QuotedNumber(ms[2], "amount"),
               NumberText(ms[3], "nonce"), StringField(ms[4], "ou"), ValueOf(ms[5], "timestamp"))
        case (Some(from), Some(to), Some(amount), Some(nonce), Some(ou), Some(timestamp)) =>
          Some(Transaction(from, to, amount, nonce, ou, timestamp))
        case _ => None
    else None
  }

  lemma ReadMember(key: string, value: string)
    ensures ValueOf(Member(key, value), key) == Some(value)
    ensures StringField(Member(key, JsonString(value)), key) == Some(value)
  {
    var p := JsonString(key) + ":";
    assert Member(key, value)[..|p|] == p;
    var q := JsonString(value);
    assert Member(key, q)[..|p|] == p;
    assert q[1..|q| - 1] == value;
  }

  lemma ReadDecimal(n: nat)
    ensures Numeral(Decimal(n)) == Some(n)
  {
    DecimalRoundTrip(n);
  }

  /** The JSON text of a plain transaction reads back as that transaction. */
  lemma ParseSerialize(tx: Transaction)
    requires WellFormed(tx)
    ensures ParseTransaction(Serialize(tx)) == Some(tx)
  {
    var ms := MemberTexts(tx);
    PlainMembers(tx);
    var s := Serialize(tx);
    assert s[1..|s| - 1] == Join(ms, ',');
    SplitJoin(ms, ',');
    ReadMember("from", tx.from);
    ReadMember("to_", tx.to);
    ReadMember("amount", Decimal(tx.amount));
    ReadMember("nonce", Decimal(tx.nonce));
    ReadMember("ou", tx.ou);
    ReadMember("timestamp", tx.timestamp);
    ReadDecimal(tx.amount);
    ReadDecimal(tx.nonce);
  }

  /** Distinct plain transactions sign distinct messages, so a signature made for one transaction
      never authorises another. */
  lemma SigningMessageInjective(t1: Transaction, t2: Transaction)
    requires WellFormed(t1) && WellFormed(t2)
    requires SigningMessage(t1) == SigningMessage(t2)
    ensures t1 == t2
  {
    SigningMessageIsJson(t1);
    SigningMessageIsJson(t2);
    ParseSerialize(t1);
    ParseSerialize(t2);
  }

  // ---------------------------------------------------------------------------------------------
  // Signing

  /** `finalTx`: the transaction with the base64 of the 64-byte signature and of the public key. */
  datatype SignedTransaction = SignedTransaction(tx: Transaction, signature: string, publicKey: string)

  /** The detached signature: the first 64 bytes of `nacl.sign` over the UTF-8 of the message. */
  function Signature(message: string, secretKey: Bytes64, lib: Library): (sig: Bytes64)
    ensures sig == lib.sign(lib.utf8(message), secretKey)[..64]
  {
    lib.sign(lib.utf8(message), secretKey)[..64]
  }

  /** Signs `tx` with `keyPair`: the signature covers the canonical message of `tx`. */
  function SignTransaction(tx: Transaction, keyPair: KeyPair, lib: Library): (st: SignedTransaction)
    ensures st.tx == tx
    ensures st.publicKey == lib.base64(keyPair.publicKey)
    ensures st.signature == lib.base64(Signature(SigningMessage(tx), keyPair.secretKey, lib))
  {
    SignedTransaction(tx, lib.base64(Signature(SigningMessage(tx), keyPair.secretKey, lib)),
                      lib.base64(keyPair.publicKey))
  }

  /** For a plain transaction the signature covers exactly the JSON text of its fields. */
  lemma SignatureCoversFields(tx: Transaction, keyPair: KeyPair, lib: Library)
    requires WellFormed(tx)
    ensures SignTransaction(tx, keyPair, lib).signature
         == lib.base64(lib.sign(lib.utf8(Serialize(tx)), keyPair.secretKey)[..64])
  {
    SigningMessageIsJson(tx);
  }
}
