# skw-octra transfer bot, modelled in Dafny

skw-octra is a bot that sends small transfers on the Octra network. It loads base64 private keys and
recipient addresses from two line-list files and derives each wallet's `oct…` address from its
key. Then, for every wallet and every recipient other than itself, it reads the balance, draws a
random amount, resolves the next nonce from the RPC's balance and staging endpoints, builds and
signs the canonical JSON of the transaction, posts it, and reads the reply to decide success.

This project models that core:

- `common.dfy`, `rpc.dfy`: `Option`, `Result`, bytes, and the already-parsed `{status, data, text}` reply or thrown error of an RPC call.
- `text.dfy`: the JavaScript built-ins the core leans on: the whitespace class, `trim`, one-character `split`, `join`, and `String(n)` for non-negative integers.
- `primitives.dfy`: SHA-256, Ed25519 key derivation and signing, UTF-8, and base64 as function values with their length guarantees.
- `address.dfy`: `privateKeyToOctAddress`, with its Base58 loops as a method proved against a specification function.
- `account.dfy`: `getCurrentNonce` and `getBalance` over parsed replies.
- `codec.dfy`: the transaction fields, their JSON text, the canonicaliser, signing, and a reader that shows the signed text determines the transaction.
- `response.dfy`: how the reply to `POST /send-tx` becomes an outcome.
- `transfer.dfy`: `getKeyPair` and `sendTransaction`.
- `passes.dfy`: the shape the two loops share. `sendtoAll`'s loop sits inside one `try`; `startBot`'s has none. In both, the first entry whose handling throws is the last one handled.
- `campaign.dfy`: `sendtoAll` and `startBot` as methods whose traces equal specification functions.
- `linelist.dfy`: the split / trim / drop-empty loading of `privatekey.txt` and `recepient.txt`.

Randomness, the clock, RPC replies and exceptions are inputs, indexed by position.

Points where the code's behaviour is easy to misread, which the model follows as written:

- A low-balance skip is followed by no delay: after it the code `continue`s, so only a send is followed by a delay.
- The hash in an "ok" text reply is the piece after the last space character (`split(' ')`), not after any whitespace.
- An exception inside `sendtoAll` ends that wallet's remaining recipients, because one `try` surrounds the loop. It is not contained per recipient.
- A key of the wrong length throws from `privateKeyToOctAddress` inside `startBot`. Nothing catches it, so it ends the whole run.
- A 200 reply whose text is "ok" with no space succeeds, and the hash is the whole text (e.g. "OK").
- Amounts and balances are exact numbers of units (`real`), not integer micro-units. `sendTransaction` floors `amount * 1000000` itself, and the fee tier is decided on the unfloored amount, so the model keeps both as the code has them.

## Model

| member | source | states |
|---|---|---|
| Text.TrimStart | skw/config.js:13 | the result is a suffix of the input starting with non-whitespace, and everything dropped is whitespace |
| Text.TrimEnd | skw/config.js:13 | the result is a prefix of the input ending with non-whitespace, and everything dropped is whitespace |
| Text.Trim | skw/config.js:13 | the result is trimmed, no longer than the input, and made of its characters; it is empty exactly when the input is all whitespace; trimmed input is returned unchanged |
| Text.Split | skw/config.js:12 | `split` on one character yields at least one piece and no piece contains the separator |
| Text.SplitChars | skw/config.js:12 | every character of a piece occurs in the string that was split |
| Text.JoinSplit | skw/config.js:12 | joining the pieces with the separator gives the string back |
| Text.SplitWithoutSeparator | main.js:180 | a string without the separator is a single piece |
| Text.SplitAround | skw/config.js:12 | the pieces of `a + sep + b` are the pieces of `a` followed by those of `b` |
| Text.SplitJoin | skw/config.js:12 | splitting a join of separator-free pieces gives the pieces back |
| Text.LastPiece | main.js:180-181 | the last piece is a separator-free suffix that is the whole string or follows a separator |
| Text.DigitChar | main.js:154 | the character is the decimal digit of its value |
| Text.Decimal | main.js:154-155 | `String(n)` is a non-empty digit string with no leading zero unless n is 0 |
| Text.DecimalRoundTrip | main.js:154-155 | reading the decimal text of n gives n back |
| Address.DeriveKeyPair | main.js:20-26 | a key pair exists exactly for 32 or 64 bytes; 32 bytes take the seed path, 64 the secret-key path |
| Address.DigitValue | main.js:31 | a character's Base58 digit value is below 58 |
| Address.BigEndianValue | main.js:33 | `BigInt('0x' + hex)` of the digest: `LastByte` shows it is its prefix's value times 256 plus the last byte, `ZerosHaveValueZero` that all-zero bytes give 0, and `BigEndianInjective` that equal-length byte strings with equal value are equal |
| Address.AlphabetDigit | main.js:31 | the alphabet has 58 characters and the k-th has digit value k |
| Address.CharRun | main.js:31 | a run of consecutive code points holds exactly the characters between its ends |
| Address.AlphabetMembership | main.js:31 | a character is in the alphabet exactly when it lies in one of its six runs |
| Address.AlphabetAvoidsLookalikes | main.js:31 | '0', 'O', 'I' and 'l' are not in the alphabet |
| Address.Base58Digits | main.js:36-40 | the numeral is empty exactly when the value is 0 |
| Address.LeadingZeros | main.js:42 | the count of zero bytes before the first non-zero byte |
| Address.OctAddress | main.js:31-46 | the address of a digest, which `EncodeBase58` computes: `AddressShape` shows it is "oct" followed by alphabet characters, `AddressLeadingOnes` that its leading '1's count the digest's leading zero bytes and the rest decodes to the digest's value, and `AddressInjective` that distinct digests give distinct addresses |
| Address.LeadingOnes | main.js:42-44 | the count of leading '1' characters is at most the length |
| Address.Ones | main.js:43 | a string of k '1' characters |
| Address.AddressOf | main.js:16-47 | the address fails exactly for key material of neither 32 nor 64 bytes, with "Private key must be 32 or 64 bytes" |
| Address.PrivateKeyToOctAddress | main.js:16-47 | the method returns the address or the key-length error, as `AddressOf` states |
| Address.EncodeBase58 | main.js:33-46 | the two loops produce, after "oct", one '1' per leading zero byte followed by the Base58 numeral of the digest |
| Address.DigitStep | main.js:37-39 | one pass of the division loop moves the lowest digit in front of the digits produced so far |
| Address.OnesStep | main.js:43 | prepending '1' to k ones gives k + 1 ones |
| Address.Base58DigitsInAlphabet | main.js:36-40 | every character of the numeral is in the alphabet |
| Address.AddressShape | main.js:31-46 | an address starts with "oct" and every later character is in the alphabet |
| Address.Base58RoundTrip | main.js:33-40 | decoding the numeral, most significant digit first, gives the value back |
| Address.Base58NoLeadingOne | main.js:36-40 | the numeral never starts with '1' |
| Address.LeadingOnesOfOnes | main.js:42-44 | k ones before text not starting with '1' give exactly k leading ones |
| Address.AddressLeadingOnes | main.js:33-46 | the leading '1's after "oct" count the digest's leading zero bytes, and the rest decodes to the digest's value |
| Address.ZerosHaveValueZero | main.js:33 | an all-zero byte string has value 0 |
| Address.AllZeroDigest | main.js:33-46 | an all-zero 32-byte digest gives "oct" followed by 32 '1's |
| Address.LastByte | main.js:33 | the last byte and the prefix of a big-endian value are determined by it |
| Address.BigEndianInjective | main.js:33 | byte strings of equal length with equal value are equal |
| Address.AddressInjective | main.js:29-46 | distinct digests give distinct addresses |
| Account.ConfirmedNonce | main.js:110-112 | a non-zero confirmed nonce comes from a 200 reply with a body |
| Account.EntryNonce | main.js:118 | the staged entry's `parseInt` nonce, a missing nonce counting as 0; `OwnNonces` collects it for exactly this sender's entries and `NonceIsFresh` shows the posted nonce exceeds it |
| Account.OwnNonces | main.js:115-118 | every staged entry of this sender contributes its nonce, and only such entries do |
| Account.StagedEntries | main.js:114-115 | the staged transactions of a 200 reply with a body (none when the list is missing), and none otherwise; `ResolveBothRead` gives the nonce over these entries in closed form and `OtherSendersIgnored` shows another sender's entry never changes it |
| Account.Max | main.js:118 | the maximum is an element and bounds every element |
| Account.ResolveNonce | main.js:101-128 | 0 when either read threw; otherwise at least the confirmed nonce and every staged nonce of this sender, and equal to one of them |
| Account.OwnNoncesAppend | main.js:116 | filtering by sender distributes over concatenation |
| Account.OtherSendersIgnored | main.js:116 | adding another sender's staged entry anywhere never changes the nonce |
| Account.ResolveBothRead | main.js:108-123 | with two 200 reads the nonce is the confirmed nonce or, if larger, this sender's largest staged nonce |
| Account.ResolveExample | main.js:108-123 | confirmed 5, own staged 7 and another sender's 9 resolve to 7 |
| Account.Balance | main.js:130-143 | the balance is the record's value for a 200 reply with a body, and 0 otherwise, including when the read threw |
| SigningCodec.MicroAmount | main.js:149-154 | the micro-unit amount is the floor of amount times 1000000 |
| SigningCodec.FeeTier | main.js:156 | `amount < 1000 ? '1' : '3'`: `FeeTierByMicroAmount` shows the tier is "1" or "3", and "1" exactly when the floored micro-unit amount is below 1000 units' worth |
| SigningCodec.FeeTierByMicroAmount | main.js:154-156 | the tier is "1" exactly when the micro-unit amount is below 1000 units' worth, otherwise "3" |
| SigningCodec.BuildTransaction | main.js:151-158 | the transaction carries the sender, recipient and timestamp, a nonce above the resolved one and at least 1, the floored amount, and a tier that agrees with it |
| SigningCodec.MemberTexts | main.js:151-160 | the six members appear with the keys from, to_, amount, nonce, ou, timestamp in that order |
| SigningCodec.JsonString | main.js:160 | a JSON string literal of plain text: `BareQuoted` shows quoting keeps text free of commas and whitespace, `Unquote` accepts only such literals, and `ReadMember` reads a quoted value back |
| SigningCodec.Member | main.js:160 | one `"key":value` member: `BareMember` shows it starts with a quote and stays free of commas and whitespace, and `ReadMember` reads its value back by its key |
| SigningCodec.Serialize | main.js:151-160 | `JSON.stringify(transaction)`: `SerializeIsCanonical` shows the text of a plain transaction has no whitespace and no comma before a closer, and `ParseSerialize` that reading it gives the transaction back |
| SigningCodec.StripWhitespace | main.js:160 | the result has no whitespace, is no longer than the input, is made of its characters, and whitespace-free input is unchanged |
| SigningCodec.DropCommaBefore | main.js:160 | dropping the commas before a closer never lengthens the text nor adds characters |
| SigningCodec.Canonicalize | main.js:160 | the canonical message has no whitespace, is no longer than the input, and is made of its characters |
| SigningCodec.DropCommaBeforeIdentity | main.js:160 | text with no comma before the closer is unchanged |
| SigningCodec.CanonicalizeIdentity | main.js:160 | text with no whitespace and no ",}" or ",]" is unchanged |
| SigningCodec.CanonicalizeNotIdempotent | main.js:160 | one pass turns ",,}" into ",}", so a second pass changes it again |
| SigningCodec.BareConcat | main.js:160 | text without commas and whitespace stays so under concatenation |
| SigningCodec.BarePlain | main.js:160 | plain field text has no commas or whitespace |
| SigningCodec.BareQuoted | main.js:160 | quoting such text keeps it so |
| SigningCodec.BareMember | main.js:160 | a member of such key and value is such text starting with a quote |
| SigningCodec.BareDecimal | main.js:154-155 | a decimal numeral has no commas or whitespace |
| SigningCodec.PlainMembers | main.js:151-160 | every member of a plain transaction starts with a quote and has no commas or whitespace |
| SigningCodec.JoinOfMembers | main.js:160 | in the comma-joined members every comma is followed by a quote, and there is no whitespace |
| SigningCodec.SerializeIsCanonical | main.js:160 | the JSON of a plain transaction has no whitespace and no comma before '}' or ']' |
| SigningCodec.SigningMessage | main.js:160 | the canonicalised JSON text that is signed: `SigningMessageIsJson` shows it is the JSON text itself for a plain transaction, and `SigningMessageInjective` that distinct plain transactions give distinct messages |
| SigningCodec.SigningMessageIsJson | main.js:160 | the signed message of a plain transaction is its JSON text unchanged |
| SigningCodec.ValueOf | main.js:160 | a value is read only from a member with that key |
| SigningCodec.Unquote | main.js:160 | an unquoted value came from a JSON string literal |
| SigningCodec.Numeral | main.js:154-155 | a numeral is read only from a digit string, with its decimal value |
| SigningCodec.ReadMember | main.js:160 | the value of a written member reads back |
| SigningCodec.ReadDecimal | main.js:154-155 | a written numeral reads back as its number |
| SigningCodec.ParseSerialize | main.js:151-160 | reading the JSON of a plain transaction gives the transaction back |
| SigningCodec.SigningMessageInjective | main.js:160-163 | two plain transactions with the same signed message are equal |
| SigningCodec.Signature | main.js:161-163 | the signature is the first 64 bytes of the Ed25519 signed message of the UTF-8 text |
| SigningCodec.SignTransaction | main.js:160-170 | the posted object keeps the fields and adds the base64 signature over the canonical message and the base64 public key |
| SigningCodec.SignatureCoversFields | main.js:160-170 | for a plain transaction the signature is over its JSON text itself |
| SendResponse.LastToken | main.js:180-181 | `split(' ').at(-1)` is a space-free suffix, the whole text or preceded by a space |
| SendResponse.IsAccepted | main.js:177 | `result.data?.status === 'accepted'`; `AcceptedBlocksText` shows that when it holds the text plays no part in the outcome |
| SendResponse.StartsWithOkIgnoringCase | main.js:179 | `toLowerCase().startsWith('ok')` over the characters whose lower case starts with 'o' or 'k', the Kelvin sign included; `OkTextSucceeds` and `TrailingSpaceFails` show what such a text leads to |
| SendResponse.CandidateHash | main.js:175-182 | the hash of a 200 reply: `Interpret` succeeds exactly for status 200 with this hash non-empty; `AcceptedExample`, `BareOkExample` and `OkTextSucceeds` give its value for an accepted body and for an "ok" text |
| SendResponse.ErrorReport | main.js:192-195 | the error is the text when non-empty, otherwise the JSON of the data, absent when neither exists |
| SendResponse.Interpret | main.js:174-195 | success exactly for status 200 with a non-empty hash: from an accepted body when there is one, otherwise the last token of an "ok" text; a success hash is non-empty; every failure reports `ErrorReport` |
| SendResponse.AcceptedBlocksText | main.js:177-182 | with an accepted body the text plays no part in the outcome |
| SendResponse.NonOkFails | main.js:174 | any status other than 200 fails, whatever the body |
| SendResponse.AcceptedExample | main.js:177-178 | an accepted body with hash "abc123" succeeds with it |
| SendResponse.LastTokenAfterSpace | main.js:180-181 | the last token of text ending in a space and a space-free token is that token |
| SendResponse.OkTextSucceeds | main.js:179-189 | an "ok" text, a space and a non-empty space-free token succeed with that token |
| SendResponse.BareOkExample | main.js:179-189 | the text "OK" succeeds with hash "OK" |
| SendResponse.ServerErrorExample | main.js:174-195 | status 500 with text "insufficient funds" fails with that text |
| SendResponse.TrailingSpaceFails | main.js:179-195 | an "ok" text ending in a space fails and reports the text |
| Transfer.GetKeyPair | main.js:49-64 | the key pair fails exactly for decoded lengths other than 32 and 64, with "Invalid private key format" |
| Transfer.PostOutcome | main.js:172-201 | a thrown POST reports its message; a reply is interpreted |
| Transfer.SendTransaction | main.js:145-202 | nothing is posted exactly when the key is invalid, which fails with "Invalid private key format"; otherwise one transaction from the wallet to the recipient with the resolved nonce plus 1, signed with the wallet's key, is posted and its reply decides the outcome |
| Transfer.NonceIsFresh | main.js:147-155 | the posted nonce exceeds the confirmed nonce and every staged nonce of this sender |
| Transfer.NonceFallback | main.js:124-127 | when either read throws the posted nonce is 1 |
| Transfer.TransportErrorReported | main.js:196-200 | a transport error on the POST is the reported error |
| Transfer.SignatureCoversPostedFields | main.js:160-170 | the posted signature is over the JSON text of the posted fields |
| Passes.TakeOrder | main.js:206 | the entries taken are a contiguous stretch of the list from the start position |
| Passes.TakeThrough | main.js:205-254 | the entries a loop over a list takes until the first entry whose handling throws: `TakeOrder` shows they are a contiguous stretch in list order, `TakeEnd` that only the last can stop it and otherwise the list's end was reached, `TakeAll` that with no throw every entry is taken |
| Passes.TakeEnd | main.js:205-239 | only the last entry taken can end the loop, and if it did not the loop reached the end of the list |
| Passes.TakeAll | main.js:206 | without an entry that ends the loop every entry is taken |
| Passes.TakeAgree | main.js:206 | lists that agree from the start position give the same entries |
| Passes.TakeStep | main.js:206 | one pass extends what was taken by the entry at that position |
| Campaign.Visits | main.js:206-236 | position k holds the k-th recipient and what the loop body does there |
| Campaign.Decide | main.js:208-235 | what the loop body does for one recipient, which `HandleRecipient` computes: `DecideFacts` shows the own address and only it is skipped untouched, a send carries the drawn amount and only happens when the balance read covers it, and a send is followed by the drawn delay unless an exception intervenes |
| Campaign.Steps | main.js:204-240 | the passes of `sendtoAll`, which the `SendToAll` trace equals: `TraceProperties` shows list order, the self-skip, funded sends, a delay after each send and an exception as the last pass; `NoFaultVisitsAll` that without exceptions every recipient is visited |
| Campaign.HandleRecipient | main.js:208-235 | one pass of the body does what `Decide` states for that position |
| Campaign.SendToAll | main.js:204-240 | the trace of the loop is the passes `Steps` specifies |
| Campaign.DecideFacts | main.js:208-235 | at each position: the own address and only it is skipped untouched; a send carries the drawn amount and only happens when the balance read covers it; a send is followed by the drawn delay unless an exception intervenes |
| Campaign.StepsAreVisits | main.js:206 | the passes are for consecutive positions from the start, each with its decided action |
| Campaign.StepsFacts | main.js:206-236 | every pass keeps the per-position facts |
| Campaign.TraceProperties | main.js:204-240 | recipients in list order; a recipient equal to the own address causes no amount draw, no balance read and no send, and is the only one skipped that way; no send below the balance; a delay after each send and nothing else; an exception is the last pass |
| Campaign.NoFaultVisitsAll | main.js:205-239 | without exceptions every recipient is visited |
| Campaign.OwnPositionsIrrelevant | main.js:208-210 | replies and random draws at the wallet's own positions do not affect the passes |
| Campaign.Entries | main.js:246-254 | position w holds what `startBot` does for the w-th key |
| Campaign.Entry | main.js:246-253 | what `startBot` does for one key: `EntryDerived` shows it is invalid exactly for a wrong key length, and otherwise carries the key's address and that wallet's `Steps` |
| Campaign.Run | main.js:242-255 | the wallets `startBot` handles, which the `StartBot` log equals: `RunProperties` shows consecutive keys each with its derived entry, an invalid key as the only early stop, and `EveryWalletRuns` that with valid keys every wallet runs in key order |
| Campaign.StartBot | main.js:242-255 | the log of the wallet loop is the run `Run` specifies |
| Campaign.EntryDerived | main.js:246-253 | a key's entry is invalid exactly for a wrong key length; a wallet that ran has its key's address and the passes of its own loop |
| Campaign.RunDerived | main.js:246-254 | the entries are for consecutive keys, each derived from its key |
| Campaign.RunStops | main.js:246-254 | an invalid key is the last entry, and only an invalid key stops the run early |
| Campaign.RunProperties | main.js:242-255 | both of the above: an exception inside one wallet's loop never keeps the next wallet from running |
| Campaign.EveryWalletRuns | main.js:246-254 | when every key has a valid length every wallet runs, in key order |
| LineList.TrimAll | skw/config.js:13 | each line is replaced by its trim |
| LineList.KeepNonEmpty | skw/config.js:14 | the kept entries are non-empty, taken from the input, and every non-empty input is kept |
| LineList.ParseLines | skw/config.js:11-19 | the loader: `EntriesAreClean` shows its entries are non-empty, trimmed and free of line breaks, `ParseLinesConcat` that they keep line order, `BlankTextHasNoEntries` that it is empty exactly for blank text, and `ReloadIsStable` that writing the entries back one per line loads them again |
| LineList.EntriesAreClean | skw/config.js:11-19 | every entry is non-empty, trimmed and free of line breaks, and there are no more entries than lines |
| LineList.LineClean | skw/config.js:12-13 | a trimmed line is trimmed and has no line break |
| LineList.TrimAllAppend | skw/config.js:13 | trimming distributes over concatenation |
| LineList.KeepNonEmptyAppend | skw/config.js:14 | filtering distributes over concatenation |
| LineList.ParseLinesConcat | skw/config.js:11-19 | entries keep the order of their lines |
| LineList.ParseSingleLine | skw/config.js:11-19 | a single line gives its trim as an entry, or nothing if blank |
| LineList.JoinChars | skw/config.js:12 | a character of a join other than the separator lies in some piece |
| LineList.BlankHasNoEntries | skw/config.js:11-19 | whitespace-only text gives no entries |
| LineList.BlankLine | skw/config.js:12 | every line of whitespace-only text is whitespace-only |
| LineList.KeepNoneOfEmpty | skw/config.js:14 | filtering only empty strings leaves nothing |
| LineList.NonBlankHasEntries | skw/config.js:11-19 | text with a non-whitespace character gives an entry |
| LineList.BlankTextHasNoEntries | skw/config.js:11-19 | text gives no entries exactly when it is all whitespace |
| LineList.TrimAllTrimmed | skw/config.js:13 | trimmed lines are left as they are |
| LineList.KeepAll | skw/config.js:14 | non-empty entries are all kept |
| LineList.ParseJoin | skw/config.js:11-19 | clean entries joined by line breaks load as themselves |
| LineList.ReloadIsStable | skw/config.js:11-19 | loading the entries written one per line gives the same entries |

## Left out

- SHA-256, Ed25519 key derivation and signing, UTF-8 encoding, and base64 are uninterpreted functions, because they are library code outside the core. Their types fix the 32-byte public key and digest and the 64-byte secret key; UTF-8 and base64 carry no length.
- SigningCodec.Signature: only `|s| >= 64` is recorded of what `nacl.sign` returns, not `|s| == 64 + |m|`, so that taking the first 64 bytes gives the detached signature is not stated; the model does not need it, since the signature is only ever that slice.
- `postRPC` and HTTP: replies arrive already parsed as status, data and text, or as a thrown message, because they are network I/O. That includes the 30-second timeout and turning an axios error response into a reply.
- The two nonce reads run concurrently under `Promise.all`. They are modelled as two independent inputs, because the join has no ordering effect.
- `main`, the cron schedule, `delay`/`setTimeout`, the 6000 ms start-up delay, `displayskw`, `console.clear`, and every logger call are left out, because they are timers and output. A delay appears only as the drawn number of milliseconds in the trace.
- Floating point is not modelled. `RandomAmount`'s text, `parseFloat`, and `amount * 1000000` are exact reals, because the model does not fix IEEE-754 rounding.
- `Date.now()/1000 + Math.random()*0.01` is not modelled. The timestamp is taken as the JSON text of that number, an input.
- The random draws of `RandomAmount` and `randomdelay` are inputs within their ranges (0.01 to 0.1, and 10000 to 19999 ms).
- General `JSON.stringify` escaping is not modelled, because only plain field text (no quotes, backslashes, control characters, commas or whitespace) is proved to survive canonicalisation unchanged.
- `parseInt` of nonces is not modelled: records carry nonces as optional naturals. Parsing JSON reply bodies is out of scope.
- The message the inner `getKeyPair` error names ("Invalid key size: n bytes") is not modelled, because it is only logged before "Invalid private key format" is thrown.
- `fs.readFileSync` and path resolution are left out. The line-list loader takes the file text.
- The `sendtoAll` logging of `result.hash` is left out. It prints `undefined` for failed transfers, which is output only.
