/** Address derivation (`privateKeyToOctAddress` and the key-length dispatch shared with
    `getKeyPair`, main.js): key material -> Ed25519 key pair -> SHA-256 of the public key ->
    Base58 with one '1' per leading zero byte -> the prefix "oct". */
module Address {
  import opened Common
  import opened Primitives

  const AddressPrefix: string := "oct"

  /** The Bitcoin Base58 alphabet, written as its six runs of consecutive characters; the value is
      "123456789ABCDEFGHJKLMNPQRSTUVWXYZabcdefghijkmnopqrstuvwxyz". */
  const Base58Alphabet: string :=
    "123456789" + "ABCDEFGH" + "JKLMN" + "PQRSTUVWXYZ" + "abcdefghijk" + "mnopqrstuvwxyz"

  const KeyLengthError: string := "Private key must be 32 or 64 bytes"

  /** The key-length dispatch: a 32-byte seed is expanded, a 64-byte secret key is used as is, and
      any other length is refused. */
  function DeriveKeyPair(privBytes: seq<byte>, lib: Library): (r: Option<KeyPair>)
    ensures r.Some? <==> |privBytes| == 32 || |privBytes| == 64
    ensures |privBytes| == 32 ==> r == Some(lib.fromSeed(privBytes))
    ensures |privBytes| == 64 ==> r == Some(lib.fromSecretKey(privBytes))
  {
    if |privBytes| == 32 then Some(lib.fromSeed(privBytes))
    else if |privBytes| == 64 then Some(lib.fromSecretKey(privBytes))
    else None
  }

  /** The position of a character in the alphabet (0 for a character outside it). */
  function DigitValue(c: char): (d: nat)
    ensures d < 58
  {
    if '1' <= c <= '9' then c as int - '1' as int
    else if 'A' <= c <= 'H' then 9 + (c as int - 'A' as int)
    else if 'J' <= c <= 'N' then 17 + (c as int - 'J' as int)
    else if 'P' <= c <= 'Z' then 22 + (c as int - 'P' as int)
    else if 'a' <= c <= 'k' then 33 + (c as int - 'a' as int)
    else if 'm' <= c <= 'z' then 44 + (c as int - 'm' as int)
    else 0
  }

  /** The alphabet has 58 distinct characters: each one's position is its digit value. */
  lemma AlphabetDigit(k: nat)
    requires k < 58
    ensures |Base58Alphabet| == 58
    ensures DigitValue(Base58Alphabet[k]) == k
  {
    if k < 9 { DigitRun(k); }
    else if k < 17 { UpperRunAH(k); }
    else if k < 22 { UpperRunJN(k); }
    else if k < 33 { UpperRunPZ(k); }
    else if k < 44 { LowerRunAK(k); }
    else { LowerRunMZ(k); }
  }

  // One lemma per run of the alphabet keeps each proof about the literal small.
  lemma DigitRun(k: nat) requires k < 9 ensures DigitValue(Base58Alphabet[k]) == k
  { assert Base58Alphabet[k] == "123456789"[k]; }
  lemma UpperRunAH(k: nat) requires 9 <= k < 17 ensures DigitValue(Base58Alphabet[k]) == k
  { assert Base58Alphabet[k] == "ABCDEFGH"[k - 9]; }
  lemma UpperRunJN(k: nat) requires 17 <= k < 22 ensures DigitValue(Base58Alphabet[k]) == k
  { assert Base58Alphabet[k] == "JKLMN"[k - 17]; }
  lemma UpperRunPZ(k: nat) requires 22 <= k < 33 ensures DigitValue(Base58Alphabet[k]) == k
  { assert Base58Alphabet[k] == "PQRSTUVWXYZ"[k - 22]; }
  lemma LowerRunAK(k: nat) requires 33 <= k < 44 ensures DigitValue(Base58Alphabet[k]) == k
  { assert Base58Alphabet[k] == "abcdefghijk"[k - 33]; }
  lemma LowerRunMZ(k: nat) requires 44 <= k < 58 ensures DigitValue(Base58Alphabet[k]) == k
  { assert Base58Alphabet[k] == "mnopqrstuvwxyz"[k - 44]; }

  /** The characters of the alphabet are exactly those of its six runs. */
  predicate InAlphabetRuns(c: char) {
    ('1' <= c <= '9') || ('A' <= c <= 'H') || ('J' <= c <= 'N') || ('P' <= c <= 'Z')
    || ('a' <= c <= 'k') || ('m' <= c <= 'z')
  }

  lemma CharRun(run: string, lo: char, hi: char)
    requires |run| == hi as int - lo as int + 1
    requires forall k :: 0 <= k < |run| ==> run[k] as int == lo as int + k
    ensures forall c :: c in run <==> lo <= c <= hi
  {
    forall c | lo <= c <= hi
      ensures c in run
    {
      assert run[c as int - lo as int] == c;
    }
  }

  lemma AlphabetMembership(c: char)
    ensures c in Base58Alphabet <==> InAlphabetRuns(c)
  {
    CharRun("123456789", '1', '9');
    CharRun("ABCDEFGH", 'A', 'H');
    CharRun("JKLMN", 'J', 'N');
    CharRun("PQRSTUVWXYZ", 'P', 'Z');
    CharRun("abcdefghijk", 'a', 'k');
    CharRun("mnopqrstuvwxyz", 'm', 'z');
  }

  /** The alphabet leaves out the look-alike characters 0, O, I and l. */
  lemma AlphabetAvoidsLookalikes()
    ensures '0' !in Base58Alphabet && 'O' !in Base58Alphabet
    ensures 'I' !in Base58Alphabet && 'l' !in Base58Alphabet
  {
    AlphabetMembership('0');
    AlphabetMembership('O');
    AlphabetMembership('I');
    AlphabetMembership('l');
  }

  /** The unsigned integer a byte string denotes, most significant byte first (what
      `BigInt('0x' + hashed.toString('hex'))` computes). */
  function BigEndianValue(bytes: seq<byte>): nat {
    if bytes == [] then 0 else BigEndianValue(bytes[..|bytes| - 1]) * 256 + bytes[|bytes| - 1]
  }

  /** The Base58 numeral of n, most significant digit first; zero has the empty numeral. */
  function Base58Digits(n: nat): (r: string)
    ensures r == [] <==> n == 0
  {
    if n == 0 then []
    else
      assert |Base58Alphabet| == 58 by { AlphabetDigit(0); }
      Base58Digits(n / 58) + [Base58Alphabet[n % 58]]
  }

  /** The value of a Base58 numeral, most significant digit first. */
  function Base58Value(s: string): nat {
    if s == [] then 0 else Base58Value(s[..|s| - 1]) * 58 + DigitValue(s[|s| - 1])
  }

  /** The number of zero bytes before the first non-zero one. */
  function LeadingZeros(bytes: seq<byte>): (z: nat)
    ensures z <= |bytes|
    ensures forall i :: 0 <= i < z ==> bytes[i] == 0
    ensures z < |bytes| ==> bytes[z] != 0
  {
    if bytes != [] && bytes[0] == 0 then 1 + LeadingZeros(bytes[1..]) else 0
  }

  /** The number of '1' characters a string starts with. */
  function LeadingOnes(s: string): (k: nat)
    ensures k <= |s|
  {
    if s != [] && s[0] == '1' then 1 + LeadingOnes(s[1..]) else 0
  }

  function Ones(k: nat): (r: string)
    ensures |r| == k && forall i :: 0 <= i < k ==> r[i] == '1'
  {
    seq(k, _ => '1')
  }

  /** The address of a digest: the prefix, one '1' per leading zero byte, then the Base58 numeral
      of the digest's value. It starts with "oct" and every later character is a Base58 digit. */
  function OctAddress(digest: seq<byte>): string
  {
    AddressPrefix + Ones(LeadingZeros(digest)) + Base58Digits(BigEndianValue(digest))
  }

  /** The address for key material, or the key-length error. */
  function AddressOf(privBytes: seq<byte>, lib: Library): (r: Result<string, string>)
    ensures r.Failure? <==> |privBytes| != 32 && |privBytes| != 64
    ensures r.Failure? ==> r.error == KeyLengthError
  {
    match DeriveKeyPair(privBytes, lib)
    case None => Failure(KeyLengthError)
    case Some(keyPair) => Success(OctAddress(lib.sha256(keyPair.publicKey)))
  }

  /** `privateKeyToOctAddress` on the decoded key bytes. */
  method PrivateKeyToOctAddress(privBytes: seq<byte>, lib: Library) returns (r: Result<string, string>)
    ensures r == AddressOf(privBytes, lib)
  {
    var keyPair := DeriveKeyPair(privBytes, lib);
    if keyPair.None? {
      return Failure(KeyLengthError);
    }
    var hashed := lib.sha256(keyPair.value.publicKey);
    var encoded := EncodeBase58(hashed);
    r := Success(AddressPrefix + encoded);
  }

  /** The two loops of the encoder as written: repeated division by 58 builds the numeral from its
      least significant digit, then one '1' is prepended per leading zero byte. */
  method EncodeBase58(hashed: seq<byte>) returns (encoded: string)
    ensures AddressPrefix + encoded == OctAddress(hashed)
  {
    AlphabetDigit(0);
    var num := BigEndianValue(hashed);
    encoded := "";
    while num > 0
      invariant Base58Digits(num) + encoded == Base58Digits(BigEndianValue(hashed))
    {
      var remainder := num % 58;
      var digit := Base58Alphabet[remainder];
      DigitStep(num, encoded);
      num := num / 58;
      encoded := [digit] + encoded;
    }
    assert encoded == Base58Digits(BigEndianValue(hashed));

    var i := 0;
    while i < |hashed| && hashed[i] == 0
      invariant 0 <= i <= |hashed|
      invariant forall k :: 0 <= k < i ==> hashed[k] == 0
      invariant encoded == Ones(i) + Base58Digits(BigEndianValue(hashed))
    {
      OnesStep(i);
      encoded := "1" + encoded;
      i := i + 1;
    }
    assert i == LeadingZeros(hashed);
    assert AddressPrefix + encoded == AddressPrefix + Ones(i) + Base58Digits(BigEndianValue(hashed));
  }

  /** One pass of the division loop moves the least significant digit in front of the digits
      produced so far. */
  lemma DigitStep(num: nat, encoded: string)
    requires num > 0
    ensures |Base58Alphabet| == 58
    ensures Base58Digits(num / 58) + ([Base58Alphabet[num % 58]] + encoded) == Base58Digits(num) + encoded
  {
    AlphabetDigit(0);
    var rest := Base58Digits(num / 58);
    var d := [Base58Alphabet[num % 58]];
    assert Base58Digits(num) == rest + d;
    ConcatAssoc(rest, d, encoded);
  }

  lemma ConcatAssoc(a: string, b: string, c: string)
    ensures a + (b + c) == (a + b) + c
  {
  }

  lemma OnesStep(i: nat)
    ensures Ones(i + 1) == "1" + Ones(i)
  {
  }

  /** Every character of a numeral is in the alphabet. */
  lemma {:induction false} Base58DigitsInAlphabet(n: nat)
    ensures forall i :: 0 <= i < |Base58Digits(n)| ==> Base58Digits(n)[i] in Base58Alphabet
  {
    if n > 0 {
      Base58DigitsInAlphabet(n / 58);
      AlphabetDigit(n % 58);
    }
  }

  /** An address starts with "oct" and every later character is in the Base58 alphabet. */
  lemma AddressShape(digest: seq<byte>)
    ensures var a := OctAddress(digest);
      |a| >= 3 && a[..3] == AddressPrefix &&
      forall i :: 3 <= i < |a| ==> a[i] in Base58Alphabet
  {
    var z := LeadingZeros(digest);
    var d := Base58Digits(BigEndianValue(digest));
    Base58DigitsInAlphabet(BigEndianValue(digest));
    AlphabetDigit(0);
    assert '1' in Base58Alphabet;
    var a := OctAddress(digest);
    forall i | 3 <= i < |a|
      ensures a[i] in Base58Alphabet
    {
      if i < 3 + z {
        assert a[i] == Ones(z)[i - 3];
      } else {
        assert a[i] == d[i - 3 - z];
      }
    }
  }

  /** Decoding the numeral of n gives n back. */
  lemma {:induction false} Base58RoundTrip(n: nat)
    ensures Base58Value(Base58Digits(n)) == n
  {
    if n > 0 {
      var d := Base58Digits(n);
      AlphabetDigit(n % 58);
      assert d[..|d| - 1] == Base58Digits(n / 58);
      Base58RoundTrip(n / 58);
    }
  }

  /** A non-empty numeral never starts with '1', the digit for zero. */
  lemma {:induction false} Base58NoLeadingOne(n: nat)
    ensures Base58Digits(n) == [] || Base58Digits(n)[0] != '1'
  {
    if n > 0 {
      AlphabetDigit(n % 58);
      if n / 58 == 0 {
        assert Base58Digits(n) == [Base58Alphabet[n % 58]];
        assert DigitValue('1') == 0;
      } else {
        Base58NoLeadingOne(n / 58);
      }
    }
  }

  lemma {:induction false} LeadingOnesOfOnes(k: nat, s: string)
    requires s == [] || s[0] != '1'
    ensures LeadingOnes(Ones(k) + s) == k
  {
    if k > 0 {
      assert (Ones(k) + s)[1..] == Ones(k - 1) + s;
      LeadingOnesOfOnes(k - 1, s);
    }
  }

  /** After the prefix, the address has exactly one leading '1' per leading zero byte of the
      digest, and the rest decodes to the digest's value. */
  lemma AddressLeadingOnes(digest: seq<byte>)
    ensures var a := OctAddress(digest); var z := LeadingZeros(digest);
      LeadingOnes(a[3..]) == z &&
      3 + z <= |a| && Base58Value(a[3 + z..]) == BigEndianValue(digest)
  {
    var a := OctAddress(digest);
    var z := LeadingZeros(digest);
    var d := Base58Digits(BigEndianValue(digest));
    assert a[3..] == Ones(z) + d;
    assert a[3 + z..] == d;
    Base58NoLeadingOne(BigEndianValue(digest));
    LeadingOnesOfOnes(z, d);
    Base58RoundTrip(BigEndianValue(digest));
  }

  lemma {:induction false} ZerosHaveValueZero(bytes: seq<byte>)
    requires forall i :: 0 <= i < |bytes| ==> bytes[i] == 0
    ensures BigEndianValue(bytes) == 0
  {
    if bytes != [] {
      ZerosHaveValueZero(bytes[..|bytes| - 1]);
    }
  }

  /** An all-zero digest gives "oct" followed by 32 '1's. */
  lemma AllZeroDigest(digest: Bytes32)
    requires forall i :: 0 <= i < 32 ==> digest[i] == 0
    ensures OctAddress(digest) == AddressPrefix + Ones(32)
  {
    ZerosHaveValueZero(digest);
  }

  lemma LastByte(p: nat, x: byte, q: nat, y: byte)
    requires p * 256 + x == q * 256 + y
    ensures x == y && p == q
  {
  }

  /** Byte strings of one length with one value are equal. */
  lemma {:induction false} BigEndianInjective(a: seq<byte>, b: seq<byte>)
    requires |a| == |b|
    requires BigEndianValue(a) == BigEndianValue(b)
    ensures a == b
  {
    if a != [] {
      var n := |a| - 1;
      LastByte(BigEndianValue(a[..n]), a[n], BigEndianValue(b[..n]), b[n]);
      BigEndianInjective(a[..n], b[..n]);
      assert a == a[..n] + [a[n]] && b == b[..n] + [b[n]];
    }
  }

  /** Distinct digests have distinct addresses: the address determines the digest. */
  lemma AddressInjective(d1: Bytes32, d2: Bytes32)
    requires OctAddress(d1) == OctAddress(d2)
    ensures d1 == d2
  {
    AddressLeadingOnes(d1);
    AddressLeadingOnes(d2);
    BigEndianInjective(d1, d2);
  }
}
