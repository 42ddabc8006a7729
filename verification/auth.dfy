/** Challenge-response verification (AuthManager::computeHash and
    verifyHash). SHA-256 itself is not modelled: the digest engine is a
    parameter that yields the digest bytes or reports which EVP step
    failed. */
module Auth {
  import opened Wrappers
  import opened Wire
  import opened Hex
  import opened Credentials

  /** The OpenSSL EVP calls computeHash makes, each of which can fail. */
  datatype DigestStep = CreateContext | Init | Update | Final

  /** What the EVP sequence yields for one input. */
  datatype DigestOutcome = Digest(bytes: seq<byte>) | DigestFailed(step: DigestStep)

  /** SHA-256 (FIPS 180-4) as computed through EVP, left uninterpreted. */
  type Sha256Engine = string -> DigestOutcome

  /** Why computeHash threw instead of returning. */
  datatype HashError = EngineFailed(step: DigestStep) | BadDigestLength(length: nat)

  /** computeHash: the digest of exactly `salt ++ password` (salt first, no
      separator), rendered as 64 lowercase hex characters that read back as
      the 32 digest bytes. It fails when an EVP step fails or the digest is
      not 32 bytes long. */
  function ComputeHash(sha: Sha256Engine, salt: string, password: string): (r: Result<string, HashError>)
    ensures r.Success? <==> sha(salt + password).Digest? && |sha(salt + password).bytes| == 32
    ensures r.Success? ==> |r.value| == 64 && IsHexString(r.value)
    ensures r.Success? ==> HexDecode(r.value) == sha(salt + password).bytes
    ensures sha(salt + password).DigestFailed? ==> r == Failure(EngineFailed(sha(salt + password).step))
  {
    match sha(salt + password)
    case DigestFailed(step) => Failure(EngineFailed(step))
    case Digest(bytes) =>
      if |bytes| != 32 then Failure(BadDigestLength(|bytes|))
      else
        HexRoundTrip(bytes);
        Success(HexEncode(bytes))
  }

  /** Only the concatenation is hashed: moving characters between salt and
      password does not change the hash. */
  lemma HashSeesConcatenation(sha: Sha256Engine, s1: string, p1: string, s2: string, p2: string)
    requires s1 + p1 == s2 + p2
    ensures ComputeHash(sha, s1, p1) == ComputeHash(sha, s2, p2)
  {
  }

  /** Bitwise exclusive or on non-negative ints, lowest bit first. */
  function BitXor(x: nat, y: nat): nat
    decreases x + y
  {
    if x == 0 && y == 0 then 0
    else 2 * BitXor(x / 2, y / 2) + (if x % 2 == y % 2 then 0 else 1)
  }

  /** Bitwise inclusive or on non-negative ints, lowest bit first. */
  function BitOr(x: nat, y: nat): nat
    decreases x + y
  {
    if x == 0 && y == 0 then 0
    else 2 * BitOr(x / 2, y / 2) + (if x % 2 == 1 || y % 2 == 1 then 1 else 0)
  }

  lemma {:induction false} BitXorZero(x: nat, y: nat)
    ensures BitXor(x, y) == 0 <==> x == y
    decreases x + y
  {
    if x != 0 || y != 0 {
      BitXorZero(x / 2, y / 2);
    }
  }

  lemma BitOrZero(x: nat, y: nat)
    ensures BitOr(x, y) == 0 <==> x == 0 && y == 0
  {
  }

  /** `result |= computed[i] ^ received[i]` over every index, in order,
      on the character codes: 0 exactly when the strings are equal. */
  function XorAccumulate(a: string, b: string): (r: nat)
    requires |a| == |b|
    ensures r == 0 <==> a == b
  {
    if |a| == 0 then 0
    else
      var n := |a| - 1;
      var prefix := XorAccumulate(a[..n], b[..n]);
      var last := BitXor(a[n] as int, b[n] as int);
      BitOrZero(prefix, last);
      BitXorZero(a[n] as int, b[n] as int);
      assert a == a[..n] + [a[n]];
      assert b == b[..n] + [b[n]];
      BitOr(prefix, last)
  }

  /** verifyHash: false for an unknown login (nothing is hashed); otherwise
      true iff the received string is exactly the computed hash,
      character for character (lengths first, then the XOR accumulation).
      A hashing failure propagates as the exception it is. */
  function VerifyHash(users: UserTable, sha: Sha256Engine, login: string, salt: string, received: string)
    : (r: Result<bool, HashError>)
    ensures login !in users ==> r == Success(false)
    ensures r.Failure? <==> login in users && ComputeHash(sha, salt, users[login]).Failure?
    ensures r == Success(true) <==> login in users && ComputeHash(sha, salt, users[login]) == Success(received)
  {
    if login !in users then Success(false)
    else match ComputeHash(sha, salt, users[login])
      case Failure(e) => Failure(e)
      case Success(computed) =>
        if |computed| != |received| then Success(false)
        else
          Success(XorAccumulate(computed, received) == 0)
  }

  function UpperChar(c: char): char
  {
    if 'a' <= c <= 'z' then (c as int - 'a' as int + 'A' as int) as char else c
  }

  function Upper(s: string): (u: string)
    ensures |u| == |s|
    ensures forall i :: 0 <= i < |s| ==> u[i] == UpperChar(s[i])
  {
    seq(|s|, i requires 0 <= i < |s| => UpperChar(s[i]))
  }

  /** The comparison is case-sensitive: the uppercase spelling of a hash
      that contains a letter is rejected. */
  lemma UppercaseHashRejected(users: UserTable, sha: Sha256Engine, login: string, salt: string, i: nat)
    requires login in users
    requires ComputeHash(sha, salt, users[login]).Success?
    requires var h := ComputeHash(sha, salt, users[login]).value; i < |h| && 'a' <= h[i] <= 'f'
    ensures var h := ComputeHash(sha, salt, users[login]).value;
            VerifyHash(users, sha, login, salt, Upper(h)) == Success(false)
  {
    var h := ComputeHash(sha, salt, users[login]).value;
    assert Upper(h)[i] != h[i];
  }
}
