/** The password challenge-response of the bootloader. The device's reply to
    GetPasswordInfo carries a 4-byte challenge, an 8-byte salt and a signed
    little-endian 32-bit iteration count; the host pads the password into a
    68-byte buffer and runs a SHA-512 hash chain over it. SHA-512 itself is
    not modelled: it is any function that yields 64 bytes, passed in by the
    caller. */
module Authenticator {
  import opened Wire

  /** A SHA-512 digest. */
  type Digest = d: Bytes | |d| == 64 witness Zeros(64)

  /** Size of the password buffer (`hashedData`). */
  const BLOCK_SIZE: nat := 68
  /** Size of the buffer the GetPasswordInfo reply payload is copied into. */
  const CHALLENGE_BUFFER_SIZE: nat := 100
  /** The first four bytes of every SendPassword payload. */
  const PASSWORD_TAG: Bytes := [0x00, 0x00, 0x40, 0x00]

  // ----- strncpy -----

  /** Length of the C string held in `s`: the bytes before the first NUL. */
  function CStrLen(s: Bytes): (n: nat)
    ensures n <= |s|
    ensures forall i :: 0 <= i < n ==> s[i] != 0
    ensures n < |s| ==> s[n] == 0
  {
    if s == [] || s[0] == 0 then 0 else 1 + CStrLen(s[1..])
  }

  /** `strncpy(dst, src, n)`: the C string in `src`, cut or NUL-padded to exactly `n` bytes. */
  function Strncpy(src: Bytes, n: nat): (r: Bytes)
    ensures |r| == n
    ensures forall i :: 0 <= i < n ==> r[i] == if i < CStrLen(src) then src[i] else 0
  {
    if n == 0 then []
    else if src == [] || src[0] == 0 then Zeros(n)
    else [src[0]] + Strncpy(src[1..], n - 1)
  }

  // ----- challenge material -----

  datatype ChallengeMaterial = ChallengeMaterial(challenge: Bytes, salt: Bytes, iterations: int)

  ghost predicate ValidMaterial(m: ChallengeMaterial)
  {
    |m.challenge| == 4 && |m.salt| == 8 && -0x8000_0000 <= m.iterations < 0x8000_0000
  }

  /** The zero-initialised `challengeData` buffer after the reply payload is copied in. */
  function ChallengeBuffer(payload: Bytes): (cd: Bytes)
    requires |payload| <= CHALLENGE_BUFFER_SIZE
    ensures |cd| == CHALLENGE_BUFFER_SIZE
  {
    CopyInto(Zeros(CHALLENGE_BUFFER_SIZE), payload)
  }

  /** Challenge at offsets 4-7, salt at 12-19, iterations as a signed LE32 at 20-23. */
  function ParseChallenge(cd: Bytes): (m: ChallengeMaterial)
    requires |cd| == CHALLENGE_BUFFER_SIZE
    ensures ValidMaterial(m)
    ensures m.challenge == cd[4..8] && m.salt == cd[12..20]
    ensures m.iterations % 0x1_0000_0000 == DecodeLe32(cd[20..24])
  {
    ChallengeMaterial(cd[4..8], cd[12..20], ToInt32(DecodeLe32(cd[20..24])))
  }

  /** A GetPasswordInfo reply payload that fits `challengeData` and carries `m`
      at the offsets the host reads; its other bytes are arbitrary. */
  ghost predicate CarriesMaterial(p: Bytes, m: ChallengeMaterial)
  {
    && ValidMaterial(m)
    && 24 <= |p| <= CHALLENGE_BUFFER_SIZE
    && p[4..8] == m.challenge
    && p[12..20] == m.salt
    && p[20..24] == Le32(m.iterations % 0x1_0000_0000)
  }

  /** The shortest such payload, with the bytes the host ignores zeroed:
      every valid material can be sent. */
  function ChallengeReply(m: ChallengeMaterial): (p: Bytes)
    requires ValidMaterial(m)
    ensures |p| == 24 && CarriesMaterial(p, m)
  {
    Zeros(4) + m.challenge + Zeros(4) + m.salt + Le32(m.iterations % 0x1_0000_0000)
  }

  /** The host recovers exactly the challenge, salt and iteration count the
      device sent, whatever the payload holds at the offsets it ignores. */
  lemma ParseChallengeReply(p: Bytes, m: ChallengeMaterial)
    requires CarriesMaterial(p, m)
    ensures ParseChallenge(ChallengeBuffer(p)) == m
  {
    var cd := ChallengeBuffer(p);
    assert cd[4..8] == p[4..8];
    assert cd[12..20] == p[12..20];
    assert cd[20..24] == p[20..24];
    Le32RoundTrip(m.iterations % 0x1_0000_0000);
  }

  // ----- the hash chain -----

  /** The 76 bytes hashed in round `count`: LE32 count, salt, first 64 bytes of the buffer. */
  function RoundInput(count: int, salt: Bytes, block: Bytes): (r: Bytes)
    requires 0 <= count < 0x8000_0000 && |salt| == 8 && |block| == BLOCK_SIZE
    ensures |r| == 76
  {
    Le32(count) + salt + block[..64]
  }

  /** One round: the digest replaces the first 64 bytes, the last 4 stay. */
  function Round(sha512: Bytes -> Digest, salt: Bytes, count: int, block: Bytes): (r: Bytes)
    requires 0 <= count < 0x8000_0000 && |salt| == 8 && |block| == BLOCK_SIZE
    ensures |r| == BLOCK_SIZE
  {
    sha512(RoundInput(count, salt, block)) + block[64..]
  }

  /** Rounds with counts 0, 1, ..., n-1 applied in turn to `block`. */
  function Rounds(sha512: Bytes -> Digest, salt: Bytes, block: Bytes, n: nat): (r: Bytes)
    requires n <= 0x8000_0000 && |salt| == 8 && |block| == BLOCK_SIZE
    ensures |r| == BLOCK_SIZE
  {
    if n == 0 then block
    else Round(sha512, salt, n - 1, Rounds(sha512, salt, block, n - 1))
  }

  /** The challenge becomes the first 4 bytes, followed by the 64 digest bytes. */
  function Splice(challenge: Bytes, block: Bytes): (r: Bytes)
    requires |challenge| == 4 && |block| == BLOCK_SIZE
    ensures |r| == BLOCK_SIZE
  {
    challenge + block[..64]
  }

  /** What the hash chain leaves in the password buffer. With at least one
      iteration there are two passes of `iterations` rounds each, the challenge
      spliced in once between them; otherwise there is a single round. */
  function Chain(sha512: Bytes -> Digest, m: ChallengeMaterial, block: Bytes): (r: Bytes)
    requires ValidMaterial(m) && m.iterations != -0x8000_0000 && |block| == BLOCK_SIZE
    ensures |r| == BLOCK_SIZE
  {
    if m.iterations >= 1 then
      Rounds(sha512, m.salt, Splice(m.challenge, Rounds(sha512, m.salt, block, m.iterations)), m.iterations)
    else
      Round(sha512, m.salt, 0, block)
  }

  /** The number of loop iterations still to run, used as the loop's measure. */
  function RoundsLeft(done: bool, challenger: bool, count: int, iterations: int): int
  {
    if done then 0
    else if !challenger then iterations - count
    else if iterations >= 1 then 2 * iterations - count
    else 1
  }

  /** The `do ... while (++count < iterations)` loop over the password buffer.
      `rounds` counts the SHA-512 invocations. */
  method HashChain(sha512: Bytes -> Digest, m: ChallengeMaterial, password: Bytes)
    returns (hashed: Bytes, ghost rounds: nat)
    requires ValidMaterial(m) && m.iterations != -0x8000_0000 && |password| == BLOCK_SIZE
    ensures hashed == Chain(sha512, m, password)
    ensures rounds == if m.iterations >= 1 then 2 * m.iterations else 1
  {
    var iterations := m.iterations;
    hashed := password;
    rounds := 0;
    var count: int := 0;
    var challenger := true;
    var done := false;
    while !done
      invariant |hashed| == BLOCK_SIZE
      invariant !done ==> 0 <= count && if iterations >= 1 then count < iterations else count == 0 && challenger
      invariant !done && challenger ==> hashed == Rounds(sha512, m.salt, password, count) && rounds == count
      invariant !done && !challenger ==> iterations >= 1 && rounds == iterations + count
      invariant !done && !challenger ==>
        hashed == Rounds(sha512, m.salt, Splice(m.challenge, Rounds(sha512, m.salt, password, iterations)), count)
      invariant done ==> hashed == Chain(sha512, m, password)
      invariant done ==> rounds == if iterations >= 1 then 2 * iterations else 1
      decreases RoundsLeft(done, challenger, count, iterations)
    {
      var buf := Le32(count) + m.salt + hashed[..64];
      hashed := sha512(buf) + hashed[64..];
      rounds := rounds + 1;
      if count == iterations - 1 && challenger {
        count := -1;
        challenger := false;
        hashed := m.challenge + hashed[..64];
      }
      count := count + 1;
      done := !(count < iterations);
    }
  }

  /** The SendPassword payload: the tag, then the first 64 bytes of the buffer. */
  function PasswordPayload(hashed: Bytes): (p: Bytes)
    requires |hashed| == BLOCK_SIZE
    ensures |p| == BLOCK_SIZE && p[..4] == PASSWORD_TAG
    ensures p[4..] == hashed[..64]
  {
    PASSWORD_TAG + hashed[..64]
  }

  /** The response sent for `password` and the device's challenge material. */
  function Response(sha512: Bytes -> Digest, m: ChallengeMaterial, password: Bytes): (p: Bytes)
    requires ValidMaterial(m) && m.iterations != -0x8000_0000
    ensures |p| == BLOCK_SIZE
  {
    PasswordPayload(Chain(sha512, m, Strncpy(password, BLOCK_SIZE)))
  }

  // ----- properties of the chain -----

  /** Rounds never touch the last 4 bytes of the buffer. */
  lemma {:induction false} RoundsKeepTail(sha512: Bytes -> Digest, salt: Bytes, block: Bytes, n: nat)
    requires n <= 0x8000_0000 && |salt| == 8 && |block| == BLOCK_SIZE
    ensures Rounds(sha512, salt, block, n)[64..] == block[64..]
  {
    if n > 0 {
      RoundsKeepTail(sha512, salt, block, n - 1);
    }
  }

  /** The digest bytes after any number of rounds depend only on the first 64 bytes of the input. */
  lemma {:induction false} RoundsIgnoreTail(sha512: Bytes -> Digest, salt: Bytes, b1: Bytes, b2: Bytes, n: nat)
    requires n <= 0x8000_0000 && |salt| == 8 && |b1| == BLOCK_SIZE && |b2| == BLOCK_SIZE
    requires b1[..64] == b2[..64]
    ensures Rounds(sha512, salt, b1, n)[..64] == Rounds(sha512, salt, b2, n)[..64]
  {
    if n > 0 {
      RoundsIgnoreTail(sha512, salt, b1, b2, n - 1);
      var r1 := Rounds(sha512, salt, b1, n - 1);
      var r2 := Rounds(sha512, salt, b2, n - 1);
      assert RoundInput(n - 1, salt, r1) == RoundInput(n - 1, salt, r2);
    }
  }

  /** Only the first 64 bytes of the padded password reach the wire: passwords
      that agree on them produce the same response. */
  lemma ResponseIgnoresPasswordTail(sha512: Bytes -> Digest, m: ChallengeMaterial, pw1: Bytes, pw2: Bytes)
    requires ValidMaterial(m) && m.iterations != -0x8000_0000
    requires Strncpy(pw1, BLOCK_SIZE)[..64] == Strncpy(pw2, BLOCK_SIZE)[..64]
    ensures Response(sha512, m, pw1) == Response(sha512, m, pw2)
  {
    var b1, b2 := Strncpy(pw1, BLOCK_SIZE), Strncpy(pw2, BLOCK_SIZE);
    if m.iterations >= 1 {
      RoundsIgnoreTail(sha512, m.salt, b1, b2, m.iterations);
      var s1 := Splice(m.challenge, Rounds(sha512, m.salt, b1, m.iterations));
      var s2 := Splice(m.challenge, Rounds(sha512, m.salt, b2, m.iterations));
      assert s1 == s2;
    } else {
      assert RoundInput(0, m.salt, b1) == RoundInput(0, m.salt, b2);
    }
  }

  /** With no positive iteration count the challenge is never spliced in, so it has no effect. */
  lemma ChallengeUnusedWithoutIterations(sha512: Bytes -> Digest, m1: ChallengeMaterial, m2: ChallengeMaterial, block: Bytes)
    requires ValidMaterial(m1) && ValidMaterial(m2) && |block| == BLOCK_SIZE
    requires m1.iterations != -0x8000_0000 && m1.iterations <= 0
    requires m2.salt == m1.salt && m2.iterations == m1.iterations
    ensures Chain(sha512, m1, block) == Chain(sha512, m2, block)
  {
  }

  /** One iteration: one round, the splice, then one more round, both with count 0. */
  lemma SingleIteration(sha512: Bytes -> Digest, m: ChallengeMaterial, block: Bytes)
    requires ValidMaterial(m) && m.iterations == 1 && |block| == BLOCK_SIZE
    ensures Chain(sha512, m, block)
         == Round(sha512, m.salt, 0, Splice(m.challenge, Round(sha512, m.salt, 0, block)))
  {
    var first := Round(sha512, m.salt, 0, block);
    assert Rounds(sha512, m.salt, block, 1) == first;
    assert Rounds(sha512, m.salt, Splice(m.challenge, first), 1)
        == Round(sha512, m.salt, 0, Splice(m.challenge, first));
  }

  /** The first round of the second pass hashes LE32 0, the salt, the challenge
      and the first 60 bytes of the first pass's final digest. */
  lemma SecondPassInput(salt: Bytes, challenge: Bytes, first: Bytes)
    requires |salt| == 8 && |challenge| == 4 && |first| == BLOCK_SIZE
    ensures RoundInput(0, salt, Splice(challenge, first)) == Le32(0) + salt + challenge + first[..60]
  {
    var spliced := Splice(challenge, first);
    assert spliced[..64] == challenge + first[..60];
  }

  /** Rounds after a splice leave bytes 60-63 of the spliced-in digest in the tail. */
  lemma SplicedTail(sha512: Bytes -> Digest, salt: Bytes, challenge: Bytes, first: Bytes, n: nat)
    requires |salt| == 8 && |challenge| == 4 && |first| == BLOCK_SIZE && n <= 0x8000_0000
    ensures Rounds(sha512, salt, Splice(challenge, first), n)[64..] == first[60..64]
  {
    RoundsKeepTail(sha512, salt, Splice(challenge, first), n);
  }

  /** With at least one iteration the buffer's last 4 bytes end up holding bytes
      60-63 of the first pass's final digest; otherwise they keep the password's
      bytes 64-67. Neither reaches the wire. */
  lemma ChainTail(sha512: Bytes -> Digest, m: ChallengeMaterial, block: Bytes)
    requires ValidMaterial(m) && m.iterations != -0x8000_0000 && |block| == BLOCK_SIZE
    ensures m.iterations >= 1 ==>
      Chain(sha512, m, block)[64..] == Rounds(sha512, m.salt, block, m.iterations)[60..64]
    ensures m.iterations < 1 ==> Chain(sha512, m, block)[64..] == block[64..]
  {
    if m.iterations >= 1 {
      SplicedTail(sha512, m.salt, m.challenge, Rounds(sha512, m.salt, block, m.iterations), m.iterations);
    } else {
      var d := sha512(RoundInput(0, m.salt, block));
      assert Chain(sha512, m, block) == d + block[64..];
    }
  }
}
