/**
 * The password-credential logic of `src/lib/scrypt.ts`: a constant-time byte
 * comparison, and the stored form `saltHex:keyHex` built by `hashPassword`
 * and parsed again by `verifyPassword`.
 *
 * The scrypt call (with its NFKC normalisation of the password) and the
 * external `hexToBytes` decoder are not given bodies here: each operation
 * that uses them takes them as function parameters, so every result below
 * holds for whatever deterministic functions they are.
 */
module Scrypt {
  import opened Results
  import opened Hex

  /** The fixed scrypt configuration: cost N, block size r, parallelism p, key length. */
  const N: nat := 16384
  const R: nat := 16
  const P: nat := 1
  const DkLen: nat := 64

  /** The `maxmem` bound handed to scrypt, `128 * N * r * 2` bytes. */
  const MaxMem: nat := 128 * N * R * 2

  /** The options `generateKey` hands to scrypt. */
  datatype ScryptOptions = ScryptOptions(n: nat, r: nat, p: nat, dkLen: nat, maxmem: nat)

  /** n is 2 raised to some natural power. */
  predicate IsPowerOfTwo(n: nat)
    decreases n
  {
    n == 1 || (n > 1 && n % 2 == 0 && IsPowerOfTwo(n / 2))
  }

  /**
   * The options of every `generateKey` call. They meet the parameter
   * conditions of section 2 of RFC 7914 (N a power of two above 1,
   * p <= (2^32 - 1) * 32 / (128 * r), dkLen <= (2^32 - 1) * 32), and the
   * memory scrypt works in, 128 * r * N bytes for V plus 128 * r * p for B,
   * stays under `maxmem`.
   */
  function GenerateKeyOptions(): (options: ScryptOptions)
    ensures options.n > 1 && IsPowerOfTwo(options.n)
    ensures options.r > 0 && options.p * 128 * options.r <= (TwoTo32 - 1) * 32
    ensures 0 < options.dkLen <= (TwoTo32 - 1) * 32 && options.dkLen == DkLen
    ensures 128 * options.r * (options.n + options.p) <= options.maxmem
  {
    ScryptOptions(N, R, P, DkLen, MaxMem)
  }

  /** The 16 random bytes `hashPassword` draws for its salt. */
  type SaltBytes = s: seq<byte> | |s| == 16 witness seq(16, _ => 0)

  /** A derived key: scrypt's output of `dkLen` bytes. */
  type DerivedKey = s: seq<byte> | |s| == DkLen witness seq(64, _ => 0)

  /**
   * `generateKey(password, salt)`: scrypt with the fixed configuration over
   * the normalised password and the salt TEXT.
   */
  type KeyDerivation = (string, string) -> DerivedKey

  /** `hexToBytes` of the hashing library: the decoded bytes, or None where it throws. */
  type HexDecoder = string -> Option<seq<byte>>

  /** Why `verifyPassword` throws. */
  datatype VerifyError =
    | InvalidPasswordHash  // "Invalid password hash": a missing or empty field
    | KeyDecodingFailed    // the error `hexToBytes` throws on the key field

  // ---------------------------------------------------------------------------
  // constantTimeEqual
  // ---------------------------------------------------------------------------

  const TwoTo32: nat := 0x1_0000_0000

  /**
   * JavaScript's `x ^ y` on the bit patterns of two non-negative integers,
   * lowest bit first.
   */
  function Xor(x: nat, y: nat): nat
    decreases x + y
  {
    if x == 0 && y == 0 then 0
    else 2 * Xor(x / 2, y / 2) + (if x % 2 == y % 2 then 0 else 1)
  }

  /** JavaScript's `x | y` on the bit patterns of two non-negative integers. */
  function Or(x: nat, y: nat): nat
    decreases x + y
  {
    if x == 0 && y == 0 then 0
    else 2 * Or(x / 2, y / 2) + (if x % 2 == 1 || y % 2 == 1 then 1 else 0)
  }

  /** The XOR of two patterns is 0 exactly when they are the same pattern. */
  lemma {:induction false} XorZero(x: nat, y: nat)
    ensures Xor(x, y) == 0 <==> x == y
    decreases x + y
  {
    if x != 0 || y != 0 {
      XorZero(x / 2, y / 2);
    }
  }

  /** The OR of two patterns is 0 exactly when both are 0. */
  lemma {:induction false} OrZero(x: nat, y: nat)
    ensures Or(x, y) == 0 <==> x == 0 && y == 0
    decreases x + y
  {
    if x != 0 || y != 0 {
      OrZero(x / 2, y / 2);
    }
  }

  lemma {:induction false} XorCommutes(x: nat, y: nat)
    ensures Xor(x, y) == Xor(y, x)
    decreases x + y
  {
    if x != 0 || y != 0 {
      XorCommutes(x / 2, y / 2);
    }
  }

  /** The 32-bit pattern of a length once JavaScript's `^` has converted it to an integer. */
  function LengthBits(n: nat): nat
  {
    n % TwoTo32
  }

  /** `i < s.length ? s[i] : 0`: a position past the end reads as 0. */
  function ByteAt(s: seq<byte>, i: nat): byte
  {
    if i < |s| then s[i] else 0
  }

  function Max(x: nat, y: nat): nat
  {
    if x < y then y else x
  }

  /** The bit pattern of the accumulator `c` after the first n rounds of the comparison loop. */
  function Accumulator(a: seq<byte>, b: seq<byte>, n: nat): nat
  {
    if n == 0 then Xor(LengthBits(|a|), LengthBits(|b|))
    else Or(Accumulator(a, b, n - 1), Xor(ByteAt(a, n - 1), ByteAt(b, n - 1)))
  }

  /** What `constantTimeEqual(a, b)` returns: the accumulator is 0 after all rounds. */
  predicate Matches(a: seq<byte>, b: seq<byte>)
  {
    Accumulator(a, b, Max(|a|, |b|)) == 0
  }

  /**
   * `constantTimeEqual` on byte arrays: the accumulator starts at the XOR of
   * the lengths and ORs in the XOR of every position up to the longer length,
   * missing positions counting as 0; there is no early exit, so the loop runs
   * exactly `max(|a|, |b|)` times whatever the contents.
   */
  method ConstantTimeEqual(a: seq<byte>, b: seq<byte>) returns (equal: bool, ghost rounds: nat)
    ensures equal == Matches(a, b)
    ensures rounds == Max(|a|, |b|)
    ensures |a| < TwoTo32 && |b| < TwoTo32 ==> (equal <==> a == b)
  {
    var c := Xor(LengthBits(|a|), LengthBits(|b|));
    var length := Max(|a|, |b|);
    rounds := 0;
    for i := 0 to length
      invariant c == Accumulator(a, b, i)
      invariant rounds == i
    {
      var x: byte := if i < |a| then a[i] else 0;
      var y: byte := if i < |b| then b[i] else 0;
      c := Or(c, Xor(x, y));
      rounds := rounds + 1;
    }
    equal := c == 0;
    if |a| < TwoTo32 && |b| < TwoTo32 {
      MatchesIsEquality(a, b);
    }
  }

  /**
   * The accumulator is 0 after n rounds exactly when the lengths agree modulo
   * 2^32 and the first n positions agree: OR only ever adds bits.
   */
  lemma {:induction false} AccumulatorZero(a: seq<byte>, b: seq<byte>, n: nat)
    ensures Accumulator(a, b, n) == 0 <==>
      LengthBits(|a|) == LengthBits(|b|) && forall i :: 0 <= i < n ==> ByteAt(a, i) == ByteAt(b, i)
  {
    if n > 0 {
      AccumulatorZero(a, b, n - 1);
      XorZero(ByteAt(a, n - 1), ByteAt(b, n - 1));
      OrZero(Accumulator(a, b, n - 1), Xor(ByteAt(a, n - 1), ByteAt(b, n - 1)));
    } else {
      XorZero(LengthBits(|a|), LengthBits(|b|));
    }
  }

  /**
   * For inputs shorter than 2^32 bytes, `constantTimeEqual` is exactly
   * equality: same length and the same byte at every index.
   */
  lemma MatchesIsEquality(a: seq<byte>, b: seq<byte>)
    requires |a| < TwoTo32 && |b| < TwoTo32
    ensures Matches(a, b) <==> a == b
  {
    AccumulatorZero(a, b, Max(|a|, |b|));
    if |a| == |b| && forall i :: 0 <= i < |a| ==> ByteAt(a, i) == ByteAt(b, i) {
      assert forall i :: 0 <= i < |a| ==> a[i] == ByteAt(a, i) == ByteAt(b, i) == b[i];
    }
  }

  /**
   * Inputs whose lengths differ (below 2^32) never compare equal, even when
   * one is a prefix of the other and every compared position agrees: the
   * accumulator is non-zero from the start and at every round.
   */
  lemma DifferentLengthsNeverMatch(a: seq<byte>, b: seq<byte>, n: nat)
    requires |a| < TwoTo32 && |b| < TwoTo32 && |a| != |b|
    ensures Accumulator(a, b, n) != 0
  {
    AccumulatorZero(a, b, n);
  }

  /** Any byte sequence compares equal to itself, whatever its length. */
  lemma MatchesReflexive(a: seq<byte>)
    ensures Matches(a, a)
  {
    AccumulatorZero(a, a, |a|);
  }

  /** The accumulator does not depend on the order of the two inputs. */
  lemma {:induction false} AccumulatorSymmetric(a: seq<byte>, b: seq<byte>, n: nat)
    ensures Accumulator(a, b, n) == Accumulator(b, a, n)
  {
    if n > 0 {
      AccumulatorSymmetric(a, b, n - 1);
      XorCommutes(ByteAt(a, n - 1), ByteAt(b, n - 1));
    } else {
      XorCommutes(LengthBits(|a|), LengthBits(|b|));
    }
  }

  /** `constantTimeEqual(a, b) == constantTimeEqual(b, a)`. */
  lemma MatchesSymmetric(a: seq<byte>, b: seq<byte>)
    ensures Matches(a, b) == Matches(b, a)
  {
    AccumulatorSymmetric(a, b, Max(|a|, |b|));
    assert Max(|a|, |b|) == Max(|b|, |a|);
  }

  // ---------------------------------------------------------------------------
  // The stored form and its parsing
  // ---------------------------------------------------------------------------

  /** The fields of a string joined with the separator between them. */
  function Join(parts: seq<string>, separator: char): string
    requires |parts| >= 1
  {
    if |parts| == 1 then parts[0] else parts[0] + [separator] + Join(parts[1..], separator)
  }

  /**
   * `s.split(separator)` for a one-character separator: the maximal runs
   * between separators, in order; the empty string gives one empty field.
   */
  function Split(s: string, separator: char): (parts: seq<string>)
    ensures |parts| >= 1
    ensures Join(parts, separator) == s
    ensures forall k :: 0 <= k < |parts| ==> separator !in parts[k]
  {
    if s == [] then [[]]
    else
      var rest := Split(s[1..], separator);
      if s[0] == separator then [[]] + rest
      else
        assert [s[0]] + Join(rest, separator) == s;
        [[s[0]] + rest[0]] + rest[1..]
  }

  /** Text without the separator splits into itself alone. */
  lemma {:induction false} SplitWithoutSeparator(s: string, separator: char)
    requires separator !in s
    ensures Split(s, separator) == [s]
  {
    if s != [] {
      SplitWithoutSeparator(s[1..], separator);
    }
  }

  /** A character other than the separator joins the first field of what follows it. */
  lemma SplitCons(c: char, w: string, separator: char)
    requires c != separator
    ensures Split([c] + w, separator) == [[c] + Split(w, separator)[0]] + Split(w, separator)[1..]
  {
    assert ([c] + w)[1..] == w;
  }

  /** The first field ends at the first separator; the rest is split on its own. */
  lemma {:induction false} SplitAtFirst(s: string, separator: char, t: string)
    requires separator !in s
    ensures Split(s + [separator] + t, separator) == [s] + Split(t, separator)
  {
    if s == [] {
      assert s + [separator] + t == [separator] + t;
    } else {
      var w := s[1..] + [separator] + t;
      SplitAtFirst(s[1..], separator, t);
      assert s + [separator] + t == [s[0]] + w;
      SplitCons(s[0], w, separator);
      assert [s[0]] + s[1..] == s;
    }
  }

  /**
   * `hashPassword`: the salt text is the hex of the 16 random bytes, the key
   * is derived from the password and that text, and the stored string is
   * `salt + ":" + hex(key)`.
   */
  function HashPassword(generateKey: KeyDerivation, password: string, random: SaltBytes): (stored: string)
    ensures |stored| == 32 + 1 + 128
    ensures stored[32] == ':'
    ensures forall i :: 0 <= i < |stored| && i != 32 ==> IsHexDigit(stored[i])
    ensures stored[..32] == HexOf(random)
    ensures stored[33..] == HexOf(generateKey(password, HexOf(random)))
  {
    var salt := HexOf(random);
    var key := HexOf(generateKey(password, salt));
    HexOfWellFormed(random);
    HexOfWellFormed(generateKey(password, salt));
    HexOfLength(random);
    HexOfLength(generateKey(password, salt));
    var stored := salt + ":" + key;
    assert stored[..32] == salt && stored[33..] == key;
    assert forall i :: 0 <= i < 32 ==> stored[i] == salt[i];
    assert forall i :: 33 <= i < |stored| ==> stored[i] == key[i - 33];
    stored
  }

  /**
   * `verifyPassword`: split the stored string on `:`, demand a non-empty
   * first and second field, derive a key from the password and the first
   * field's TEXT, and compare it with the bytes `hexToBytes` reads from the
   * second field. A mismatch is `false`, not an error.
   */
  function VerifyPassword(generateKey: KeyDerivation, hexToBytes: HexDecoder, hash: string, password: string): (r: Result<bool, VerifyError>)
    ensures var parts := Split(hash, ':');
      r == Failure(InvalidPasswordHash) <==> |parts| < 2 || parts[0] == "" || parts[1] == ""
    ensures var parts := Split(hash, ':');
      r == Failure(KeyDecodingFailed) <==>
        |parts| >= 2 && parts[0] != "" && parts[1] != "" && hexToBytes(parts[1]).None?
    ensures var parts := Split(hash, ':');
      r.Success? && |hexToBytes(parts[1]).value| < TwoTo32 ==>
        (r.value <==> generateKey(password, parts[0]) == hexToBytes(parts[1]).value)
  {
    var parts := Split(hash, ':');
    var salt := parts[0];
    var key := if |parts| > 1 then Some(parts[1]) else None;
    if salt == "" || key.None? || key.value == "" then Failure(InvalidPasswordHash)
    else
      var targetKey := generateKey(password, salt);
      match hexToBytes(key.value)
      case None => Failure(KeyDecodingFailed)
      case Some(bytes) =>
        assert |bytes| < TwoTo32 ==> (Matches(targetKey, bytes) <==> targetKey == bytes) by {
          if |bytes| < TwoTo32 {
            MatchesIsEquality(targetKey, bytes);
          }
        }
        Success(Matches(targetKey, bytes))
  }

  /** A stored string without `:` is rejected as an invalid hash. */
  lemma VerifyWithoutSeparator(generateKey: KeyDerivation, hexToBytes: HexDecoder, hash: string, password: string)
    requires ':' !in hash
    ensures VerifyPassword(generateKey, hexToBytes, hash, password) == Failure(InvalidPasswordHash)
  {
    SplitWithoutSeparator(hash, ':');
  }

  /**
   * A stored string with a `:` is `salt + ":" + key + rest`, where neither
   * field holds a `:` and `rest` is empty or starts at a second `:`. Either
   * field empty is an invalid hash; otherwise `rest` is ignored and the result
   * is the comparison of the key derived from the salt TEXT with the decoded key.
   */
  lemma VerifyFields(generateKey: KeyDerivation, hexToBytes: HexDecoder, salt: string, key: string, rest: string, password: string)
    requires ':' !in salt && ':' !in key
    requires rest == "" || rest[0] == ':'
    ensures VerifyPassword(generateKey, hexToBytes, salt + ":" + key + rest, password) ==
      if salt == "" || key == "" then Failure(InvalidPasswordHash)
      else if hexToBytes(key).None? then Failure(KeyDecodingFailed)
      else Success(Matches(generateKey(password, salt), hexToBytes(key).value))
  {
    var hash := salt + ":" + key + rest;
    assert hash == salt + [':'] + (key + rest);
    SplitAtFirst(salt, ':', key + rest);
    if rest == "" {
      assert key + rest == key;
      SplitWithoutSeparator(key, ':');
    } else {
      assert key + rest == key + [':'] + rest[1..];
      SplitAtFirst(key, ':', rest[1..]);
    }
  }

  /** `hexToBytes` reads back every lowercase encoding that `hex.encode` writes. */
  ghost predicate DecodesLowercaseHex(hexToBytes: HexDecoder)
  {
    forall data: seq<byte> :: hexToBytes(HexOf(data)) == Some(data)
  }

  /** `hex.decode`'s own byte array is one such decoder, so the assumption can be met. */
  lemma HexDecodeDecodesLowercase()
    ensures DecodesLowercaseHex(s => if Decoded(s).Success? then Some(Decoded(s).value) else None)
  {
    forall data: seq<byte>
      ensures Decoded(HexOf(data)) == Success(data)
    {
      DecodeEncode(data);
    }
  }

  /**
   * Verifying a password against a string that `hashPassword` stored for a
   * (possibly other) password succeeds without error, and is true exactly
   * when the two derived keys for that salt text agree.
   */
  lemma VerifyAgainstHash(generateKey: KeyDerivation, hexToBytes: HexDecoder, stored: string, random: SaltBytes, password: string, candidate: string)
    requires DecodesLowercaseHex(hexToBytes)
    requires stored == HashPassword(generateKey, password, random)
    ensures VerifyPassword(generateKey, hexToBytes, stored, candidate) ==
      Success(generateKey(candidate, HexOf(random)) == generateKey(password, HexOf(random)))
  {
    var salt := HexOf(random);
    var keyBytes := generateKey(password, salt);
    var key := HexOf(keyBytes);
    HexOfWellFormed(random);
    HexOfWellFormed(keyBytes);
    HexOfLength(random);
    assert ':' !in salt by {
      forall i | 0 <= i < |salt| ensures salt[i] != ':' {
        assert IsHexDigit(salt[i]);
      }
    }
    assert ':' !in key by {
      forall i | 0 <= i < |key| ensures key[i] != ':' {
        assert IsHexDigit(key[i]);
      }
    }
    assert stored == salt + ":" + key + "";
    VerifyFields(generateKey, hexToBytes, salt, key, "", candidate);
    assert hexToBytes(key) == Some(keyBytes);
    MatchesIsEquality(generateKey(candidate, salt), keyBytes);
  }

  /** The round trip: a password always verifies against its own stored hash. */
  lemma VerifyHashedPassword(generateKey: KeyDerivation, hexToBytes: HexDecoder, password: string, random: SaltBytes)
    requires DecodesLowercaseHex(hexToBytes)
    ensures VerifyPassword(generateKey, hexToBytes, HashPassword(generateKey, password, random), password) == Success(true)
  {
    VerifyAgainstHash(generateKey, hexToBytes, HashPassword(generateKey, password, random), random, password, password);
  }
}
