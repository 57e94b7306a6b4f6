/** Textbook RSA over 32-bit words: the fixed key pair, encryption,
    decryption and the "obliviously samplable" public key. */
module Pke {
  import opened Power
  import opened Primes
  import opened Util

  /** The scheme object. Its prime size is stored but never read. */
  datatype TextbookRSA = TextbookRSA(primeBits: u32)

  /** The receiver's secret key: modulus and private exponent. */
  datatype SecretKey = SecretKey(n: u32, d: u32)

  /** A public key: modulus and public exponent. */
  datatype PublicKey = PublicKey(n: u32, e: u32)

  /** The two random u32 values one call of the public-key sampler draws,
      the first for the modulus and the second for the exponent. */
  datatype Draw = Draw(forN: u32, forE: u32)

  /** The key invariant: both keys share the modulus p*q of two distinct
      primes, and e*d = 1 modulo (p-1)(q-1). */
  ghost predicate KeyPairOf(p: nat, q: nat, sk: SecretKey, pk: PublicKey)
  {
    && IsPrime(p) && IsPrime(q) && p != q
    && sk.n as nat == p * q && pk.n == sk.n
    && (pk.e as nat * sk.d as nat) % ((p - 1) * (q - 1)) == 1
  }

  /** Key generation: the primes, exponents and modulus are fixed constants. */
  function GenKey(rsa: TextbookRSA): (keys: (SecretKey, PublicKey))
    ensures keys.0.n == keys.1.n && keys.0.n > 0
  {
    var p: u32 := 63691;
    var q: u32 := 65171;
    var n := p * q;
    var phi := (p - 1) * (q - 1);
    var e: u32 := 13;
    var d: u32 := 1277131477;
    (SecretKey(n, d), PublicKey(n, e))
  }

  /** Encryption raises the message to the public exponent modulo N. */
  function Encrypt(pk: PublicKey, m: u32): (c: u32)
    requires pk.n > 0
    ensures c < pk.n
  {
    ModExp(m, pk.e, pk.n)
  }

  /** Decryption raises the ciphertext to the private exponent modulo N. */
  function Decrypt(sk: SecretKey, c: u32): (m: u32)
    requires sk.n > 0
    ensures m < sk.n
  {
    ModExp(c, sk.d, sk.n)
  }

  /** The public-key sampler: each random word is reduced modulo u32::MAX. */
  function SamplePubkey(rsa: TextbookRSA, draw: Draw): (pk: PublicKey)
    ensures pk.n < U32_MAX && pk.e < U32_MAX
    ensures draw.forN < U32_MAX ==> pk.n == draw.forN
    ensures draw.forE < U32_MAX ==> pk.e == draw.forE
    ensures pk.n == 0 <==> draw.forN == 0 || draw.forN == U32_MAX
    ensures pk.e == 0 <==> draw.forE == 0 || draw.forE == U32_MAX
  {
    PublicKey(draw.forN % U32_MAX, draw.forE % U32_MAX)
  }

  lemma PLowDivisors()
    ensures NoDivisorBetween(63691, 2, 128)
  {
    assert NoDivisorBetween(63691, 127, 128);
    assert NoDivisorBetween(63691, 122, 128);
    assert NoDivisorBetween(63691, 117, 128);
    assert NoDivisorBetween(63691, 112, 128);
    assert NoDivisorBetween(63691, 107, 128);
    assert NoDivisorBetween(63691, 102, 128);
    assert NoDivisorBetween(63691, 97, 128);
    assert NoDivisorBetween(63691, 92, 128);
    assert NoDivisorBetween(63691, 87, 128);
    assert NoDivisorBetween(63691, 82, 128);
    assert NoDivisorBetween(63691, 77, 128);
    assert NoDivisorBetween(63691, 72, 128);
    assert NoDivisorBetween(63691, 67, 128);
    assert NoDivisorBetween(63691, 62, 128);
    assert NoDivisorBetween(63691, 57, 128);
    assert NoDivisorBetween(63691, 52, 128);
    assert NoDivisorBetween(63691, 47, 128);
    assert NoDivisorBetween(63691, 42, 128);
    assert NoDivisorBetween(63691, 37, 128);
    assert NoDivisorBetween(63691, 32, 128);
    assert NoDivisorBetween(63691, 27, 128);
    assert NoDivisorBetween(63691, 22, 128);
    assert NoDivisorBetween(63691, 17, 128);
    assert NoDivisorBetween(63691, 12, 128);
    assert NoDivisorBetween(63691, 7, 128);
    assert NoDivisorBetween(63691, 2, 128);
  }

  lemma PHighDivisors()
    ensures NoDivisorBetween(63691, 128, 253)
  {
    assert NoDivisorBetween(63691, 248, 253);
    assert NoDivisorBetween(63691, 243, 253);
    assert NoDivisorBetween(63691, 238, 253);
    assert NoDivisorBetween(63691, 233, 253);
    assert NoDivisorBetween(63691, 228, 253);
    assert NoDivisorBetween(63691, 223, 253);
    assert NoDivisorBetween(63691, 218, 253);
    assert NoDivisorBetween(63691, 213, 253);
    assert NoDivisorBetween(63691, 208, 253);
    assert NoDivisorBetween(63691, 203, 253);
    assert NoDivisorBetween(63691, 198, 253);
    assert NoDivisorBetween(63691, 193, 253);
    assert NoDivisorBetween(63691, 188, 253);
    assert NoDivisorBetween(63691, 183, 253);
    assert NoDivisorBetween(63691, 178, 253);
    assert NoDivisorBetween(63691, 173, 253);
    assert NoDivisorBetween(63691, 168, 253);
    assert NoDivisorBetween(63691, 163, 253);
    assert NoDivisorBetween(63691, 158, 253);
    assert NoDivisorBetween(63691, 153, 253);
    assert NoDivisorBetween(63691, 148, 253);
    assert NoDivisorBetween(63691, 143, 253);
    assert NoDivisorBetween(63691, 138, 253);
    assert NoDivisorBetween(63691, 133, 253);
    assert NoDivisorBetween(63691, 128, 253);
  }

  /** 63691 is prime: no number from 2 to 252 divides it, and 253 * 253 > 63691. */
  lemma PPrime()
    ensures IsPrime(63691)
  {
    PLowDivisors();
    PHighDivisors();
    NoDivisorBetweenJoin(63691, 2, 128, 253);
    PrimeByTrialDivision(63691, 253);
  }

  lemma QLowDivisors()
    ensures NoDivisorBetween(65171, 2, 128)
  {
    assert NoDivisorBetween(65171, 127, 128);
    assert NoDivisorBetween(65171, 122, 128);
    assert NoDivisorBetween(65171, 117, 128);
    assert NoDivisorBetween(65171, 112, 128);
    assert NoDivisorBetween(65171, 107, 128);
    assert NoDivisorBetween(65171, 102, 128);
    assert NoDivisorBetween(65171, 97, 128);
    assert NoDivisorBetween(65171, 92, 128);
    assert NoDivisorBetween(65171, 87, 128);
    assert NoDivisorBetween(65171, 82, 128);
    assert NoDivisorBetween(65171, 77, 128);
    assert NoDivisorBetween(65171, 72, 128);
    assert NoDivisorBetween(65171, 67, 128);
    assert NoDivisorBetween(65171, 62, 128);
    assert NoDivisorBetween(65171, 57, 128);
    assert NoDivisorBetween(65171, 52, 128);
    assert NoDivisorBetween(65171, 47, 128);
    assert NoDivisorBetween(65171, 42, 128);
    assert NoDivisorBetween(65171, 37, 128);
    assert NoDivisorBetween(65171, 32, 128);
    assert NoDivisorBetween(65171, 27, 128);
    assert NoDivisorBetween(65171, 22, 128);
    assert NoDivisorBetween(65171, 17, 128);
    assert NoDivisorBetween(65171, 12, 128);
    assert NoDivisorBetween(65171, 7, 128);
    assert NoDivisorBetween(65171, 2, 128);
  }

  lemma QHighDivisors()
    ensures NoDivisorBetween(65171, 128, 256)
  {
    assert NoDivisorBetween(65171, 253, 256);
    assert NoDivisorBetween(65171, 248, 256);
    assert NoDivisorBetween(65171, 243, 256);
    assert NoDivisorBetween(65171, 238, 256);
    assert NoDivisorBetween(65171, 233, 256);
    assert NoDivisorBetween(65171, 228, 256);
    assert NoDivisorBetween(65171, 223, 256);
    assert NoDivisorBetween(65171, 218, 256);
    assert NoDivisorBetween(65171, 213, 256);
    assert NoDivisorBetween(65171, 208, 256);
    assert NoDivisorBetween(65171, 203, 256);
    assert NoDivisorBetween(65171, 198, 256);
    assert NoDivisorBetween(65171, 193, 256);
    assert NoDivisorBetween(65171, 188, 256);
    assert NoDivisorBetween(65171, 183, 256);
    assert NoDivisorBetween(65171, 178, 256);
    assert NoDivisorBetween(65171, 173, 256);
    assert NoDivisorBetween(65171, 168, 256);
    assert NoDivisorBetween(65171, 163, 256);
    assert NoDivisorBetween(65171, 158, 256);
    assert NoDivisorBetween(65171, 153, 256);
    assert NoDivisorBetween(65171, 148, 256);
    assert NoDivisorBetween(65171, 143, 256);
    assert NoDivisorBetween(65171, 138, 256);
    assert NoDivisorBetween(65171, 133, 256);
    assert NoDivisorBetween(65171, 128, 256);
  }

  /** 65171 is prime: no number from 2 to 255 divides it, and 256 * 256 > 65171. */
  lemma QPrime()
    ensures IsPrime(65171)
  {
    QLowDivisors();
    QHighDivisors();
    NoDivisorBetweenJoin(65171, 2, 128, 256);
    PrimeByTrialDivision(65171, 256);
  }

  /** The generated key pair satisfies the key invariant with p = 63691 and
      q = 65171: N = 4150806161 fits in 32 bits, and 13 * 1277131477 is
      4 * (63690 * 65170) + 1. */
  lemma GenKeyValid(rsa: TextbookRSA)
    ensures KeyPairOf(63691, 65171, GenKey(rsa).0, GenKey(rsa).1)
    ensures GenKey(rsa).0.n == 4150806161
  {
    PPrime();
    QPrime();
    DivModUnique(13 * 1277131477, 63690 * 65170, 4, 1);
  }

  /** Key generation does not depend on the configured prime size. */
  lemma GenKeyIgnoresPrimeBits(a: TextbookRSA, b: TextbookRSA)
    ensures GenKey(a) == GenKey(b)
  {
  }

  /** Decryption undoes encryption for every key pair that satisfies the
      key invariant: every message comes back reduced modulo N, so every
      message below N comes back unchanged. */
  lemma RoundTrip(p: nat, q: nat, sk: SecretKey, pk: PublicKey, m: u32)
    requires KeyPairOf(p, q, sk, pk)
    ensures sk.n > 0
    ensures Decrypt(sk, Encrypt(pk, m)) as nat == m as nat % sk.n as nat
    ensures m < sk.n ==> Decrypt(sk, Encrypt(pk, m)) == m
  {
    var n, e, d := sk.n as nat, pk.e as nat, sk.d as nat;
    assert n > 0 by { MulAtLeast(q, p); }
    var c := Encrypt(pk, m);
    assert c as nat == Pow(m as nat, e) % n;
    assert Decrypt(sk, c) as nat == Pow(c as nat, d) % n;
    RsaIdentity(p, q, e, d, m as nat);
    if m < sk.n {
      SmallMod(m as nat, n);
    }
  }

  /** The round trip for the generated key pair. */
  lemma GenKeyRoundTrip(rsa: TextbookRSA, m: u32)
    ensures Decrypt(GenKey(rsa).0, Encrypt(GenKey(rsa).1, m)) as nat == m as nat % 4150806161
    ensures m < 4150806161 ==> Decrypt(GenKey(rsa).0, Encrypt(GenKey(rsa).1, m)) == m
  {
    GenKeyValid(rsa);
    RoundTrip(63691, 65171, GenKey(rsa).0, GenKey(rsa).1, m);
  }

  /** The worked example: message 11 survives encryption and decryption. */
  lemma TextbookRsaCorrectness()
    ensures Decrypt(GenKey(TextbookRSA(0)).0, Encrypt(GenKey(TextbookRSA(0)).1, 11)) == 11
  {
    GenKeyRoundTrip(TextbookRSA(0), 11);
  }
}
