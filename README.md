# Textbook RSA and 1-out-of-n oblivious transfer, in Dafny

This project models a small Rust crate with three layers:

- `modpow` computes `x^e mod N` over `u32` values. It uses left-to-right
  square-and-multiply with a `u64` accumulator.
- `TextbookRSA` has a hard-coded key pair (p = 63691, q = 65171, e = 13,
  d = 1277131477). Its `encrypt` and `decrypt` are single `modpow` calls. Its
  "obliviously samplable" public-key sampler reduces two random words modulo
  `u32::MAX`.
- `PKEObliviousTransfer::eval` runs a 1-out-of-n oblivious transfer. The
  receiver builds a public-key list: the real key at the chosen index, a
  sampled key everywhere else. The sender encrypts message `i` under key `i`.
  The receiver decrypts the chosen cipher only.

Modules, one per layer, plus the arithmetic underneath them:

- `Power` (power.dfy): `Pow` and facts about remainders of sums, products and
  powers.
- `Primes` (primes.dfy): primality by trial division, Euclid's lemma, the
  binomial theorem, Fermat's little theorem, the Chinese remainder step for
  two primes, and the RSA identity `(m^e mod pq)^d mod pq = m mod pq` when
  `e·d ≡ 1 (mod (p-1)(q-1))`.
- `Util` (util.dfy): `u32`/`u64` as newtypes. `ModExp` is the value `x^e mod N`.
  `ModPow` is the square-and-multiply loop, proved equal to `ModExp`; the proof
  also shows that no `u64` product overflows.
- `Pke` (pke.dfy): the key records, key generation, encryption, decryption,
  the sampler, and the round trip. For every key pair that satisfies the key
  invariant, and so for the generated pair, decrypting an encryption of m
  gives m mod N, hence m itself for every m < N.
- `Ot` (ot.dfy): the public-key list, the cipher list and `eval`, with the
  receiver's result proved to be the chosen message mod N, hence the chosen
  message itself whenever it is below N = 4150806161.

Rust's `encrypt`/`decrypt` call `modpow`. A Dafny function cannot call a
method, so `Encrypt` and `Decrypt` use `ModExp`, which `ModPow` is proved to
compute. `TextbookRSA::new(prime_bits)` is the datatype constructor
`TextbookRSA(primeBits)`.

Behaviour of the code that a reader might not expect, and how the model
states it:

- The code has no error value for a choice index outside the message list:
  `ciphers[x2]` (src/ot.rs:26) panics, so `Eval` requires `x2 < |x1|`.
- `modpow` reduces with `% N` (src/util.rs:13-16) and so divides by zero when
  `N = 0`; `ModExp`, `ModPow`, `Encrypt` and `Decrypt` require a nonzero
  modulus.
- The sampler reduces each random word modulo `u32::MAX` (src/pke.rs:70-75), so
  a sampled modulus or exponent is never `u32::MAX`, and either is 0 when its
  word is 0 or `u32::MAX`. `SamplePubkey` states both cases.
- Messages are `u32` but the fixed modulus is N = 4150806161 < 2^32, so `eval`
  does not return every chosen message: a message m in [N, 2^32) comes back as
  m - N. For example `eval([4294967295], 0)` returns `((), 144161134)`
  (`Ot.EvalLargeMessage`). `Ot.EvalCorrect` proves the general statement: the
  result is m mod N, and exactly m for every m < N.

## Model

| member | source | states |
|---|---|---|
| `Util.ModExp` | src/util.rs:1-7 | x^e mod N is below N; with exponent 0 it is 1 mod N; with modulus 1 it is 0 |
| `Util.ModPow` | src/util.rs:1-21 | the 32-round square-and-multiply loop returns x^e mod N. Loop invariant: after bits 31..i the accumulator is x^(e >> i) mod N. Every `r*r` and `r*x` fits in u64. N = 0 is excluded |
| `Util.ModPowCorrectness` | src/util.rs:26-32 | modpow(27, 13, 16) returns 11 |
| `Pke.GenKey` | src/pke.rs:43-58 | the secret and public key share one nonzero modulus; p*q and (p-1)*(q-1) are computed without u32 overflow |
| `Pke.GenKeyValid` | src/pke.rs:44-51 | the generated pair satisfies the key invariant: 63691 and 65171 are distinct primes, N = 63691*65171 = 4150806161, and 13*1277131477 ≡ 1 mod (63690*65170) |
| `Pke.PPrime` | src/pke.rs:44-46 | 63691 is prime |
| `Pke.QPrime` | src/pke.rs:44-47 | 65171 is prime |
| `Pke.GenKeyIgnoresPrimeBits` | src/pke.rs:22-27 | key generation returns the same pair whatever prime size the scheme object was built with |
| `Pke.Encrypt` | src/pke.rs:60-62 | the ciphertext is m^e mod N, so it is below N; a zero modulus is excluded |
| `Pke.Decrypt` | src/pke.rs:64-66 | the plaintext is c^d mod N, so it is below N; a zero modulus is excluded |
| `Pke.SamplePubkey` | src/pke.rs:70-75 | modulus and exponent are both below u32::MAX. Each equals its draw when the draw is below u32::MAX. Each is 0 exactly when its draw is 0 or u32::MAX |
| `Pke.RoundTrip` | src/pke.rs:49-66 | for any key pair with modulus p*q (p, q distinct primes) and e*d ≡ 1 mod (p-1)(q-1), decrypting an encryption returns m mod N, hence m itself for every m < N |
| `Pke.GenKeyRoundTrip` | src/pke.rs:43-66 | for the generated pair, decrypt(encrypt(m)) = m mod 4150806161 for every u32 m, and = m for every m < N |
| `Pke.TextbookRsaCorrectness` | src/pke.rs:84-92 | message 11 comes back as 11 under the generated pair |
| `Ot.PubKeys` | src/ot.rs:16 | the key list has one entry per message. It is the sampled keys, in call order, with the real key spliced in at x2. No sampler call is made for x2 |
| `Ot.Ciphers` | src/ot.rs:20-22 | the cipher list is as long as the shorter of the two lists, and entry i is message i encrypted under key i |
| `Ot.Eval` | src/ot.rs:13-29 | the receiver's output is the real secret key's decryption of the chosen message encrypted under the real public key; the sender's output is unit |
| `Ot.EvalCorrect` | src/ot.rs:13-29 | the receiver gets x1[x2] mod N, so every chosen message below N arrives unchanged: eval(x1, x2) = ((), x1[x2]) |
| `Ot.EvalLargeMessage` | src/ot.rs:13-29 | a chosen message at or above N does not survive: eval([4294967295], 0) = ((), 144161134) = ((), 4294967295 - N) |
| `Ot.EvalDependsOnlyOnChoice` | src/ot.rs:15-28 | two runs whose lists agree at x2 give the same result, whatever the other messages, list lengths and sampled keys |
| `Ot.PkeObliviousTransferCorrectness` | src/ot.rs:35-40 | eval([0, 7, 19, 69, 8, 12], 3) = ((), 69) for any usable sampled keys |

## Left out

- The `eprintln!` of `(r, N)` inside the `modpow` loop: it writes to stderr and does not affect the result.
- Randomness: `rand::random` in `sample_pubkey` becomes an input. Each call's two words are a `Draw`, and `Eval` takes the draws of its sampler calls in order. Distributions are not modelled.
- Security claims: that sampled keys look like real ones, that the sender learns nothing about the index, that the receiver learns nothing about the other messages. These are probabilistic and computational claims, not functional behaviour.
- The generic traits `PKE`, `OSPK` and `ObliviousTransfer`: only the concrete `u32` textbook-RSA instance is modelled.
- Panics become preconditions: a zero modulus in `modpow`, a choice index outside the message list, and a sampled key with modulus 0 (which would make `eval` divide by zero). `Eval` requires every sampled modulus to be nonzero.
- `usize` for the choice index is modelled as an unbounded natural; it is below the list length in every run that does not panic.
- The `#[test]` scaffolding: its three assertions become `ModPowCorrectness`, `TextbookRsaCorrectness` and `PkeObliviousTransferCorrectness`.
