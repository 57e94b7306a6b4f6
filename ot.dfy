/** 1-out-of-n oblivious transfer built on textbook RSA: the receiver puts
    its real public key at the chosen position and sampled keys everywhere
    else, the sender encrypts each message under the key at its position,
    and the receiver decrypts the chosen position only. */
module Ot {
  import opened Util
  import opened Pke

  /** Number of sampler calls made while building n keys with the real key
      at position x2: one per position other than x2. */
  function SampleCount(n: nat, x2: nat): nat
  {
    if x2 < n then n - 1 else n
  }

  /** Which sampler call fills position i (i != x2): positions are filled in
      order and position x2 makes no call. */
  function DrawIndex(i: nat, x2: nat): nat
    requires i != x2
  {
    if i < x2 then i else i - 1
  }

  /** The keys the sampler returns for the given draws, in call order. */
  function SampledKeys(rsa: TextbookRSA, draws: seq<Draw>): seq<PublicKey>
  {
    seq(|draws|, j requires 0 <= j < |draws| => SamplePubkey(rsa, draws[j]))
  }

  /** Every sampled key has a nonzero modulus, so encrypting under it is defined. */
  predicate NonZeroModuli(rsa: TextbookRSA, draws: seq<Draw>)
  {
    forall j :: 0 <= j < |draws| ==> SamplePubkey(rsa, draws[j]).n > 0
  }

  /** The receiver's public-key list: the real key at x2 and a freshly
      sampled key at every other position. It is the list of sampled keys
      with the real key spliced in at x2. */
  function PubKeys(n: nat, x2: nat, realKey: PublicKey, rsa: TextbookRSA, draws: seq<Draw>): (keys: seq<PublicKey>)
    requires |draws| == SampleCount(n, x2)
    ensures |keys| == n
    ensures x2 < n ==> keys == SampledKeys(rsa, draws)[..x2] + [realKey] + SampledKeys(rsa, draws)[x2..]
    ensures x2 >= n ==> keys == SampledKeys(rsa, draws)
  {
    var keys := seq(n, i requires 0 <= i < n =>
      if i == x2 then realKey else SamplePubkey(rsa, draws[DrawIndex(i, x2)]));
    var sampled := SampledKeys(rsa, draws);
    if x2 < n then
      assert keys == sampled[..x2] + [realKey] + sampled[x2..] by {
        forall i | 0 <= i < n
          ensures keys[i] == (sampled[..x2] + [realKey] + sampled[x2..])[i]
        {
          if i > x2 {
            assert (sampled[..x2] + [realKey] + sampled[x2..])[i] == sampled[x2..][i - x2 - 1];
          }
        }
      }
      keys
    else
      keys
  }

  /** The sender's cipher list: each message encrypted under the key at its
      position, pairing the two lists up to the shorter one's length. */
  function Ciphers(msgs: seq<u32>, keys: seq<PublicKey>): (cs: seq<u32>)
    requires forall i :: 0 <= i < |msgs| && i < |keys| ==> keys[i].n > 0
    ensures |cs| == if |msgs| <= |keys| then |msgs| else |keys|
    ensures forall i :: 0 <= i < |cs| ==> cs[i] == Encrypt(keys[i], msgs[i])
    decreases |msgs|
  {
    if msgs == [] || keys == [] then []
    else [Encrypt(keys[0], msgs[0])] + Ciphers(msgs[1..], keys[1..])
  }

  /** One run of the transfer: the sender holds x1, the receiver chooses x2.
      The sender's output is empty; the receiver's is the decryption of the
      cipher at x2, which is the chosen message encrypted under the real key.
      An index outside x1 and a sampled key with modulus 0 both abort the
      run, so they are excluded here. */
  function Eval(x1: seq<u32>, x2: nat, draws: seq<Draw>): (out: ((), u32))
    requires x2 < |x1|
    requires |draws| == |x1| - 1
    requires NonZeroModuli(TextbookRSA(0), draws)
    ensures out.1 == Decrypt(GenKey(TextbookRSA(0)).0, Encrypt(GenKey(TextbookRSA(0)).1, x1[x2]))
  {
    var key := GenKey(TextbookRSA(0));
    var pubkeys := PubKeys(|x1|, x2, key.1, TextbookRSA(0), draws);
    var ciphers := Ciphers(x1, pubkeys);
    ((), Decrypt(key.0, ciphers[x2]))
  }

  /** The receiver obtains the chosen message, reduced modulo the real key's
      modulus; every message below that modulus arrives unchanged. */
  lemma EvalCorrect(x1: seq<u32>, x2: nat, draws: seq<Draw>)
    requires x2 < |x1|
    requires |draws| == |x1| - 1
    requires NonZeroModuli(TextbookRSA(0), draws)
    ensures Eval(x1, x2, draws).1 as nat == x1[x2] as nat % 4150806161
    ensures x1[x2] < 4150806161 ==> Eval(x1, x2, draws) == ((), x1[x2])
  {
    GenKeyRoundTrip(TextbookRSA(0), x1[x2]);
  }

  /** A chosen message at or above the modulus does not come back: the
      largest u32 arrives as itself minus 4150806161. */
  lemma EvalLargeMessage(draws: seq<Draw>)
    requires |draws| == 0
    ensures Eval([0xFFFF_FFFF], 0, draws) == ((), 144161134)
  {
    EvalCorrect([0xFFFF_FFFF], 0, draws);
  }

  /** Nothing but the chosen message matters: runs whose message lists agree
      at x2 give the same result, whatever the other messages, the list
      lengths and the sampled keys. */
  lemma EvalDependsOnlyOnChoice(x1: seq<u32>, y1: seq<u32>, x2: nat, draws: seq<Draw>, draws': seq<Draw>)
    requires x2 < |x1| && x2 < |y1| && x1[x2] == y1[x2]
    requires |draws| == |x1| - 1 && |draws'| == |y1| - 1
    requires NonZeroModuli(TextbookRSA(0), draws) && NonZeroModuli(TextbookRSA(0), draws')
    ensures Eval(x1, x2, draws) == Eval(y1, x2, draws')
  {
    EvalCorrect(x1, x2, draws);
    EvalCorrect(y1, x2, draws');
  }

  /** The worked example: choosing position 3 of [0, 7, 19, 69, 8, 12] yields 69. */
  lemma PkeObliviousTransferCorrectness(draws: seq<Draw>)
    requires |draws| == 5 && NonZeroModuli(TextbookRSA(0), draws)
    ensures Eval([0, 7, 19, 69, 8, 12], 3, draws) == ((), 69)
  {
    EvalCorrect([0, 7, 19, 69, 8, 12], 3, draws);
  }
}
