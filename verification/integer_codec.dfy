/**
 * The 128-bit integer codec of the PPP scheme: an index is packed into
 * sixteen 8-bit words, least significant word first, before it is handed to
 * the block cipher, and the cipher's words are unpacked back into an
 * integer.  Both directions are modelled as the source writes them, with
 * `&`, `>>`, `<<` and `|`, and are proved equal to base-256 positional
 * notation, from which the round trips follow.
 */
module IntegerCodec {
  import opened Wrappers
  import opened Exceptions
  import opened Radix
  import opened Bits

  /** Bits per word. */
  const WordSize: nat := 8
  /** Words per 128-bit block: 128 / WordSize. */
  const WordCount: nat := 16
  /** The largest value one word holds, 2^WordSize - 1. */
  const MaxWordValue: nat := 255
  /** The largest passcode number, 2^128 - 1. */
  const MaxInt: nat := 0xFFFF_FFFF_FFFF_FFFF_FFFF_FFFF_FFFF_FFFF

  /** An 8-bit word. */
  type byte = x: int | 0 <= x < 256

  /** The integers pack128 accepts. */
  predicate InRange(n: int)
  {
    0 <= n <= MaxInt
  }

  lemma WordConstants()
    ensures Pow(2, WordSize) == 256 && MaxWordValue == Pow(2, WordSize) - 1
    ensures MaxInt + 1 == Pow(256, WordCount)
  {
    assert Pow(256, 2) == 0x1_0000;
    PowAdd(256, 2, 2);
    PowAdd(256, 4, 4);
    PowAdd(256, 8, 8);
  }

  /** A word shifted by WordSize * i bits is a word scaled by 256^i. */
  lemma WordShift(i: nat)
    ensures Pow(2, WordSize * i) == Pow(256, i)
  {
    WordConstants();
    PowMul(2, WordSize, i);
  }

  /**
   * The loop of pack128 run for `count` iterations from n: each step keeps
   * `n & MAX_WORD_VALUE` as the next word and shifts n right by one word.
   */
  function PackWords(n: nat, count: nat): seq<byte>
  {
    if count == 0 then []
    else
      WordConstants();
      AndLowMask(n, WordSize);
      [And(n, MaxWordValue)] + PackWords(ShiftRight(n, WordSize), count - 1)
  }

  /** The words the loop emits are the base-256 digits of n, least significant first. */
  lemma {:induction false} PackWordsDigits(n: nat, count: nat)
    ensures PackWords(n, count) == Digits(n, 256, count)
  {
    if count > 0 {
      WordConstants();
      AndLowMask(n, WordSize);
      PackWordsDigits(ShiftRight(n, WordSize), count - 1);
    }
  }

  /**
   * pack128: an IndexError for integers outside [0, 2^128 - 1]; otherwise
   * the sixteen words of n, word i being bits 8i to 8i+7.
   */
  function Pack128(n: int): (r: Result<seq<byte>, Exception>)
    ensures r.Success? <==> InRange(n)
    ensures !InRange(n) ==> r == Failure(IndexError(n))
    ensures InRange(n) ==> |r.value| == WordCount
    ensures InRange(n) ==> forall i {:trigger r.value[i]} :: 0 <= i < WordCount ==> r.value[i] == (n / Pow(256, i)) % 256
  {
    if !(0 <= n <= MaxInt) then Failure(IndexError(n))
    else
      PackWordsDigits(n, WordCount);
      Success(PackWords(n, WordCount))
  }

  /** One iteration of unpack128: OR in the next word, shifted above the ones before it. */
  lemma UnpackStep(prefix: seq<byte>, w: byte, acc: nat)
    requires acc == FromDigits(prefix, 256)
    ensures Or(acc, ShiftLeft(w, WordSize * |prefix|)) == FromDigits(prefix + [w], 256)
  {
    FromDigitsBound(prefix, 256);
    WordShift(|prefix|);
    OrDisjointShift(acc, w, WordSize * |prefix|);
    FromDigitsAppend(prefix, w, 256);
  }

  /** The value unpack128 has accumulated after its first k iterations. */
  function UnpackPrefix(words: seq<byte>, k: nat): (n: nat)
    requires k <= |words|
    ensures n == FromDigits(words[..k], 256)
  {
    if k == 0 then 0
    else
      var acc := UnpackPrefix(words, k - 1);
      UnpackStep(words[..k - 1], words[k - 1], acc);
      assert words[..k] == words[..k - 1] + [words[k - 1]];
      Or(acc, ShiftLeft(words[k - 1], WordSize * (k - 1)))
  }

  /**
   * unpack128, for a word list of any length: the little-endian base-256
   * value of the words, which therefore stays below 256^|words|.
   */
  function Unpack128(words: seq<byte>): (n: nat)
    ensures n == FromDigits(words, 256)
    ensures n < Pow(256, |words|)
  {
    assert words[..|words|] == words;
    FromDigitsBound(words, 256);
    UnpackPrefix(words, |words|)
  }

  /** Unpacking a packed integer gives the integer back. */
  lemma UnpackPack(n: int)
    requires InRange(n)
    ensures Unpack128(Pack128(n).value) == n
  {
    WordConstants();
    PackWordsDigits(n, WordCount);
    FromDigitsOfDigits(n, 256, WordCount);
    assert n % Pow(256, WordCount) == n by {
      DivModUnique(n, Pow(256, WordCount), 0, n);
    }
  }

  /** Every sixteen-word block is the packing of exactly the integer it unpacks to. */
  lemma PackUnpack(words: seq<byte>)
    requires |words| == WordCount
    ensures InRange(Unpack128(words))
    ensures Pack128(Unpack128(words)) == Success(words)
  {
    WordConstants();
    PackWordsDigits(Unpack128(words), WordCount);
    DigitsOfFromDigits(words, 256);
  }
}
