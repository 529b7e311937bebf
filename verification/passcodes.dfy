/**
 * Passcode generation (create_passcodes).  Passcode number i is made by
 * packing i into a 128-bit block, encrypting the block under the sequence
 * key, unpacking the ciphertext into an integer, and writing that integer's
 * low-order digits in radix |chars| as characters of the alphabet, least
 * significant digit first.
 *
 * The block cipher (AES-256 in the source) is not part of this model: it is
 * a parameter, an arbitrary total function from a block and a key to a
 * block, so everything proved here holds for any cipher.
 */
module Passcodes {
  import opened Wrappers
  import opened Exceptions
  import opened Radix
  import opened IntegerCodec

  /** encrypt(block, key): the ciphertext words of a plaintext block under a key. */
  type Cipher = (seq<byte>, seq<int>) -> seq<byte>

  function Max0(x: int): nat
  {
    if x < 0 then 0 else x
  }

  /** unpack128(encrypt(pack128(i), key)): the integer passcode number i is spelled from. */
  function CipherValue(cipher: Cipher, key: seq<int>, i: int): nat
    requires InRange(i)
  {
    Unpack128(cipher(Pack128(i).value, key))
  }

  /** A cipher that returns whole 128-bit blocks yields values below 2^128. */
  lemma CipherValueBound(cipher: Cipher, key: seq<int>, i: int)
    requires InRange(i)
    requires |cipher(Pack128(i).value, key)| == WordCount
    ensures InRange(CipherValue(cipher, key, i))
  {
    WordConstants();
  }

  /** The digit loop divides by |chars| only when it runs, that is when passlen > 0. */
  predicate CanSpell(chars: seq<char>, passlen: int)
  {
    |chars| > 0 || passlen <= 0
  }

  /**
   * The passcode spelled from a value: max(0, passlen) characters, the j-th
   * being the alphabet character at the j-th base-|chars| digit of value.
   */
  function Passcode(value: nat, chars: seq<char>, passlen: int): (code: string)
    requires CanSpell(chars, passlen)
    ensures |code| == Max0(passlen)
    ensures forall j {:trigger code[j]} :: 0 <= j < |code| ==> code[j] == chars[(value / Pow(|chars|, j)) % |chars|]
  {
    if passlen <= 0 then ""
    else
      var ds := Digits(value, |chars|, passlen);
      seq(passlen, j requires 0 <= j < passlen => chars[ds[j]])
  }

  ghost predicate Distinct(chars: seq<char>)
  {
    forall a, b :: 0 <= a < b < |chars| ==> chars[a] != chars[b]
  }

  /**
   * A passcode keeps only the low-order digits of the value: values that
   * agree modulo |chars|^passlen give the same passcode, and over an
   * alphabet without repeated characters only those do.
   */
  lemma PasscodeKeepsLowDigits(v1: nat, v2: nat, chars: seq<char>, passlen: nat)
    requires |chars| > 0
    ensures v1 % Pow(|chars|, passlen) == v2 % Pow(|chars|, passlen) ==> Passcode(v1, chars, passlen) == Passcode(v2, chars, passlen)
    ensures Distinct(chars) && Passcode(v1, chars, passlen) == Passcode(v2, chars, passlen) ==> v1 % Pow(|chars|, passlen) == v2 % Pow(|chars|, passlen)
  {
    var r := |chars|;
    var d1, d2 := Digits(v1, r, passlen), Digits(v2, r, passlen);
    DigitsAgreeIffCongruent(v1, v2, r, passlen);
    if Distinct(chars) && Passcode(v1, chars, passlen) == Passcode(v2, chars, passlen) {
      forall j | 0 <= j < passlen
        ensures d1[j] == d2[j]
      {
        assert Passcode(v1, chars, passlen)[j] == chars[d1[j]];
        assert Passcode(v2, chars, passlen)[j] == chars[d2[j]];
      }
      assert d1 == d2;
    }
  }

  /** The passcode of index i. */
  function PasscodeAt(cipher: Cipher, key: seq<int>, chars: seq<char>, i: int, passlen: int): string
    requires InRange(i) && CanSpell(chars, passlen)
  {
    Passcode(CipherValue(cipher, key, i), chars, passlen)
  }

  /**
   * One iteration of the index loop: pack128 raises IndexError outside the
   * 128-bit range, then the digit loop raises ZeroDivisionError for an empty
   * alphabet; otherwise the passcode of index i.
   */
  function CodeAt(cipher: Cipher, key: seq<int>, chars: seq<char>, i: int, passlen: int): (r: Result<string, Exception>)
    ensures r.Success? <==> InRange(i) && CanSpell(chars, passlen)
    ensures r.Success? ==> |r.value| == Max0(passlen) && forall j :: 0 <= j < |r.value| ==> r.value[j] in chars
    ensures !InRange(i) ==> r == Failure(IndexError(i))
    ensures InRange(i) && !CanSpell(chars, passlen) ==> r == Failure(ZeroDivisionError) && passlen > 0 && |chars| == 0
  {
    if !InRange(i) then Failure(IndexError(i))
    else if !CanSpell(chars, passlen) then Failure(ZeroDivisionError)
    else Success(PasscodeAt(cipher, key, chars, i, passlen))
  }

  /** The per-index step of the loop, as a function of the index. */
  function Step(cipher: Cipher, key: seq<int>, chars: seq<char>, passlen: int): int -> Result<string, Exception>
  {
    i => CodeAt(cipher, key, chars, i, passlen)
  }

  /**
   * `for i in range(startnum, startnum + numpass)` over a step that may
   * raise: the step results in ascending index order, or the exception of
   * the first index whose step raises.
   */
  function RunRange(step: int -> Result<string, Exception>, startnum: int, numpass: int): Result<seq<string>, Exception>
    decreases Max0(numpass)
  {
    if numpass <= 0 then Success([])
    else
      match step(startnum)
      case Failure(e) => Failure(e)
      case Success(code) =>
        match RunRange(step, startnum + 1, numpass - 1)
        case Failure(e) => Failure(e)
        case Success(rest) => Success([code] + rest)
  }

  /**
   * The loop succeeds exactly when every step of the range does, and then
   * returns one result per index, in index order.
   */
  lemma {:induction false} RunRangeSuccess(step: int -> Result<string, Exception>, startnum: int, numpass: int)
    ensures RunRange(step, startnum, numpass).Success? <==> forall i :: startnum <= i < startnum + numpass ==> step(i).Success?
    ensures RunRange(step, startnum, numpass).Success? ==> |RunRange(step, startnum, numpass).value| == Max0(numpass)
    ensures RunRange(step, startnum, numpass).Success? ==>
      var codes := RunRange(step, startnum, numpass).value;
      forall k :: 0 <= k < |codes| ==> codes[k] == step(startnum + k).value
    decreases Max0(numpass)
  {
    if numpass > 0 {
      RunRangeSuccess(step, startnum + 1, numpass - 1);
      var r := RunRange(step, startnum, numpass);
      if r.Success? {
        var rest := RunRange(step, startnum + 1, numpass - 1).value;
        assert r.value == [step(startnum).value] + rest;
        forall k | 1 <= k < |r.value|
          ensures r.value[k] == step(startnum + k).value
        {
          assert r.value[k] == rest[k - 1];
          assert startnum + 1 + (k - 1) == startnum + k;
        }
      }
    }
  }

  /** The k-th result of a successful loop is what the step of index startnum + k returned. */
  lemma RunRangeAt(step: int -> Result<string, Exception>, startnum: int, numpass: int, k: int)
    requires RunRange(step, startnum, numpass).Success?
    requires 0 <= k < |RunRange(step, startnum, numpass).value|
    ensures step(startnum + k) == Success(RunRange(step, startnum, numpass).value[k])
  {
    RunRangeSuccess(step, startnum, numpass);
  }

  /**
   * A failing loop raises the exception of a step that fails after every
   * step before it succeeded.
   */
  lemma {:induction false} RunRangeFailure(step: int -> Result<string, Exception>, startnum: int, numpass: int)
    requires RunRange(step, startnum, numpass).Failure?
    ensures exists i ::
      && startnum <= i < startnum + numpass
      && step(i) == Failure(RunRange(step, startnum, numpass).error)
      && (forall j :: startnum <= j < i ==> step(j).Success?)
    decreases Max0(numpass)
  {
    var e := RunRange(step, startnum, numpass).error;
    if step(startnum).Success? {
      RunRangeFailure(step, startnum + 1, numpass - 1);
      var i :| startnum + 1 <= i < startnum + numpass
        && step(i) == Failure(e)
        && forall j :: startnum + 1 <= j < i ==> step(j).Success?;
      assert forall j :: startnum <= j < i ==> step(j).Success?;
    } else {
      assert step(startnum) == Failure(e);
    }
  }

  /** A step's result as a one-element list of results. */
  function Single(r: Result<string, Exception>): Result<seq<string>, Exception>
  {
    match r
    case Failure(e) => Failure(e)
    case Success(code) => Success([code])
  }

  /** Two runs of the loop one after the other: the first exception, or both lists concatenated. */
  function AndThen(x: Result<seq<string>, Exception>, y: Result<seq<string>, Exception>): Result<seq<string>, Exception>
  {
    match x
    case Failure(e) => Failure(e)
    case Success(a) =>
      match y
      case Failure(e) => Failure(e)
      case Success(b) => Success(a + b)
  }

  lemma AndThenAssoc(x: Result<seq<string>, Exception>, y: Result<seq<string>, Exception>, z: Result<seq<string>, Exception>)
    ensures AndThen(AndThen(x, y), z) == AndThen(x, AndThen(y, z))
  {
    if x.Success? && y.Success? && z.Success? {
      assert (x.value + y.value) + z.value == x.value + (y.value + z.value);
    }
  }

  /** The first iteration of a non-empty loop, then the rest of the range. */
  lemma RunRangeUnfold(step: int -> Result<string, Exception>, startnum: int, numpass: int)
    requires numpass > 0
    ensures RunRange(step, startnum, numpass) == AndThen(Single(step(startnum)), RunRange(step, startnum + 1, numpass - 1))
  {
  }

  /**
   * Running the loop over n + m indices is running it over the first n and,
   * if that succeeded, over the remaining m, and concatenating the results.
   */
  lemma {:induction false} RunRangeSplit(step: int -> Result<string, Exception>, startnum: int, n: nat, m: nat)
    ensures RunRange(step, startnum, n + m) == AndThen(RunRange(step, startnum, n), RunRange(step, startnum + n, m))
    decreases n
  {
    var back := RunRange(step, startnum + n, m);
    if n == 0 {
      if back.Success? {
        assert [] + back.value == back.value;
      }
    } else {
      RunRangeSplit(step, startnum + 1, n - 1, m);
      assert startnum + 1 + (n - 1) == startnum + n && (n - 1) + m == n + m - 1;
      RunRangeUnfold(step, startnum, n + m);
      RunRangeUnfold(step, startnum, n);
      AndThenAssoc(Single(step(startnum)), RunRange(step, startnum + 1, n - 1), back);
    }
  }

  /** One more successful step, that of index i, appends its result. */
  lemma RunRangeExtend(step: int -> Result<string, Exception>, startnum: int, i: int, codes: seq<string>, code: string)
    requires startnum <= i
    requires RunRange(step, startnum, i - startnum) == Success(codes) && step(i) == Success(code)
    ensures RunRange(step, startnum, i + 1 - startnum) == Success(codes + [code])
  {
    var n := i - startnum;
    RunRangeSplit(step, startnum, n, 1);
    assert RunRange(step, startnum + n + 1, 0) == Success([]);
    assert RunRange(step, startnum + n, 1) == Success([code] + []);
    assert [code] + [] == [code];
  }

  /** A failing step at index i after a successful prefix ends the whole loop with its exception. */
  lemma RunRangeStopsAt(step: int -> Result<string, Exception>, startnum: int, i: int, numpass: int)
    requires startnum <= i < startnum + numpass
    requires RunRange(step, startnum, i - startnum).Success? && step(i).Failure?
    ensures RunRange(step, startnum, numpass) == Failure(step(i).error)
  {
    var n := i - startnum;
    RunRangeSplit(step, startnum, n, numpass - n);
    assert n + (numpass - n) == numpass;
  }

  /**
   * The passcodes of indices startnum, startnum+1, ..., startnum+numpass-1,
   * produced in ascending order: the first index whose iteration raises
   * decides the exception, and no list is returned.
   */
  function Generate(cipher: Cipher, key: seq<int>, chars: seq<char>, startnum: int, numpass: int, passlen: int)
    : (r: Result<seq<string>, Exception>)
    ensures r.Success? ==> |r.value| == Max0(numpass)
    ensures r.Failure? ==> numpass > 0 && (r.error.IndexError? || r.error == ZeroDivisionError)
  {
    var step := Step(cipher, key, chars, passlen);
    RunRangeSuccess(step, startnum, numpass);
    if RunRange(step, startnum, numpass).Failure? then
      RunRangeFailure(step, startnum, numpass);
      RunRange(step, startnum, numpass)
    else
      RunRange(step, startnum, numpass)
  }

  /** The conditions under which generation succeeds. */
  ghost predicate Generates(chars: seq<char>, startnum: int, numpass: int, passlen: int)
  {
    numpass <= 0 || (InRange(startnum) && InRange(startnum + numpass - 1) && CanSpell(chars, passlen))
  }

  /** The exception a failing generation raises. */
  function FirstError(chars: seq<char>, startnum: int, passlen: int): Exception
  {
    if !InRange(startnum) then IndexError(startnum)
    else if !CanSpell(chars, passlen) then ZeroDivisionError
    else IndexError(MaxInt + 1)
  }

  /**
   * Generation succeeds exactly when every index of the range can be packed
   * and the alphabet can be divided by; otherwise it raises IndexError for
   * the first out-of-range index (the start, or 2^128), or ZeroDivisionError.
   */
  lemma GenerateOutcome(cipher: Cipher, key: seq<int>, chars: seq<char>, startnum: int, numpass: int, passlen: int)
    ensures Generate(cipher, key, chars, startnum, numpass, passlen).Success? <==> Generates(chars, startnum, numpass, passlen)
    ensures Generate(cipher, key, chars, startnum, numpass, passlen).Failure? ==>
      Generate(cipher, key, chars, startnum, numpass, passlen).error == FirstError(chars, startnum, passlen)
  {
    var step := Step(cipher, key, chars, passlen);
    RunRangeSuccess(step, startnum, numpass);
    if Generates(chars, startnum, numpass, passlen) {
      forall i | startnum <= i < startnum + numpass
        ensures step(i).Success?
      {
        StepOutcome(cipher, key, chars, passlen, i);
      }
    } else {
      StepOutcome(cipher, key, chars, passlen, startnum);
      StepOutcome(cipher, key, chars, passlen, startnum + numpass - 1);
      RunRangeFailure(step, startnum, numpass);
      var i :|
        && startnum <= i < startnum + numpass
        && step(i) == Failure(Generate(cipher, key, chars, startnum, numpass, passlen).error)
        && (forall j :: startnum <= j < i ==> step(j).Success?);
      StepOutcome(cipher, key, chars, passlen, i);
      if i > startnum {
        StepOutcome(cipher, key, chars, passlen, i - 1);
        assert i == MaxInt + 1;
      }
    }
  }

  /** The step of index i succeeds exactly when i packs and the alphabet can be divided by. */
  lemma StepOutcome(cipher: Cipher, key: seq<int>, chars: seq<char>, passlen: int, i: int)
    ensures Step(cipher, key, chars, passlen)(i).Success? <==> InRange(i) && CanSpell(chars, passlen)
    ensures InRange(i) && CanSpell(chars, passlen) ==>
      Step(cipher, key, chars, passlen)(i) == Success(PasscodeAt(cipher, key, chars, i, passlen))
    ensures !InRange(i) ==> Step(cipher, key, chars, passlen)(i) == Failure(IndexError(i))
    ensures InRange(i) && !CanSpell(chars, passlen) ==> Step(cipher, key, chars, passlen)(i) == Failure(ZeroDivisionError)
  {
  }

  /**
   * A successful generation returns max(0, numpass) passcodes, the k-th
   * being the passcode of index startnum + k.
   */
  lemma GenerateCodes(cipher: Cipher, key: seq<int>, chars: seq<char>, startnum: int, numpass: int, passlen: int)
    requires Generate(cipher, key, chars, startnum, numpass, passlen).Success?
    ensures Generates(chars, startnum, numpass, passlen)
    ensures |Generate(cipher, key, chars, startnum, numpass, passlen).value| == Max0(numpass)
    ensures var codes := Generate(cipher, key, chars, startnum, numpass, passlen).value;
      forall k :: 0 <= k < |codes| ==> codes[k] == PasscodeAt(cipher, key, chars, startnum + k, passlen)
  {
    GenerateOutcome(cipher, key, chars, startnum, numpass, passlen);
    RunRangeSuccess(Step(cipher, key, chars, passlen), startnum, numpass);
    var codes := Generate(cipher, key, chars, startnum, numpass, passlen).value;
    forall k | 0 <= k < |codes|
      ensures codes[k] == PasscodeAt(cipher, key, chars, startnum + k, passlen)
    {
      GenerateCodeAt(cipher, key, chars, startnum, numpass, passlen, k);
    }
  }

  /** A successful generation returns one passcode per index of the range. */
  lemma GenerateCount(cipher: Cipher, key: seq<int>, chars: seq<char>, startnum: int, numpass: int, passlen: int)
    requires Generate(cipher, key, chars, startnum, numpass, passlen).Success?
    ensures |Generate(cipher, key, chars, startnum, numpass, passlen).value| == Max0(numpass)
  {
    RunRangeSuccess(Step(cipher, key, chars, passlen), startnum, numpass);
  }

  /** The k-th passcode of a successful generation is the passcode of index startnum + k. */
  lemma GenerateCodeAt(cipher: Cipher, key: seq<int>, chars: seq<char>, startnum: int, numpass: int, passlen: int, k: int)
    requires Generate(cipher, key, chars, startnum, numpass, passlen).Success?
    requires 0 <= k < |Generate(cipher, key, chars, startnum, numpass, passlen).value|
    ensures InRange(startnum + k) && CanSpell(chars, passlen)
    ensures Generate(cipher, key, chars, startnum, numpass, passlen).value[k] == PasscodeAt(cipher, key, chars, startnum + k, passlen)
  {
    var step := Step(cipher, key, chars, passlen);
    var codes := RunRange(step, startnum, numpass).value;
    assert codes == Generate(cipher, key, chars, startnum, numpass, passlen).value;
    RunRangeAt(step, startnum, numpass, k);
    StepValue(cipher, key, chars, passlen, startnum + k, codes[k]);
  }

  /** GenerateCodeAt for a generation known to have returned the list codes. */
  lemma GeneratedCode(cipher: Cipher, key: seq<int>, chars: seq<char>, startnum: int, numpass: int, passlen: int,
                      codes: seq<string>, k: int)
    requires Generate(cipher, key, chars, startnum, numpass, passlen) == Success(codes)
    requires 0 <= k < |codes|
    ensures k < numpass && InRange(startnum + k) && CanSpell(chars, passlen)
    ensures codes[k] == PasscodeAt(cipher, key, chars, startnum + k, passlen)
  {
    GenerateCount(cipher, key, chars, startnum, numpass, passlen);
    GenerateCodeAt(cipher, key, chars, startnum, numpass, passlen, k);
  }

  /** A successful step returned the passcode of its index. */
  lemma StepValue(cipher: Cipher, key: seq<int>, chars: seq<char>, passlen: int, i: int, code: string)
    requires Step(cipher, key, chars, passlen)(i) == Success(code)
    ensures InRange(i) && CanSpell(chars, passlen)
    ensures code == PasscodeAt(cipher, key, chars, i, passlen)
  {
    StepOutcome(cipher, key, chars, passlen, i);
  }

  /**
   * Every passcode of a successful generation has passlen characters, and
   * character j of the k-th one is the alphabet character at digit j of
   * the cipher value of index startnum + k; so every character is drawn
   * from the alphabet.
   */
  lemma GenerateDigits(cipher: Cipher, key: seq<int>, chars: seq<char>, startnum: int, numpass: int, passlen: int)
    requires Generate(cipher, key, chars, startnum, numpass, passlen).Success?
    ensures var codes := Generate(cipher, key, chars, startnum, numpass, passlen).value;
      forall k :: 0 <= k < |codes| ==>
        && |codes[k]| == Max0(passlen)
        && InRange(startnum + k)
        && forall j {:trigger codes[k][j]} :: 0 <= j < |codes[k]| ==>
             |chars| > 0 &&
             codes[k][j] == chars[(CipherValue(cipher, key, startnum + k) / Pow(|chars|, j)) % |chars|] &&
             codes[k][j] in chars
  {
    var codes := Generate(cipher, key, chars, startnum, numpass, passlen).value;
    forall k | 0 <= k < |codes|
      ensures && |codes[k]| == Max0(passlen)
              && InRange(startnum + k)
              && forall j {:trigger codes[k][j]} :: 0 <= j < |codes[k]| ==>
                   |chars| > 0 &&
                   codes[k][j] == chars[(CipherValue(cipher, key, startnum + k) / Pow(|chars|, j)) % |chars|] &&
                   codes[k][j] in chars
    {
      GenerateCodeAt(cipher, key, chars, startnum, numpass, passlen, k);
      PasscodeAtDigits(cipher, key, chars, startnum + k, passlen);
    }
  }

  /** The passcode of index i spells the digits of its cipher value with characters of the alphabet. */
  lemma PasscodeAtDigits(cipher: Cipher, key: seq<int>, chars: seq<char>, i: int, passlen: int)
    requires InRange(i) && CanSpell(chars, passlen)
    ensures var code := PasscodeAt(cipher, key, chars, i, passlen);
      && |code| == Max0(passlen)
      && forall j {:trigger code[j]} :: 0 <= j < |code| ==>
           |chars| > 0 &&
           code[j] == chars[(CipherValue(cipher, key, i) / Pow(|chars|, j)) % |chars|] &&
           code[j] in chars
  {
  }

  /**
   * Paging consistency: two generations whose ranges both cover index i
   * return the same passcode for it, wherever each range starts.
   */
  lemma PagingConsistency(cipher: Cipher, key: seq<int>, chars: seq<char>, passlen: int,
                          s1: int, n1: int, s2: int, n2: int, i: int)
    requires Generate(cipher, key, chars, s1, n1, passlen).Success?
    requires Generate(cipher, key, chars, s2, n2, passlen).Success?
    requires s1 <= i < s1 + n1 && s2 <= i < s2 + n2
    ensures i - s1 < |Generate(cipher, key, chars, s1, n1, passlen).value|
    ensures i - s2 < |Generate(cipher, key, chars, s2, n2, passlen).value|
    ensures Generate(cipher, key, chars, s1, n1, passlen).value[i - s1]
         == Generate(cipher, key, chars, s2, n2, passlen).value[i - s2]
  {
    GenerateCodes(cipher, key, chars, s1, n1, passlen);
    GenerateCodes(cipher, key, chars, s2, n2, passlen);
  }

  /**
   * The digit loop of create_passcodes run over the reused passcode buffer:
   * every one of its passlen cells is overwritten, so the result does not
   * depend on what an earlier index left in the buffer.
   */
  method OverwriteDigits(buffer: seq<char>, value: nat, chars: seq<char>, passlen: int) returns (r: Result<string, Exception>)
    requires |buffer| == Max0(passlen)
    ensures CanSpell(chars, passlen) ==> r == Success(Passcode(value, chars, passlen))
    ensures !CanSpell(chars, passlen) ==> r == Failure(ZeroDivisionError)
  {
    var numChars := |chars|;
    var passcode := buffer;
    var ciphVal := value;
    var j := 0;
    while j < passlen
      invariant 0 <= j <= Max0(passlen)
      invariant |passcode| == Max0(passlen)
      invariant j > 0 ==> numChars > 0
      invariant numChars > 0 ==> ciphVal == value / Pow(numChars, j)
      invariant forall t {:trigger passcode[t]} :: 0 <= t < j ==> passcode[t] == chars[(value / Pow(numChars, t)) % numChars]
    {
      if numChars == 0 {
        return Failure(ZeroDivisionError);
      }
      passcode := passcode[j := chars[ciphVal % numChars]];
      DivModNested(value, Pow(numChars, j), numChars);
      ciphVal := ciphVal / numChars;
      j := j + 1;
    }
    assert passcode == Passcode(value, chars, passlen);
    return Success(passcode);
  }

  /**
   * One iteration of the index loop of create_passcodes: pack the index,
   * encrypt the block, unpack the ciphertext and spell it into the buffer.
   */
  method CodeOfIndex(cipher: Cipher, key: seq<int>, chars: seq<char>, passlen: int, i: int, buffer: seq<char>)
    returns (r: Result<string, Exception>)
    requires |buffer| == Max0(passlen)
    ensures r == Step(cipher, key, chars, passlen)(i)
  {
    var val := Pack128(i);
    if val.Failure? {
      return Failure(val.error);
    }
    var ciph := cipher(val.value, key);
    var ciphVal := Unpack128(ciph);
    r := OverwriteDigits(buffer, ciphVal, chars, passlen);
  }

  /**
   * create_passcodes: the index loop over [startnum, startnum + numpass),
   * packing each index, encrypting it, unpacking the ciphertext and spelling
   * it into the shared buffer; it returns what Generate specifies.
   */
  method CreatePasscodes(cipher: Cipher, key: seq<int>, chars: seq<char>, startnum: int, numpass: int, passlen: int)
    returns (r: Result<seq<string>, Exception>)
    ensures r == Generate(cipher, key, chars, startnum, numpass, passlen)
  {
    var step := Step(cipher, key, chars, passlen);
    var passcode := seq(Max0(passlen), _ => ' ');
    var codes: seq<string> := [];
    var i := startnum;
    while i < startnum + numpass
      invariant startnum <= i <= startnum + Max0(numpass)
      invariant |passcode| == Max0(passlen)
      invariant RunRange(step, startnum, i - startnum) == Success(codes)
    {
      var code := CodeOfIndex(cipher, key, chars, passlen, i, passcode);
      if code.Failure? {
        RunRangeStopsAt(step, startnum, i, numpass);
        return Failure(code.error);
      }
      passcode := code.value;
      RunRangeExtend(step, startnum, i, codes, passcode);
      codes := codes + [passcode];
      i := i + 1;
    }
    return Success(codes);
  }
}
