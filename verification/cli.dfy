/**
 * The pure steps of the `peppy` command line between option parsing and
 * passcode generation: choosing the key (a 64-digit hex key, or the SHA-256
 * hex digest of a passphrase), turning `--page P` into a start index,
 * falling back to the default alphabet and sorting it, and running
 * create_passcodes on the result.  Option parsing, printing and the table
 * layout are not modelled; the hash is a parameter like the cipher.
 */
module Cli {
  import opened Wrappers
  import opened Exceptions
  import opened Radix
  import opened IntegerCodec
  import opened HexKey
  import opened Passcodes
  import opened Sorting

  /** CHARACTER_ARRAY, the default `-c` alphabet. */
  const CharacterArray: string := "23456789!@#%+=:?abcdefghijkmnopqrstuvwxyzABCDEFGHJKLMNPRSTUVWXYZ"

  /** The 32 bytes of a SHA-256 digest. */
  type Digest = d: seq<byte> | |d| == KeyByteCount witness seq(32, _ => 0)

  /** sha256(phrase).digest(), a parameter of the model. */
  type Hash = string -> Digest

  /** The parsed options; None for an option not given and without a default. */
  datatype Options = Options(
    key: Option<string>,
    passphrase: Option<string>,
    numpass: int,
    startnum: int,
    page: Option<int>,
    passlen: int,
    chars: Option<string>)

  /** The parser.error and sys.exit exits before generation starts. */
  datatype UsageError =
    | KeyOrPassphrase  // neither or both of -k and -p
    | StartAndPage     // both -s and --page
    | InvalidKey       // a -k key hex2bytes rejects

  /** What a run ends with: a usage exit, an exception out of create_passcodes, or the codes. */
  datatype Outcome =
    | UsageFailure(usage: UsageError)
    | Raised(exception: Exception)
    | Printed(codes: seq<string>)

  /** The arguments create_passcodes is called with. */
  datatype Config = Config(key: seq<int>, chars: string, startnum: int, numpass: int, passlen: int)

  /** Python truthiness of a string option: given and not empty. */
  predicate Given(o: Option<string>)
  {
    o.Some? && |o.value| > 0
  }

  /** Python truthiness of `options.page`: given and not zero. */
  predicate PageGiven(page: Option<int>)
  {
    page.Some? && page.value != 0
  }

  /** sha256(phrase).hexdigest(): the digest as 64 lower-case hex digits. */
  function HexDigest(hash: Hash, phrase: string): string
  {
    FormatKey(hash(phrase))
  }

  /**
   * The key bytes: exactly one of -k and -p must be given; a passphrase is
   * hashed and its hex digest decoded, a key is decoded and must be valid.
   */
  function KeyBytes(key: Option<string>, passphrase: Option<string>, hash: Hash): (r: Result<seq<int>, UsageError>)
    requires Given(key) != Given(passphrase)
    ensures Given(passphrase) ==> r == Success(hash(passphrase.value))
    ensures Given(key) ==> (r.Success? <==> HexToBytes(key.value).Some?)
    ensures Given(key) && r.Success? ==> r.value == HexToBytes(key.value).value
    ensures r.Failure? ==> r.error == InvalidKey
  {
    if Given(passphrase) then
      DecodeFormatted(hash(passphrase.value));
      Success(HexToBytes(HexDigest(hash, passphrase.value)).value)
    else
      match HexToBytes(key.value)
      case None => Failure(InvalidKey)
      case Some(bs) => Success(bs)
  }

  /** The first index of page p of numpass passcodes. */
  function PageStart(p: int, numpass: int): int
  {
    (p - 1) * numpass
  }

  /** `--page P` starts at (P - 1) * numpass; otherwise the -s start is used. */
  function StartIndex(page: Option<int>, startnum: int, numpass: int): int
  {
    if PageGiven(page) then PageStart(page.value, numpass) else startnum
  }

  /**
   * The alphabet given with -c, or the fallback when it is absent or empty;
   * the program's fallback is CHARACTER_ARRAY.
   */
  function ChosenAlphabet(chars: Option<string>, fallback: string): string
  {
    if Given(chars) then chars.value else fallback
  }

  /** `chars = list(chars); chars.sort()` */
  function Alphabet(chars: Option<string>, fallback: string): string
  {
    Sort(ChosenAlphabet(chars, fallback))
  }

  /**
   * The checks of the main block in their order, then the arguments of
   * create_passcodes.
   */
  function Configure(opts: Options, hash: Hash, fallback: string): (r: Result<Config, UsageError>)
    ensures r.Success? ==> |r.value.key| == KeyByteCount
    ensures r.Success? ==> Sorted(r.value.chars) && multiset(r.value.chars) == multiset(ChosenAlphabet(opts.chars, fallback))
  {
    if Given(opts.key) == Given(opts.passphrase) then Failure(KeyOrPassphrase)
    else if PageGiven(opts.page) && opts.startnum != 0 then Failure(StartAndPage)
    else
      match KeyBytes(opts.key, opts.passphrase, hash)
      case Failure(e) => Failure(e)
      case Success(key) =>
        SortSpec(ChosenAlphabet(opts.chars, fallback));
        Success(Config(key, Alphabet(opts.chars, fallback), StartIndex(opts.page, opts.startnum, opts.numpass), opts.numpass, opts.passlen))
  }

  /**
   * The command line from the parsed options to the passcodes it prints,
   * for a given fallback alphabet.
   */
  function Run(cipher: Cipher, hash: Hash, fallback: string, opts: Options): (r: Outcome)
    ensures r.Printed? ==> |r.codes| == Max0(opts.numpass)
    ensures r.Raised? ==> opts.numpass > 0 && (r.exception.IndexError? || r.exception == ZeroDivisionError)
  {
    match Configure(opts, hash, fallback)
    case Failure(e) => UsageFailure(e)
    case Success(c) =>
      match Generate(cipher, c.key, c.chars, c.startnum, c.numpass, c.passlen)
      case Failure(e) => Raised(e)
      case Success(codes) => Printed(codes)
  }

  /** The program itself: Run with CHARACTER_ARRAY as the fallback alphabet. */
  function Peppy(cipher: Cipher, hash: Hash, opts: Options): Outcome
  {
    Run(cipher, hash, CharacterArray, opts)
  }

  /**
   * The run gets past the option checks exactly when one of -k and -p is
   * given, -s and --page are not both given, and a -k key decodes; the
   * usage error otherwise is the first check that fails.
   */
  lemma ConfigureOutcome(opts: Options, hash: Hash, fallback: string)
    ensures Configure(opts, hash, fallback).Success? <==>
      && Given(opts.key) != Given(opts.passphrase)
      && !(PageGiven(opts.page) && opts.startnum != 0)
      && (Given(opts.passphrase) || HexToBytes(opts.key.value).Some?)
    ensures Given(opts.key) == Given(opts.passphrase) ==> Configure(opts, hash, fallback) == Failure(KeyOrPassphrase)
    ensures Given(opts.key) != Given(opts.passphrase) && PageGiven(opts.page) && opts.startnum != 0 ==>
      Configure(opts, hash, fallback) == Failure(StartAndPage)
  {
  }

  /**
   * A passphrase key is the SHA-256 digest itself: formatting it as a hex
   * digest and decoding that with hex2bytes loses nothing.
   */
  lemma PassphraseKey(opts: Options, hash: Hash, fallback: string)
    requires Given(opts.passphrase) && !Given(opts.key)
    requires !(PageGiven(opts.page) && opts.startnum != 0)
    ensures Configure(opts, hash, fallback).Success?
    ensures Configure(opts, hash, fallback).value.key == hash(opts.passphrase.value)
    ensures var digest: seq<int> := hash(opts.passphrase.value);
      HexToBytes(HexDigest(hash, opts.passphrase.value)) == Some(digest)
  {
    DecodeFormatted(hash(opts.passphrase.value));
  }

  /**
   * Pages tile the indices: page p + 1 starts where page p ends, and for
   * numpass > 0 every index i >= 0 is on exactly one page p >= 1, namely
   * i / numpass + 1.
   */
  lemma PagesTile(numpass: int, i: int, p: int)
    requires numpass > 0 && i >= 0 && p >= 1
    ensures PageStart(p + 1, numpass) == PageStart(p, numpass) + numpass
    ensures PageStart(p, numpass) <= i < PageStart(p, numpass) + numpass <==> p == i / numpass + 1
  {
    var q := i / numpass;
    assert PageStart(p + 1, numpass) == PageStart(p, numpass) + numpass by {
      MulDistrib(numpass, p - 1, 1);
    }
    assert PageStart(q + 1, numpass) <= i < PageStart(q + 1, numpass) + numpass by {
      MulDistrib(numpass, q, 1);
    }
    if PageStart(p, numpass) <= i < PageStart(p, numpass) + numpass {
      DivModUnique(i, numpass, p - 1, i - PageStart(p, numpass));
    }
  }

  /** A run that prints passcodes printed what create_passcodes returned for its configuration. */
  lemma PrintedCodes(cipher: Cipher, hash: Hash, fallback: string, opts: Options)
    requires Run(cipher, hash, fallback, opts).Printed?
    ensures Configure(opts, hash, fallback).Success?
    ensures var c := Configure(opts, hash, fallback).value;
      Generate(cipher, c.key, c.chars, c.startnum, c.numpass, c.passlen) == Success(Run(cipher, hash, fallback, opts).codes)
  {
  }

  /** Page p lists the passcodes of indices (p - 1) * numpass onward, one per index. */
  lemma PageCodes(cipher: Cipher, hash: Hash, fallback: string, opts: Options, k: int)
    requires PageGiven(opts.page) && Run(cipher, hash, fallback, opts).Printed?
    requires 0 <= k < |Run(cipher, hash, fallback, opts).codes|
    ensures opts.numpass > 0 && k < opts.numpass
    ensures var c := Configure(opts, hash, fallback).value;
      && InRange(PageStart(opts.page.value, opts.numpass) + k)
      && Run(cipher, hash, fallback, opts).codes[k] ==
         PasscodeAt(cipher, c.key, Alphabet(opts.chars, fallback), PageStart(opts.page.value, opts.numpass) + k, opts.passlen)
  {
    PrintedCodes(cipher, hash, fallback, opts);
    ConfigFields(opts, hash, fallback);
    PageCode(cipher, opts, Configure(opts, hash, fallback).value, Run(cipher, hash, fallback, opts).codes, Alphabet(opts.chars, fallback), k);
  }

  /** PageCodes for a configuration c whose generation returned codes. */
  lemma PageCode(cipher: Cipher, opts: Options, c: Config, codes: seq<string>, alphabet: string, k: int)
    requires PageGiven(opts.page)
    requires c.chars == alphabet && c.startnum == StartIndex(opts.page, opts.startnum, opts.numpass)
    requires c.numpass == opts.numpass && c.passlen == opts.passlen
    requires Generate(cipher, c.key, c.chars, c.startnum, c.numpass, c.passlen) == Success(codes)
    requires 0 <= k < |codes|
    ensures opts.numpass > 0 && k < opts.numpass
    ensures InRange(PageStart(opts.page.value, opts.numpass) + k)
    ensures codes[k] == PasscodeAt(cipher, c.key, alphabet, PageStart(opts.page.value, opts.numpass) + k, opts.passlen)
  {
    GeneratedCode(cipher, c.key, c.chars, c.startnum, c.numpass, c.passlen, codes, k);
  }

  /** A configuration that passed the checks carries the sorted alphabet, the start index and the -n and -l values. */
  lemma ConfigFields(opts: Options, hash: Hash, fallback: string)
    requires Configure(opts, hash, fallback).Success?
    ensures var c := Configure(opts, hash, fallback).value;
      && c.chars == Alphabet(opts.chars, fallback)
      && c.startnum == StartIndex(opts.page, opts.startnum, opts.numpass)
      && c.numpass == opts.numpass && c.passlen == opts.passlen
  {
  }

  /** `--page P` prints the same passcodes as `-s (P - 1) * numpass`. */
  lemma PageIsStart(cipher: Cipher, hash: Hash, fallback: string, opts: Options)
    requires PageGiven(opts.page) && opts.startnum == 0
    ensures Run(cipher, hash, fallback, opts) ==
      Run(cipher, hash, fallback, opts.(page := None, startnum := PageStart(opts.page.value, opts.numpass)))
  {
  }

  /**
   * The order of the -c characters does not matter: two runs whose
   * alphabets hold the same characters the same number of times print the
   * same passcodes.
   */
  lemma AlphabetOrderInsensitive(cipher: Cipher, hash: Hash, fallback: string, opts: Options, chars: Option<string>)
    requires multiset(ChosenAlphabet(chars, fallback)) == multiset(ChosenAlphabet(opts.chars, fallback))
    ensures Run(cipher, hash, fallback, opts.(chars := chars)) == Run(cipher, hash, fallback, opts)
  {
    SortOrderInsensitive(ChosenAlphabet(chars, fallback), ChosenAlphabet(opts.chars, fallback));
    assert Alphabet(chars, fallback) == Alphabet(opts.chars, fallback);
    assert Configure(opts.(chars := chars), hash, fallback) == Configure(opts, hash, fallback);
  }

  /**
   * An empty -c falls back to the default alphabet, so with a non-empty
   * fallback the digit loop always has characters to divide by: the only
   * exception a run can raise is pack128's IndexError.
   */
  lemma OnlyIndexErrors(cipher: Cipher, hash: Hash, fallback: string, opts: Options)
    requires |fallback| > 0
    ensures Run(cipher, hash, fallback, opts).Raised? ==> Run(cipher, hash, fallback, opts).exception.IndexError?
  {
    if Configure(opts, hash, fallback).Success? {
      var c := Configure(opts, hash, fallback).value;
      var chosen := ChosenAlphabet(opts.chars, fallback);
      SortSpec(chosen);
      assert |c.chars| == |multiset(c.chars)| == |multiset(chosen)| == |chosen| > 0;
      GenerateOutcome(cipher, c.key, c.chars, c.startnum, c.numpass, c.passlen);
    }
  }

  /** The program, whose default alphabet is not empty, never raises ZeroDivisionError. */
  lemma PeppyOnlyIndexErrors(cipher: Cipher, hash: Hash, opts: Options)
    ensures Peppy(cipher, hash, opts).Raised? ==> Peppy(cipher, hash, opts).exception.IndexError?
  {
    OnlyIndexErrors(cipher, hash, CharacterArray, opts);
  }

  /**
   * Every printed passcode has max(0, passlen) characters, each one of the
   * alphabet given with -c (or of CHARACTER_ARRAY).
   */
  lemma CodesUseAlphabet(cipher: Cipher, hash: Hash, fallback: string, opts: Options)
    requires Run(cipher, hash, fallback, opts).Printed?
    ensures var codes := Run(cipher, hash, fallback, opts).codes;
      forall k :: 0 <= k < |codes| ==>
        && |codes[k]| == Max0(opts.passlen)
        && forall j :: 0 <= j < |codes[k]| ==> codes[k][j] in ChosenAlphabet(opts.chars, fallback)
  {
    PrintedCodes(cipher, hash, fallback, opts);
    var c := Configure(opts, hash, fallback).value;
    assert c.chars == Alphabet(opts.chars, fallback) && c.passlen == opts.passlen;
    var codes := Run(cipher, hash, fallback, opts).codes;
    GenerateDigits(cipher, c.key, c.chars, c.startnum, c.numpass, c.passlen);
    forall k, j | 0 <= k < |codes| && 0 <= j < |codes[k]|
      ensures codes[k][j] in ChosenAlphabet(opts.chars, fallback)
    {
      SortMembers(ChosenAlphabet(opts.chars, fallback), codes[k][j]);
    }
  }
}
