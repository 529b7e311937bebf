# peppy — a Dafny model of Perfect Paper Passwords passcode generation

peppy prints Perfect Paper Passwords (PPP): one-time passcodes derived from
a 256-bit sequence key. Passcode number `i` is produced in four steps:

1. pack `i` into a 128-bit block of sixteen 8-bit words (`pack128`);
2. encrypt the block with AES-256 under the key;
3. unpack the ciphertext into an integer (`unpack128`);
4. write that integer's low-order digits in radix `len(chars)`, least
   significant first, as characters of a sorted alphabet
   (`create_passcodes`).

The key is given either as 64 hex digits (`hex2bytes`) or as the SHA-256 hex
digest of a passphrase. A `--page P` option selects the indices
`(P - 1) * numpass` onward.

The model covers both copies of this pipeline, which are the same code:
`peppy/__init__.py` and `peppy/peppy.py`. The rows below cite
`peppy/__init__.py` for the shared functions and `peppy/peppy.py` for the
command line's main block.

## Modules

- `Wrappers`, `Exceptions`: `Option`, `Result`, and the two exceptions the
  model represents, `IndexError(n)` and `ZeroDivisionError`.
- `Radix`: powers, base-b digits (`Digits`) and positional value
  (`FromDigits`), with the lemmas that make them inverse to each other.
- `Bits`: Python's `&`, `|`, `<<` and `>>` on non-negative integers.
- `IntegerCodec`: `pack128` and `unpack128`, written with the bit
  operations of the source and proved equal to base-256 notation.
- `HexKey`: `hex2bytes`, and the `"%02x"` formatting of `generate_random_key`.
- `Passcodes`: the cipher is a parameter. The module has three parts:
  - a functional specification of the index loop, `Generate`;
  - the imperative loop itself, `CreatePasscodes`, proved equal to it;
  - the lemmas about paging and digits.
- `Sorting`: `list.sort()` on the alphabet.
- `Cli`: the pure part of the main block.
  - It checks the key options and derives the key bytes.
  - It turns a page into a start index.
  - It chooses and sorts the alphabet, then calls `create_passcodes`.

Where the model follows the code rather than the intent of the program:

- Option strings are Python 2 `str` values, which are sequences of bytes.
  - Each Dafny `char` of a string in the model stands for one byte of that `str`, so every character is below 256.
  - Under this reading the alphabet's length (the radix) counts bytes, and the sort orders byte values, as `list(chars)` and `chars.sort()` do.
  - `ParsePair`, `Sort` and every lemma are exact under this reading.
  - A `-c "äb"` typed in a UTF-8 shell is the three bytes `0xc3 0xa4 0x62`, and must be given to the model as those three characters.

- `hex2bytes` decodes each pair as Python 2's `int(pair, 16)` does (`ParsePair`).
  - That call also accepts one hex digit with white space on one side, or one
    hex digit after a `+` or `-`.
  - So `"-f"` decodes to -15, and decoded values are integers, not always bytes.
  - The lemmas about hex digits state when all 32 values are bytes.
- An empty alphabet makes the digit loop raise `ZeroDivisionError`.
  - It raises only when `passlen > 0` and an index is reached.
  - From the command line this cannot happen, because an empty `-c` falls back
    to the default alphabet (`Cli.OnlyIndexErrors`).
- `len(hexstr) is not 64` and `options.startnum is not 0` are modelled as
  `!=`. They behave that way on CPython, which caches small integers.
- A negative `numpass` is an empty range, and a negative `passlen` is an empty
  passcode, as with Python's `range`.
- Python's truthiness is kept:
  - `-c ""` and `-k ""` count as not given;
  - `--page 0` counts as not given.

## Model

| member | source | states |
|---|---|---|
| IntegerCodec.PackWordsDigits | peppy/__init__.py:63-67 | the words the loop emits by masking with 255 and shifting right by 8 are the base-256 digits of n, least significant first |
| IntegerCodec.Pack128 | peppy/__init__.py:58-69 | IndexError(n) exactly when n is outside [0, 2^128 - 1]; otherwise exactly 16 words in [0, 255], word i being (n / 256^i) % 256 |
| IntegerCodec.UnpackStep | peppy/__init__.py:75-77 | OR-ing a word shifted past the words before it adds word * 256^i to the value, because the bits do not overlap |
| IntegerCodec.UnpackPrefix | peppy/__init__.py:73-77 | after k iterations the accumulator is the sum of words[i] * 256^i over i < k |
| IntegerCodec.Unpack128 | peppy/__init__.py:71-79 | for a word list of any length, the result is the sum of words[i] * 256^i, which is below 256^len(words) |
| IntegerCodec.UnpackPack | peppy/__init__.py:58-79 | unpack128(pack128(n)) == n for every n in [0, 2^128 - 1] |
| IntegerCodec.PackUnpack | peppy/__init__.py:58-79 | every block of 16 words unpacks into pack128's range, and packing that integer gives the block back |
| Bits.AndLowMask | peppy/__init__.py:65 | n & (2^k - 1) is n mod 2^k |
| Bits.OrDisjointShift | peppy/__init__.py:76-77 | a OR (w << k) equals a + w * 2^k when a < 2^k |
| HexKey.HexChar | peppy/__init__.py:54 | the digit "%x" writes for a value below 16 is a lower-case hex digit that denotes that value |
| HexKey.ParsePairRange | peppy/__init__.py:43 | int(pair, 16) on two characters gives a value in [-15, 255]: negative only after a minus sign, at least 16 only for two hex digits, never without a hex digit; two hex digits always give a byte |
| HexKey.DecodePairs | peppy/__init__.py:40-46 | the pair loop returns a list exactly when every pair parses; the list then has one value per pair, the p-th being the parse of characters 2p and 2p+1 |
| HexKey.HexToBytes | peppy/__init__.py:35-46 | None exactly when the length is not 64 or some pair is rejected by int(pair, 16); otherwise 32 values, in pair order |
| HexKey.HexDigitsDecode | peppy/__init__.py:41-46 | 64 hex digits of either case decode to 32 values in [0, 255], each 16 * high digit + low digit |
| HexKey.FormatKeyChars | peppy/__init__.py:54 | byte p is written at characters 2p and 2p+1, high hex digit first |
| HexKey.DecodeFormatted | peppy/__init__.py:35-54 | hex2bytes of the "%02x" formatting of any 32 bytes returns those bytes |
| HexKey.FormatDecoded | peppy/__init__.py:35-54 | a 64-digit lower-case hex key decodes to bytes whose "%02x" formatting is the key again |
| HexKey.RandomKey | peppy/__init__.py:48-56 | for any 32 drawn bytes, the key is 64 lower-case hex digits, and hex2bytes of the key gives back exactly the key_bytes returned beside it |
| Passcodes.CipherValueBound | peppy/__init__.py:89-91 | a cipher that returns 16 words yields an integer that pack128 would accept |
| Passcodes.Passcode | peppy/__init__.py:93-97 | a passcode has max(0, passlen) characters; character j is chars[(value / len(chars)^j) % len(chars)] |
| Passcodes.PasscodeKeepsLowDigits | peppy/__init__.py:93-95 | values congruent modulo len(chars)^passlen give the same passcode; over an alphabet without repeats, only those do |
| Passcodes.CodeAt | peppy/__init__.py:89-95 | one iteration succeeds exactly when i can be packed and the alphabet can be divided by; it then gives max(0, passlen) characters, all from chars; otherwise an index outside the 128-bit range raises IndexError(i) (pack128 runs first), and only an in-range index with an empty alphabet and passlen > 0 raises ZeroDivisionError |
| Passcodes.Generate | peppy/__init__.py:81-98 | the index loop returns max(0, numpass) codes when it succeeds; it fails only when numpass > 0, with IndexError or ZeroDivisionError |
| Passcodes.RunRangeSuccess | peppy/__init__.py:88-97 | the index loop succeeds exactly when every index's iteration does; it then returns one result per index, in ascending index order |
| Passcodes.RunRangeFailure | peppy/__init__.py:88-97 | a failing loop raises the exception of an index whose iteration fails after all earlier ones succeeded |
| Passcodes.RunRangeSplit | peppy/__init__.py:88-97 | running the loop over n + m indices is running it over the first n, then over the next m, and concatenating |
| Passcodes.GenerateOutcome | peppy/__init__.py:81-98 | passcode generation succeeds exactly when numpass <= 0, or the first and last index are in [0, 2^128 - 1] and the alphabet can be divided by; otherwise it raises IndexError(startnum), ZeroDivisionError or IndexError(2^128), whichever index comes first |
| Passcodes.GenerateCodes | peppy/__init__.py:88-97 | a successful generation returns max(0, numpass) codes, code k being the passcode of index startnum + k |
| Passcodes.GenerateDigits | peppy/__init__.py:93-95 | character j of code k is chars[(unpack128(encrypt(pack128(startnum + k))) / len(chars)^j) % len(chars)], so it is drawn from chars |
| Passcodes.PagingConsistency | peppy/__init__.py:88-97 | two generations whose ranges both cover index i give the same code for i, whatever their start indices |
| Passcodes.OverwriteDigits | peppy/__init__.py:84-95 | the digit loop overwrites every cell of the reused buffer, so its result is the passcode of the value whatever the buffer held; it raises ZeroDivisionError only for an empty alphabet and passlen > 0 |
| Passcodes.CodeOfIndex | peppy/__init__.py:89-95 | one iteration of the index loop, over any buffer of the right length, returns what the specification says index i yields |
| Passcodes.CreatePasscodes | peppy/__init__.py:81-98 | create_passcodes returns what the functional specification Generate gives: the codes of the range in index order, or the first exception |
| Sorting.SortSpec | peppy/peppy.py:186-187 | the sorted alphabet is in ascending order and is a permutation of the given one |
| Sorting.SortedUnique | peppy/peppy.py:186-187 | two sorted sequences with the same characters and multiplicities are equal, so any sorting algorithm gives the same alphabet |
| Sorting.SortOrderInsensitive | peppy/peppy.py:186-187 | alphabets with the same characters and multiplicities sort to the same list |
| Sorting.SortSorted | peppy/peppy.py:186-187 | sorting an already sorted alphabet leaves it unchanged |
| Sorting.SortMembers | peppy/peppy.py:186-187 | a character is in the sorted alphabet exactly when it is in the given one |
| Cli.KeyBytes | peppy/peppy.py:161-172 | a passphrase yields the SHA-256 digest bytes; a -k key yields hex2bytes of the key when that succeeds, and the invalid-key exit otherwise |
| Cli.Configure | peppy/peppy.py:153-187 | a configuration that passes the option checks has a key of 32 values and an alphabet that is the -c (or default) alphabet in ascending order, as a permutation |
| Cli.Run | peppy/peppy.py:153-194 | a run that prints, prints max(0, numpass) codes; a run that raises had numpass > 0 and raised IndexError or ZeroDivisionError |
| Cli.PassphraseKey | peppy/peppy.py:163-165 | the key bytes of a passphrase are its digest; hex2bytes of the hex digest loses nothing |
| Cli.PagesTile | peppy/peppy.py:179-183 | page p + 1 starts where page p ends; for numpass > 0, every index i >= 0 is on page p exactly when p = i / numpass + 1 |
| Cli.PageCodes | peppy/peppy.py:179-194 | with --page P, printed code k is the passcode of index (P - 1) * numpass + k over the sorted alphabet |
| Cli.PageIsStart | peppy/peppy.py:179-183 | --page P gives the same passcodes, or the same exception, as -s (P - 1) * numpass (the page header display_codes prints is not modelled) |
| Cli.AlphabetOrderInsensitive | peppy/peppy.py:174-194 | two runs whose alphabets hold the same characters the same number of times print the same passcodes |
| Cli.OnlyIndexErrors | peppy/peppy.py:174-194 | with a non-empty default alphabet, the only modelled exception a run can raise is IndexError (list-size limits: see Left out) |
| Cli.PeppyOnlyIndexErrors | peppy/peppy.py:174-177 | with CHARACTER_ARRAY as the default, the program never raises ZeroDivisionError; IndexError is the only modelled exception it can raise |
| Cli.CodesUseAlphabet | peppy/peppy.py:174-194 | every printed passcode has max(0, passlen) characters, each from the -c alphabet, or from the default alphabet when -c is absent or empty |

## Left out

- AES-256 encryption (`aes.AES().encrypt`) is not part of this model. It is a parameter, `Passcodes.Cipher`: any total function from a block of words and a key to a list of words. Everything proved holds for every cipher, whatever the length of its output. `CipherValueBound` covers the 16-word case.
- SHA-256 (`sha256(phrase)`) is a parameter, `Cli.Hash`: any function from strings to 32 bytes. `hexdigest()` is modelled as the `"%02x"` formatting of those bytes.
- `random.randrange(256)` in `generate_random_key` is not modelled. The 32 drawn values are the argument of `HexKey.RandomKey`.
- `display_codes`, the single-code print, and the `-v` output are console output and are not modelled. This includes the key string printed by `-v`: only the key bytes passed to `create_passcodes` are modelled.
- Option parsing is not modelled.
  - `Cli.Options` is the already parsed result of `optparse`; the defaults 70, 0, 4 and CHARACTER_ARRAY are ordinary values of it.
  - `parser.error` and `sys.exit` are the `UsageFailure` outcome, without their messages.
  - Messages of exceptions are not modelled; `IndexError` carries the rejected integer.
- `list.sort()` is modelled by insertion sort. `Sorting.SortedUnique` shows that every algorithm that sorts produces the same list.
- The lemmas about the command line are stated for `Cli.Run`, which takes the default alphabet as an argument. `Cli.Peppy` is `Run` with CHARACTER_ARRAY.
- `setup.py` (packaging) is not part of this model.
- List-size and memory limits are not modelled. Before it looks at any index, `create_passcodes` builds two lists:
  - `[" "] * passlen` (peppy/__init__.py:84) raises OverflowError when passlen is 2^63 or more in absolute value;
  - Python 2's `range(startnum, startnum + numpass)` (line 88) raises OverflowError for 2^63 or more items;
  - large but smaller sizes of either raise MemoryError.
  The model's integers are unbounded, so these sizes behave like any other. The members below are stated for that unbounded reading.
- Passcodes.Generate: its failure clause names only IndexError and ZeroDivisionError; the OverflowError and MemoryError of over-large lists are not modelled.
- Passcodes.GenerateOutcome: "succeeds exactly when" holds for the unbounded model; the program can also fail with OverflowError or MemoryError for numpass or passlen near or above sys.maxsize.
- Passcodes.CreatePasscodes: returns what Generate gives, so it has the same list-size limits unmodelled.
- Cli.Run: the exceptions a run can raise are those of Generate; OverflowError and MemoryError from over-large -n or -l values are not modelled.
- Cli.OnlyIndexErrors: "the only exception is IndexError" is among the exceptions modelled; OverflowError and MemoryError for over-large -n or -l values are not modelled.
- Cli.PeppyOnlyIndexErrors: the same limitation as Cli.OnlyIndexErrors.
- Decoding of the terminal's text into bytes is not modelled. Option strings are taken as the byte sequences Python 2 receives.
