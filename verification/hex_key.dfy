/**
 * The textual form of a 256-bit sequence key: 64 hexadecimal characters,
 * two per key byte.  hex2bytes decodes it pair by pair with Python's
 * `int(pair, 16)`, and generate_random_key formats key bytes back with
 * `"%02x"`.
 */
module HexKey {
  import opened Wrappers
  import opened IntegerCodec

  /** SHA256_DIGEST_SIZE: the number of hex characters in a key. */
  const KeyHexLength: nat := 64
  /** The number of key bytes, SHA256_DIGEST_SIZE / 2. */
  const KeyByteCount: nat := 32

  predicate IsHexDigit(c: char)
  {
    '0' <= c <= '9' || 'a' <= c <= 'f' || 'A' <= c <= 'F'
  }

  /** The digits "%02x" writes. */
  predicate IsLowerHexDigit(c: char)
  {
    '0' <= c <= '9' || 'a' <= c <= 'f'
  }

  function HexDigitValue(c: char): (v: nat)
    requires IsHexDigit(c)
    ensures v < 16
  {
    if '0' <= c <= '9' then c as int - '0' as int
    else if 'a' <= c <= 'f' then c as int - 'a' as int + 10
    else c as int - 'A' as int + 10
  }

  /** The lower-case hex digit of a value below 16. */
  function HexChar(d: nat): (c: char)
    requires d < 16
    ensures IsLowerHexDigit(c) && HexDigitValue(c) == d
  {
    if d < 10 then ('0' as int + d) as char else ('a' as int + d - 10) as char
  }

  lemma HexCharOfValue(c: char)
    requires IsLowerHexDigit(c)
    ensures HexChar(HexDigitValue(c)) == c
  {
  }

  /** The white space Python's int() strips from both ends of its argument. */
  predicate IsSpace(c: char)
  {
    c == ' ' || c == '\t' || c == '\n' || c == '\r' || c == '\U{000B}' || c == '\U{000C}'
  }

  /**
   * Python 2's `int(c0 + c1, 16)` on a two-character string: None where it
   * raises ValueError.  Besides two hex digits it accepts one hex digit with
   * white space before or after it, and one hex digit after a sign.
   */
  function ParsePair(c0: char, c1: char): Option<int>
  {
    if IsHexDigit(c0) && IsHexDigit(c1) then Some(16 * HexDigitValue(c0) + HexDigitValue(c1))
    else if IsSpace(c0) && IsHexDigit(c1) then Some(HexDigitValue(c1))
    else if IsHexDigit(c0) && IsSpace(c1) then Some(HexDigitValue(c0))
    else if c0 == '+' && IsHexDigit(c1) then Some(HexDigitValue(c1))
    else if c0 == '-' && IsHexDigit(c1) then Some(-(HexDigitValue(c1) as int))
    else None
  }

  /**
   * What int(pair, 16) can return: a value in [-15, 255], negative only after
   * a minus sign, at least 16 only for two hex digits, and never without a
   * hex digit; two hex digits always give a byte.
   */
  lemma ParsePairRange(c0: char, c1: char)
    ensures ParsePair(c0, c1).Some? ==> IsHexDigit(c0) || IsHexDigit(c1)
    ensures ParsePair(c0, c1).Some? ==> -15 <= ParsePair(c0, c1).value <= 255
    ensures ParsePair(c0, c1).Some? && ParsePair(c0, c1).value < 0 ==> c0 == '-'
    ensures ParsePair(c0, c1).Some? && ParsePair(c0, c1).value >= 16 ==> IsHexDigit(c0) && IsHexDigit(c1)
    ensures IsHexDigit(c0) && IsHexDigit(c1) ==> ParsePair(c0, c1).Some? && 0 <= ParsePair(c0, c1).value <= 255
  {
  }

  /** int(hexstr[2p:2p+2], 16) */
  function PairAt(hexstr: string, p: nat): Option<int>
    requires 2 * p + 1 < |hexstr|
  {
    ParsePair(hexstr[2 * p], hexstr[2 * p + 1])
  }

  /** The pair-by-pair decoding loop of hex2bytes over an even-length string. */
  function DecodePairs(s: string): (r: Option<seq<int>>)
    requires |s| % 2 == 0
    ensures r.Some? <==> forall p :: 0 <= p < |s| / 2 ==> PairAt(s, p).Some?
    ensures r.Some? ==> |r.value| == |s| / 2
    ensures r.Some? ==> forall p :: 0 <= p < |s| / 2 ==> r.value[p] == PairAt(s, p).value
  {
    if |s| == 0 then Some([])
    else
      var rest := DecodePairs(s[2..]);
      assert forall p :: 1 <= p < |s| / 2 ==> PairAt(s, p) == PairAt(s[2..], p - 1);
      match ParsePair(s[0], s[1])
      case None =>
        assert !PairAt(s, 0).Some?;
        None
      case Some(b) =>
        if rest.None? then
          ShiftedPairFails(s);
          None
        else Some([b] + rest.value)
  }

  lemma ShiftedPairFails(s: string)
    requires |s| % 2 == 0 && |s| >= 2
    requires exists p :: 0 <= p < |s[2..]| / 2 && !PairAt(s[2..], p).Some?
    ensures exists p :: 0 <= p < |s| / 2 && !PairAt(s, p).Some?
  {
    var p :| 0 <= p < |s[2..]| / 2 && !PairAt(s[2..], p).Some?;
    assert PairAt(s, p + 1) == PairAt(s[2..], p);
  }

  /**
   * hex2bytes: None unless the string has exactly 64 characters each pair
   * of which int(pair, 16) parses; otherwise the 32 parsed values, in order.
   */
  function HexToBytes(hexstr: string): (r: Option<seq<int>>)
    ensures r.Some? <==> |hexstr| == KeyHexLength && forall p :: 0 <= p < KeyByteCount ==> PairAt(hexstr, p).Some?
    ensures r.Some? ==> |r.value| == KeyByteCount
    ensures r.Some? ==> forall p :: 0 <= p < KeyByteCount ==> r.value[p] == PairAt(hexstr, p).value
  {
    if |hexstr| != KeyHexLength then None
    else DecodePairs(hexstr)
  }

  /** A string of 64 hex digits decodes to 32 bytes, each the value of its two digits. */
  lemma HexDigitsDecode(hexstr: string)
    requires |hexstr| == KeyHexLength
    requires forall k :: 0 <= k < |hexstr| ==> IsHexDigit(hexstr[k])
    ensures HexToBytes(hexstr).Some?
    ensures forall p :: 0 <= p < KeyByteCount ==>
      0 <= HexToBytes(hexstr).value[p] < 256 &&
      HexToBytes(hexstr).value[p] == 16 * HexDigitValue(hexstr[2 * p]) + HexDigitValue(hexstr[2 * p + 1])
  {
    assert forall p :: 0 <= p < KeyByteCount ==> IsHexDigit(hexstr[2 * p]) && IsHexDigit(hexstr[2 * p + 1]);
  }

  /** "%02x" % x for one byte. */
  function FormatByte(x: byte): string
  {
    [HexChar(x / 16), HexChar(x % 16)]
  }

  /** ''.join(["%02x" % x for x in bs]) */
  function FormatKey(bs: seq<byte>): (s: string)
    ensures |s| == 2 * |bs|
  {
    if |bs| == 0 then "" else FormatByte(bs[0]) + FormatKey(bs[1..])
  }

  /** Byte p of the key is written at characters 2p and 2p+1, high hex digit first. */
  lemma {:induction false} FormatKeyChars(bs: seq<byte>)
    ensures forall p {:trigger bs[p]} :: 0 <= p < |bs| ==>
      FormatKey(bs)[2 * p] == HexChar(bs[p] / 16) && FormatKey(bs)[2 * p + 1] == HexChar(bs[p] % 16)
  {
    if |bs| > 0 {
      FormatKeyChars(bs[1..]);
      var rest := FormatKey(bs[1..]);
      var s := FormatKey(bs);
      assert s == FormatByte(bs[0]) + rest;
      forall p | 1 <= p < |bs|
        ensures s[2 * p] == HexChar(bs[p] / 16) && s[2 * p + 1] == HexChar(bs[p] % 16)
      {
        assert bs[p] == bs[1..][p - 1];
        assert s[2 * p] == rest[2 * (p - 1)] && s[2 * p + 1] == rest[2 * (p - 1) + 1];
      }
    }
  }

  /** Formatting any 32 bytes and decoding the result gives the bytes back. */
  lemma DecodeFormatted(bs: seq<byte>)
    requires |bs| == KeyByteCount
    ensures HexToBytes(FormatKey(bs)) == Some(bs)
  {
    var s := FormatKey(bs);
    FormatKeyChars(bs);
    forall p | 0 <= p < KeyByteCount
      ensures PairAt(s, p) == Some(bs[p] as int)
    {
      assert s[2 * p] == HexChar(bs[p] / 16) && s[2 * p + 1] == HexChar(bs[p] % 16);
      assert 16 * (bs[p] / 16) + bs[p] % 16 == bs[p];
    }
    assert HexToBytes(s).value == bs;
  }

  /** A key written in lower-case hex digits is reproduced by formatting its decoded bytes. */
  lemma FormatDecoded(hexstr: string)
    requires |hexstr| == KeyHexLength
    requires forall k :: 0 <= k < |hexstr| ==> IsLowerHexDigit(hexstr[k])
    ensures HexToBytes(hexstr).Some?
    ensures forall p :: 0 <= p < KeyByteCount ==> 0 <= HexToBytes(hexstr).value[p] < 256
    ensures FormatKey(HexToBytes(hexstr).value) == hexstr
  {
    HexDigitsDecode(hexstr);
    var bs: seq<byte> := HexToBytes(hexstr).value;
    var s := FormatKey(bs);
    FormatKeyChars(bs);
    forall p | 0 <= p < KeyByteCount
      ensures s[2 * p] == hexstr[2 * p] && s[2 * p + 1] == hexstr[2 * p + 1]
    {
      var hi, lo := hexstr[2 * p], hexstr[2 * p + 1];
      assert bs[p] == 16 * HexDigitValue(hi) + HexDigitValue(lo);
      FormatDigitPair(hi, lo);
    }
    forall k | 0 <= k < KeyHexLength
      ensures s[k] == hexstr[k]
    {
      var p := k / 2;
      assert k == 2 * p || k == 2 * p + 1;
    }
  }

  /** "%02x" writes back the byte two lower-case hex digits denote. */
  lemma FormatDigitPair(hi: char, lo: char)
    requires IsLowerHexDigit(hi) && IsLowerHexDigit(lo)
    ensures var x := 16 * HexDigitValue(hi) + HexDigitValue(lo);
      HexChar(x / 16) == hi && HexChar(x % 16) == lo
  {
    var x := 16 * HexDigitValue(hi) + HexDigitValue(lo);
    assert x / 16 == HexDigitValue(hi) && x % 16 == HexDigitValue(lo);
    HexCharOfValue(hi);
    HexCharOfValue(lo);
  }

  /**
   * generate_random_key, given the 32 values random.randrange(256) drew:
   * the key as a 64-character lower-case hex string, and the bytes.
   */
  function RandomKey(draws: seq<byte>): (key: (string, seq<byte>))
    requires |draws| == KeyByteCount
    ensures |key.0| == KeyHexLength && key.1 == draws
    ensures forall k :: 0 <= k < |key.0| ==> IsLowerHexDigit(key.0[k])
    ensures HexToBytes(key.0) == Some(key.1)
  {
    var s := FormatKey(draws);
    FormatKeyChars(draws);
    forall k | 0 <= k < |s|
      ensures IsLowerHexDigit(s[k])
    {
      var p := k / 2;
      assert s[2 * p] == HexChar(draws[p] / 16) && s[2 * p + 1] == HexChar(draws[p] % 16);
      assert k == 2 * p || k == 2 * p + 1;
    }
    DecodeFormatted(draws);
    (s, draws)
  }
}
