/**
 * Bytes and their hexadecimal renderings, as used by the relay (lower-case `bytes.hex()`),
 * by the decoder's diagnostics and hardware addresses (upper-case `f"{x:02X}"` joined by a
 * separator) and by the relay client (`bytes.fromhex`).
 */
module Hex {
  import opened Wrappers

  type byte = b: int | 0 <= b < 256

  /** The hexadecimal digit for `n`, upper- or lower-case. */
  function Digit(n: int, upper: bool): (c: char)
    requires 0 <= n < 16
    ensures IsHexDigit(c) && DigitValue(c) == n
    ensures upper ==> !('a' <= c <= 'f')
    ensures !upper ==> !('A' <= c <= 'F')
  {
    if n < 10 then '0' + n as char
    else if upper then 'A' + (n - 10) as char
    else 'a' + (n - 10) as char
  }

  predicate IsHexDigit(c: char) {
    '0' <= c <= '9' || 'a' <= c <= 'f' || 'A' <= c <= 'F'
  }

  /** The value of a hexadecimal digit of either case, as `bytes.fromhex` reads it. */
  function DigitValue(c: char): (n: int)
    requires IsHexDigit(c)
    ensures 0 <= n < 16
  {
    if '0' <= c <= '9' then (c - '0') as int
    else if 'a' <= c <= 'f' then (c - 'a') as int + 10
    else (c - 'A') as int + 10
  }

  /** Two digits, high nibble first: `f"{b:02x}"` or `f"{b:02X}"`. */
  function ByteHex(b: byte, upper: bool): (s: string)
    ensures |s| == 2 && IsHexDigit(s[0]) && IsHexDigit(s[1])
    ensures DigitValue(s[0]) * 16 + DigitValue(s[1]) == b
    ensures upper ==> !('a' <= s[0] <= 'f') && !('a' <= s[1] <= 'f')
    ensures !upper ==> !('A' <= s[0] <= 'F') && !('A' <= s[1] <= 'F')
  {
    [Digit(b / 16, upper), Digit(b % 16, upper)]
  }

  /** `bytes.hex()`: lower-case, two characters per byte, no separator. */
  function ToHex(bs: seq<byte>): (s: string)
    ensures |s| == 2 * |bs|
    ensures forall i :: 0 <= i < |s| ==> IsHexDigit(s[i]) && !('A' <= s[i] <= 'F') && s[i] != ' '
  {
    if bs == [] then [] else ByteHex(bs[0], false) + ToHex(bs[1..])
  }

  /** Characters `2k` and `2k + 1` of `bytes.hex()` are the lower-case rendering of byte `k`. */
  lemma {:induction false} ToHexPairs(bs: seq<byte>)
    ensures forall k :: 0 <= k < |bs| ==> ToHex(bs)[2 * k .. 2 * k + 2] == ByteHex(bs[k], false)
  {
    if bs != [] {
      ToHexPairs(bs[1..]);
      var s := ToHex(bs);
      var rest := ToHex(bs[1..]);
      assert s == ByteHex(bs[0], false) + rest;
      forall k | 1 <= k < |bs|
        ensures s[2 * k .. 2 * k + 2] == ByteHex(bs[k], false)
      {
        assert s[2 * k .. 2 * k + 2] == rest[2 * (k - 1) .. 2 * (k - 1) + 2];
        assert bs[1..][k - 1] == bs[k];
      }
    }
  }

  /** `sep.join(f"{x:02X}" for x in bs)`: upper-case pairs separated by `sep`. */
  function HexJoin(bs: seq<byte>, sep: char): (s: string)
  {
    if bs == [] then []
    else if |bs| == 1 then ByteHex(bs[0], true)
    else ByteHex(bs[0], true) + [sep] + HexJoin(bs[1..], sep)
  }

  /**
   * The layout of a joined rendering: `3n - 1` characters, the separator at every third
   * position and the two upper-case digits of byte `k` at positions `3k` and `3k + 1`.
   */
  lemma {:induction false} HexJoinLayout(bs: seq<byte>, sep: char)
    requires |bs| > 0
    ensures |HexJoin(bs, sep)| == 3 * |bs| - 1
    ensures forall k :: 0 <= k < |bs| ==>
      HexJoin(bs, sep)[3 * k .. 3 * k + 2] == ByteHex(bs[k], true)
    ensures forall k :: 0 <= k < |bs| - 1 ==> HexJoin(bs, sep)[3 * k + 2] == sep
  {
    if |bs| > 1 {
      HexJoinLayout(bs[1..], sep);
      var s := HexJoin(bs, sep);
      var t := HexJoin(bs[1..], sep);
      assert s == ByteHex(bs[0], true) + [sep] + t;
      forall k | 1 <= k < |bs|
        ensures s[3 * k .. 3 * k + 2] == ByteHex(bs[k], true)
      {
        assert s[3 * k .. 3 * k + 2] == t[3 * (k - 1) .. 3 * (k - 1) + 2];
        assert bs[1..][k - 1] == bs[k];
      }
      forall k | 1 <= k < |bs| - 1
        ensures s[3 * k + 2] == sep
      {
        assert s[3 * k + 2] == t[3 * (k - 1) + 2];
      }
    }
  }

  /** ASCII whitespace, which `bytes.fromhex` skips between byte pairs. */
  predicate IsSpace(c: char) {
    c == ' ' || c == '\t' || c == '\n' || c == '\r' || c == '\U{000B}' || c == '\U{000C}'
  }

  /**
   * `bytes.fromhex(s)`: whitespace before each pair is skipped, each byte is two hexadecimal
   * digits of either case, and anything else (an odd digit, a space inside a pair, a non-hex
   * character) raises `ValueError`.
   */
  function FromHex(s: string): (r: Result<seq<byte>>)
    ensures r.Success? ==> 2 * |r.value| <= |s|
  {
    if s == [] then Success([])
    else if IsSpace(s[0]) then FromHex(s[1..])
    else if |s| >= 2 && IsHexDigit(s[0]) && IsHexDigit(s[1]) then
      match FromHex(s[2..])
      case Success(rest) => Success([(DigitValue(s[0]) * 16 + DigitValue(s[1])) as byte] + rest)
      case Failure(e) => Failure(e)
    else Failure("ValueError: non-hexadecimal number found in fromhex() arg")
  }

  /** Decoding undoes encoding: `bytes.fromhex(bs.hex()) == bs`. */
  lemma {:induction false} FromHexToHex(bs: seq<byte>)
    ensures FromHex(ToHex(bs)) == Success(bs)
  {
    if bs != [] {
      var s := ToHex(bs);
      assert s == ByteHex(bs[0], false) + ToHex(bs[1..]);
      assert s[2..] == ToHex(bs[1..]);
      FromHexToHex(bs[1..]);
      assert [bs[0]] + bs[1..] == bs;
    }
  }
}
