/** Character and string helpers shared by the MAC validator and the random
    MAC generator: hexadecimal digits, ASCII lower-casing (`str.lower`),
    Python's `sep.join(parts)` and the `'%02x' % n` octet format together
    with its inverse. */
module HexText {

  /** One character of the class `[a-fA-F0-9]`. */
  predicate IsHexDigit(c: char) {
    ('0' <= c <= '9') || ('a' <= c <= 'f') || ('A' <= c <= 'F')
  }

  predicate IsLowerHexDigit(c: char) {
    ('0' <= c <= '9') || ('a' <= c <= 'f')
  }

  /** A group matched by `[a-fA-F0-9]{2}`. */
  predicate IsHexPair(g: string) {
    |g| == 2 && IsHexDigit(g[0]) && IsHexDigit(g[1])
  }

  predicate IsLowerHexPair(g: string) {
    |g| == 2 && IsLowerHexDigit(g[0]) && IsLowerHexDigit(g[1])
  }

  /** `str.lower()` on one character, for the ASCII letters: the result is
      never an upper-case letter, and anything else is left as it is. */
  function LowerChar(c: char): (d: char)
    ensures !('A' <= d <= 'Z')
    ensures !('A' <= c <= 'Z') ==> d == c
    ensures 'A' <= c <= 'Z' ==> 'a' <= d <= 'z'
  {
    if 'A' <= c <= 'Z' then (c as int + 32) as char else c
  }

  /** `str.lower()` on a whole string: same length, no upper-case letter
      left, every other character kept in place. */
  function Lower(s: string): (r: string)
    ensures |r| == |s|
    ensures forall i :: 0 <= i < |r| ==> !('A' <= r[i] <= 'Z')
    ensures forall i :: 0 <= i < |s| && !('A' <= s[i] <= 'Z') ==> r[i] == s[i]
  {
    seq(|s|, i requires 0 <= i < |s| => LowerChar(s[i]))
  }

  /** Lower-casing commutes with slicing. */
  lemma LowerSlice(s: string, a: int, b: int)
    requires 0 <= a <= b <= |s|
    ensures Lower(s)[a..b] == Lower(s[a..b])
  {
  }

  /** Lower-casing leaves lower-case hexadecimal text as it is and maps
      any hexadecimal digit to a lower-case one. */
  lemma LowerHex(s: string)
    ensures (forall i :: 0 <= i < |s| ==> IsLowerHexDigit(s[i])) ==> Lower(s) == s
    ensures forall i :: 0 <= i < |s| && IsHexDigit(s[i]) ==> IsLowerHexDigit(Lower(s)[i])
  {
  }

  /** The total length of the parts. */
  function PartsLength(parts: seq<string>): (n: nat) {
    if |parts| == 0 then 0 else |parts[0]| + PartsLength(parts[1..])
  }

  /** A hexadecimal pair lower-cases to a lower-case hexadecimal pair. */
  lemma LowerHexPair(g: string)
    requires IsHexPair(g)
    ensures IsLowerHexPair(Lower(g))
  {
  }

  /** Python's `sep.join(parts)`. Its properties are the lemmas below. */
  function Join(parts: seq<string>, sep: string): (r: string) {
    if |parts| == 0 then ""
    else if |parts| == 1 then parts[0]
    else parts[0] + sep + Join(parts[1..], sep)
  }

  /** The first part starts the joined text and the last part ends it. */
  lemma {:induction false} JoinEnds(parts: seq<string>, sep: string)
    requires |parts| >= 1
    ensures parts[0] <= Join(parts, sep)
    ensures |parts[|parts| - 1]| <= |Join(parts, sep)|
    ensures Join(parts, sep)[|Join(parts, sep)| - |parts[|parts| - 1]|..] == parts[|parts| - 1]
  {
    if |parts| > 1 {
      JoinEnds(parts[1..], sep);
      assert parts[1..][|parts| - 2] == parts[|parts| - 1];
    }
  }

  /** The joined text is as long as the parts plus one separator per gap. */
  lemma {:induction false} JoinLength(parts: seq<string>, sep: string)
    requires |parts| >= 1
    ensures |Join(parts, sep)| == PartsLength(parts) + (|parts| - 1) * |sep|
  {
    if |parts| > 1 {
      JoinLength(parts[1..], sep);
      assert (|parts| - 1) * |sep| == |sep| + (|parts| - 2) * |sep|;
    }
  }

  /** Every part is two characters long. */
  predicate AllPairs(parts: seq<string>) {
    forall k :: 0 <= k < |parts| ==> |parts[k]| == 2
  }

  /** Joining two-character groups with no separator lays them end to end:
      character `i` is character `i % 2` of group `i / 2`. */
  lemma {:induction false} JoinPairsTight(parts: seq<string>)
    requires |parts| >= 1 && AllPairs(parts)
    ensures |Join(parts, "")| == 2 * |parts|
    ensures forall i :: 0 <= i < 2 * |parts| ==> Join(parts, "")[i] == parts[i / 2][i % 2]
  {
    if |parts| > 1 {
      JoinPairsTight(parts[1..]);
      var rest := Join(parts[1..], "");
      assert Join(parts, "") == parts[0] + rest;
      forall i | 2 <= i < 2 * |parts|
        ensures Join(parts, "")[i] == parts[i / 2][i % 2]
      {
        assert Join(parts, "")[i] == rest[i - 2];
        assert (i - 2) / 2 == i / 2 - 1;
        assert parts[1..][(i - 2) / 2] == parts[i / 2];
      }
    }
  }

  /** Joining two-character groups with a one-character separator: every
      third character (index 2 mod 3) is the separator, the others are the
      group characters in order. */
  lemma {:induction false} JoinPairsSeparated(parts: seq<string>, sep: string)
    requires |parts| >= 1 && AllPairs(parts) && |sep| == 1
    ensures |Join(parts, sep)| == 3 * |parts| - 1
    ensures forall i :: 0 <= i < 3 * |parts| - 1 ==>
      Join(parts, sep)[i] == if i % 3 == 2 then sep[0] else parts[i / 3][i % 3]
  {
    if |parts| > 1 {
      JoinPairsSeparated(parts[1..], sep);
      var rest := Join(parts[1..], sep);
      assert Join(parts, sep) == parts[0] + sep + rest;
      forall i | 3 <= i < 3 * |parts| - 1
        ensures Join(parts, sep)[i] == if i % 3 == 2 then sep[0] else parts[i / 3][i % 3]
      {
        assert Join(parts, sep)[i] == rest[i - 3];
        assert (i - 3) / 3 == i / 3 - 1 && (i - 3) % 3 == i % 3;
        assert parts[1..][(i - 3) / 3] == parts[i / 3];
      }
    }
  }

  /** Group `k` of a separated join of pairs sits at `3k .. 3k + 2`. */
  lemma JoinedPairAt(parts: seq<string>, sep: string, k: int)
    requires |parts| >= 1 && AllPairs(parts) && |sep| == 1 && 0 <= k < |parts|
    ensures 3 * k + 2 <= |Join(parts, sep)|
    ensures Join(parts, sep)[3 * k .. 3 * k + 2] == parts[k]
  {
    JoinPairsSeparated(parts, sep);
    var joined := Join(parts, sep);
    assert (3 * k) % 3 == 0 && (3 * k) / 3 == k;
    assert (3 * k + 1) % 3 == 1 && (3 * k + 1) / 3 == k;
    assert joined[3 * k] == parts[k][0] && joined[3 * k + 1] == parts[k][1];
  }

  /** The lower-case hexadecimal digit of a value below 16. */
  function LowerHexDigit(d: nat): (c: char)
    requires d < 16
  {
    if d < 10 then ('0' as int + d) as char else ('a' as int + d - 10) as char
  }

  /** The value of a hexadecimal digit, either case. */
  function HexDigitValue(c: char): (d: nat)
    requires IsHexDigit(c)
  {
    if '0' <= c <= '9' then c as int - '0' as int
    else if 'a' <= c <= 'f' then c as int - 'a' as int + 10
    else c as int - 'A' as int + 10
  }

  /** `'%02x' % n` for an octet: two lower-case digits, zero-padded, that
      read back as `n`. */
  function FormatOctet(n: nat): (g: string)
    requires n < 256
    ensures IsLowerHexPair(g) && IsHexPair(g)
    ensures OctetValue(g) == n
  {
    LowerHexDigitRoundTrip(n / 16);
    LowerHexDigitRoundTrip(n % 16);
    [LowerHexDigit(n / 16), LowerHexDigit(n % 16)]
  }

  /** The octet a hexadecimal pair denotes (the inverse of `FormatOctet`). */
  function OctetValue(g: string): (n: nat)
    requires IsHexPair(g)
  {
    16 * HexDigitValue(g[0]) + HexDigitValue(g[1])
  }

  lemma LowerHexDigitRoundTrip(d: nat)
    requires d < 16
    ensures IsLowerHexDigit(LowerHexDigit(d))
    ensures HexDigitValue(LowerHexDigit(d)) == d
  {
  }

  /** Reading a pair then formatting it gives the pair back, lower-cased:
      `FormatOctet` loses nothing but case. */
  lemma OctetValueRoundTrip(g: string)
    requires IsHexPair(g)
    ensures OctetValue(g) < 256
    ensures FormatOctet(OctetValue(g)) == Lower(g)
  {
    var hi, lo := HexDigitValue(g[0]), HexDigitValue(g[1]);
    assert OctetValue(g) / 16 == hi && OctetValue(g) % 16 == lo;
    assert LowerHexDigit(hi) == LowerChar(g[0]);
    assert LowerHexDigit(lo) == LowerChar(g[1]);
  }

  /** The only octet written as `ff` is 255. */
  lemma FormatOctetIsFF(n: nat)
    requires n < 256
    ensures FormatOctet(n) == "ff" <==> n == 255
  {
    if FormatOctet(n) == "ff" {
      assert OctetValue("ff") == 255;
    }
  }
}
