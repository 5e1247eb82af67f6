/** The hexadecimal display of received bytes, and the lenient parser that
    turns typed hexadecimal into bytes to send. */
module Hex {
  import opened Base

  predicate IsHexDigit(c: char) {
    '0' <= c <= '9' || 'A' <= c <= 'F' || 'a' <= c <= 'f'
  }

  function DigitValue(c: char): (v: nat)
    requires IsHexDigit(c)
    ensures v < 16
  {
    if '0' <= c <= '9' then c as int - '0' as int
    else if 'A' <= c <= 'F' then c as int - 'A' as int + 10
    else c as int - 'a' as int + 10
  }

  /** The digit `{:X}` writes for a nibble: upper case. */
  function UpperDigit(n: nat): (c: char)
    requires n < 16
    ensures IsHexDigit(c) && DigitValue(c) == n && !('a' <= c <= 'f')
  {
    if n < 10 then ('0' as int + n) as char else ('A' as int + n - 10) as char
  }

  /** `f'{b:02X}'`: two upper-case digits, high nibble first. */
  function ByteHex(b: byte): string {
    [UpperDigit(b as nat / 16), UpperDigit(b as nat % 16)]
  }

  /** `sep.join(parts)`. */
  function Join(sep: string, parts: seq<string>): string {
    if |parts| == 0 then ""
    else if |parts| == 1 then parts[0]
    else parts[0] + sep + Join(sep, parts[1..])
  }

  function HexOfEach(data: seq<byte>): seq<string> {
    seq(|data|, i requires 0 <= i < |data| => ByteHex(data[i]))
  }

  /** `bytes_to_hex`: the bytes' digit pairs joined by spaces, plus a
      trailing space; nothing at all for no bytes. */
  function BytesToHex(data: seq<byte>): (r: string)
    ensures r == "" <==> data == []
    ensures data != [] ==> r[|r| - 1] == ' '
  {
    if |data| == 0 then "" else Join(" ", HexOfEach(data)) + " "
  }

  /** Each byte as its digit pair followed by a space. */
  function Cells(data: seq<byte>): string {
    if data == [] then "" else ByteHex(data[0]) + " " + Cells(data[1..])
  }

  lemma {:induction false} BytesToHexIsCells(data: seq<byte>)
    ensures BytesToHex(data) == Cells(data)
    decreases |data|
  {
    if |data| == 1 {
      assert Cells(data[1..]) == "";
    } else if |data| > 1 {
      BytesToHexIsCells(data[1..]);
      assert HexOfEach(data)[1..] == HexOfEach(data[1..]);
      var h := ByteHex(data[0]);
      var j := Join(" ", HexOfEach(data[1..]));
      assert BytesToHex(data) == h + " " + j + " ";
      assert BytesToHex(data[1..]) == j + " ";
      assert h + " " + j + " " == h + " " + (j + " ");
    }
  }

  /** The display format: three characters per byte, the byte's two
      upper-case digits and then a space. */
  lemma {:induction false} BytesToHexLayout(data: seq<byte>)
    ensures |BytesToHex(data)| == 3 * |data|
    ensures forall i :: 0 <= i < |data| ==>
      BytesToHex(data)[3 * i] == UpperDigit(data[i] as nat / 16) &&
      BytesToHex(data)[3 * i + 1] == UpperDigit(data[i] as nat % 16) &&
      BytesToHex(data)[3 * i + 2] == ' '
  {
    BytesToHexIsCells(data);
    CellsLayout(data);
    forall i | 0 <= i < |data|
      ensures BytesToHex(data)[3 * i] == UpperDigit(data[i] as nat / 16)
      ensures BytesToHex(data)[3 * i + 1] == UpperDigit(data[i] as nat % 16)
      ensures BytesToHex(data)[3 * i + 2] == ' '
    {
      assert ShowsByte(Cells(data), i, data[i]);
    }
  }

  /** Cell `i` of `s` holds the digits of `b` and a space. */
  predicate ShowsByte(s: string, i: nat, b: byte)
    requires 3 * i + 3 <= |s|
  {
    s[3 * i] == UpperDigit(b as nat / 16) && s[3 * i + 1] == UpperDigit(b as nat % 16) && s[3 * i + 2] == ' '
  }

  lemma {:induction false} CellsLayout(data: seq<byte>)
    ensures |Cells(data)| == 3 * |data|
    ensures forall i :: 0 <= i < |data| ==> ShowsByte(Cells(data), i, data[i])
    decreases |data|
  {
    if data != [] {
      var rest := data[1..];
      CellsLayout(rest);
      var tail := Cells(rest);
      var c := Cells(data);
      assert c == ByteHex(data[0]) + " " + tail;
      forall i | 0 <= i < |data|
        ensures ShowsByte(c, i, data[i])
      {
        if i > 0 {
          var k := i - 1;
          assert rest[k] == data[i] && ShowsByte(tail, k, rest[k]);
          assert c[3 * i] == tail[3 * k] && c[3 * i + 1] == tail[3 * k + 1] && c[3 * i + 2] == tail[3 * k + 2];
        }
      }
    }
  }

  /** `re.sub(r'[^A-Fa-f0-9]', '', s)`: the hexadecimal digits of `s`. */
  function Clean(s: string): (d: string)
    ensures |d| <= |s|
    ensures forall i :: 0 <= i < |d| ==> IsHexDigit(d[i])
  {
    if s == [] then []
    else (if IsHexDigit(s[0]) then [s[0]] else []) + Clean(s[1..])
  }

  lemma {:induction false} CleanAppend(a: string, b: string)
    ensures Clean(a + b) == Clean(a) + Clean(b)
    decreases |a|
  {
    if a == [] {
      assert a + b == b;
    } else {
      assert (a + b)[0] == a[0] && (a + b)[1..] == a[1..] + b;
      CleanAppend(a[1..], b);
      var h := if IsHexDigit(a[0]) then [a[0]] else [];
      assert h + (Clean(a[1..]) + Clean(b)) == (h + Clean(a[1..])) + Clean(b);
    }
  }

  /** Cleaning keeps a string made of digits as it is. */
  lemma {:induction false} CleanKeepsDigits(d: string)
    requires forall i :: 0 <= i < |d| ==> IsHexDigit(d[i])
    ensures Clean(d) == d
    decreases |d|
  {
    if d != [] {
      CleanKeepsDigits(d[1..]);
      assert [d[0]] + d[1..] == d;
    }
  }

  /** `int(s, 16)` for what can reach it here: one or two hex digits parse,
      anything else raises (None). */
  function ParseByte(pair: string): (r: Option<byte>)
    ensures r.Some? <==> 1 <= |pair| <= 2 && forall i :: 0 <= i < |pair| ==> IsHexDigit(pair[i])
  {
    if |pair| == 2 && IsHexDigit(pair[0]) && IsHexDigit(pair[1]) then
      Some((16 * DigitValue(pair[0]) + DigitValue(pair[1])) as byte)
    else if |pair| == 1 && IsHexDigit(pair[0]) then
      Some(DigitValue(pair[0]) as byte)
    else None
  }

  /** The loop over `clean[i:i+2]` for i = 0, 2, 4, ...: a pair that fails
      to parse is skipped. */
  function ParsePairs(d: string): seq<byte>
    decreases |d|
  {
    if d == [] then []
    else
      var n := if |d| >= 2 then 2 else 1;
      (match ParseByte(d[..n])
       case Some(b) => [b]
       case None => [])
      + ParsePairs(d[n..])
  }

  /** An odd number of digits gets a `0` appended. */
  function Padded(d: string): string {
    if |d| % 2 != 0 then d + "0" else d
  }

  /** `hex_to_bytes`, the function its loop computes. */
  function ParseHex(s: string): (r: seq<byte>)
    ensures |r| == (|Clean(s)| + 1) / 2
  {
    var d := Clean(s);
    if d == [] then []
    else
      PaddedLayout(d);
      ParsePairsOfDigits(Padded(d));
      ParsePairs(Padded(d))
  }

  /** `hex_to_bytes` as the source computes it: clean, pad, then append the
      value of each pair in turn. */
  method HexToBytes(hexStr: string) returns (result: seq<byte>)
    ensures result == ParseHex(hexStr)
  {
    var clean := Clean(hexStr);
    if clean == [] {
      return [];
    }
    if |clean| % 2 != 0 {
      clean := clean + "0";
    }
    assert clean == Padded(Clean(hexStr));
    result := [];
    var i := 0;
    while i < |clean|
      invariant 0 <= i <= |clean|
      invariant result + ParsePairs(clean[i..]) == ParsePairs(clean)
      decreases |clean| - i
    {
      var j := if i + 2 <= |clean| then i + 2 else |clean|;
      ParsePairsFrom(clean, i, j);
      match ParseByte(clean[i..j]) {
        case Some(b) =>
          AppendIsAssociative(result, [b], ParsePairs(clean[j..]));
          result := result + [b];
        case None =>
      }
      i := j;
    }
    assert clean[i..] == [];
  }

  /** One turn of the loop: the pair at `i` and the pairs after it. */
  lemma ParsePairsFrom(d: string, i: nat, j: nat)
    requires i < |d| && j == (if i + 2 <= |d| then i + 2 else |d|)
    ensures ParsePairs(d[i..]) ==
      (match ParseByte(d[i..j]) case Some(b) => [b] case None => []) + ParsePairs(d[j..])
  {
    var rest := d[i..];
    assert rest[..j - i] == d[i..j];
    assert rest[j - i..] == d[j..];
  }

  /** On an even-length run of digits no pair fails: each pair of digits
      becomes one byte, high nibble first. */
  lemma {:induction false} ParsePairsOfDigits(d: string)
    requires |d| % 2 == 0 && forall i :: 0 <= i < |d| ==> IsHexDigit(d[i])
    ensures |ParsePairs(d)| == |d| / 2
    ensures forall k :: 0 <= k < |d| / 2 ==>
      ParsePairs(d)[k] as int == 16 * DigitValue(d[2 * k]) + DigitValue(d[2 * k + 1])
    decreases |d|
  {
    if d != [] {
      var tail := d[2..];
      ParsePairsOfDigits(tail);
      var r := ParsePairs(d);
      assert r == [(16 * DigitValue(d[0]) + DigitValue(d[1])) as byte] + ParsePairs(tail);
      forall k | 1 <= k < |d| / 2
        ensures r[k] as int == 16 * DigitValue(d[2 * k]) + DigitValue(d[2 * k + 1])
      {
        assert tail[2 * (k - 1)] == d[2 * k] && tail[2 * (k - 1) + 1] == d[2 * k + 1];
      }
    }
  }

  /** What `hex_to_bytes` returns, in terms of the k hexadecimal digits of
      its input: ceil(k/2) bytes, byte i made of digits 2i and 2i+1, and a
      last byte whose low nibble is 0 when k is odd. No pair is ever
      skipped, and every other character is ignored. */
  lemma ParseHexDigits(s: string)
    ensures var d := Clean(s);
      var r := ParseHex(s);
      |r| == (|d| + 1) / 2 &&
      forall k :: 0 <= k < |r| ==>
        r[k] as int == 16 * DigitValue(d[2 * k]) + (if 2 * k + 1 < |d| then DigitValue(d[2 * k + 1]) else 0)
  {
    var d := Clean(s);
    if d != [] {
      var p := Padded(d);
      PaddedLayout(d);
      ParsePairsOfDigits(p);
      var r := ParsePairs(p);
      forall k | 0 <= k < |r|
        ensures r[k] as int == 16 * DigitValue(d[2 * k]) + (if 2 * k + 1 < |d| then DigitValue(d[2 * k + 1]) else 0)
      {
        assert p[2 * k] == d[2 * k];
      }
    }
  }

  /** Padding keeps the digits and appends a `0` only to an odd count. */
  lemma PaddedLayout(d: string)
    requires forall i :: 0 <= i < |d| ==> IsHexDigit(d[i])
    ensures var p := Padded(d);
      |p| == 2 * ((|d| + 1) / 2) && |p| % 2 == 0 &&
      (forall i :: 0 <= i < |p| ==> IsHexDigit(p[i])) &&
      (forall i :: 0 <= i < |d| ==> p[i] == d[i]) &&
      (|p| != |d| ==> p[|d|] == '0' && DigitValue(p[|d|]) == 0)
  {
  }

  /** Characters other than hexadecimal digits make no difference. */
  lemma ParseHexIgnoresOtherCharacters(s: string)
    ensures ParseHex(s) == ParseHex(Clean(s))
  {
    CleanKeepsDigits(Clean(s));
  }

  /** ASCII upper-casing. */
  function ToUpper(c: char): char {
    if 'a' <= c <= 'z' then (c as int - 32) as char else c
  }

  function Upper(s: string): (r: string)
    ensures |r| == |s| && forall i :: 0 <= i < |s| ==> r[i] == ToUpper(s[i])
  {
    seq(|s|, i requires 0 <= i < |s| => ToUpper(s[i]))
  }

  lemma {:induction false} CleanUpper(s: string)
    ensures Clean(Upper(s)) == Upper(Clean(s))
    decreases |s|
  {
    if s != [] {
      CleanUpper(s[1..]);
      assert Upper(s)[0] == ToUpper(s[0]) && Upper(s)[1..] == Upper(s[1..]);
      var h := if IsHexDigit(s[0]) then [s[0]] else [];
      assert Upper(h + Clean(s[1..])) == Upper(h) + Upper(Clean(s[1..]));
    }
  }

  lemma UpperKeepsValue(c: char)
    requires IsHexDigit(c)
    ensures IsHexDigit(ToUpper(c)) && DigitValue(ToUpper(c)) == DigitValue(c)
  {
  }

  lemma ParseByteUpper(pair: string)
    requires 1 <= |pair| <= 2 && forall i :: 0 <= i < |pair| ==> IsHexDigit(pair[i])
    ensures ParseByte(Upper(pair)) == ParseByte(pair)
  {
    UpperKeepsValue(pair[0]);
    if |pair| == 2 {
      UpperKeepsValue(pair[1]);
    }
  }

  lemma {:induction false} ParsePairsUpper(d: string)
    requires forall i :: 0 <= i < |d| ==> IsHexDigit(d[i])
    ensures ParsePairs(Upper(d)) == ParsePairs(d)
    decreases |d|
  {
    if d != [] {
      var n := if |d| >= 2 then 2 else 1;
      var u := Upper(d);
      assert u[..n] == Upper(d[..n]);
      assert u[n..] == Upper(d[n..]);
      ParseByteUpper(d[..n]);
      ParsePairsUpper(d[n..]);
    }
  }

  /** The parser does not care about the case of the digits. */
  lemma ParseHexIgnoresCase(s: string)
    ensures ParseHex(Upper(s)) == ParseHex(s)
  {
    CleanUpper(s);
    var d := Clean(s);
    if d != [] {
      var p := Padded(d);
      assert Padded(Upper(d)) == Upper(p);
      assert forall i :: 0 <= i < |p| ==> IsHexDigit(p[i]);
      ParsePairsUpper(p);
    }
  }

  /** The hexadecimal of `data`'s bytes: two digits each. */
  function Digits(data: seq<byte>): string {
    if data == [] then "" else ByteHex(data[0]) + Digits(data[1..])
  }

  lemma {:induction false} CleanCells(data: seq<byte>)
    ensures Clean(Cells(data)) == Digits(data)
    decreases |data|
  {
    if data != [] {
      var h := ByteHex(data[0]);
      CleanAppend(h + " ", Cells(data[1..]));
      CleanAppend(h, " ");
      CleanKeepsDigits(h);
      CleanCells(data[1..]);
      assert Clean(" ") == [];
      assert h + " " + Cells(data[1..]) == (h + " ") + Cells(data[1..]);
    }
  }

  lemma {:induction false} ParseDigits(data: seq<byte>)
    ensures |Digits(data)| == 2 * |data|
    ensures ParsePairs(Digits(data)) == data
    decreases |data|
  {
    if data != [] {
      ParseDigits(data[1..]);
      var d := Digits(data);
      assert d[..2] == ByteHex(data[0]) && d[2..] == Digits(data[1..]);
      var b := data[0] as nat;
      assert 16 * (b / 16) + b % 16 == b;
      assert ParseByte(d[..2]) == Some(data[0]);
      assert [data[0]] + data[1..] == data;
    }
  }

  /** What the display writes, the parser reads back. */
  lemma HexRoundTrip(data: seq<byte>)
    ensures ParseHex(BytesToHex(data)) == data
  {
    BytesToHexIsCells(data);
    CleanCells(data);
    ParseDigits(data);
  }

  /** The examples of the display format in the docstring of
      `bytes_to_hex` (core/encoding_handler.py:84). */
  lemma DisplayExamples()
    ensures BytesToHex([]) == ""
    ensures BytesToHex([0xAB]) == "AB "
  {
    assert ByteHex(0xAB) == "AB";
  }

  /** Parser examples: the two input forms named in the docstring of
      `hex_to_bytes` (core/encoding_handler.py:97), no digits at all, and an
      odd number of digits. */
  lemma ParseExamples()
    ensures ParseHex("AA BB CC") == [0xAA, 0xBB, 0xCC]
    ensures ParseHex("AABBCC") == [0xAA, 0xBB, 0xCC]
    ensures ParseHex("ZZ") == []
    ensures ParseHex("ABC") == [0xAB, 0xC0]
  {
    ParseExampleSpaced();
    ParseExampleCompact();
    assert Clean("ZZ") == "";
    ParseExampleOdd();
  }

  /** Without spaces: the digits of the spaced form, parsed alike. */
  lemma ParseExampleCompact()
    ensures ParseHex("AABBCC") == [0xAA, 0xBB, 0xCC]
  {
    CleanExample();
    ParseExampleSpaced();
    ParseHexIgnoresOtherCharacters("AA BB CC");
  }

  lemma ParseExampleSpaced()
    ensures ParseHex("AA BB CC") == [0xAA, 0xBB, 0xCC]
  {
    CleanExample();
    PairsExample();
  }

  lemma CleanExample()
    ensures Clean("AA BB CC") == "AABBCC"
  {
    var t2 := ['C'] + ['C'];
    CleanCons('C', ['C']);
    CleanCons('C', []);
    assert ['C'] + [] == ['C'];
    var t3 := [' '] + t2;
    CleanCons(' ', t2);
    var t4 := ['B'] + t3;
    CleanCons('B', t3);
    var t5 := ['B'] + t4;
    CleanCons('B', t4);
    var t6 := [' '] + t5;
    CleanCons(' ', t5);
    var t7 := ['A'] + t6;
    CleanCons('A', t6);
    var t8 := ['A'] + t7;
    CleanCons('A', t7);
    assert t8 == "AA BB CC";
  }

  lemma CleanCons(c: char, s: string)
    ensures Clean([c] + s) == (if IsHexDigit(c) then [c] else []) + Clean(s)
  {
    assert ([c] + s)[1..] == s;
  }

  lemma PairsExample()
    ensures ParsePairs("AABBCC") == [0xAA, 0xBB, 0xCC]
  {
    var d := "AABBCC";
    ParsePairsOfDigits(d);
    var r := ParsePairs(d);
    assert r[0] as int == 0xAA && r[1] as int == 0xBB && r[2] as int == 0xCC;
  }

  lemma ParseExampleOdd()
    ensures ParseHex("ABC") == [0xAB, 0xC0]
  {
    assert Clean("ABC") == "ABC";
    assert Padded("ABC") == "ABC0";
    ParsePairsOfDigits("ABC0");
    var r := ParsePairs("ABC0");
    assert r[0] as int == 16 * 10 + 11 && r[1] as int == 16 * 12 + 0;
  }
}
