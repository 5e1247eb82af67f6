/** UTF-8 as RFC 3629 defines it: the lead/continuation structure of
    section 3 and the table of well-formed byte sequences of section 4.
    This is the byte-level behaviour of the host's `utf-8` codec that the
    handler relies on. */
module Utf8 {
  import opened Base

  /** Length of the sequence a lead byte announces; 0 if the byte cannot
      start one (continuation bytes 80-BF, overlong leads C0-C1, F5-FF). */
  function SequenceLength(lead: byte): (n: nat)
    ensures n <= 4
  {
    if lead < 0x80 then 1
    else if 0xC2 <= lead <= 0xDF then 2
    else if 0xE0 <= lead <= 0xEF then 3
    else if 0xF0 <= lead <= 0xF4 then 4
    else 0
  }

  predicate IsTail(b: byte) {
    0x80 <= b <= 0xBF
  }

  /** The range allowed for the byte after `lead` (section 4 of RFC 3629):
      it excludes overlongs after E0 and F0, surrogates after ED and code
      points above U+10FFFF after F4. */
  predicate SecondOk(lead: byte, b: byte) {
    if lead == 0xE0 then 0xA0 <= b <= 0xBF
    else if lead == 0xED then 0x80 <= b <= 0x9F
    else if lead == 0xF0 then 0x90 <= b <= 0xBF
    else if lead == 0xF4 then 0x80 <= b <= 0x8F
    else IsTail(b)
  }

  /** The first `k` bytes of `buf` can begin the sequence its lead byte
      announces: no more than that length, the second byte in the range
      SecondOk allows, the bytes after it continuation bytes. */
  predicate ValidPrefix(buf: seq<byte>, k: nat)
    requires |buf| > 0
  {
    k <= SequenceLength(buf[0]) && k <= |buf| &&
    (k >= 2 ==> SecondOk(buf[0], buf[1])) &&
    forall i :: 2 <= i < k ==> IsTail(buf[i])
  }

  /** How many bytes at the head of `buf` form a valid prefix of the
      sequence its lead byte announces (the "maximal subpart"). */
  function PrefixLength(buf: seq<byte>): (m: nat)
    requires |buf| > 0 && SequenceLength(buf[0]) >= 2
    ensures 1 <= m <= SequenceLength(buf[0]) && m <= |buf|
    ensures ValidPrefix(buf, m)
    ensures m < SequenceLength(buf[0]) && m < |buf| ==> !ValidPrefix(buf, m + 1)
  {
    var n := SequenceLength(buf[0]);
    if |buf| < 2 || !SecondOk(buf[0], buf[1]) then 1
    else if n == 2 || |buf| < 3 || !IsTail(buf[2]) then 2
    else if n == 3 || |buf| < 4 || !IsTail(buf[3]) then 3
    else 4
  }

  /** The code point a well-formed 2, 3 or 4 byte sequence stands for. */
  function Value(buf: seq<byte>, n: nat): (v: int)
    requires 2 <= n <= 4 && n <= |buf|
  {
    if n == 2 then
      (buf[0] as int - 0xC0) * 0x40 + (buf[1] as int - 0x80)
    else if n == 3 then
      (buf[0] as int - 0xE0) * 0x1000 + (buf[1] as int - 0x80) * 0x40 + (buf[2] as int - 0x80)
    else
      (buf[0] as int - 0xF0) * 0x4_0000 + (buf[1] as int - 0x80) * 0x1000
        + (buf[2] as int - 0x80) * 0x40 + (buf[3] as int - 0x80)
  }

  /** One step of the decoder: a character, a maximal invalid subpart, or
      a buffer that ends inside a valid sequence. */
  function Scan(buf: seq<byte>): (r: Scanned)
    requires |buf| > 0
    ensures r.Char? || r.Invalid? ==> 1 <= r.len <= |buf|
    ensures r.Incomplete? ==> 2 <= |buf| + 1 <= SequenceLength(buf[0])
    // only a valid but unfinished prefix is held back
    ensures r.Incomplete? <==> |buf| < SequenceLength(buf[0]) && ValidPrefix(buf, |buf|)
    // a character is a complete sequence of the announced length
    ensures r.Char? ==> r.len == SequenceLength(buf[0]) && ValidPrefix(buf, r.len) && !IsSurrogate(r.cp)
    // an invalid run is a byte that starts nothing, or a maximal valid
    // prefix that the next byte breaks off
    ensures r.Invalid? ==>
      (SequenceLength(buf[0]) == 0 && r.len == 1) ||
      (r.len < SequenceLength(buf[0]) && r.len < |buf| && ValidPrefix(buf, r.len) && !ValidPrefix(buf, r.len + 1))
  {
    var lead := buf[0];
    var n := SequenceLength(lead);
    if lead < 0x80 then Char(lead as CodePoint, 1)
    else if n == 0 then Invalid(1)
    else
      var m := PrefixLength(buf);
      if m == n then
        var v := Value(buf, n);
        assert 0 <= v < 0x11_0000 && !(0xD800 <= v <= 0xDFFF);
        Char(v as CodePoint, n)
      else if m == |buf| then Incomplete
      else Invalid(m)
  }

  /** The standard encoding of a code point (section 3 of RFC 3629); a
      surrogate has none. */
  function Encode(c: CodePoint): (r: Option<seq<byte>>)
    ensures r.None? <==> IsSurrogate(c)
  {
    var v := c as int;
    if v < 0x80 then
      Some([c as byte])
    else if v < 0x800 then
      Some([(0xC0 + v / 0x40) as byte, (0x80 + v % 0x40) as byte])
    else if v < 0x1_0000 then
      if IsSurrogate(c) then None
      else Some([(0xE0 + v / 0x1000) as byte, (0x80 + v / 0x40 % 0x40) as byte, (0x80 + v % 0x40) as byte])
    else
      Some([(0xF0 + v / 0x4_0000) as byte, (0x80 + v / 0x1000 % 0x40) as byte,
            (0x80 + v / 0x40 % 0x40) as byte, (0x80 + v % 0x40) as byte])
  }

  /** Decoding reads back exactly the character that was encoded, whatever
      follows it. */
  lemma EncodeThenScan(c: CodePoint, rest: seq<byte>)
    requires !IsSurrogate(c)
    ensures Encode(c).Some?
    ensures Scan(Encode(c).value + rest) == Char(c, |Encode(c).value|)
  {
    var v := c as int;
    if v < 0x80 {
    } else if v < 0x800 {
      EncodeThenScan2(c, rest);
    } else if v < 0x1_0000 {
      EncodeThenScan3(c, rest);
    } else {
      EncodeThenScan4(c, rest);
    }
  }

  lemma EncodeThenScan2(c: CodePoint, rest: seq<byte>)
    requires 0x80 <= c < 0x800
    ensures Encode(c).Some? && Scan(Encode(c).value + rest) == Char(c, 2)
  {
    var v := c as int;
    var hi, lo := v / 0x40, v % 0x40;
    assert v == hi * 0x40 + lo && 2 <= hi < 0x20;
    var buf := Encode(c).value + rest;
    assert buf[0] == (0xC0 + hi) as byte && buf[1] == (0x80 + lo) as byte;
    assert PrefixLength(buf) == 2;
    assert Value(buf, 2) == v;
  }

  lemma EncodeThenScan3(c: CodePoint, rest: seq<byte>)
    requires 0x800 <= c < 0x1_0000 && !IsSurrogate(c)
    ensures Encode(c).Some? && Scan(Encode(c).value + rest) == Char(c, 3)
  {
    var b0, b1, b2 := Digits3(c as int);
    var e := [(0xE0 + b0) as byte, (0x80 + b1) as byte, (0x80 + b2) as byte];
    assert Encode(c) == Some(e);
    var buf := e + rest;
    assert buf[0] == e[0] && buf[1] == e[1] && buf[2] == e[2];
    assert PrefixLength(buf) == 3;
    assert Value(buf, 3) == c as int;
  }

  /** The three 6-bit-or-less groups of a code point below U+10000. */
  lemma Digits3(v: int) returns (b0: int, b1: int, b2: int)
    requires 0x800 <= v < 0x1_0000 && !(0xD800 <= v <= 0xDFFF)
    ensures b0 == v / 0x1000 && b1 == v / 0x40 % 0x40 && b2 == v % 0x40
    ensures v == b0 * 0x1000 + b1 * 0x40 + b2
    ensures 0 <= b0 < 0x10 && 0 <= b1 < 0x40 && 0 <= b2 < 0x40
    ensures b0 == 0 ==> b1 >= 0x20
    ensures b0 == 0xD ==> b1 < 0x20
  {
    var q := v / 0x40;
    b2 := v % 0x40;
    b0, b1 := q / 0x40, q % 0x40;
    DivideBy4096(v, b0, b1 * 0x40 + b2);
  }

  lemma EncodeThenScan4(c: CodePoint, rest: seq<byte>)
    requires 0x1_0000 <= c
    ensures Encode(c).Some? && Scan(Encode(c).value + rest) == Char(c, 4)
  {
    var b0, b1, b2, b3 := Digits4(c as int);
    var e := [(0xF0 + b0) as byte, (0x80 + b1) as byte, (0x80 + b2) as byte, (0x80 + b3) as byte];
    assert Encode(c) == Some(e);
    var buf := e + rest;
    assert buf[0] == e[0] && buf[1] == e[1] && buf[2] == e[2] && buf[3] == e[3];
    assert PrefixLength(buf) == 4;
    assert Value(buf, 4) == c as int;
  }

  /** The four groups of a code point from U+10000 on. */
  lemma Digits4(v: int) returns (b0: int, b1: int, b2: int, b3: int)
    requires 0x1_0000 <= v < 0x11_0000
    ensures b0 == v / 0x4_0000 && b1 == v / 0x1000 % 0x40 && b2 == v / 0x40 % 0x40 && b3 == v % 0x40
    ensures v == b0 * 0x4_0000 + b1 * 0x1000 + b2 * 0x40 + b3
    ensures 0 <= b0 <= 4 && 0 <= b1 < 0x40 && 0 <= b2 < 0x40 && 0 <= b3 < 0x40
    ensures b0 == 0 ==> b1 >= 0x10
    ensures b0 == 4 ==> b1 < 0x10
  {
    var q1 := v / 0x40;
    b3 := v % 0x40;
    var q2 := q1 / 0x40;
    b2 := q1 % 0x40;
    b0, b1 := q2 / 0x40, q2 % 0x40;
    DivideBy4096(v, q2, b2 * 0x40 + b3);
    DivideBy262144(v, b0, b1 * 0x1000 + b2 * 0x40 + b3);
  }

  /** Conversely the decoder accepts only shortest-form encodings: every
      character it reads was spelled exactly as Encode spells it. */
  lemma ScanOnlyAcceptsEncodings(buf: seq<byte>)
    requires |buf| > 0 && Scan(buf).Char?
    ensures Encode(Scan(buf).cp) == Some(buf[..Scan(buf).len])
  {
    var n := Scan(buf).len;
    if n == 1 {
      assert buf[..1] == [buf[0]];
    } else if n == 2 {
      assert buf[..2] == [buf[0], buf[1]];
      ReadBack2(buf[0], buf[1]);
    } else if n == 3 {
      assert buf[..3] == [buf[0], buf[1], buf[2]];
      ReadBack3(buf[0], buf[1], buf[2]);
    } else {
      assert buf[..4] == [buf[0], buf[1], buf[2], buf[3]];
      ReadBack4(buf[0], buf[1], buf[2], buf[3]);
    }
  }

  lemma ReadBack2(b0: byte, b1: byte)
    requires 0xC2 <= b0 <= 0xDF && IsTail(b1)
    ensures var v := Value([b0, b1], 2); 0x80 <= v < 0x800 && Encode(v as CodePoint) == Some([b0, b1])
  {
    var v := Value([b0, b1], 2);
    assert v / 0x40 == b0 as int - 0xC0 && v % 0x40 == b1 as int - 0x80;
  }

  lemma ReadBack3(b0: byte, b1: byte, b2: byte)
    requires 0xE0 <= b0 <= 0xEF && SecondOk(b0, b1) && IsTail(b2)
    ensures var v := Value([b0, b1, b2], 3);
      0x800 <= v < 0x1_0000 && !(0xD800 <= v <= 0xDFFF) && Encode(v as CodePoint) == Some([b0, b1, b2])
  {
    var v := Value([b0, b1, b2], 3);
    var hi := (b0 as int - 0xE0) * 0x40 + (b1 as int - 0x80);
    assert v == hi * 0x40 + (b2 as int - 0x80);
    DivideBy64(v, hi, b2 as int - 0x80);
    DivideBy64(hi, b0 as int - 0xE0, b1 as int - 0x80);
    DivideBy4096(v, b0 as int - 0xE0, (b1 as int - 0x80) * 0x40 + (b2 as int - 0x80));
  }

  lemma ReadBack4(b0: byte, b1: byte, b2: byte, b3: byte)
    requires 0xF0 <= b0 <= 0xF4 && SecondOk(b0, b1) && IsTail(b2) && IsTail(b3)
    ensures var v := Value([b0, b1, b2, b3], 4);
      0x1_0000 <= v < 0x11_0000 && Encode(v as CodePoint) == Some([b0, b1, b2, b3])
  {
    var v := Value([b0, b1, b2, b3], 4);
    var hi := (b0 as int - 0xF0) * 0x40 + (b1 as int - 0x80);
    var mid := hi * 0x40 + (b2 as int - 0x80);
    assert v == mid * 0x40 + (b3 as int - 0x80);
    DivideBy64(v, mid, b3 as int - 0x80);
    DivideBy64(mid, hi, b2 as int - 0x80);
    DivideBy64(hi, b0 as int - 0xF0, b1 as int - 0x80);
    DivideBy4096(v, hi, (b2 as int - 0x80) * 0x40 + (b3 as int - 0x80));
    DivideBy262144(v, b0 as int - 0xF0, (b1 as int - 0x80) * 0x1000 + (b2 as int - 0x80) * 0x40 + (b3 as int - 0x80));
  }

  lemma DivideBy64(x: int, q: int, r: int)
    requires x == q * 0x40 + r && 0 <= r < 0x40
    ensures x / 0x40 == q && x % 0x40 == r
  {
  }

  lemma DivideBy4096(x: int, q: int, r: int)
    requires x == q * 0x1000 + r && 0 <= r < 0x1000
    ensures x / 0x1000 == q && x % 0x1000 == r
  {
  }

  lemma DivideBy262144(x: int, q: int, r: int)
    requires x == q * 0x4_0000 + r && 0 <= r < 0x4_0000
    ensures x / 0x4_0000 == q && x % 0x4_0000 == r
  {
  }

  /** What Scan decides depends only on the bytes it has seen: unless the
      buffer ran out mid-sequence, more input does not change it. */
  lemma ScanIsLocal(buf: seq<byte>, more: seq<byte>)
    requires |buf| > 0 && !Scan(buf).Incomplete?
    ensures Scan(buf + more) == Scan(buf)
  {
    var ext := buf + more;
    assert ext[0] == buf[0];
    if SequenceLength(buf[0]) >= 2 {
      var m := PrefixLength(buf);
      assert forall i :: 0 <= i < |buf| ==> ext[i] == buf[i];
      assert PrefixLength(ext) == m;
      if m == SequenceLength(buf[0]) {
        assert Value(ext, m) == Value(buf, m);
      }
    }
  }
}
