/** Incremental decoding of a byte stream that arrives in arbitrary chunks:
    the behaviour of the host's incremental decoders for `gbk` and `utf-8`,
    written as an explicit state machine whose only state is the carry,
    the bytes of a character that has not finished arriving. */
module Stream {
  import opened Base
  import Utf8
  import Gbk

  datatype Encoding = GBK | UTF8

  /** The decoder's `errors` argument: `'ignore'` drops what cannot be
      decoded, `'replace'` puts U+FFFD in its place. */
  datatype Policy = Ignore | Replace

  /** The longest carry an encoding can need: one byte short of its
      longest character. */
  function MaxCarry(enc: Encoding): nat {
    match enc
    case UTF8 => 3
    case GBK => 1
  }

  function Scan(enc: Encoding, table: Gbk.DecodeTable, buf: seq<byte>): (r: Scanned)
    requires |buf| > 0
    ensures r.Char? || r.Invalid? ==> 1 <= r.len <= |buf|
    ensures r.Incomplete? ==> |buf| <= MaxCarry(enc)
  {
    match enc
    case UTF8 => Utf8.Scan(buf)
    case GBK => Gbk.Scan(table, buf)
  }

  lemma ScanIsLocal(enc: Encoding, table: Gbk.DecodeTable, buf: seq<byte>, more: seq<byte>)
    requires |buf| > 0 && !Scan(enc, table, buf).Incomplete?
    ensures Scan(enc, table, buf + more) == Scan(enc, table, buf)
  {
    match enc
    case UTF8 => Utf8.ScanIsLocal(buf, more);
    case GBK => Gbk.ScanIsLocal(table, buf, more);
  }

  /** The decoder of one encoding, seen by the streaming layer: what it
      finds at the head of a buffer. */
  type Scanner = seq<byte> -> Scanned

  function ScannerFor(enc: Encoding, table: Gbk.DecodeTable): Scanner {
    buf => if buf == [] then Incomplete else Scan(enc, table, buf)
  }

  /** Every decision consumes at least one byte and no more than it has. */
  ghost predicate Progresses(scan: Scanner) {
    forall buf :: |buf| > 0 && !scan(buf).Incomplete? ==> 1 <= scan(buf).len <= |buf|
  }

  /** A decision once taken is not revised by more input. */
  ghost predicate IsLocal(scan: Scanner) {
    forall buf, more {:trigger scan(buf + more)} :: |buf| > 0 && !scan(buf).Incomplete? ==> scan(buf + more) == scan(buf)
  }

  /** Only buffers shorter than the longest character can be unfinished. */
  ghost predicate Bounded(scan: Scanner, maxCarry: nat) {
    forall buf :: scan(buf).Incomplete? ==> |buf| <= maxCarry
  }

  lemma ScannerForIsSound(enc: Encoding, table: Gbk.DecodeTable)
    ensures Progresses(ScannerFor(enc, table))
    ensures IsLocal(ScannerFor(enc, table))
    ensures Bounded(ScannerFor(enc, table), MaxCarry(enc))
  {
    var scan := ScannerFor(enc, table);
    forall buf, more | |buf| > 0 && !scan(buf).Incomplete?
      ensures scan(buf + more) == scan(buf)
    {
      ScanIsLocal(enc, table, buf, more);
    }
  }

  /** What may be held between calls: nothing, or the unfinished but so far
      valid beginning of one character (never a decodable sequence). */
  predicate IsCarry(scan: Scanner, carry: seq<byte>) {
    carry == [] || scan(carry).Incomplete?
  }

  /** What the error policy emits for one undecodable run of bytes. */
  function Placeholder(policy: Policy): seq<CodePoint> {
    match policy
    case Ignore => []
    case Replace => [ReplacementChar]
  }

  datatype Decoded = Decoded(text: seq<CodePoint>, carry: seq<byte>)

  /** Decodes `buf` from its start. With `final` false, an unfinished
      character at the end is returned as the carry; with `final` true it is
      an error like any other and the carry is empty. */
  function Run(scan: Scanner, buf: seq<byte>, final: bool, policy: Policy): (r: Decoded)
    requires Progresses(scan)
    ensures IsCarry(scan, r.carry)
    ensures final ==> r.carry == []
    decreases |buf|
  {
    if buf == [] then Decoded([], [])
    else
      match scan(buf)
      case Char(c, n) =>
        var rest := Run(scan, buf[n..], final, policy);
        Decoded([c] + rest.text, rest.carry)
      case Invalid(n) =>
        var rest := Run(scan, buf[n..], final, policy);
        Decoded(Placeholder(policy) + rest.text, rest.carry)
      case Incomplete =>
        if final then Decoded(Placeholder(policy), []) else Decoded([], buf)
  }

  /** One step of Run on a buffer whose head is not an unfinished character. */
  lemma RunStep(scan: Scanner, buf: seq<byte>, final: bool, policy: Policy)
    requires Progresses(scan) && |buf| > 0 && !scan(buf).Incomplete?
    ensures var s := scan(buf);
      var rest := Run(scan, buf[s.len..], final, policy);
      Run(scan, buf, final, policy)
        == Decoded((if s.Char? then [s.cp] else Placeholder(policy)) + rest.text, rest.carry)
  {
  }

  /** Feeding the stream in two chunks, the second behind whatever the first
      left in the carry, gives the same text and the same final carry as
      feeding it in one. */
  lemma {:induction false} ChunkSplit(scan: Scanner, b1: seq<byte>, b2: seq<byte>, final: bool, policy: Policy)
    requires Progresses(scan) && IsLocal(scan)
    ensures SplitAgrees(scan, b1, b2, final, policy)
    decreases |b1|
  {
    if b1 == [] {
      assert b1 + b2 == b2;
    } else if !scan(b1).Incomplete? {
      ChunkSplit(scan, b1[scan(b1).len..], b2, final, policy);
      ChunkSplitStep(scan, b1, b2, final, policy);
    }
  }

  /** Decoding `b1` then `b2` agrees with decoding `b1 + b2`. */
  ghost predicate SplitAgrees(scan: Scanner, b1: seq<byte>, b2: seq<byte>, final: bool, policy: Policy)
    requires Progresses(scan)
  {
    var first := Run(scan, b1, false, policy);
    var second := Run(scan, first.carry + b2, final, policy);
    Run(scan, b1 + b2, final, policy) == Decoded(first.text + second.text, second.carry)
  }

  lemma ChunkSplitStep(scan: Scanner, b1: seq<byte>, b2: seq<byte>, final: bool, policy: Policy)
    requires Progresses(scan) && IsLocal(scan)
    requires |b1| > 0 && !scan(b1).Incomplete?
    requires SplitAgrees(scan, b1[scan(b1).len..], b2, final, policy)
    ensures SplitAgrees(scan, b1, b2, final, policy)
  {
    var s := scan(b1);
    var tail := b1[s.len..];
    assert scan(b1 + b2) == s;
    assert (b1 + b2)[s.len..] == tail + b2;
    var head := if s.Char? then [s.cp] else Placeholder(policy);
    var firstTail := Run(scan, tail, false, policy);
    var second := Run(scan, firstTail.carry + b2, final, policy);
    var whole := Run(scan, tail + b2, final, policy);
    assert whole == Decoded(firstTail.text + second.text, second.carry);
    RunStep(scan, b1, false, policy);
    var first := Run(scan, b1, false, policy);
    assert first == Decoded(head + firstTail.text, firstTail.carry);
    RunStep(scan, b1 + b2, final, policy);
    assert Run(scan, b1 + b2, final, policy) == Decoded(head + whole.text, whole.carry);
    AppendIsAssociative(head, firstTail.text, second.text);
  }

  /** The carry never outgrows the longest unfinished character. */
  lemma CarryIsBounded(scan: Scanner, maxCarry: nat, buf: seq<byte>, final: bool, policy: Policy)
    requires Progresses(scan) && Bounded(scan, maxCarry)
    ensures |Run(scan, buf, final, policy).carry| <= maxCarry
  {
    var carry := Run(scan, buf, final, policy).carry;
    if carry != [] {
      assert scan(carry).Incomplete?;
    }
  }

  /** What is carried is the last bytes of the input, kept as they came. */
  lemma {:induction false} CarryIsInputTail(scan: Scanner, buf: seq<byte>, final: bool, policy: Policy)
    requires Progresses(scan)
    ensures var carry := Run(scan, buf, final, policy).carry;
      |carry| <= |buf| && carry == buf[|buf| - |carry|..]
    decreases |buf|
  {
    if buf != [] {
      var s := scan(buf);
      if !s.Incomplete? {
        var tail := buf[s.len..];
        CarryIsInputTail(scan, tail, final, policy);
        var carry := Run(scan, tail, final, policy).carry;
        RunStep(scan, buf, final, policy);
        assert tail[|tail| - |carry|..] == buf[|buf| - |carry|..];
      }
    }
  }

  /** "测试" in UTF-8 is E6 B5 8B E8 AF 95. Split after its fourth byte, the
      first chunk yields only U+6D4B and holds E8 back; the second chunk
      completes U+8BD5. */
  lemma TornCharacterExample(table: Gbk.DecodeTable)
    ensures Progresses(ScannerFor(UTF8, table))
    ensures Run(ScannerFor(UTF8, table), [0xE6, 0xB5, 0x8B, 0xE8], false, Ignore) == Decoded([0x6D4B], [0xE8])
    ensures Run(ScannerFor(UTF8, table), [0xE8] + [0xAF, 0x95], false, Ignore) == Decoded([0x8BD5], [])
  {
    var scan := ScannerFor(UTF8, table);
    ScannerForIsSound(UTF8, table);
    var first: seq<byte> := [0xE6, 0xB5, 0x8B, 0xE8];
    assert Utf8.PrefixLength(first) == 3;
    assert scan(first) == Char(0x6D4B, 3);
    assert first[3..] == [0xE8];
    assert scan([0xE8]) == Incomplete;
    var second: seq<byte> := [0xE8] + [0xAF, 0x95];
    assert second == [0xE8, 0xAF, 0x95];
    assert Utf8.PrefixLength(second) == 3;
    assert scan(second) == Char(0x8BD5, 3);
    assert second[3..] == [];
  }

  /** Under `'ignore'`, ending the stream adds no text: the bytes a final
      call drops are exactly those a non-final call would carry. */
  lemma {:induction false} FinalAddsNothingUnderIgnore(scan: Scanner, buf: seq<byte>)
    requires Progresses(scan)
    ensures Run(scan, buf, true, Ignore).text == Run(scan, buf, false, Ignore).text
    decreases |buf|
  {
    if buf != [] {
      var s := scan(buf);
      if !s.Incomplete? {
        FinalAddsNothingUnderIgnore(scan, buf[s.len..]);
      }
    }
  }

  /** The text with every U+FFFD taken out. */
  function WithoutPlaceholders(text: seq<CodePoint>): (r: seq<CodePoint>)
    ensures ReplacementChar !in r
  {
    if text == [] then []
    else (if text[0] == ReplacementChar then [] else [text[0]]) + WithoutPlaceholders(text[1..])
  }

  lemma {:induction false} WithoutPlaceholdersAppend(a: seq<CodePoint>, b: seq<CodePoint>)
    ensures WithoutPlaceholders(a + b) == WithoutPlaceholders(a) + WithoutPlaceholders(b)
  {
    if a == [] {
      assert a + b == b;
    } else {
      assert (a + b)[0] == a[0] && (a + b)[1..] == a[1..] + b;
      WithoutPlaceholdersAppend(a[1..], b);
      var h := if a[0] == ReplacementChar then [] else [a[0]];
      assert WithoutPlaceholders(a + b) == h + WithoutPlaceholders(a[1..] + b);
      assert h + (WithoutPlaceholders(a[1..]) + WithoutPlaceholders(b))
          == (h + WithoutPlaceholders(a[1..])) + WithoutPlaceholders(b);
    }
  }

  /** The two error policies differ only in the placeholders: `'replace'`
      and `'ignore'` decode the same characters and carry the same bytes. */
  lemma {:induction false} PoliciesDifferOnlyInPlaceholders(scan: Scanner, buf: seq<byte>, final: bool)
    requires Progresses(scan)
    ensures WithoutPlaceholders(Run(scan, buf, final, Replace).text)
         == WithoutPlaceholders(Run(scan, buf, final, Ignore).text)
    ensures Run(scan, buf, final, Replace).carry == Run(scan, buf, final, Ignore).carry
    decreases |buf|
  {
    if buf != [] {
      var s := scan(buf);
      if !s.Incomplete? {
        var rep := Run(scan, buf[s.len..], final, Replace);
        var ign := Run(scan, buf[s.len..], final, Ignore);
        PoliciesDifferOnlyInPlaceholders(scan, buf[s.len..], final);
        if s.Char? {
          WithoutPlaceholdersAppend([s.cp], rep.text);
          WithoutPlaceholdersAppend([s.cp], ign.text);
        } else {
          WithoutPlaceholdersAppend([ReplacementChar], rep.text);
          assert Run(scan, buf, final, Ignore).text == ign.text;
        }
      } else if final {
        assert WithoutPlaceholders([ReplacementChar]) == [];
      }
    }
  }
}
