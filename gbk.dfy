/** The byte structure of GBK. Which character a byte pair stands for is
    the host codec's table; the model takes both directions of that table
    as parameters and fixes only the structure around them: ASCII bytes
    stand for themselves, a lead byte 81-FE is followed by a trail byte
    40-FE other than 7F. */
module Gbk {
  import opened Base

  /** The host's pair-to-character table (None: no character). */
  type DecodeTable = (byte, byte) -> Option<CodePoint>

  /** The host's character-to-pair table (None: not encodable). */
  type EncodeTable = CodePoint -> Option<(byte, byte)>

  predicate IsLead(b: byte) {
    0x81 <= b <= 0xFE
  }

  predicate IsTrail(b: byte) {
    0x40 <= b <= 0xFE && b != 0x7F
  }

  /** The table, consulted only for structurally valid pairs. */
  function Lookup(table: DecodeTable, lead: byte, trail: byte): (r: Option<CodePoint>)
    ensures r.Some? ==> IsLead(lead) && IsTrail(trail)
  {
    if IsLead(lead) && IsTrail(trail) then table(lead, trail) else None
  }

  /** One step of the decoder. As in the host's multibyte decoder, a pair
      the table does not know rejects only its lead byte; the byte after it
      is examined afresh. */
  function Scan(table: DecodeTable, buf: seq<byte>): (r: Scanned)
    requires |buf| > 0
    ensures r.Char? || r.Invalid? ==> 1 <= r.len <= |buf| && r.len <= 2
    ensures r.Invalid? ==> r.len == 1
    ensures r.Incomplete? <==> |buf| == 1 && IsLead(buf[0])
    ensures r.Char? && r.len == 1 <==> buf[0] < 0x80
    ensures r.Char? && r.len == 1 ==> r.cp as int == buf[0] as int
    // a pair is a character exactly when the table gives one for it
    ensures r.Char? && r.len == 2 ==> Lookup(table, buf[0], buf[1]) == Some(r.cp)
    ensures |buf| >= 2 && Lookup(table, buf[0], buf[1]).Some? ==> r == Char(Lookup(table, buf[0], buf[1]).value, 2)
    ensures |buf| >= 2 && IsLead(buf[0]) && Lookup(table, buf[0], buf[1]).None? ==> r == Invalid(1)
  {
    var lead := buf[0];
    if lead < 0x80 then Char(lead as CodePoint, 1)
    else if !IsLead(lead) then Invalid(1)
    else if |buf| == 1 then Incomplete
    else
      match Lookup(table, lead, buf[1])
      case Some(c) => Char(c, 2)
      case None => Invalid(1)
  }

  /** The encoding of one character: ASCII as itself, anything else through
      the table, provided the table gives a well-formed pair. */
  function Encode(table: EncodeTable, c: CodePoint): (r: Option<seq<byte>>)
    ensures c < 0x80 ==> r == Some([c as byte])
    ensures r.Some? && c >= 0x80 ==> |r.value| == 2 && IsLead(r.value[0]) && IsTrail(r.value[1])
    // any other character is written as the table's pair, exactly when the
    // table gives a well-formed one
    ensures c >= 0x80 && r.Some? ==> table(c) == Some((r.value[0], r.value[1]))
    ensures c >= 0x80 && table(c).Some? && IsLead(table(c).value.0) && IsTrail(table(c).value.1) ==> r.Some?
  {
    if c < 0x80 then Some([c as byte])
    else
      match table(c)
      case Some((lead, trail)) =>
        if IsLead(lead) && IsTrail(trail) then Some([lead, trail]) else None
      case None => None
  }

  /** The two directions of the host table agree: a pair the encoder writes
      is read back as the same character. */
  ghost predicate Agree(enc: EncodeTable, dec: DecodeTable) {
    forall c: CodePoint :: Encode(enc, c).Some? && c >= 0x80 ==>
      dec(Encode(enc, c).value[0], Encode(enc, c).value[1]) == Some(c)
  }

  /** Decoding reads back the character that was encoded, whatever follows. */
  lemma EncodeThenScan(enc: EncodeTable, dec: DecodeTable, c: CodePoint, rest: seq<byte>)
    requires Agree(enc, dec) && Encode(enc, c).Some?
    ensures Scan(dec, Encode(enc, c).value + rest) == Char(c, |Encode(enc, c).value|)
  {
    var e := Encode(enc, c).value;
    var buf := e + rest;
    assert buf[0] == e[0];
    if c >= 0x80 {
      assert buf[1] == e[1];
    }
  }

  /** Unless the buffer ended on a lead byte, more input does not change
      what Scan decides. */
  lemma ScanIsLocal(table: DecodeTable, buf: seq<byte>, more: seq<byte>)
    requires |buf| > 0 && !Scan(table, buf).Incomplete?
    ensures Scan(table, buf + more) == Scan(table, buf)
  {
    var ext := buf + more;
    assert ext[0] == buf[0];
    if |buf| >= 2 {
      assert ext[1] == buf[1];
    }
  }
}
