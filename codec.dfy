/** The encoding handler of the serial terminal: a stateful incremental
    decoder for received bytes, and the encoder for text to be sent. */
module Codec {
  import opened Base
  import Utf8
  import Gbk
  import opened Stream

  /** The codec an encoding name selects. The model knows only the names
      the application passes: the handler is given "gbk" and "utf8" (the
      receive-coding labels, normalised), and `text_to_bytes` "gbk" and
      "utf-8" (the send-coding labels, lower-cased). The host's registry
      also accepts other spellings and aliases, and raises for unknown
      names; neither is modelled. */
  function EncodingNamed(name: string): (r: Option<Encoding>)
    // the names the model knows are all lower case
    ensures r.Some? ==> Lower(name) == name
    // both spellings of UTF-8 become the same name once dashes are removed
    ensures r == Some(UTF8) ==> NormalisedLabel(name) == "utf8"
    ensures r == Some(GBK) ==> NormalisedLabel(name) == "gbk"
  {
    LowerCaseNames();
    if name == "gbk" then Some(GBK)
    else if name == "utf8" || name == "utf-8" then Some(UTF8)
    else None
  }

  /** How a receive-coding label becomes the handler's encoding name:
      lower-cased, dashes removed. */
  function NormalisedLabel(shown: string): (r: string)
    ensures '-' !in r && |r| <= |shown|
    ensures forall c :: c in r ==> c in Lower(shown)
  {
    if shown == [] then []
    else (if shown[0] == '-' then [] else [ToLower(shown[0])]) + NormalisedLabel(shown[1..])
  }

  /** Normalising works character by character and keeps the order:
      `replace` removes every dash, wherever it is. */
  lemma {:induction false} NormalisedLabelAppend(a: string, b: string)
    ensures NormalisedLabel(a + b) == NormalisedLabel(a) + NormalisedLabel(b)
    decreases |a|
  {
    if a == [] {
      assert a + b == b;
    } else {
      assert (a + b)[0] == a[0] && (a + b)[1..] == a[1..] + b;
      NormalisedLabelAppend(a[1..], b);
      var h := if a[0] == '-' then [] else [ToLower(a[0])];
      AppendIsAssociative(h, NormalisedLabel(a[1..]), NormalisedLabel(b));
    }
  }

  /** A label without dashes is only lower-cased: nothing is dropped. */
  lemma {:induction false} NormalisedLabelWithoutDashes(shown: string)
    requires '-' !in shown
    ensures NormalisedLabel(shown) == Lower(shown)
    decreases |shown|
  {
    if shown != [] {
      assert forall c :: c in shown[1..] ==> c in shown;
      NormalisedLabelWithoutDashes(shown[1..]);
      assert Lower(shown) == [ToLower(shown[0])] + Lower(shown[1..]);
    }
  }

  /** The codec names are already lower case, and normalise to the
      dash-free spelling. */
  lemma LowerCaseNames()
    ensures Lower("gbk") == "gbk" && Lower("utf8") == "utf8" && Lower("utf-8") == "utf-8"
    ensures NormalisedLabel("gbk") == "gbk" && NormalisedLabel("utf8") == "utf8"
    ensures NormalisedLabel("utf-8") == "utf8"
  {
    LowerGbk();
    LowerUtf8();
    LowerUtfDash8();
  }

  lemma LowerGbk()
    ensures Lower("gbk") == "gbk" && NormalisedLabel("gbk") == "gbk"
  {
    NormalisedLabelWithoutDashes("gbk");
  }

  lemma LowerUtf8()
    ensures Lower("utf8") == "utf8" && NormalisedLabel("utf8") == "utf8"
  {
    NormalisedLabelWithoutDashes("utf8");
  }

  lemma LowerUtfDash8()
    ensures Lower("utf-8") == "utf-8" && NormalisedLabel("utf-8") == "utf8"
  {
    var t1 := ['8'] + [];
    NormalisedCons('8', []);
    var t2 := ['-'] + t1;
    NormalisedCons('-', t1);
    var t3 := ['f'] + t2;
    NormalisedCons('f', t2);
    var t4 := ['t'] + t3;
    NormalisedCons('t', t3);
    var t5 := ['u'] + t4;
    NormalisedCons('u', t4);
    assert t5 == "utf-8";
  }

  /** Both labels the receive-coding box offers name a codec. */
  lemma LabelsSelectCodecs()
    ensures EncodingNamed(NormalisedLabel("GBK")) == Some(GBK)
    ensures EncodingNamed(NormalisedLabel("UTF-8")) == Some(UTF8)
    ensures EncodingNamed(Lower("GBK")) == Some(GBK)
    ensures EncodingNamed(Lower("UTF-8")) == Some(UTF8)
  {
    NormalisedGbk();
    NormalisedUtf8();
    assert Lower("GBK") == "gbk";
    assert Lower("UTF-8") == "utf-8";
  }

  lemma NormalisedGbk()
    ensures NormalisedLabel("GBK") == "gbk"
  {
    var t1 := ['K'] + [];
    NormalisedCons('K', []);
    var t2 := ['B'] + t1;
    NormalisedCons('B', t1);
    var t3 := ['G'] + t2;
    NormalisedCons('G', t2);
    assert t3 == "GBK";
  }

  lemma NormalisedUtf8()
    ensures NormalisedLabel("UTF-8") == "utf8"
  {
    var t1 := ['8'] + [];
    NormalisedCons('8', []);
    var t2 := ['-'] + t1;
    NormalisedCons('-', t1);
    var t3 := ['F'] + t2;
    NormalisedCons('F', t2);
    var t4 := ['T'] + t3;
    NormalisedCons('T', t3);
    var t5 := ['U'] + t4;
    NormalisedCons('U', t4);
    assert t5 == "UTF-8";
  }

  lemma NormalisedCons(c: char, s: string)
    ensures NormalisedLabel([c] + s) == (if c == '-' then [] else [ToLower(c)]) + NormalisedLabel(s)
  {
    assert ([c] + s)[1..] == s;
  }

  /** Converts received bytes to text, holding back a character that a
      chunk boundary has split until the rest of it arrives. */
  class EncodingHandler {
    /** The current encoding name, lower-cased; the `encoding` property. */
    var encoding: string
    /** The decoder's state: bytes of a character that has not finished arriving. */
    var carry: seq<byte>
    /** The host's GBK table. */
    const table: Gbk.DecodeTable

    /** Bytes fed to the current decoder since the last reset or the last
        call with `final`. */
    ghost var fed: seq<byte>
    /** Text the current decoder has returned for them. */
    ghost var emitted: seq<CodePoint>

    function Scanner(): Scanner
      reads this
      requires EncodingNamed(encoding).Some?
    {
      ScannerFor(EncodingNamed(encoding).value, table)
    }

    /** The encoding names a codec, and the text returned so far together
        with the carry is what decoding everything fed in one call gives. */
    ghost predicate Valid()
      reads this
    {
      EncodingNamed(encoding).Some? &&
      Progresses(Scanner()) &&
      Run(Scanner(), fed, false, Ignore) == Decoded(emitted, carry)
    }

    constructor (encoding: string, table: Gbk.DecodeTable)
      requires EncodingNamed(Lower(encoding)).Some?
      ensures Valid()
      ensures this.encoding == Lower(encoding) && this.table == table
      ensures carry == [] && fed == [] && emitted == []
    {
      this.encoding := Lower(encoding);
      this.table := table;
      carry := [];
      fed := [];
      emitted := [];
      new;
      ScannerForIsSound(EncodingNamed(this.encoding).value, table);
    }

    /** The `encoding` setter: a name that differs once lower-cased
        replaces the decoder, the same name leaves everything as it was. */
    method SetEncoding(value: string)
      requires Valid()
      requires EncodingNamed(Lower(value)).Some?
      modifies this
      ensures Valid()
      ensures encoding == Lower(value)
      ensures Lower(value) != old(encoding) ==> carry == [] && fed == [] && emitted == []
      ensures Lower(value) == old(encoding) ==>
        carry == old(carry) && fed == old(fed) && emitted == old(emitted)
    {
      var newEncoding := Lower(value);
      if newEncoding != encoding {
        encoding := newEncoding;
        Reset();
      }
    }

    /** Replaces the decoder by a fresh one: held bytes are discarded. */
    method Reset()
      requires EncodingNamed(encoding).Some?
      modifies this
      ensures Valid()
      ensures encoding == old(encoding)
      ensures carry == [] && fed == [] && emitted == []
    {
      carry := [];
      fed := [];
      emitted := [];
      ScannerForIsSound(EncodingNamed(encoding).value, table);
    }

    /** Decodes one chunk behind the carried bytes with the `'ignore'`
        policy. Text split anywhere into chunks comes out as if it had been
        decoded in one piece; a final call leaves nothing held back. */
    method Decode(data: seq<byte>, final: bool) returns (text: seq<CodePoint>)
      requires Valid()
      modifies this
      ensures Valid()
      ensures encoding == old(encoding)
      ensures Decoded(text, carry) == Run(Scanner(), old(carry) + data, final, Ignore)
      ensures old(emitted) + text == Run(Scanner(), old(fed) + data, final, Ignore).text
      ensures final ==> carry == [] && fed == [] && emitted == []
      ensures !final ==> fed == old(fed) + data && emitted == old(emitted) + text
      ensures |carry| <= MaxCarry(EncodingNamed(encoding).value)
    {
      var scan := Scanner();
      ScannerForIsSound(EncodingNamed(encoding).value, table);
      CarryIsBounded(scan, MaxCarry(EncodingNamed(encoding).value), carry + data, final, Ignore);
      var r := Run(scan, carry + data, final, Ignore);
      ChunkSplit(scan, fed, data, final, Ignore);
      text := r.text;
      if final {
        carry := [];
        fed := [];
        emitted := [];
      } else {
        carry := r.carry;
        fed := fed + data;
        emitted := emitted + text;
      }
    }

    /** What `decode` does if the streaming decoder faults: it resets and
        decodes the chunk on its own with the `'replace'` policy. */
    method DecodeFallback(data: seq<byte>) returns (text: seq<CodePoint>)
      requires Valid()
      modifies this
      ensures Valid()
      ensures encoding == old(encoding)
      ensures carry == [] && fed == [] && emitted == []
      ensures text == Run(Scanner(), data, true, Replace).text
      ensures WithoutPlaceholders(text) == WithoutPlaceholders(Run(Scanner(), data, true, Ignore).text)
    {
      Reset();
      text := Run(Scanner(), data, true, Replace).text;
      PoliciesDifferOnlyInPlaceholders(Scanner(), data, true);
    }
  }

  /** The window's reaction to a new receive-coding label: the normalised
      label becomes the handler's encoding, and the decoder is then reset
      whether or not the name changed. */
  method ReceiveCodingChanged(handler: EncodingHandler, shown: string)
    requires handler.Valid()
    requires EncodingNamed(Lower(NormalisedLabel(shown))).Some?
    modifies handler
    ensures handler.Valid()
    ensures handler.encoding == Lower(NormalisedLabel(shown))
    ensures handler.carry == [] && handler.fed == [] && handler.emitted == []
  {
    handler.SetEncoding(NormalisedLabel(shown));
    handler.Reset();
  }

  /** The encoding of one character; None if the codec cannot encode it. */
  function EncodeChar(enc: Encoding, table: Gbk.EncodeTable, c: CodePoint): Option<seq<byte>> {
    match enc
    case UTF8 => Utf8.Encode(c)
    case GBK => Gbk.Encode(table, c)
  }

  /** `text.encode(name)`: fails if any character cannot be encoded. */
  function EncodeStrict(enc: Encoding, table: Gbk.EncodeTable, text: seq<CodePoint>): (r: Option<seq<byte>>)
    ensures r.None? <==> exists i :: 0 <= i < |text| && EncodeChar(enc, table, text[i]).None?
  {
    if text == [] then Some([])
    else
      match EncodeChar(enc, table, text[0])
      case None => None
      case Some(head) =>
        match EncodeStrict(enc, table, text[1..])
        case None => None
        case Some(tail) => Some(head + tail)
  }

  /** `text.encode(name, errors='replace')`: each character that cannot be
      encoded becomes the byte `?`. */
  function EncodeReplace(enc: Encoding, table: Gbk.EncodeTable, text: seq<CodePoint>): (r: seq<byte>)
    ensures |r| >= |text|
  {
    if text == [] then []
    else
      (match EncodeChar(enc, table, text[0])
       case Some(head) => head
       case None => [QuestionMark])
      + EncodeReplace(enc, table, text[1..])
  }

  /** `text_to_bytes`: the strict encoding, or the replacing one if the
      strict one fails. */
  function TextToBytes(text: seq<CodePoint>, encoding: string, table: Gbk.EncodeTable): (r: seq<byte>)
    requires EncodingNamed(Lower(encoding)).Some?
    // never fails: the strict and the replacing encoding agree where both exist
    ensures r == EncodeReplace(EncodingNamed(Lower(encoding)).value, table, text)
  {
    var enc := EncodingNamed(Lower(encoding)).value;
    StrictAgreesWithReplace(enc, table, text);
    match EncodeStrict(enc, table, text)
    case Some(bytes) => bytes
    case None => EncodeReplace(enc, table, text)
  }

  /** Where the strict encoding succeeds the replacing one gives the same
      bytes. */
  lemma {:induction false} StrictAgreesWithReplace(enc: Encoding, table: Gbk.EncodeTable, text: seq<CodePoint>)
    ensures EncodeStrict(enc, table, text).Some? ==> EncodeStrict(enc, table, text).value == EncodeReplace(enc, table, text)
    decreases |text|
  {
    if text != [] {
      StrictAgreesWithReplace(enc, table, text[1..]);
    }
  }

  /** The text as it survives encoding: characters the codec cannot encode
      turn into `?`. */
  function Substituted(enc: Encoding, table: Gbk.EncodeTable, text: seq<CodePoint>): (r: seq<CodePoint>)
    ensures |r| == |text|
  {
    if text == [] then []
    else
      [if EncodeChar(enc, table, text[0]).Some? then text[0] else QuestionMark as CodePoint]
      + Substituted(enc, table, text[1..])
  }

  /** The decoder reads back what the encoder wrote. */
  ghost predicate TablesAgree(enc: Encoding, encTable: Gbk.EncodeTable, decTable: Gbk.DecodeTable) {
    enc == GBK ==> Gbk.Agree(encTable, decTable)
  }

  /** Decoding the bytes `text_to_bytes` produces gives back the text, with
      `?` where a character could not be encoded, and holds nothing back.
      For UTF-8 this pins the bytes down to the standard encoding of each
      encodable code point and a single `?` for each surrogate. */
  lemma {:induction false} DecodeOfEncode(enc: Encoding, encTable: Gbk.EncodeTable, decTable: Gbk.DecodeTable,
                                          text: seq<CodePoint>, final: bool, policy: Policy)
    requires TablesAgree(enc, encTable, decTable)
    ensures Progresses(ScannerFor(enc, decTable))
    ensures Run(ScannerFor(enc, decTable), EncodeReplace(enc, encTable, text), final, policy)
         == Decoded(Substituted(enc, encTable, text), [])
    decreases |text|
  {
    var scan := ScannerFor(enc, decTable);
    ScannerForIsSound(enc, decTable);
    if text != [] {
      DecodeOfEncode(enc, encTable, decTable, text[1..], final, policy);
      var c := text[0];
      var written := if EncodeChar(enc, encTable, c).Some? then c else QuestionMark as CodePoint;
      var head := EncodeChar(enc, encTable, written).value;
      var rest := EncodeReplace(enc, encTable, text[1..]);
      assert EncodeReplace(enc, encTable, text) == head + rest;
      ScanEncoded(enc, encTable, decTable, written, rest);
      assert (head + rest)[|head|..] == rest;
      RunStep(scan, head + rest, final, policy);
    }
  }

  /** The scanner reads one encoded character back, whatever follows. */
  lemma ScanEncoded(enc: Encoding, encTable: Gbk.EncodeTable, decTable: Gbk.DecodeTable, c: CodePoint, rest: seq<byte>)
    requires TablesAgree(enc, encTable, decTable) && EncodeChar(enc, encTable, c).Some?
    ensures var e := EncodeChar(enc, encTable, c).value;
      |e| > 0 && ScannerFor(enc, decTable)(e + rest) == Char(c, |e|)
  {
    match enc
    case UTF8 => Utf8.EncodeThenScan(c, rest);
    case GBK => Gbk.EncodeThenScan(encTable, decTable, c, rest);
  }
}
