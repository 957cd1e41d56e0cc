/**
 * The wire format of the Redis serialisation protocol (RESP) as seen from the
 * other end of the connection: reading the simple-string and bulk-string
 * replies the server writes, and laying out a request as an array of bulk
 * strings.
 */
module Resp {
  import opened Wrappers
  import Text
  import Split
  import Utf8

  type byte = Utf8.byte

  /** CR LF, the end of every RESP line, as text and as the bytes it is written as. */
  const Crlf: string := "\r\n"
  const CrlfBytes: seq<byte> := [13, 10]

  predicate IsDigitByte(b: byte) {
    48 <= b <= 57
  }

  predicate AllDigitBytes(ds: seq<byte>) {
    forall i :: 0 <= i < |ds| ==> IsDigitByte(ds[i])
  }

  function DigitBytesValue(ds: seq<byte>): nat
    requires AllDigitBytes(ds)
  {
    if ds == [] then 0
    else
      assert IsDigitByte(ds[|ds| - 1]);
      DigitBytesValue(ds[..|ds| - 1]) * 10 + (ds[|ds| - 1] - 48)
  }

  /** Reads a complete simple-string reply `+<text>\r\n`, giving its text. */
  function DecodeSimple(bs: seq<byte>): Option<seq<byte>> {
    if |bs| == 0 || bs[0] != 43 then None
    else
      var i := Split.IndexFrom(bs, CrlfBytes, 1);
      if i < 0 || i != |bs| - 2 then None else Some(bs[1..i])
  }

  /** Reads a complete bulk-string reply `$<len>\r\n<len bytes>\r\n`, giving its payload. */
  function DecodeBulk(bs: seq<byte>): Option<seq<byte>> {
    if |bs| == 0 || bs[0] != 36 then None
    else
      var i := Split.IndexFrom(bs, CrlfBytes, 1);
      if i < 0 then None
      else
        var digits := bs[1..i];
        if digits == [] || !AllDigitBytes(digits) then None
        else
          var n := DigitBytesValue(digits);
          var rest := bs[i + 2..];
          if |rest| != n + 2 || rest[n..] != CrlfBytes then None
          else Some(rest[..n])
  }

  /** A line of text with no CR in it reads back as a simple string. */
  lemma SimpleRoundTrip(text: seq<byte>)
    requires 13 !in text
    ensures DecodeSimple([43] + text + CrlfBytes) == Some(text)
  {
    var bs := [43] + text + CrlfBytes;
    assert bs[0] == 43;
    forall j | 1 <= j < |bs| - 2 ensures !Split.Occurs(bs, CrlfBytes, j) {
      assert bs[j] == text[j - 1];
    }
    assert bs[|bs| - 2..] == CrlfBytes;
    Split.IndexFromFinds(bs, CrlfBytes, 1, |bs| - 2);
    assert bs[1..|bs| - 2] == text;
  }

  /** The bytes of a rendered number are digit bytes of the same value. */
  lemma {:induction false} DecimalBytes(s: string)
    requires forall i :: 0 <= i < |s| ==> Text.IsDigit(s[i])
    ensures AllDigitBytes(Utf8.Encode(s))
    ensures DigitBytesValue(Utf8.Encode(s)) == Text.DigitsValue(s)
    decreases |s|
  {
    Utf8.EncodeAscii(s);
    if s != [] {
      var init := s[..|s| - 1];
      Utf8.EncodeAscii(init);
      assert Utf8.Encode(s)[..|s| - 1] == Utf8.Encode(init);
      DecimalBytes(init);
    }
  }

  /** The first CR LF after a run of digits is the one right after them. */
  lemma HeaderEnd(lead: byte, digits: seq<byte>, tail: seq<byte>)
    requires AllDigitBytes(digits)
    ensures Split.IndexFrom([lead] + digits + CrlfBytes + tail, CrlfBytes, 1) == 1 + |digits|
  {
    var bs := [lead] + digits + CrlfBytes + tail;
    var i := 1 + |digits|;
    forall j | 1 <= j < i ensures !Split.Occurs(bs, CrlfBytes, j) {
      assert bs[j] == digits[j - 1];
    }
    assert bs[i..i + 2] == CrlfBytes;
    Split.IndexFromFinds(bs, CrlfBytes, 1, i);
  }

  /**
   * A payload framed as `$`, its length in decimal, CR LF, the payload and
   * CR LF reads back as that payload.
   */
  lemma {:induction false} BulkRoundTrip(payload: seq<byte>)
    ensures var digits := Utf8.Encode(Text.Decimal(|payload|));
      DecodeBulk([36] + digits + CrlfBytes + payload + CrlfBytes) == Some(payload)
  {
    var n := |payload|;
    Text.DecimalValue(n);
    DecimalBytes(Text.Decimal(n));
    FrameRoundTrip(Utf8.Encode(Text.Decimal(n)), payload);
  }

  /** A bulk frame whose digits spell the payload's length reads back as the payload. */
  lemma FrameRoundTrip(digits: seq<byte>, payload: seq<byte>)
    requires digits != [] && AllDigitBytes(digits) && DigitBytesValue(digits) == |payload|
    ensures DecodeBulk([36] + digits + CrlfBytes + payload + CrlfBytes) == Some(payload)
  {
    var bs := [36] + digits + CrlfBytes + (payload + CrlfBytes);
    assert bs == [36] + digits + CrlfBytes + payload + CrlfBytes;
    HeaderEnd(36, digits, payload + CrlfBytes);
    var i := 1 + |digits|;
    assert bs[0] == 36;
    assert bs[1..i] == digits;
    var rest := bs[i + 2..];
    assert rest == payload + CrlfBytes;
    assert rest[|payload|..] == CrlfBytes && rest[..|payload|] == payload;
  }

  /** The tokens of a request: the array header, then each part's length header and the part. */
  function RequestTokens(parts: seq<string>): seq<string> {
    ["*" + Text.Decimal(|parts|)] + BulkTokens(parts)
  }

  function BulkTokens(parts: seq<string>): seq<string> {
    if parts == [] then []
    else ["$" + Text.Decimal(Utf8.ByteLen(parts[0])), parts[0]] + BulkTokens(parts[1..])
  }

  /** A character that is no digit and no `$` and occurs in no part occurs in no token of the parts. */
  lemma {:induction false} BulkTokensAvoid(parts: seq<string>, x: char)
    requires !Text.IsDigit(x) && x != '$'
    requires forall i :: 0 <= i < |parts| ==> x !in parts[i]
    ensures forall t :: t in BulkTokens(parts) ==> x !in t
    decreases |parts|
  {
    if parts != [] {
      var header := "$" + Text.Decimal(Utf8.ByteLen(parts[0]));
      assert x !in header;
      BulkTokensAvoid(parts[1..], x);
    }
  }

  /** The last token of non-empty parts is the last part. */
  lemma {:induction false} BulkTokensLast(parts: seq<string>)
    requires parts != []
    ensures var ts := BulkTokens(parts); ts != [] && ts[|ts| - 1] == parts[|parts| - 1]
    decreases |parts|
  {
    if |parts| > 1 {
      BulkTokensLast(parts[1..]);
    }
  }

  /**
   * A character that is no digit, `$` or `*` and occurs in no part occurs in
   * no token of the request.
   */
  lemma RequestTokensAvoid(parts: seq<string>, x: char)
    requires !Text.IsDigit(x) && x != '$' && x != '*'
    requires forall i :: 0 <= i < |parts| ==> x !in parts[i]
    ensures forall i :: 0 <= i < |RequestTokens(parts)| ==> x !in RequestTokens(parts)[i]
  {
    BulkTokensAvoid(parts, x);
    var ts := RequestTokens(parts);
    assert x !in ts[0];
    forall i | 1 <= i < |ts| ensures x !in ts[i] {
      assert ts[i] in BulkTokens(parts);
    }
  }

  /** A request as a client writes it: every token followed by CR LF. */
  function Request(parts: seq<string>): string {
    Split.Terminate(RequestTokens(parts), Crlf)
  }
}
