/**
 * The request handler of the server: each chunk read from a connection is
 * decoded as UTF-8, trimmed, cut into tokens, and the tokens are dispatched
 * on the command name to build the reply.
 */
module Server {
  import opened Wrappers
  import Text
  import Split
  import Utf8
  import Resp

  /**
   * What the tokeniser splits on: the four characters backslash, 'r',
   * backslash, 'n' -- not the two control characters CR LF.
   */
  const Separator: string := "\\r\\n"

  /** The simple-string reply to PING. */
  const Pong: string := "+PONG\r\n"

  /** The ways handling a request panics, ending the connection's task. */
  datatype Panic =
    | InvalidUtf8                             // the bytes read are not UTF-8
    | IndexOutOfBounds(index: nat, len: nat)  // a token index past the end of the tokens
    | UnrecognizedCommand                     // a command name other than ping or echo

  lemma SeparatorUnbordered()
    ensures |Separator| == 4 && Split.Unbordered(Separator)
  {
    forall k | 0 < k < |Separator|
      ensures Separator[k..] != Separator[..|Separator| - k]
    {
      if k == 2 {
        assert Separator[k..][1] != Separator[..|Separator| - k][1];
      } else {
        assert Separator[k..][0] != Separator[..|Separator| - k][0];
      }
    }
  }

  /**
   * The request text trimmed of surrounding whitespace, then split on the
   * separator: the tokens join back into the trimmed text and none holds
   * the separator.
   */
  function Tokenize(request: string): (tokens: seq<string>)
    ensures |tokens| >= 1
    ensures Split.Join(tokens, Separator) == Text.Trim(request)
    ensures forall t :: t in tokens ==> !Split.Contains(t, Separator)
  {
    var trimmed := Text.Trim(request);
    Split.JoinSplit(trimmed, Separator);
    Split.SplitPiecesFree(trimmed, Separator);
    Split.Split(trimmed, Separator)
  }

  /**
   * The bulk-string reply carrying `arg`: written out, it is `$`, the byte
   * length of `arg` in decimal, CR LF, the bytes of `arg` and CR LF, and a
   * client reading it as a bulk string gets the bytes of `arg` back.
   */
  function EchoReply(arg: string): (r: string)
    ensures Utf8.Encode(r)
      == [36] + Utf8.Encode(Text.Decimal(Utf8.ByteLen(arg))) + Resp.CrlfBytes + Utf8.Encode(arg) + Resp.CrlfBytes
    ensures Resp.DecodeBulk(Utf8.Encode(r)) == Some(Utf8.Encode(arg))
  {
    FrameBytes(arg);
    Resp.BulkRoundTrip(Utf8.Encode(arg));
    "$" + Text.Decimal(Utf8.ByteLen(arg)) + "\r\n" + arg + "\r\n"
  }

  /**
   * Dispatch on token 2, compared in ASCII lower case. `ping` answers PONG,
   * `echo` answers token 4 as a bulk string, anything else panics, and so
   * does reading a token past the end.
   */
  function Parse(tokens: seq<string>): (r: Result<string, Panic>)
    ensures r.Success? ==> |tokens| >= 3
    ensures r.Success? ==>
      || (Text.AsciiLower(tokens[2]) == "ping" && r.value == Pong)
      || (Text.AsciiLower(tokens[2]) == "echo" && |tokens| >= 5 && r.value == EchoReply(tokens[4]))
    ensures r.Failure? ==> r.error != InvalidUtf8
  {
    if |tokens| < 3 then Failure(IndexOutOfBounds(2, |tokens|))
    else
      var command := Text.AsciiLower(tokens[2]);
      if command == "ping" then Success(Pong)
      else if command == "echo" then
        if |tokens| < 5 then Failure(IndexOutOfBounds(4, |tokens|))
        else Success(EchoReply(tokens[4]))
      else Failure(UnrecognizedCommand)
  }

  /**
   * One request text to its reply. Every reply is PONG or token 4 echoed,
   * and a request whose trimmed text holds no separator is a single token,
   * so it panics reading the command name.
   */
  function Handle(request: string): (r: Result<string, Panic>)
    ensures r.Failure? ==> r.error != InvalidUtf8
    ensures r.Success? ==> var tokens := Tokenize(request);
      r.value == Pong || (|tokens| >= 5 && r.value == EchoReply(tokens[4]))
    ensures !Split.Contains(Text.Trim(request), Separator) ==> r == Failure(IndexOutOfBounds(2, 1))
  {
    Split.SplitUncut(Text.Trim(request), Separator);
    Parse(Tokenize(request))
  }

  /** What one pass of a connection's loop does with the bytes one read returned. */
  datatype Step =
    | Close                         // the read returned no bytes: the loop ends
    | Write(reply: seq<Utf8.byte>)  // the reply written back
    | Crash(panic: Panic)           // the connection's task panics

  /** One chunk of bytes read from a connection to what the loop does with it. */
  function Respond(buf: seq<Utf8.byte>): (r: Step)
    ensures r == Close <==> buf == []
    ensures r == Crash(InvalidUtf8) <==> buf != [] && Utf8.Decode(buf).None?
    ensures r.Write? ==> Utf8.Decode(r.reply).Some?
  {
    if buf == [] then Close
    else match Utf8.Decode(buf)
      case None => Crash(InvalidUtf8)
      case Some(request) =>
        match Handle(request)
        case Failure(p) => Crash(p)
        case Success(reply) =>
          Utf8.DecodeEncode(reply);
          Write(Utf8.Encode(reply))
  }

  /** A ping answers PONG whatever the other tokens hold. */
  lemma PingAnswersPong(tokens: seq<string>)
    requires |tokens| >= 3 && Text.AsciiLower(tokens[2]) == "ping"
    ensures Parse(tokens) == Success(Pong)
  {
  }

  /** The three ways `Parse` fails. */
  lemma ParseFailures(tokens: seq<string>)
    ensures |tokens| < 3 ==> Parse(tokens) == Failure(IndexOutOfBounds(2, |tokens|))
    ensures |tokens| >= 3 && Text.AsciiLower(tokens[2]) == "echo" && |tokens| < 5 ==>
      Parse(tokens) == Failure(IndexOutOfBounds(4, |tokens|))
    ensures |tokens| >= 3 && Text.AsciiLower(tokens[2]) !in {"ping", "echo"} ==>
      Parse(tokens) == Failure(UnrecognizedCommand)
  {
  }

  /**
   * The reply depends on nothing but the number of tokens, the lower-cased
   * command name and the echo argument: not on the case of the command, nor
   * on the array header or the client's declared lengths.
   */
  lemma ParseDependsOnCommandAndArgument(a: seq<string>, b: seq<string>)
    requires |a| >= 3 && |b| >= 3 && Text.AsciiLower(a[2]) == Text.AsciiLower(b[2])
    requires (|a| >= 5) == (|b| >= 5)
    requires |a| >= 5 ==> a[4] == b[4]
    requires |a| < 5 ==> |a| == |b|
    ensures Parse(a) == Parse(b)
  {
  }

  /** The bytes of a bulk-string frame: `$`, the byte length in decimal, CR LF, the payload, CR LF. */
  lemma FrameBytes(arg: string)
    ensures Utf8.Encode("$" + Text.Decimal(Utf8.ByteLen(arg)) + "\r\n" + arg + "\r\n")
      == [36] + Utf8.Encode(Text.Decimal(Utf8.ByteLen(arg))) + Resp.CrlfBytes + Utf8.Encode(arg) + Resp.CrlfBytes
  {
    var digits := Text.Decimal(Utf8.ByteLen(arg));
    var head, tail := "$" + digits + "\r\n", arg + "\r\n";
    assert "$" + digits + "\r\n" + arg + "\r\n" == head + tail;
    Utf8.EncodeAscii("\r\n");
    Utf8.EncodeAscii("$");
    assert Utf8.Encode("\r\n") == Resp.CrlfBytes && Utf8.Encode("$") == [36];
    var d, e := Utf8.Encode(digits), Utf8.Encode(arg);
    calc {
      Utf8.Encode(head + tail);
      { Utf8.EncodeAppend(head, tail); }
      Utf8.Encode(head) + Utf8.Encode(tail);
      { Utf8.EncodeAppend("$" + digits, "\r\n"); Utf8.EncodeAppend(arg, "\r\n"); }
      (Utf8.Encode("$" + digits) + Resp.CrlfBytes) + (e + Resp.CrlfBytes);
      { Utf8.EncodeAppend("$", digits); }
      ([36] + d + Resp.CrlfBytes) + (e + Resp.CrlfBytes);
      [36] + d + Resp.CrlfBytes + e + Resp.CrlfBytes;
    }
  }

  /**
   * The echo reply is a well-formed bulk string: reading it back gives the
   * bytes of token 4 and, decoded, token 4 itself. The length it declares
   * is that of the payload, whatever length the client put in token 3.
   */
  lemma EchoRoundTrip(tokens: seq<string>)
    requires |tokens| >= 5 && Text.AsciiLower(tokens[2]) == "echo"
    ensures Parse(tokens).Success?
    ensures Resp.DecodeBulk(Utf8.Encode(Parse(tokens).value)) == Some(Utf8.Encode(tokens[4]))
    ensures Utf8.Decode(Utf8.Encode(tokens[4])) == Some(tokens[4])
  {
    var arg := tokens[4];
    assert Parse(tokens) == Success(EchoReply(arg));
    Utf8.DecodeEncode(arg);
  }

  /** The PONG reply is the simple string PONG. */
  lemma PongIsSimpleString()
    ensures Resp.DecodeSimple(Utf8.Encode(Pong)) == Some(Utf8.Encode("PONG"))
  {
    ReplyBytes();
    WordBytes();
    var text: seq<Utf8.byte> := [80, 79, 78, 71];
    assert [43] + text + Resp.CrlfBytes == [43, 80, 79, 78, 71, 13, 10];
    Resp.SimpleRoundTrip(text);
  }

  /** The PONG reply is ASCII, one byte per character. */
  lemma ReplyBytes()
    ensures Utf8.Encode(Pong) == [43, 80, 79, 78, 71, 13, 10]
  {
    Utf8.EncodeAscii(Pong);
  }

  /** So is the word in it. */
  lemma WordBytes()
    ensures Utf8.Encode("PONG") == [80, 79, 78, 71]
  {
    Utf8.EncodeAscii("PONG");
  }

  /**
   * Text that is already trimmed and made of separator-free pieces is
   * tokenised into exactly those pieces, so it is answered as `Parse`
   * answers the pieces.
   */
  lemma {:induction false} HandleJoined(pieces: seq<string>)
    requires |pieces| >= 1
    requires forall i :: 0 <= i < |pieces| ==> !Split.Contains(pieces[i], Separator)
    requires Text.IsTrimmed(Split.Join(pieces, Separator))
    ensures Tokenize(Split.Join(pieces, Separator)) == pieces
    ensures Handle(Split.Join(pieces, Separator)) == Parse(pieces)
  {
    var text := Split.Join(pieces, Separator);
    assert [] + text + [] == text;
    Text.TrimSurrounded([], text, []);
    SeparatorUnbordered();
    Split.SplitJoin(pieces, Separator);
  }

  /**
   * Bytes that are the encoding of a non-empty text are answered as the text
   * is, re-encoded; the encoding of the empty text is the read that ends the
   * loop.
   */
  lemma RespondEncoded(request: string)
    ensures request == "" ==> Respond(Utf8.Encode(request)) == Close
    ensures request != "" && Handle(request).Success? ==>
      Respond(Utf8.Encode(request)) == Write(Utf8.Encode(Handle(request).value))
    ensures request != "" && Handle(request).Failure? ==>
      Respond(Utf8.Encode(request)) == Crash(Handle(request).error)
  {
    Utf8.DecodeEncode(request);
  }
}
