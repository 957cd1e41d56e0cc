/**
 * How the handler meets requests framed as RESP frames them, with CR LF
 * ending every line, and the handler with its tokeniser splitting on CR LF.
 */
module Framing {
  import opened Wrappers
  import Text
  import Split
  import Utf8
  import Resp
  import Server

  /** The request handler with the tokeniser splitting on CR LF instead of the four-character separator. */
  function HandleCrlf(request: string): (r: Result<string, Server.Panic>)
    ensures r.Failure? ==> r.error != Server.InvalidUtf8
    ensures r.Success? ==> var tokens := Split.Split(Text.Trim(request), Resp.Crlf);
      r.value == Server.Pong || (|tokens| >= 5 && r.value == Server.EchoReply(tokens[4]))
    ensures !Split.Contains(Text.Trim(request), Resp.Crlf) ==> r == Failure(Server.IndexOutOfBounds(2, 1))
  {
    Split.SplitUncut(Text.Trim(request), Resp.Crlf);
    Server.Parse(Split.Split(Text.Trim(request), Resp.Crlf))
  }

  lemma CrlfUnbordered()
    ensures |Resp.Crlf| == 2 && Split.Unbordered(Resp.Crlf)
  {
    assert Resp.Crlf[1..][0] != Resp.Crlf[..1][0];
  }

  /** A string with no backslash in it does not contain the four-character separator. */
  lemma NoBackslashNoSeparator(s: string)
    requires '\\' !in s
    ensures !Split.Contains(s, Server.Separator)
  {
    forall j | 0 <= j && j + 4 <= |s| ensures !Split.Occurs(s, Server.Separator, j) {
      assert s[j..j + 4][0] == s[j];
    }
  }

  /** A string with no CR in it does not contain CR LF. */
  lemma NoCrNoCrlf(s: string)
    requires '\r' !in s
    ensures !Split.Contains(s, Resp.Crlf)
  {
    forall j | 0 <= j && j + 2 <= |s| ensures !Split.Occurs(s, Resp.Crlf, j) {
      assert s[j..j + 2][0] == s[j];
    }
  }

  /**
   * As written, every request framed with CR LF, as RESP clients send them,
   * is one token after tokenising, so reading the command name at index 2
   * panics: no such request is ever answered.
   */
  lemma CrlfRequestRejected(parts: seq<string>)
    requires forall i :: 0 <= i < |parts| ==> '\\' !in parts[i]
    ensures Server.Tokenize(Resp.Request(parts)) == [Text.Trim(Resp.Request(parts))]
    ensures Server.Handle(Resp.Request(parts)) == Failure(Server.IndexOutOfBounds(2, 1))
  {
    var request := Resp.Request(parts);
    Resp.RequestTokensAvoid(parts, '\\');
    Split.TerminateElements(Resp.RequestTokens(parts), Resp.Crlf, '\\');
    var trimmed := Text.Trim(request);
    Text.TrimSplits(request);
    assert '\\' !in trimmed;
    NoBackslashNoSeparator(trimmed);
    Split.NotContainedNotFound(trimmed, Server.Separator);
  }

  lemma PingRequestTokens()
    ensures Resp.RequestTokens(["PING"]) == ["*1", "$4", "PING"]
  {
    var parts := ["PING"];
    assert Text.Decimal(1) == "1";
    Utf8.EncodeAscii("PING");
    assert Utf8.ByteLen("PING") == 4;
    assert Text.Decimal(4) == "4";
    assert "$" + "4" == "$4" && "*" + "1" == "*1";
    assert parts[1..] == [];
    assert Resp.BulkTokens(parts) == ["$4", "PING"];
  }

  /** The PING request a RESP client sends, and the panic it meets. */
  lemma PingRequestRejected()
    ensures Resp.Request(["PING"]) == "*1\r\n$4\r\nPING\r\n"
    ensures Server.Handle(Resp.Request(["PING"])) == Failure(Server.IndexOutOfBounds(2, 1))
  {
    PingRequestText();
    CrlfRequestRejected(["PING"]);
  }

  lemma PingRequestText()
    ensures Resp.Request(["PING"]) == "*1\r\n$4\r\nPING\r\n"
  {
    PingRequestTokens();
    Split.TerminateCons("PING", [], Resp.Crlf);
    Split.TerminateCons("$4", ["PING"], Resp.Crlf);
    Split.TerminateCons("*1", ["$4", "PING"], Resp.Crlf);
    assert ["PING"] + [] == ["PING"];
    assert ["$4"] + ["PING"] == ["$4", "PING"];
    assert ["*1"] + ["$4", "PING"] == ["*1", "$4", "PING"];
  }

  /** The protocol's last part is non-empty and does not end in whitespace. */
  predicate EndsInText(parts: seq<string>) {
    parts != [] ==>
      var last := parts[|parts| - 1]; last != [] && !Text.IsWhitespace(last[|last| - 1])
  }

  /** A request's tokens join with CR LF into a string trimming leaves alone. */
  lemma RequestJoinTrimmed(parts: seq<string>)
    requires EndsInText(parts)
    ensures Text.IsTrimmed(Split.Join(Resp.RequestTokens(parts), Resp.Crlf))
  {
    var ts := Resp.RequestTokens(parts);
    var last := ts[|ts| - 1];
    if parts == [] {
      assert last == "*" + Text.Decimal(0);
      assert last == "*0";
    } else {
      Resp.BulkTokensLast(parts);
      assert last == parts[|parts| - 1];
    }
    Split.JoinStart(ts, Resp.Crlf);
    Split.JoinEnd(ts, Resp.Crlf);
  }

  /** Trimming a request leaves its tokens joined by CR LF, without the final CR LF. */
  lemma RequestTrimmed(parts: seq<string>)
    requires EndsInText(parts)
    ensures Text.Trim(Resp.Request(parts)) == Split.Join(Resp.RequestTokens(parts), Resp.Crlf)
  {
    var ts := Resp.RequestTokens(parts);
    Split.TerminateIsJoin(ts, Resp.Crlf);
    var joined := Split.Join(ts, Resp.Crlf);
    RequestJoinTrimmed(parts);
    assert Text.AllWhitespace(Resp.Crlf);
    assert [] + joined + Resp.Crlf == Resp.Request(parts);
    Text.TrimSurrounded([], joined, Resp.Crlf);
  }

  /** The length headers hold no CR, so the tokens of parts free of CR LF are free of it too. */
  lemma {:induction false} BulkTokensFree(parts: seq<string>)
    requires forall i :: 0 <= i < |parts| ==> !Split.Contains(parts[i], Resp.Crlf)
    ensures forall t :: t in Resp.BulkTokens(parts) ==> !Split.Contains(t, Resp.Crlf)
    decreases |parts|
  {
    if parts != [] {
      var header := "$" + Text.Decimal(Utf8.ByteLen(parts[0]));
      assert '\r' !in header;
      NoCrNoCrlf(header);
      BulkTokensFree(parts[1..]);
      assert Resp.BulkTokens(parts) == [header, parts[0]] + Resp.BulkTokens(parts[1..]);
    }
  }

  /**
   * With CR LF as the separator, a RESP request is tokenised into exactly
   * the tokens its client framed, so it is answered as `Parse` answers them,
   * provided no part contains CR LF and the last part is non-empty and
   * does not end in whitespace (trimming would eat it).
   */
  lemma CrlfRequestServed(parts: seq<string>)
    requires forall i :: 0 <= i < |parts| ==> !Split.Contains(parts[i], Resp.Crlf)
    requires EndsInText(parts)
    ensures Split.Split(Text.Trim(Resp.Request(parts)), Resp.Crlf) == Resp.RequestTokens(parts)
    ensures HandleCrlf(Resp.Request(parts)) == Server.Parse(Resp.RequestTokens(parts))
  {
    var ts := Resp.RequestTokens(parts);
    BulkTokensFree(parts);
    var count := "*" + Text.Decimal(|parts|);
    assert '\r' !in count;
    NoCrNoCrlf(count);
    forall i | 0 <= i < |ts| ensures !Split.Contains(ts[i], Resp.Crlf) {
      if i > 0 {
        assert ts[i] in Resp.BulkTokens(parts);
      }
    }
    RequestTrimmed(parts);
    CrlfUnbordered();
    Split.SplitJoin(ts, Resp.Crlf);
  }

  /** With CR LF as the separator, a RESP PING request is answered PONG. */
  lemma CrlfPingServed(name: string)
    requires Text.AsciiLower(name) == "ping"
    ensures HandleCrlf(Resp.Request([name])) == Success(Server.Pong)
  {
    Text.AsciiLowerLetters(name, "ping");
    NoCrNoCrlf(name);
    CrlfRequestServed([name]);
    assert Resp.RequestTokens([name])[2] == name;
  }

  /**
   * With CR LF as the separator, a RESP ECHO request is answered with its
   * argument as a bulk string, for an argument that is not empty, does not
   * contain CR LF and does not end in whitespace.
   */
  lemma CrlfEchoServed(name: string, arg: string)
    requires Text.AsciiLower(name) == "echo"
    requires !Split.Contains(arg, Resp.Crlf) && arg != [] && !Text.IsWhitespace(arg[|arg| - 1])
    ensures HandleCrlf(Resp.Request([name, arg])) == Success(Server.EchoReply(arg))
  {
    Text.AsciiLowerLetters(name, "echo");
    NoCrNoCrlf(name);
    CrlfRequestServed([name, arg]);
    EchoRequestTokens(name, arg);
  }

  /** The tokens of a two-part request: count, length, name, length, argument. */
  lemma EchoRequestTokens(name: string, arg: string)
    ensures var ts := Resp.RequestTokens([name, arg]); |ts| == 5 && ts[2] == name && ts[4] == arg
  {
    var parts := [name, arg];
    assert parts[1..] == [arg] && parts[0] == name;
    assert [arg][1..] == [] && [arg][0] == arg;
    var tail := Resp.BulkTokens([arg]);
    assert tail == ["$" + Text.Decimal(Utf8.ByteLen(arg)), arg] + Resp.BulkTokens([]);
    assert Resp.BulkTokens(parts) == ["$" + Text.Decimal(Utf8.ByteLen(name)), name] + tail;
  }
}
