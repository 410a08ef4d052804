/**
 * The text around a query: the request line the target is cut from, the fixed response
 * envelope with its computed `Content-Length`, how the test client strips that envelope, and
 * how large a buffer the envelope needs.
 */
module Framing {
  import opened Results
  import opened Text
  import opened Sequences

  // ---------------------------------------------------------------------------
  // Decimal numbers (the `%d` of the `Content-Length` field)

  function DigitChar(d: nat): (c: char)
    requires d < 10
    ensures '0' <= c <= '9' && c as int - '0' as int == d
  {
    ('0' as int + d) as char
  }

  predicate IsDigits(s: string) {
    forall i :: 0 <= i < |s| ==> '0' <= s[i] <= '9'
  }

  /** `n` written in base ten, most significant digit first, without leading zeros. */
  function Decimal(n: nat): (r: string)
    ensures |r| >= 1 && IsDigits(r)
    ensures r[0] == '0' ==> n == 0 && |r| == 1
    decreases n
  {
    if n < 10 then [DigitChar(n)] else Decimal(n / 10) + [DigitChar(n % 10)]
  }

  /** The value of a string of decimal digits, read left to right. */
  function DecimalValue(s: string): nat
    requires IsDigits(s)
    decreases |s|
  {
    if s == [] then 0
    else DecimalValue(s[..|s| - 1]) * 10 + (s[|s| - 1] as int - '0' as int)
  }

  /** Reading back the digits of `n` gives `n`. */
  lemma {:induction false} DecimalRoundTrip(n: nat)
    ensures DecimalValue(Decimal(n)) == n
    decreases n
  {
    var r := Decimal(n);
    if n >= 10 {
      DecimalRoundTrip(n / 10);
      assert r[..|r| - 1] == Decimal(n / 10);
    }
  }

  function Power10(k: nat): (p: nat)
    ensures p >= 1
  {
    if k == 0 then 1 else 10 * Power10(k - 1)
  }

  /** `n` needs at most `k` digits exactly when it is below 10^k. */
  lemma {:induction false} DecimalLength(n: nat, k: nat)
    requires k > 0
    ensures |Decimal(n)| <= k <==> n < Power10(k)
    decreases n
  {
    if n >= 10 {
      if k > 1 {
        DecimalLength(n / 10, k - 1);
      } else {
        assert |Decimal(n)| == |Decimal(n / 10)| + 1;
      }
    } else {
      assert |Decimal(n)| == 1;
      PowerAtLeastTen(k);
    }
  }

  lemma {:induction false} PowerAtLeastTen(k: nat)
    requires k > 0
    ensures Power10(k) >= 10
  {
    if k > 1 {
      PowerAtLeastTen(k - 1);
    }
  }

  // ---------------------------------------------------------------------------
  // The response envelope

  /** The status line; note the space before the line break. */
  const StatusLine: string := "HTTP/1.1 200 OK \r\n"
  const ServerLine: string := "Server: simplehttp\r\n"
  const EncodingLine: string := "Accept-Encoding:gzip, deflate\r\n"
  const LanguageLine: string := "Accept-Language:zh-CN,zh;q=0.9\r\n"
  const CacheLine: string := "Cache-Control:no-cache\r\n"
  const ConnectionLine: string := "Connection:keep-alive\r\n"
  const TypeLine: string := "Content-Type:text/plain\r\n"
  /** The empty line that ends the envelope. */
  const BlankLine: string := "\r\n"

  /** The one computed line: the body length in decimal. */
  function LengthLine(length: nat): string {
    "Content-Length: " + Decimal(length) + "\r\n"
  }

  /** A header line: ends in "\r\n", with no other '\n' and no NUL in it. */
  predicate HeaderLine(l: string) {
    |l| >= 2 && l[|l| - 2] == '\r' && l[|l| - 1] == '\n' &&
    forall i :: 0 <= i < |l| - 1 ==> l[i] != '\n' && l[i] != '\0'
  }

  /** The envelope `prepare_response` writes for a body of `length` characters, followed by
      `rest`. */
  function Envelope(length: nat, rest: string): string {
    StatusLine + (ServerLine + (EncodingLine + (LanguageLine + (CacheLine + (ConnectionLine +
      (TypeLine + (LengthLine(length) + (BlankLine + rest))))))))
  }

  /** Everything in front of the body. */
  function Head(length: nat): string {
    Envelope(length, [])
  }

  /** `prepare_response`: the envelope, then the body. The body goes through `%s` and
      `strlen`, so only its text before the first NUL is sent and counted. */
  function Response(body: string): string {
    Envelope(|CText(body)|, CText(body))
  }

  lemma FirstLinesAreHeaderLines()
    ensures HeaderLine(StatusLine) && HeaderLine(ServerLine) && HeaderLine(EncodingLine)
  {
  }

  lemma MiddleLinesAreHeaderLines()
    ensures HeaderLine(LanguageLine) && HeaderLine(CacheLine) && HeaderLine(ConnectionLine)
  {
  }

  lemma LastLinesAreHeaderLines()
    ensures HeaderLine(TypeLine) && HeaderLine(BlankLine)
  {
  }

  lemma LengthLineIsHeaderLine(length: nat)
    ensures HeaderLine(LengthLine(length))
  {
    var digits := Decimal(length);
    var l := LengthLine(length);
    assert l == "Content-Length: " + (digits + "\r\n");
    forall i | 0 <= i < |l| - 1
      ensures l[i] != '\n' && l[i] != '\0'
    {
      if 16 <= i < 16 + |digits| {
        assert l[i] == digits[i - 16];
      }
    }
  }

  lemma AllHeaderLines(length: nat)
    ensures HeaderLine(StatusLine) && HeaderLine(ServerLine) && HeaderLine(EncodingLine)
    ensures HeaderLine(LanguageLine) && HeaderLine(CacheLine) && HeaderLine(ConnectionLine)
    ensures HeaderLine(TypeLine) && HeaderLine(LengthLine(length)) && HeaderLine(BlankLine)
  {
    FirstLinesAreHeaderLines();
    MiddleLinesAreHeaderLines();
    LastLinesAreHeaderLines();
    LengthLineIsHeaderLine(length);
  }

  /** A header line adds one '\n' and no NUL. */
  lemma LineContents(l: string, rest: string)
    requires HeaderLine(l)
    ensures Occurrences(l + rest, '\n') == 1 + Occurrences(rest, '\n')
    ensures '\0' !in rest ==> '\0' !in l + rest
  {
    var front := l[..|l| - 1];
    assert l == front + ['\n'];
    OccurrencesAppend(l, rest, '\n');
    OccurrencesAppend(front, ['\n'], '\n');
    OccurrencesAbsent(front, '\n');
  }

  /** The envelope holds nine '\n' besides those of what follows it, and no NUL. */
  lemma EnvelopeContents(length: nat, rest: string)
    ensures Occurrences(Envelope(length, rest), '\n') == 9 + Occurrences(rest, '\n')
    ensures '\0' !in rest ==> '\0' !in Envelope(length, rest)
  {
    AllHeaderLines(length);
    var r8 := BlankLine + rest;
    var r7 := LengthLine(length) + r8;
    var r6 := TypeLine + r7;
    var r5 := ConnectionLine + r6;
    var r4 := CacheLine + r5;
    var r3 := LanguageLine + r4;
    var r2 := EncodingLine + r3;
    var r1 := ServerLine + r2;
    LineContents(BlankLine, rest);
    LineContents(LengthLine(length), r8);
    LineContents(TypeLine, r7);
    LineContents(ConnectionLine, r6);
    LineContents(CacheLine, r5);
    LineContents(LanguageLine, r4);
    LineContents(EncodingLine, r3);
    LineContents(ServerLine, r2);
    LineContents(StatusLine, r1);
  }

  lemma EnvelopeLength(length: nat, rest: string)
    ensures |Envelope(length, rest)| == 193 + |Decimal(length)| + |rest|
  {
  }

  /** The envelope of a body is its head followed by the body. */
  lemma EnvelopeSplits(length: nat, rest: string)
    ensures Envelope(length, rest) == Head(length) + rest
  {
    var y8 := BlankLine + [];
    var y7 := LengthLine(length) + y8;
    var y6 := TypeLine + y7;
    var y5 := ConnectionLine + y6;
    var y4 := CacheLine + y5;
    var y3 := LanguageLine + y4;
    var y2 := EncodingLine + y3;
    var y1 := ServerLine + y2;
    assert y8 + rest == BlankLine + rest;
    Associative(LengthLine(length), y8, rest);
    Associative(TypeLine, y7, rest);
    Associative(ConnectionLine, y6, rest);
    Associative(CacheLine, y5, rest);
    Associative(LanguageLine, y4, rest);
    Associative(EncodingLine, y3, rest);
    Associative(ServerLine, y2, rest);
    Associative(StatusLine, y1, rest);
  }

  /** Text whose last line is empty: it ends with "\r\n\r\n". */
  predicate EndsWithBlankLine(t: string) {
    |t| >= 4 && t[|t| - 4] == '\r' && t[|t| - 3] == '\n' && t[|t| - 2] == '\r' && t[|t| - 1] == '\n'
  }

  lemma EndsWithBlankLineAfter(a: string, t: string)
    requires EndsWithBlankLine(t)
    ensures EndsWithBlankLine(a + t)
  {
    var u := a + t;
    assert u[|u| - 4] == t[|t| - 4] && u[|u| - 3] == t[|t| - 3];
    assert u[|u| - 2] == t[|t| - 2] && u[|u| - 1] == t[|t| - 1];
  }

  /** The head ends with the blank line right after the `Content-Length` line. */
  lemma HeadEnding(length: nat)
    ensures EndsWithBlankLine(Head(length))
  {
    var y7 := LengthLine(length) + (BlankLine + []);
    var y6 := TypeLine + y7;
    var y5 := ConnectionLine + y6;
    var y4 := CacheLine + y5;
    var y3 := LanguageLine + y4;
    var y2 := EncodingLine + y3;
    var y1 := ServerLine + y2;
    LengthThenBlank(length);
    EndsWithBlankLineAfter(TypeLine, y7);
    EndsWithBlankLineAfter(ConnectionLine, y6);
    EndsWithBlankLineAfter(CacheLine, y5);
    EndsWithBlankLineAfter(LanguageLine, y4);
    EndsWithBlankLineAfter(EncodingLine, y3);
    EndsWithBlankLineAfter(ServerLine, y2);
    EndsWithBlankLineAfter(StatusLine, y1);
  }

  lemma LengthThenBlank(length: nat)
    ensures EndsWithBlankLine(LengthLine(length) + (BlankLine + []))
  {
    var l := LengthLine(length);
    var t := l + (BlankLine + []);
    LengthLineIsHeaderLine(length);
    assert t[|t| - 4] == l[|l| - 2] && t[|t| - 3] == l[|l| - 1];
  }

  /** The `Content-Length` line carries the body length as decimal digits. */
  lemma LengthLineValue(length: nat)
    ensures exists digits: string :: IsDigits(digits) && DecimalValue(digits) == length &&
              LengthLine(length) == "Content-Length: " + digits + "\r\n"
  {
    DecimalRoundTrip(length);
  }

  /** Whatever follows, the envelope starts with the `200 OK` status. */
  lemma StatusFirst(length: nat, rest: string)
    ensures |Envelope(length, rest)| >= 15 && Envelope(length, rest)[..15] == "HTTP/1.1 200 OK"
  {
    var r := Envelope(length, rest);
    var after := ServerLine + (EncodingLine + (LanguageLine + (CacheLine +
      (ConnectionLine + (TypeLine + (LengthLine(length) + (BlankLine + rest)))))));
    assert r == StatusLine + after;
    assert r[..15] == StatusLine[..15];
  }

  // ---------------------------------------------------------------------------
  // What the client does with the envelope

  /** The test client's scan, on what is left of the reply: drop characters while counting
      '\n', and stop just after the ninth or at the end. */
  function AfterHeader(s: string, count: nat): (r: string)
    requires count < 9
    ensures |r| <= |s|
    decreases |s|
  {
    if s == [] then []
    else
      var count' := if s[0] == '\n' then count + 1 else count;
      if count' == 9 then s[1..] else AfterHeader(s[1..], count')
  }

  /** The client's view of a reply, cut at its first NUL: the text after the ninth '\n', or
      no answer when no character follows it. */
  function ClientBody(reply: string): Option<string> {
    var rest := AfterHeader(CText(reply), 0);
    if rest == [] then None else Some(rest)
  }

  /** Scanning over one header line moves the count on by one. */
  lemma {:induction false} AfterLine(l: string, rest: string, count: nat)
    requires HeaderLine(l) && count < 9
    ensures AfterHeader(l + rest, count) ==
              if count + 1 == 9 then rest else AfterHeader(rest, count + 1)
    decreases |l|
  {
    var s := l + rest;
    assert s[0] == l[0];
    if |l| == 2 {
      assert l == "\r\n";
      assert s[1..] == "\n" + rest;
    } else {
      assert l[0] != '\n';
      assert s[1..] == l[1..] + rest;
      assert l[1..][|l| - 3..] == l[|l| - 2..];
      AfterLine(l[1..], rest, count);
    }
  }

  /** Scanning over three header lines moves the count on by three. */
  lemma AfterThreeLines(l1: string, l2: string, l3: string, rest: string, count: nat)
    requires HeaderLine(l1) && HeaderLine(l2) && HeaderLine(l3) && count + 3 <= 9
    ensures AfterHeader(l1 + (l2 + (l3 + rest)), count) ==
              if count + 3 == 9 then rest else AfterHeader(rest, count + 3)
  {
    AfterLine(l1, l2 + (l3 + rest), count);
    AfterLine(l2, l3 + rest, count + 1);
    AfterLine(l3, rest, count + 2);
  }

  /** The client's scan stops right after the envelope's blank line. */
  lemma AfterEnvelope(length: nat, rest: string)
    ensures AfterHeader(Envelope(length, rest), 0) == rest
  {
    AllHeaderLines(length);
    var tail := TypeLine + (LengthLine(length) + (BlankLine + rest));
    var middle := LanguageLine + (CacheLine + (ConnectionLine + tail));
    AfterThreeLines(StatusLine, ServerLine, EncodingLine, middle, 0);
    AfterThreeLines(LanguageLine, CacheLine, ConnectionLine, tail, 3);
    AfterThreeLines(TypeLine, LengthLine(length), BlankLine, rest, 6);
  }

  /** The client gets back exactly the body the server sent, except that an empty body reads
      as no answer at all. */
  lemma ClientRecoversBody(body: string)
    ensures ClientBody(Response(body)) == if CText(body) == [] then None else Some(CText(body))
    ensures ClientReceive(Response(body)) ==
              if |Response(body)| < ClientBufferSize then Received(Response(body)) else Overrun
  {
    var b := CText(body);
    var r := Response(body);
    EnvelopeContents(|b|, b);
    CTextOfNulFree(r);
    AfterEnvelope(|b|, b);
    ClientReceivesNulFree(r);
  }

  /** A reply without NUL arrives whole when it fits the buffer and overruns it otherwise. */
  lemma ClientReceivesNulFree(reply: string)
    requires '\0' !in reply
    ensures ClientReceive(reply) == if |reply| < ClientBufferSize then Received(reply) else Overrun
  {
    CTextOfNulFree(reply);
    if |reply| >= ClientBufferSize {
      assert forall k :: 0 <= k < ClientBufferSize ==> reply[..ClientBufferSize][k] == reply[k];
    }
  }

  /** The client's receive buffer: a zeroed array of 1024 bytes, filled by a single `read`. */
  const ClientBufferSize := 1024

  /** What `strlen` finds in the client's buffer: the text before the first NUL, or an overrun
      when the bytes read fill the buffer without a NUL and `strlen` runs past its end. */
  datatype Receipt = Received(text: string) | Overrun

  /** One `read` into the buffer, taking the first 1024 bytes of the reply (or all of a shorter
      one, the zeroed rest of the buffer ending it), then `strlen`. */
  function ClientReceive(reply: string): (r: Receipt)
    ensures r.Received? <==> |reply| < ClientBufferSize || '\0' in reply[..ClientBufferSize]
    ensures r.Received? ==> r.text == CText(reply) && |r.text| < ClientBufferSize
  {
    if |reply| < ClientBufferSize then Received(CText(reply))
    else
      var got := reply[..ClientBufferSize];
      if '\0' in got then
        CTextOfBuffer(reply, got);
        Received(CText(got))
      else Overrun
  }

  /** A buffer holding a NUL cuts where the whole reply would. */
  lemma CTextOfBuffer(reply: string, got: string)
    requires |got| <= |reply| && got == reply[..|got|] && '\0' in got
    ensures CText(got) == CText(reply) && |CText(got)| < |got|
  {
    var t := CText(reply);
    var j :| 0 <= j < |got| && got[j] == '\0';
    assert reply[j] == '\0';
    assert forall k :: 0 <= k < |t| ==> t[k] == reply[k];
    assert |t| <= j;
    assert got[..|t|] == t;
    CTextPrefix(t, got);
  }

  /** The header strip works the same on the received text as on the reply it came from. */
  lemma ReceivedReadsAsReply(reply: string)
    requires ClientReceive(reply).Received?
    ensures ClientBody(ClientReceive(reply).text) == ClientBody(reply)
  {
    CTextOfNulFree(CText(reply));
  }

  // ---------------------------------------------------------------------------
  // The request line

  /** Position of the first `c` in `s`, or `|s|`. */
  function IndexOf(s: string, c: char): (i: nat)
    ensures i <= |s| && (i < |s| ==> s[i] == c)
    ensures forall k :: 0 <= k < i ==> s[k] != c
    decreases |s|
  {
    if s == [] || s[0] == c then 0 else 1 + IndexOf(s[1..], c)
  }

  /** The request line has at least two spaces, which the server's scan relies on. */
  predicate HasTarget(line: string) {
    var i := IndexOf(line, ' ');
    i < |line| && ' ' in line[i + 1..]
  }

  /** What the server hands to `decode_url`: from the first space up to the second, the first
      space included. */
  function RequestTarget(line: string): (r: string)
    requires HasTarget(line)
    ensures |r| >= 1 && r[0] == ' ' && ' ' !in r[1..]
    ensures IndexOf(line, ' ') + |r| < |line| && line[IndexOf(line, ' ') + |r|] == ' '
    ensures r == line[IndexOf(line, ' ')..IndexOf(line, ' ') + |r|]
  {
    var i := IndexOf(line, ' ');
    var j := i + 1 + IndexOf(line[i + 1..], ' ');
    line[i..j]
  }

  /** For a request line `method target rest`, the server works on `" " + target`. */
  lemma RequestTargetOfLine(verb: string, target: string, rest: string)
    requires ' ' !in verb && ' ' !in target
    ensures HasTarget(verb + " " + target + " " + rest)
    ensures RequestTarget(verb + " " + target + " " + rest) == " " + target
  {
    var line := verb + " " + target + " " + rest;
    assert line[..|verb|] == verb && line[|verb|] == ' ';
    var i := IndexOf(line, ' ');
    assert i == |verb|;
    var after := line[i + 1..];
    assert after == target + " " + rest;
    assert after[|target|] == ' ';
    var k := IndexOf(after, ' ');
    assert k == |target|;
  }

  // ---------------------------------------------------------------------------
  // Buffer sizes

  /** The bytes `sprintf` writes for a response: the envelope, the body, the closing NUL. */
  function ResponseBytes(bodyLength: nat): nat {
    193 + |Decimal(bodyLength)| + bodyLength + 1
  }

  /** The worker's buffer as written: the body length plus a flat 200 bytes for the envelope. */
  function WorkerBufferSize(bodyLength: nat): nat {
    bodyLength + 200
  }

  /** The buffer fits the response exactly when the body is shorter than a million characters:
      from a seven-digit `Content-Length` on, `sprintf` writes past the end of the buffer. */
  lemma WorkerBufferOverflow(bodyLength: nat)
    ensures ResponseBytes(bodyLength) <= WorkerBufferSize(bodyLength) <==> bodyLength < 1000000
  {
    DecimalLength(bodyLength, 6);
    assert Power10(6) == 1000000;
  }

  /** A buffer sized from the envelope actually produced: the worker's flat allowance widened
      by the digits of `Content-Length`, which the flat 200 bytes leave out. */
  function ResponseBufferSize(bodyLength: nat): (size: nat)
    ensures size >= ResponseBytes(bodyLength)
    ensures size >= WorkerBufferSize(bodyLength)
  {
    WorkerBufferSize(bodyLength) + |Decimal(bodyLength)|
  }

  /** `send_error`: the envelope around an error message in a zeroed 1024-byte buffer, all of
      which is sent; the reply reads as the envelope once cut at the first NUL. */
  function ErrorPacket(message: string): (r: string)
    requires |Response(message)| < 1024
    ensures |r| == 1024
    ensures CText(r) == Response(message)
  {
    var text := Response(message);
    var r := text + seq(1024 - |text|, _ => '\0');
    EnvelopeContents(|CText(message)|, CText(message));
    CTextPrefix(text, r);
    r
  }

  /** An error packet starts with the `200 OK` status too. */
  lemma ErrorPacketStatus(message: string)
    requires |Response(message)| < 1024
    ensures ErrorPacket(message)[..15] == "HTTP/1.1 200 OK"
  {
    var packet := ErrorPacket(message);
    var text := Response(message);
    EnvelopeLength(|CText(message)|, CText(message));
    StatusFirst(|CText(message)|, CText(message));
    assert packet[..|text|] == text;
    assert packet[..15] == text[..15];
  }

  /** The client reads an error packet exactly as it would read the envelope alone: the NUL
      padding is never seen. */
  lemma ErrorPacketReads(message: string)
    requires |Response(message)| < 1024
    ensures ClientBody(ErrorPacket(message)) == ClientBody(Response(message))
  {
    var text := Response(message);
    EnvelopeContents(|CText(message)|, CText(message));
    CTextOfNulFree(text);
  }

  /** Cutting at the first NUL ignores anything after a NUL that follows NUL-free text. */
  lemma {:induction false} CTextPrefix(text: string, s: string)
    requires '\0' !in text && |s| > |text| && s[..|text|] == text && s[|text|] == '\0'
    ensures CText(s) == text
    decreases |text|
  {
    if text != [] {
      CTextPrefix(text[1..], s[1..]);
    }
  }
}
