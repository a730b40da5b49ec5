/** The reply to a WebSocket upgrade request (`handshake` and `acceptValue`
    in lib/ws.js), following the server's opening handshake of section
    4.2.2 of RFC 6455. */
module WsHandshake {
  import opened Base

  const Eol: string := "\r\n"

  /** The GUID section 1.3 of RFC 6455 appends to the client's key. */
  const Guid: string := "258EAFA5-E914-47DA-95CA-C5AB0DC85B11"

  const StatusLine: string := "HTTP/1.1 101 Web Socket Protocol Handshake"

  /** The lines every reply starts with. */
  const FixedLines: seq<string> :=
    [StatusLine, "Upgrade: WebSocket", "Connection: Upgrade", "Sec-WebSocket-Version: 13"]

  const KeyHeader: string := "sec-websocket-key"

  /** `headers['sec-websocket-key']` is truthy: present and not the empty string. */
  predicate HasKey(headers: map<string, string>)
  {
    KeyHeader in headers && headers[KeyHeader] != ""
  }

  /** `acceptValue(key)`: the base64 form of the SHA-1 digest of the key
      followed by the GUID.  Hashing and base64 are the parameter
      `sha1Base64`. */
  function AcceptValue(key: string, sha1Base64: string -> string): string
  {
    sha1Base64(key + Guid)
  }

  /** The lines of the reply before the terminating empty line. */
  function HeaderLines(headers: map<string, string>, sha1Base64: string -> string): (ls: seq<string>)
    ensures |ls| >= 4 && ls[..4] == FixedLines
    ensures |ls| == 5 <==> HasKey(headers)
    ensures |ls| == 5 ==> ls[4] == "Sec-WebSocket-Accept: " + sha1Base64(headers[KeyHeader] + Guid)
    ensures |ls| <= 5
  {
    FixedLines
    + (if HasKey(headers) then ["Sec-WebSocket-Accept: " + AcceptValue(headers[KeyHeader], sha1Base64)] else [])
  }

  /** `handshake`: the lines and a final `EOL` element, joined by `EOL`. */
  function Handshake(headers: map<string, string>, sha1Base64: string -> string): (r: string)
    ensures r == Terminated(HeaderLines(headers, sha1Base64)) + Eol
  {
    var ls := HeaderLines(headers, sha1Base64);
    JoinTerminated(ls, Eol);
    Join(ls + [Eol], Eol)
  }

  /** Each line followed by a line break. */
  function Terminated(ls: seq<string>): (r: string)
  {
    if |ls| == 0 then "" else ls[0] + Eol + Terminated(ls[1..])
  }

  /** Joining with the separator as a last element ends every line with it
      and adds one more. */
  lemma {:induction false} JoinTerminated(ls: seq<string>, sep: string)
    requires sep == Eol
    ensures Join(ls + [sep], sep) == Terminated(ls) + sep
  {
    if |ls| > 0 {
      assert (ls + [sep])[1..] == ls[1..] + [sep];
      JoinTerminated(ls[1..], sep);
    }
  }

  lemma {:induction false} TerminatedEnds(ls: seq<string>)
    requires |ls| > 0
    ensures EndsWith(Terminated(ls), Eol)
  {
    if |ls| > 1 {
      TerminatedEnds(ls[1..]);
    }
  }

  /** The reply opens with the status line and closes with an empty line: the
      last header line is followed by two line breaks. */
  lemma HandshakeFraming(headers: map<string, string>, sha1Base64: string -> string)
    ensures StartsWith(Handshake(headers, sha1Base64), StatusLine + Eol)
    ensures EndsWith(Handshake(headers, sha1Base64), Eol + Eol)
  {
    var ls := HeaderLines(headers, sha1Base64);
    var t := Terminated(ls[1..]);
    assert ls[0] == StatusLine;
    assert Handshake(headers, sha1Base64) == StatusLine + Eol + t + Eol;
    TerminatedEnds(ls[1..]);
    assert (t + Eol)[|t + Eol| - 4..] == Eol + Eol;
  }

  /** Without a key, the reply is the four fixed lines and the empty line. */
  lemma HandshakeWithoutKey(headers: map<string, string>, sha1Base64: string -> string)
    requires !HasKey(headers)
    ensures Handshake(headers, sha1Base64)
         == StatusLine + Eol + "Upgrade: WebSocket" + Eol + "Connection: Upgrade" + Eol
            + "Sec-WebSocket-Version: 13" + Eol + Eol
  {
    var ls := HeaderLines(headers, sha1Base64);
    assert ls == FixedLines;
    TerminatedFour(ls[0], ls[1], ls[2], ls[3], []);
  }

  /** With a key, the accept line comes last, before the empty line. */
  lemma HandshakeWithKey(headers: map<string, string>, sha1Base64: string -> string)
    requires HasKey(headers)
    ensures Handshake(headers, sha1Base64)
         == StatusLine + Eol + "Upgrade: WebSocket" + Eol + "Connection: Upgrade" + Eol
            + "Sec-WebSocket-Version: 13" + Eol
            + "Sec-WebSocket-Accept: " + sha1Base64(headers[KeyHeader] + Guid) + Eol + Eol
  {
    var ls := HeaderLines(headers, sha1Base64);
    var accept := "Sec-WebSocket-Accept: " + sha1Base64(headers[KeyHeader] + Guid);
    assert ls == FixedLines + [accept];
    TerminatedFour(ls[0], ls[1], ls[2], ls[3], [accept]);
    assert [accept][1..] == [];
    assert Terminated([accept]) == accept + Eol;
  }

  lemma TerminatedFour(a: string, b: string, c: string, d: string, rest: seq<string>)
    ensures Terminated([a, b, c, d] + rest) == a + Eol + b + Eol + c + Eol + d + Eol + Terminated(rest)
  {
    var ls := [a, b, c, d] + rest;
    assert ls[1..] == [b, c, d] + rest;
    assert ls[1..][1..] == [c, d] + rest;
    assert ls[1..][1..][1..] == [d] + rest;
    assert ls[1..][1..][1..][1..] == rest;
    var t := Terminated(rest);
    assert Terminated(ls[1..][1..][1..]) == d + Eol + t;
    assert Terminated(ls[1..][1..]) == c + Eol + (d + Eol + t);
    assert Terminated(ls[1..]) == b + Eol + (c + Eol + (d + Eol + t));
    assert Terminated(ls) == a + Eol + (b + Eol + (c + Eol + (d + Eol + t)));
  }
}
