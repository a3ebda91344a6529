/** The client side of a SOCKS 5 handshake: the messages, the reading of replies, and whole
    conversations with a server. */
module Socks5 {
  import opened Wrappers

  type byte = x: nat | x < 256
  type Bytes = seq<byte>

  function Int(b: byte): nat { b }

  const VERSION: byte := 5
  const CONNECT: byte := 1
  const RESERVED: byte := 0
  const NO_AUTH: byte := 0
  const USERPASS: byte := 2
  const AUTHORIZE: byte := 1
  const IPV4: byte := 1
  const NAME: byte := 3
  const IPV6: byte := 4
  const SOCKS4_GRANTED := 0x5A

  /** What a handler is created with. `offered` is the user name of the socket, which decides
      the methods offered; user and password are the handler's own. */
  datatype Client = Client(offered: Bytes, user: Bytes, password: Bytes, host: Bytes, port: int)

  // ------------------------------------------- messages

  function Negotiation(user: Bytes): Bytes {
    var methods := if user == [] then [NO_AUTH] else [NO_AUTH, USERPASS];
    [VERSION, |methods|] + methods
  }

  /** None where the length of a string does not fit in a byte. */
  function Authorization(user: Bytes, password: Bytes): Option<Bytes> {
    if |user| > 255 || |password| > 255 then None
    else Some([AUTHORIZE, |user|] + user + [|password|] + password)
  }

  /** None where the host name does not fit in 255 bytes or the port in 16 bits. */
  function Request(host: Bytes, port: int): Option<Bytes> {
    if |host| > 255 || !(0 <= port < 0x1_0000) then None
    else Some([VERSION, CONNECT, RESERVED, NAME, |host|] + host + [port / 256, port % 256])
  }

  // ------------------------------------------- how a server reads them

  /** Section 3 of RFC 1928: version, number of methods, methods. */
  function ReadNegotiation(m: Bytes): Option<Bytes> {
    if |m| >= 2 && m[0] == 5 && |m| == 2 + Int(m[1]) then Some(m[2..]) else None
  }

  /** Section 2 of RFC 1929: version, user name and password, each with its length. */
  function ReadAuthorization(m: Bytes): Option<(Bytes, Bytes)> {
    if |m| >= 2 && m[0] == 1 && |m| >= 3 + Int(m[1]) && |m| == 3 + Int(m[1]) + Int(m[2 + Int(m[1])]) then
      Some((m[2..2 + Int(m[1])], m[3 + Int(m[1])..]))
    else None
  }

  /** Sections 4 and 5 of RFC 1928: a CONNECT request for a domain name. */
  function ReadRequest(m: Bytes): Option<(Bytes, nat)> {
    if |m| >= 5 && m[0] == 5 && m[1] == 1 && m[2] == 0 && m[3] == 3 && |m| == 7 + Int(m[4]) then
      Some((m[5..5 + Int(m[4])], Int(m[5 + Int(m[4])]) * 256 + m[6 + Int(m[4])]))
    else None
  }

  /** The server learns the methods, the credentials and the address that the client means;
      a message is refused exactly if a field does not fit. */
  lemma MessagesReadBack(user: Bytes, password: Bytes, host: Bytes, port: int)
    ensures var methods := ReadNegotiation(Negotiation(user));
            methods == Some(if user == [] then [0] else [0, 2])
    ensures Authorization(user, password).Some? <==> |user| <= 255 && |password| <= 255
    ensures Authorization(user, password).Some? ==>
              ReadAuthorization(Authorization(user, password).value) == Some((user, password))
    ensures Request(host, port).Some? <==> |host| <= 255 && 0 <= port <= 65535
    ensures Request(host, port).Some? ==> ReadRequest(Request(host, port).value) == Some((host, port))
  {
    if |user| <= 255 && |password| <= 255 {
      var m := Authorization(user, password).value;
      assert m[2 + |user|] == |password|;
      assert m[2..2 + |user|] == user && m[3 + |user|..] == password;
    }
    if |host| <= 255 && 0 <= port <= 65535 {
      var m := Request(host, port).value;
      assert m[5..5 + |host|] == host;
      assert m[5 + |host|] == port / 256 && m[6 + |host|] == port % 256;
    }
  }

  // ------------------------------------------- replies

  datatype State = Acceptable | Authorize | Requesting

  /** socks_response: the next state and a code that is zero on success. None stands for the
      exceptions raised by replies that are too short or of no known version. */
  function Response(text: Bytes): Option<(State, int)> {
    if |text| < 2 then None
    else
      var version, code, rest := text[0], text[1], text[2..];
      if version == 0 then
        if |rest| >= 6 then Some((Acceptable, code - SOCKS4_GRANTED)) else None
      else if version == VERSION then
        if rest == [] then
          if code == USERPASS then Some((Authorize, 0)) else Some((Requesting, code))
        else if |rest| < 2 then None
        else if rest[1] == IPV4 then
          if |rest| == 8 then Some((Acceptable, code)) else None
        else if rest[1] == NAME then Some((Acceptable, code))
        else Some((Acceptable, -1))
      else if version == AUTHORIZE then Some((Requesting, code))
      else None
  }

  datatype Action = Send(message: Bytes) | Accept | Raise

  function SendOrRaise(message: Option<Bytes>): Action {
    if message.Some? then Send(message.value) else Raise
  }

  /** SocksHandler.parse: what to do about a reply. */
  function Parse(c: Client, text: Bytes): Action {
    match Response(text)
    case None => Raise
    case Some((state, code)) =>
      if code != 0 then Raise
      else
        match state
        case Authorize => SendOrRaise(Authorization(c.user, c.password))
        case Requesting => SendOrRaise(Request(c.host, c.port))
        case Acceptable => Accept
  }

  // ------------------------------------------- conversations

  datatype End = Accepted | Raised | Blocked

  /** The messages sent after the first, and how it ends, when the server's replies are
      these; empty reads are repeated. */
  function Converse(c: Client, replies: seq<Bytes>): (seq<Bytes>, End)
    decreases |replies|
  {
    if replies == [] then ([], Blocked)
    else if replies[0] == [] then Converse(c, replies[1..])
    else
      match Parse(c, replies[0])
      case Accept => ([], Accepted)
      case Raise => ([], Raised)
      case Send(m) => var (sent, end) := Converse(c, replies[1..]); ([m] + sent, end)
  }

  /** A handler and the socket it talks through. */
  class Handler {
    const client: Client
    var incoming: seq<Bytes>
    var sent: seq<Bytes>
    var buf: Bytes

    constructor (client: Client, incoming: seq<Bytes>)
      ensures this.client == client && this.incoming == incoming && sent == [] && buf == []
    {
      this.client, this.incoming := client, incoming;
      sent, buf := [], [];
    }

    /** Send a message and deal with the reply; the empty message ends the conversation. */
    method SendData(data: Bytes) returns (end: End)
      modifies this
      ensures data == [] ==> end == Accepted && unchanged(this)
      ensures data != [] ==> (sent, end) == (old(sent) + [data] + Converse(client, old(incoming)).0,
                                             Converse(client, old(incoming)).1)
      decreases |incoming|
    {
      if data == [] {
        return Accepted;
      }
      sent := sent + [data];
      ghost var replies := incoming;
      assert sent + [] == sent;
      while incoming != [] && incoming[0] == []
        invariant sent == old(sent) + [data] && |incoming| <= |replies|
        invariant Converse(client, incoming) == Converse(client, replies)
        decreases |incoming|
      {
        incoming := incoming[1..];
      }
      if incoming == [] {
        return Blocked;
      }
      buf, incoming := incoming[0], incoming[1..];
      match Parse(client, buf) {
        case Raise =>
          return Raised;
        case Accept =>
          end := SendData([]);
        case Send(m) =>
          SentNotEmpty(client, buf);
          ghost var more := Converse(client, incoming).0;
          assert old(sent) + [data] + ([m] + more) == old(sent) + [data] + [m] + more;
          end := SendData(m);
      }
    }

    /** The whole handshake, started by the constructor of the original handler. */
    method Handshake() returns (end: End)
      modifies this
      ensures (sent, end) == (old(sent) + [Negotiation(client.offered)] + Converse(client, old(incoming)).0,
                              Converse(client, old(incoming)).1)
    {
      end := SendData(Negotiation(client.offered));
    }
  }

  lemma SentNotEmpty(c: Client, text: Bytes)
    ensures Parse(c, text).Send? ==> Parse(c, text).message != []
  {
  }

  // ------------------------------------------- servers that keep to the protocol

  /** What a server is to reply to: the method offer, the credentials, the request. */
  datatype Stage = Method | Credentials | Connection | Over

  function NextStage(s: Stage, reply: Bytes): Stage
    requires |reply| >= 2
  {
    match s
    case Method => if reply[1] == USERPASS then Credentials else if reply[1] == NO_AUTH then Connection else Over
    case Credentials => if reply[1] == 0 then Connection else Over
    case Connection => Over
    case Over => Over
  }

  /** A reply framed as in sections 3 and 6 of RFC 1928 and section 2 of RFC 1929. */
  predicate Framed(s: Stage, reply: Bytes) {
    match s
    case Method => |reply| == 2 && reply[0] == 5
    case Credentials => |reply| == 2 && reply[0] == 1
    case Connection =>
      && |reply| >= 5 && reply[0] == 5 && reply[2] == 0
      && match reply[3] {
         case 1 => |reply| == 10
         case 3 => |reply| == 7 + Int(reply[4])
         case 4 => |reply| == 22
         case _ => false
      }
    case Over => false
  }

  /** The server answers what it is asked, for as long as there is something to answer. */
  predicate Orderly(s: Stage, replies: seq<Bytes>)
    decreases |replies|
  {
    replies == [] || s == Over || (Framed(s, replies[0]) && Orderly(NextStage(s, replies[0]), replies[1..]))
  }

  /** One framed reply: the client follows the server's stage, gives up, or is done. */
  lemma FollowsStage(c: Client, s: Stage, reply: Bytes)
    requires Framed(s, reply)
    ensures var next, action := NextStage(s, reply), Parse(c, reply);
            match next
            case Credentials => action == SendOrRaise(Authorization(c.user, c.password))
            case Connection => action == SendOrRaise(Request(c.host, c.port))
            case _ => action == if s == Connection && reply[1] == 0 && reply[3] != IPV6 then Accept else Raise
  {
  }

  /** A successful answer to the request; with an IPv6 address in it the client gives up. */
  predicate Granted(reply: Bytes) {
    Framed(Connection, reply) && reply[1] == 0 && reply[3] != IPV6
  }

  /** The request goes out, if its fields fit, and the next reply decides. */
  function RequestAndEnd(c: Client, replies: seq<Bytes>): (seq<Bytes>, End) {
    match Request(c.host, c.port)
    case None => ([], Raised)
    case Some(m) => ([m], if replies == [] then Blocked else if Granted(replies[0]) then Accepted else Raised)
  }

  lemma ConnectionReply(c: Client, replies: seq<Bytes>)
    requires Orderly(Connection, replies)
    ensures Converse(c, replies) ==
            ([], if replies == [] then Blocked else if Granted(replies[0]) then Accepted else Raised)
  {
    if replies != [] {
      FollowsStage(c, Connection, replies[0]);
    }
  }

  lemma RequestThen(c: Client, replies: seq<Bytes>)
    requires replies != [] && replies[0] != [] && Parse(c, replies[0]) == SendOrRaise(Request(c.host, c.port))
    requires Orderly(Connection, replies[1..])
    ensures Converse(c, replies) == RequestAndEnd(c, replies[1..])
  {
    hide Parse, Request, Granted;
    ConnectionReply(c, replies[1..]);
    match Request(c.host, c.port) {
      case None =>
      case Some(m) => assert [m] + [] == [m];
    }
  }

  function CredentialsAndMore(c: Client, replies: seq<Bytes>): (seq<Bytes>, End) {
    match Authorization(c.user, c.password)
    case None => ([], Raised)
    case Some(m) => var (sent, end) := Converse(c, replies); ([m] + sent, end)
  }

  /** The three ways a framed handshake can go. */
  lemma HandshakeForms(c: Client, replies: seq<Bytes>)
    requires Orderly(Method, replies) && replies != []
    ensures replies[0] == [5, 0] ==> Orderly(Connection, replies[1..])
    ensures replies[0] == [5, 0] ==> Converse(c, replies) == RequestAndEnd(c, replies[1..])
    ensures replies[0] == [5, 2] ==> Orderly(Credentials, replies[1..])
    ensures replies[0] == [5, 2] ==> Converse(c, replies) == CredentialsAndMore(c, replies[1..])
    ensures replies[0] != [5, 0] && replies[0] != [5, 2] ==> Converse(c, replies) == ([], Raised)
  {
    hide Request, Authorization, Granted;
    FollowsStage(c, Method, replies[0]);
    if replies[0][1] == NO_AUTH {
      RequestThen(c, replies);
    }
  }

  lemma CredentialsForms(c: Client, replies: seq<Bytes>)
    requires Orderly(Credentials, replies) && replies != []
    ensures replies[0] == [1, 0] ==> Orderly(Connection, replies[1..])
    ensures replies[0] == [1, 0] ==> Converse(c, replies) == RequestAndEnd(c, replies[1..])
    ensures replies[0] != [1, 0] ==> Converse(c, replies) == ([], Raised)
  {
    hide Request, Authorization, Granted;
    FollowsStage(c, Credentials, replies[0]);
    if replies[0][1] == 0 {
      RequestThen(c, replies);
    }
  }

  /** The server's go-ahead for the request. */
  predicate GoAhead(reply: Bytes) {
    reply == [5, 0] || reply == [1, 0]
  }

  /** Against every server that frames its replies: at most three messages go out, the offer
      included; the credentials only when asked for; the request only directly after a
      go-ahead; and the client waits forever only for a reply that never comes. */
  lemma HandshakeSafe(c: Client, replies: seq<Bytes>)
    requires Orderly(Method, replies)
    ensures var (sent, end) := Converse(c, replies);
            && |sent| <= 2
            && (end == Blocked ==> |replies| == |sent|)
            && (forall i :: 0 <= i < |sent| ==>
                  && i < |replies|
                  && if GoAhead(replies[i]) then Request(c.host, c.port) == Some(sent[i])
                     else i == 0 && replies[0] == [5, 2] && Authorization(c.user, c.password) == Some(sent[0]))
  {
    hide Request, Authorization, Granted;
    if replies != [] {
      HandshakeForms(c, replies);
      if replies[0] == [5, 2] && |replies| > 1 {
        CredentialsForms(c, replies[1..]);
        assert replies[1..][0] == replies[1];
      }
    }
  }

  /** It accepts exactly when every step was granted: after two exchanges without
      credentials, after three with them. */
  lemma HandshakeAccepts(c: Client, replies: seq<Bytes>)
    requires Orderly(Method, replies)
    ensures Converse(c, replies).1 == Accepted <==>
            && Request(c.host, c.port).Some?
            && (|| (|replies| >= 2 && replies[0] == [5, 0] && Granted(replies[1]))
                || (|replies| >= 3 && replies[0] == [5, 2] && Authorization(c.user, c.password).Some?
                    && replies[1] == [1, 0] && Granted(replies[2])))
  {
    hide Request, Authorization, Granted;
    if replies != [] {
      HandshakeForms(c, replies);
      if replies[0] == [5, 2] && |replies| > 1 {
        CredentialsForms(c, replies[1..]);
        assert replies[1..][0] == replies[1];
        assert |replies| > 2 ==> replies[1..][1] == replies[2];
      }
    }
  }

  /** A request granted with an IPv6 address in the reply, which the client takes for a failure. */
  lemma Ipv6Example(c: Client)
    requires Request(c.host, c.port).Some?
    ensures var granted: Bytes := [5, 0, 0, 4] + seq(18, _ => 0);
            Framed(Connection, granted) && Orderly(Method, [[5, 0], granted]) && Converse(c, [[5, 0], granted]).1 == Raised
  {
    hide Request;
    var granted: Bytes := [5, 0, 0, 4] + seq(18, _ => 0);
    var replies: seq<Bytes> := [[5, 0], granted];
    assert replies[1..] == [granted] && [granted][1..] == [];
    assert Orderly(Over, []) && Orderly(Connection, [granted]);
    HandshakeForms(c, replies);
  }

  /** Replies framed in any way: those of version 4 are accepted when granted, those too short
      or of another version raise, and what answers the request is accepted with code 0 and a
      name, or an IPv4 address of the right length. */
  lemma OtherReplies(c: Client, reply: Bytes)
    ensures |reply| < 2 || reply[0] !in {0, 1, 5} ==> Parse(c, reply) == Raise
    ensures |reply| >= 2 && reply[0] == 0 ==> Parse(c, reply) == if |reply| >= 8 && reply[1] == 90 then Accept else Raise
    ensures |reply| == 3 && reply[0] == 5 ==> Parse(c, reply) == Raise
    ensures |reply| >= 2 && reply[0] == 1 ==>
              Parse(c, reply) == if reply[1] == 0 then SendOrRaise(Request(c.host, c.port)) else Raise
    ensures |reply| >= 4 && reply[0] == 5 ==>
              Parse(c, reply) == if reply[1] == 0 && (reply[3] == 3 || (reply[3] == 1 && |reply| == 10)) then Accept else Raise
  {
  }
}
