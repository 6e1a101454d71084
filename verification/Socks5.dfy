/** The handshake of the SOCKS5 proxy, RFC 1928 and RFC 1929, over any segmentation of the client's bytes. */
module Socks5 {
  import opened Bits
  import opened Wrappers

  const VERSION: byte := 5
  const AUTH_VERSION: byte := 1
  const NO_AUTH: byte := 0x00
  const USERNAME_PASSWORD: byte := 0x02
  const NO_ACCEPTABLE_METHOD: byte := 0xFF
  const CONNECT_COMMAND: byte := 0x01
  const ATYP_IPV4: byte := 0x01
  const ATYP_DOMAIN: byte := 0x03
  const ATYP_IPV6: byte := 0x04
  const SUCCEEDED: byte := 0x00
  const NOT_ALLOWED: byte := 0x02
  const HOST_UNREACHABLE: byte := 0x04
  const COMMAND_NOT_SUPPORTED: byte := 0x07
  const ADDRESS_NOT_SUPPORTED: byte := 0x08

  type Bytes = seq<byte>

  // A destination, as it was sent.
  datatype Address = IPv4(raw: Bytes) | IPv6(raw: Bytes) | Name(raw: Bytes)
  datatype Target = Target(address: Address, port: nat)

  datatype Credential = Credential(username: Bytes, password: Bytes)
  datatype Bound = BoundIPv4 | BoundIPv6 | BoundDomain

  // What the proxy was started with, and what the network answers.
  datatype Config = Config(
    credential: Option<Credential>,
    bound: Bound,
    forbids: Target -> bool,
    reaches: Target -> bool)

  // A connection: what the client has sent arrives in segments, none of them empty. After them the
  // stream has ended, or receiving is an error.
  class Socket {
    var segments: seq<Bytes>
    var sent: Bytes
    const fails: bool

    constructor (segments: seq<Bytes>, fails: bool)
      requires forall i :: 0 <= i < |segments| ==> segments[i] != []
      ensures this.segments == segments && this.fails == fails && sent == [] && Valid()
    {
      this.segments, this.fails, sent := segments, fails, [];
    }

    ghost predicate Valid()
      reads this
    {
      forall i :: 0 <= i < |segments| ==> segments[i] != []
    }

    ghost function Pending(): Bytes
      reads this
    {
      Flatten(segments)
    }

    // At most `count` bytes, of one segment; none at the end of the stream, and nothing on an error.
    method Recv(count: nat) returns (received: Option<Bytes>)
      requires Valid() && count > 0
      modifies `segments
      ensures Valid() && (received.None? <==> fails && old(Pending()) == [])
      ensures received.None? ==> Pending() == []
      ensures received.Some? ==> |received.value| <= count && old(Pending()) == received.value + Pending()
      ensures received == Some([]) ==> Pending() == []
    {
      if segments == [] {
        return if fails then None else Some([]);
      }
      var chunk: Bytes;
      var first := segments[0];
      if |first| <= count {
        chunk := first;
        segments := segments[1..];
      } else {
        chunk := first[..count];
        ghost var rest := segments[1..];
        segments := [first[count..]] + segments[1..];
        assert segments[1..] == rest && first == chunk + first[count..];
      }
      return Some(chunk);
    }

    method SendAll(bytes: Bytes)
      modifies `sent
      ensures sent == old(sent) + bytes
    {
      sent := sent + bytes;
    }
  }

  function Flatten(segments: seq<Bytes>): Bytes {
    if segments == [] then [] else segments[0] + Flatten(segments[1..])
  }

  // What receiving exactly `count` bytes gives, and what it leaves. A stream that is too short is
  // used up.
  datatype Received = Received(bytes: Option<Bytes>, rest: Bytes)

  function Receive(input: Bytes, count: nat): (r: Received)
    ensures r.bytes.Some? ==> |r.bytes.value| == count && input == r.bytes.value + r.rest
  {
    if count <= |input| then Received(Some(input[..count]), input[count..]) else Received(None, [])
  }

  method RecvExactly(sock: Socket, count: nat) returns (bytes: Option<Bytes>)
    requires sock.Valid()
    modifies sock`segments
    ensures sock.Valid() && Received(bytes, sock.Pending()) == Receive(old(sock.Pending()), count)
  {
    var out: Bytes := [];
    while |out| < count
      invariant sock.Valid() && |out| <= count && out + sock.Pending() == old(sock.Pending())
    {
      var received := sock.Recv(count - |out|);
      if received == None {
        return None;
      }
      var chunk := received.value;
      assert out + (chunk + sock.Pending()) == out + chunk + sock.Pending();
      if chunk == [] {
        return None;
      }
      out := out + chunk;
    }
    return Some(out);
  }

  // One part of the handshake: what it came to, what was sent, and what is left to read.
  datatype Step<+T> = Step(value: Option<T>, sent: Bytes, rest: Bytes)

  function Authenticate(want: Credential, input: Bytes): Step<Credential> {
    var head := Receive(input, 2);
    if head.bytes.None? || head.bytes.value[0] != AUTH_VERSION then Step(None, [], head.rest)
    else
      var username := Receive(head.rest, head.bytes.value[1]);
      var length := Receive(username.rest, 1);
      if username.bytes.None? || length.bytes.None? then Step(None, [], length.rest)
      else
        var password := Receive(length.rest, length.bytes.value[0]);
        if password.bytes.None? then Step(None, [], password.rest)
        else
          var got := Credential(username.bytes.value, password.bytes.value);
          if got != want then Step(None, [AUTH_VERSION, 1], password.rest)
          else Step(Some(got), [AUTH_VERSION, 0], password.rest)
  }

  function Greet(config: Config, input: Bytes): Step<()> {
    var head := Receive(input, 2);
    if head.bytes.None? || head.bytes.value[0] != VERSION then Step(None, [], head.rest)
    else
      var methods := Receive(head.rest, head.bytes.value[1]);
      if methods.bytes.None? then Step(None, [], methods.rest)
      else if config.credential.Some? then
        if USERNAME_PASSWORD !in methods.bytes.value then Step(None, [VERSION, NO_ACCEPTABLE_METHOD], methods.rest)
        else
          var a := Authenticate(config.credential.value, methods.rest);
          Step(if a.value.Some? then Some(()) else None, [VERSION, USERNAME_PASSWORD] + a.sent, a.rest)
      else if NO_AUTH !in methods.bytes.value then Step(None, [VERSION, NO_ACCEPTABLE_METHOD], methods.rest)
      else Step(Some(()), [VERSION, NO_AUTH], methods.rest)
  }

  function Zeros(n: nat): Bytes {
    seq(n, i => 0)
  }

  const PROXY_NAME: Bytes := [112, 114, 111, 120, 121, 46, 105, 110, 118, 97, 108, 105, 100]

  function Reply(bound: Bound, code: byte): Bytes {
    [VERSION, code, 0] +
    (match bound
     case BoundIPv6 => [ATYP_IPV6] + Zeros(16)
     case BoundDomain => [ATYP_DOMAIN, |PROXY_NAME|] + PROXY_NAME
     case BoundIPv4 => [ATYP_IPV4] + Zeros(4)) +
    Zeros(2)
  }

  // The address after its kind. An empty name is no host.
  function ReadAddress(kind: byte, input: Bytes): (r: Step<Address>)
    requires kind == ATYP_IPV4 || kind == ATYP_IPV6 || kind == ATYP_DOMAIN
  {
    if kind == ATYP_IPV4 then
      var raw := Receive(input, 4);
      Step(if raw.bytes.Some? then Some(IPv4(raw.bytes.value)) else None, [], raw.rest)
    else if kind == ATYP_IPV6 then
      var raw := Receive(input, 16);
      Step(if raw.bytes.Some? then Some(IPv6(raw.bytes.value)) else None, [], raw.rest)
    else
      var length := Receive(input, 1);
      if length.bytes.None? then Step(None, [], length.rest)
      else
        var raw := Receive(length.rest, length.bytes.value[0]);
        Step(if raw.bytes.Some? && raw.bytes.value != [] then Some(Name(raw.bytes.value)) else None, [], raw.rest)
  }

  // Two bytes, the high one first.
  function Port(raw: Bytes): nat
    requires |raw| == 2
  {
    var high: nat, low: nat := raw[0], raw[1];
    high * 256 + low
  }

  function ReadRequest(config: Config, input: Bytes): Step<Target> {
    var head := Receive(input, 4);
    if head.bytes.None? || head.bytes.value[0] != VERSION then Step(None, [], head.rest)
    else if head.bytes.value[1] != CONNECT_COMMAND then
      Step(None, Reply(config.bound, COMMAND_NOT_SUPPORTED), head.rest)
    else
      var kind := head.bytes.value[3];
      if kind != ATYP_IPV4 && kind != ATYP_IPV6 && kind != ATYP_DOMAIN then
        Step(None, Reply(config.bound, ADDRESS_NOT_SUPPORTED), head.rest)
      else
        var host := ReadAddress(kind, head.rest);
        var port := Receive(host.rest, 2);
        if host.value.None? || port.bytes.None? then Step(None, [], port.rest)
        else Step(Some(Target(host.value.value, Port(port.bytes.value))), [], port.rest)
  }

  // The whole handshake: the target of the tunnel if there is one, all that is sent before it, and
  // the bytes that belong to the tunnel.
  function Serve(config: Config, input: Bytes): Step<Target> {
    var greeting := Greet(config, input);
    if greeting.value.None? then Step(None, greeting.sent, greeting.rest)
    else
      var request := ReadRequest(config, greeting.rest);
      var sent := greeting.sent + request.sent;
      if request.value.None? then Step(None, sent, request.rest)
      else if config.forbids(request.value.value) then
        Step(None, sent + Reply(config.bound, NOT_ALLOWED), request.rest)
      else if !config.reaches(request.value.value) then
        Step(None, sent + Reply(config.bound, HOST_UNREACHABLE), request.rest)
      else Step(request.value, sent + Reply(config.bound, SUCCEEDED), request.rest)
  }

  // A part of the handler did on the socket what the step says of the bytes that were pending.
  twostate predicate Did<T>(sock: Socket, step: Step<T>)
    reads sock
  {
    sock.Valid() && sock.sent == old(sock.sent) + step.sent && sock.Pending() == step.rest
  }

  method AuthenticateClient(want: Credential, sock: Socket) returns (ok: bool)
    requires sock.Valid()
    modifies sock
    ensures ok <==> Authenticate(want, old(sock.Pending())).value.Some?
    ensures Did(sock, Authenticate(want, old(sock.Pending())))
  {
    hide Flatten, Receive;
    var head := RecvExactly(sock, 2);
    if head == None || head.value[0] != AUTH_VERSION {
      return false;
    }
    var username := RecvExactly(sock, head.value[1]);
    var length := RecvExactly(sock, 1);
    if username == None || length == None {
      return false;
    }
    var password := RecvExactly(sock, length.value[0]);
    if password == None {
      return false;
    }
    if Credential(username.value, password.value) != want {
      sock.SendAll([AUTH_VERSION, 1]);
      return false;
    }
    sock.SendAll([AUTH_VERSION, 0]);
    return true;
  }

  method GreetClient(config: Config, sock: Socket) returns (ok: bool)
    requires sock.Valid()
    modifies sock
    ensures ok <==> Greet(config, old(sock.Pending())).value.Some?
    ensures Did(sock, Greet(config, old(sock.Pending())))
  {
    hide Flatten, Receive, Authenticate;
    var head := RecvExactly(sock, 2);
    if head == None || head.value[0] != VERSION {
      return false;
    }
    var methods := RecvExactly(sock, head.value[1]);
    if methods == None {
      return false;
    }
    if config.credential.Some? {
      if USERNAME_PASSWORD !in methods.value {
        sock.SendAll([VERSION, NO_ACCEPTABLE_METHOD]);
        return false;
      }
      sock.SendAll([VERSION, USERNAME_PASSWORD]);
      ok := AuthenticateClient(config.credential.value, sock);
      return;
    }
    if NO_AUTH !in methods.value {
      sock.SendAll([VERSION, NO_ACCEPTABLE_METHOD]);
      return false;
    }
    sock.SendAll([VERSION, NO_AUTH]);
    return true;
  }

  method ReadAddressFrom(kind: byte, sock: Socket) returns (host: Option<Address>)
    requires sock.Valid() && (kind == ATYP_IPV4 || kind == ATYP_IPV6 || kind == ATYP_DOMAIN)
    modifies sock`segments
    ensures host == ReadAddress(kind, old(sock.Pending())).value
    ensures sock.Valid() && sock.Pending() == ReadAddress(kind, old(sock.Pending())).rest
  {
    host := None;
    if kind == ATYP_IPV4 {
      var raw := RecvExactly(sock, 4);
      if raw != None {
        host := Some(IPv4(raw.value));
      }
    } else if kind == ATYP_IPV6 {
      var raw := RecvExactly(sock, 16);
      if raw != None {
        host := Some(IPv6(raw.value));
      }
    } else {
      var length := RecvExactly(sock, 1);
      if length == None {
        return;
      }
      var raw := RecvExactly(sock, length.value[0]);
      if raw != None && raw.value != [] {
        host := Some(Name(raw.value));
      }
    }
  }

  method ReadRequestFrom(config: Config, sock: Socket) returns (target: Option<Target>)
    requires sock.Valid()
    modifies sock
    ensures target == ReadRequest(config, old(sock.Pending())).value
    ensures Did(sock, ReadRequest(config, old(sock.Pending())))
  {
    hide Flatten, Receive, Reply, ReadAddress;
    var head := RecvExactly(sock, 4);
    if head == None || head.value[0] != VERSION {
      return None;
    }
    if head.value[1] != CONNECT_COMMAND {
      sock.SendAll(Reply(config.bound, COMMAND_NOT_SUPPORTED));
      return None;
    }
    var kind := head.value[3];
    if kind != ATYP_IPV4 && kind != ATYP_IPV6 && kind != ATYP_DOMAIN {
      sock.SendAll(Reply(config.bound, ADDRESS_NOT_SUPPORTED));
      return None;
    }
    var host := ReadAddressFrom(kind, sock);
    var port := RecvExactly(sock, 2);
    if host == None || port == None {
      return None;
    }
    return Some(Target(host.value, Port(port.value)));
  }

  // However the client's bytes are cut into segments, the handler does what the handshake says of
  // the bytes alone: the same verdict, the same replies, and the tunnel starting at the same byte.
  method ServeClient(config: Config, sock: Socket) returns (tunnel: Option<Target>)
    requires sock.Valid()
    modifies sock
    ensures tunnel == Serve(config, old(sock.Pending())).value
    ensures Did(sock, Serve(config, old(sock.Pending())))
  {
    hide Greet, ReadRequest, Reply, Flatten;
    var greeted := GreetClient(config, sock);
    if !greeted {
      return None;
    }
    var target := ReadRequestFrom(config, sock);
    if target == None {
      return None;
    }
    if config.forbids(target.value) {
      sock.SendAll(Reply(config.bound, NOT_ALLOWED));
      return None;
    }
    if !config.reaches(target.value) {
      sock.SendAll(Reply(config.bound, HOST_UNREACHABLE));
      return None;
    }
    sock.SendAll(Reply(config.bound, SUCCEEDED));
    return target;
  }

  // The messages of a client that follows the standard.
  predicate Short(b: Bytes) {
    |b| < 256
  }

  function Greeting(methods: Bytes): Bytes
    requires Short(methods)
  {
    [VERSION, |methods|] + methods
  }

  function Login(c: Credential): Bytes
    requires Short(c.username) && Short(c.password)
  {
    [AUTH_VERSION, |c.username|] + c.username + [|c.password|] + c.password
  }

  predicate IsAddress(a: Address) {
    match a
    case IPv4(raw) => |raw| == 4
    case IPv6(raw) => |raw| == 16
    case Name(raw) => Short(raw) && raw != []
  }

  function KindOf(a: Address): byte {
    match a
    case IPv4(_) => ATYP_IPV4
    case IPv6(_) => ATYP_IPV6
    case Name(_) => ATYP_DOMAIN
  }

  function AddressBytes(a: Address): Bytes
    requires IsAddress(a)
  {
    match a
    case Name(raw) => [|raw|] + raw
    case _ => a.raw
  }

  predicate IsTarget(t: Target) {
    IsAddress(t.address) && t.port < 0x1_0000
  }

  // The reserved byte is not looked at.
  function Request(t: Target, reserved: byte): Bytes
    requires IsTarget(t)
  {
    [VERSION, CONNECT_COMMAND, reserved, KindOf(t.address)] + AddressBytes(t.address) + [t.port / 256, t.port % 256]
  }

  predicate Chosen(config: Config, methods: Bytes) {
    Short(methods) && (if config.credential.Some? then USERNAME_PASSWORD else NO_AUTH) in methods
  }

  // The credential that is demanded can be sent at all.
  predicate CanLogin(config: Config) {
    match config.credential
    case None => true
    case Some(c) => Short(c.username) && Short(c.password)
  }

  function Opening(config: Config, methods: Bytes): Bytes
    requires CanLogin(config) && Short(methods)
  {
    Greeting(methods) + (if config.credential.Some? then Login(config.credential.value) else [])
  }

  // The method that was chosen, the login that was accepted if one was demanded, and one success.
  function OpeningReplies(config: Config): Bytes {
    if config.credential.Some? then [VERSION, USERNAME_PASSWORD] + [AUTH_VERSION, 0] else [VERSION, NO_AUTH]
  }

  lemma ReceivePart(part: Bytes, rest: Bytes)
    ensures Receive(part + rest, |part|) == Received(Some(part), rest)
  {
  }

  lemma GreetsBack(config: Config, methods: Bytes, rest: Bytes)
    requires CanLogin(config) && Chosen(config, methods)
    ensures Greet(config, Opening(config, methods) + rest) == Step(Some(()), OpeningReplies(config), rest)
  {
    var login := if config.credential.Some? then Login(config.credential.value) else [];
    var head: Bytes := [VERSION, |methods|];
    assert Opening(config, methods) + rest == head + (methods + (login + rest));
    ReceivePart(head, methods + (login + rest));
    ReceivePart(methods, login + rest);
    if config.credential.Some? {
      LogsIn(config.credential.value, rest);
    } else {
      assert login + rest == rest;
    }
  }

  lemma LoginParts(c: Credential, rest: Bytes)
    requires Short(c.username) && Short(c.password)
    ensures Login(c) + rest == [AUTH_VERSION, |c.username|] + (c.username + ([|c.password|] + (c.password + rest)))
  {
  }

  lemma LogsIn(c: Credential, rest: Bytes)
    requires Short(c.username) && Short(c.password)
    ensures Authenticate(c, Login(c) + rest) == Step(Some(c), [AUTH_VERSION, 0], rest)
  {
    var head: Bytes, length: Bytes := [AUTH_VERSION, |c.username|], [|c.password|];
    LoginParts(c, rest);
    ReceivePart(head, c.username + (length + (c.password + rest)));
    ReceivePart(c.username, length + (c.password + rest));
    ReceivePart(length, c.password + rest);
    ReceivePart(c.password, rest);
  }

  lemma AddressReads(a: Address, rest: Bytes)
    requires IsAddress(a)
    ensures ReadAddress(KindOf(a), AddressBytes(a) + rest) == Step(Some(a), [], rest)
  {
    match a
    case Name(raw) =>
      var length: Bytes := [|raw|];
      assert AddressBytes(a) + rest == length + (raw + rest);
      ReceivePart(length, raw + rest);
      ReceivePart(raw, rest);
    case _ =>
      ReceivePart(a.raw, rest);
  }

  lemma RequestParts(t: Target, reserved: byte, rest: Bytes)
    requires IsTarget(t)
    ensures Request(t, reserved) + rest ==
      [VERSION, CONNECT_COMMAND, reserved, KindOf(t.address)] +
      (AddressBytes(t.address) + ([t.port / 256, t.port % 256] + rest))
  {
  }

  lemma RequestReads(config: Config, t: Target, reserved: byte, rest: Bytes)
    requires IsTarget(t)
    ensures ReadRequest(config, Request(t, reserved) + rest) == Step(Some(t), [], rest)
  {
    hide ReadAddress, AddressBytes, Request, IsAddress;
    var head: Bytes := [VERSION, CONNECT_COMMAND, reserved, KindOf(t.address)];
    var port: Bytes := [t.port / 256, t.port % 256];
    RequestParts(t, reserved, rest);
    ReceivePart(head, AddressBytes(t.address) + (port + rest));
    AddressReads(t.address, port + rest);
    ReceivePart(port, rest);
  }

  // A client that follows the standard gets its tunnel, and what it sends after its request belongs
  // to the tunnel.
  lemma HandshakeOpensTunnel(config: Config, methods: Bytes, t: Target, reserved: byte, rest: Bytes)
    requires CanLogin(config) && Chosen(config, methods) && IsTarget(t)
    requires !config.forbids(t) && config.reaches(t)
    ensures Serve(config, Opening(config, methods) + Request(t, reserved) + rest) ==
            Step(Some(t), OpeningReplies(config) + Reply(config.bound, 0), rest)
  {
    hide Greet, ReadRequest, Reply, Opening, Request, OpeningReplies;
    var opening, request := Opening(config, methods), Request(t, reserved);
    assert opening + request + rest == opening + (request + rest);
    GreetsBack(config, methods, request + rest);
    RequestReads(config, t, reserved, rest);
    assert OpeningReplies(config) + [] == OpeningReplies(config);
  }

  lemma GreetingWasSent(config: Config, input: Bytes) returns (methods: Bytes)
    requires Greet(config, input).value.Some?
    ensures CanLogin(config) && Chosen(config, methods)
    ensures input == Opening(config, methods) + Greet(config, input).rest
    ensures Greet(config, input).sent == OpeningReplies(config)
  {
    hide Authenticate, Login;
    var head := Receive(input, 2);
    var offered := Receive(head.rest, head.bytes.value[1]);
    methods := offered.bytes.value;
    assert head.bytes.value == [VERSION, |methods|];
    if config.credential.Some? {
      LoginWasSent(config.credential.value, offered.rest);
    }
  }

  lemma LoginWasSent(c: Credential, input: Bytes)
    requires Authenticate(c, input).value.Some?
    ensures Short(c.username) && Short(c.password)
    ensures input == Login(c) + Authenticate(c, input).rest && Authenticate(c, input).sent == [AUTH_VERSION, 0]
  {
    var head := Receive(input, 2);
    var username := Receive(head.rest, head.bytes.value[1]);
    var length := Receive(username.rest, 1);
    var password := Receive(length.rest, length.bytes.value[0]);
    assert head.bytes.value == [AUTH_VERSION, |c.username|] && length.bytes.value == [|c.password|];
    hide Login;
    LoginParts(c, password.rest);
  }

  lemma RequestWasSent(config: Config, input: Bytes) returns (reserved: byte)
    requires ReadRequest(config, input).value.Some?
    ensures var r := ReadRequest(config, input);
      IsTarget(r.value.value) && input == Request(r.value.value, reserved) + r.rest && r.sent == []
  {
    hide ReadAddress, AddressBytes, KindOf;
    var head := Receive(input, 4);
    reserved := head.bytes.value[2];
    var kind := head.bytes.value[3];
    var host := ReadAddress(kind, head.rest);
    var port := Receive(host.rest, 2);
    AddressWasSent(kind, head.rest);
    PortWasSent(port.bytes.value);
    assert head.bytes.value == [VERSION, CONNECT_COMMAND, reserved, kind];
    RequestParts(Target(host.value.value, Port(port.bytes.value)), reserved, port.rest);
  }

  lemma PortWasSent(raw: Bytes)
    requires |raw| == 2
    ensures Port(raw) < 0x1_0000 && raw == [Port(raw) / 256, Port(raw) % 256]
  {
  }

  lemma AddressWasSent(kind: byte, input: Bytes)
    requires kind == ATYP_IPV4 || kind == ATYP_IPV6 || kind == ATYP_DOMAIN
    requires ReadAddress(kind, input).value.Some?
    ensures var r := ReadAddress(kind, input);
      IsAddress(r.value.value) && KindOf(r.value.value) == kind && input == AddressBytes(r.value.value) + r.rest
  {
    if kind == ATYP_DOMAIN {
      var length := Receive(input, 1);
      var raw := Receive(length.rest, length.bytes.value[0]);
      assert length.bytes.value == [|raw.bytes.value|];
    }
  }

  // There is no other way to a tunnel: an offered method was chosen, the credential that was demanded
  // was sent, the target is allowed and was reached, and exactly one success was replied.
  lemma TunnelNeedsHandshake(config: Config, input: Bytes) returns (methods: Bytes, reserved: byte)
    requires Serve(config, input).value.Some?
    ensures var s := Serve(config, input);
      && CanLogin(config) && Chosen(config, methods) && IsTarget(s.value.value)
      && !config.forbids(s.value.value) && config.reaches(s.value.value)
      && input == Opening(config, methods) + Request(s.value.value, reserved) + s.rest
      && s.sent == OpeningReplies(config) + Reply(config.bound, 0)
  {
    hide Greet, ReadRequest, Reply, Opening, Request;
    methods := GreetingWasSent(config, input);
    var greeting := Greet(config, input);
    reserved := RequestWasSent(config, greeting.rest);
    var t := Serve(config, input).value.value;
    var opening, request := Opening(config, methods), Request(t, reserved);
    assert opening + (request + Serve(config, input).rest) == opening + request + Serve(config, input).rest;
    assert greeting.sent + [] == greeting.sent;
  }

  // The replies byte by byte, section 6 of RFC 1928: the bound address is zeros in every form, and a
  // name is counted.
  lemma ReplyLayout(code: byte)
    ensures Reply(BoundIPv4, code) == [5, code, 0, 1, 0, 0, 0, 0, 0, 0]
    ensures Reply(BoundIPv6, code) == [5, code, 0, 4, 0, 0, 0, 0, 0, 0, 0, 0, 0, 0, 0, 0, 0, 0, 0, 0, 0, 0]
    ensures Reply(BoundDomain, code) ==
      [5, code, 0, 3, 13, 112, 114, 111, 120, 121, 46, 105, 110, 118, 97, 108, 105, 100, 0, 0]
  {
    ZerosAre();
    hide Zeros;
  }

  lemma ZerosAre()
    ensures Zeros(2) == [0, 0] && Zeros(4) == [0, 0, 0, 0]
    ensures Zeros(16) == [0, 0, 0, 0, 0, 0, 0, 0, 0, 0, 0, 0, 0, 0, 0, 0]
  {
  }

  // The messages of the client byte by byte, and what the proxy says to a good opening.
  lemma MessagesAreWritten(config: Config, methods: Bytes, c: Credential, t: Target, reserved: byte)
    requires Short(methods) && Short(c.username) && Short(c.password) && IsTarget(t)
    ensures Greeting(methods) == [5, |methods|] + methods
    ensures Login(c) == [1, |c.username|] + c.username + [|c.password|] + c.password
    ensures OpeningReplies(config) == if config.credential.Some? then [5, 2, 1, 0] else [5, 0]
    ensures var r := Request(t, reserved);
      && r[..3] == [5, 1, reserved]
      && r[3] == (match t.address case IPv4(_) => 1 case Name(_) => 3 case IPv6(_) => 4)
      && (t.address.Name? ==> r[4] == |t.address.raw|)
      && r[if t.address.Name? then 5 else 4..|r| - 2] == t.address.raw
      && (r[|r| - 2] as int) * 256 + r[|r| - 1] as int == t.port
  {
    RequestParts(t, reserved, []);
    var r := Request(t, reserved);
    assert r + [] == r;
  }

  // A port is two bytes, the high one first.
  lemma PortMeans(high: byte, low: byte)
    ensures Port([high, low]) == 256 * high + low
  {
  }

  // A target that is forbidden is answered with 2, and there is no tunnel.
  lemma ForbiddenIsRefused(config: Config, methods: Bytes, t: Target, reserved: byte, rest: Bytes)
    requires CanLogin(config) && Chosen(config, methods) && IsTarget(t) && config.forbids(t)
    ensures Serve(config, Opening(config, methods) + (Request(t, reserved) + rest)) ==
            Step(None, OpeningReplies(config) + Reply(config.bound, 2), rest)
  {
    hide Greet, ReadRequest, Reply, Opening, Request, OpeningReplies;
    GreetsBack(config, methods, Request(t, reserved) + rest);
    RequestReads(config, t, reserved, rest);
    assert OpeningReplies(config) + [] == OpeningReplies(config);
  }

  // One that is not reached is answered with 4.
  lemma UnreachedIsRefused(config: Config, methods: Bytes, t: Target, reserved: byte, rest: Bytes)
    requires CanLogin(config) && Chosen(config, methods) && IsTarget(t)
    requires !config.forbids(t) && !config.reaches(t)
    ensures Serve(config, Opening(config, methods) + (Request(t, reserved) + rest)) ==
            Step(None, OpeningReplies(config) + Reply(config.bound, 4), rest)
  {
    hide Greet, ReadRequest, Reply, Opening, Request, OpeningReplies;
    GreetsBack(config, methods, Request(t, reserved) + rest);
    RequestReads(config, t, reserved, rest);
    assert OpeningReplies(config) + [] == OpeningReplies(config);
  }

  // A command other than 1 is answered with 7, and a kind of address other than 1, 3 and 4 with 8,
  // before anything more is read. Another version is not answered.
  lemma BadRequestIsRefused(config: Config, methods: Bytes, version: byte, command: byte, reserved: byte,
                            kind: byte, rest: Bytes)
    requires CanLogin(config) && Chosen(config, methods)
    requires version != 5 || command != 1 || kind !in {1, 3, 4}
    ensures Serve(config, Opening(config, methods) + ([version, command, reserved, kind] + rest)) ==
            Step(None,
                 OpeningReplies(config) +
                 if version != 5 then [] else Reply(config.bound, if command != 1 then 7 else 8), rest)
  {
    hide Greet, Reply, Opening, OpeningReplies, ReadAddress;
    var head: Bytes := [version, command, reserved, kind];
    GreetsBack(config, methods, head + rest);
    ReceivePart(head, rest);
  }

  // Where no method that will do is offered, that is the answer.
  lemma NoMethodIsRefused(config: Config, methods: Bytes, rest: Bytes)
    requires Short(methods) && (if config.credential.Some? then 2 else 0) !in methods
    ensures Serve(config, Greeting(methods) + rest) == Step(None, [5, 0xFF], rest)
  {
    var head: Bytes := [VERSION, |methods|];
    assert Greeting(methods) + rest == head + (methods + rest);
    ReceivePart(head, methods + rest);
    ReceivePart(methods, rest);
  }

  // A login with another credential is answered with 1.
  lemma WrongLoginIsRefused(config: Config, methods: Bytes, got: Credential, rest: Bytes)
    requires Short(methods) && 2 in methods && config.credential.Some? && got != config.credential.value
    requires Short(got.username) && Short(got.password)
    ensures Serve(config, Greeting(methods) + (Login(got) + rest)) == Step(None, [5, 2, 1, 1], rest)
  {
    var head: Bytes := [VERSION, |methods|];
    assert Greeting(methods) + (Login(got) + rest) == head + (methods + (Login(got) + rest));
    ReceivePart(head, methods + (Login(got) + rest));
    ReceivePart(methods, Login(got) + rest);
    LoginRefused(config.credential.value, got, rest);
    hide Authenticate, Login, Receive;
  }

  lemma LoginRefused(want: Credential, got: Credential, rest: Bytes)
    requires got != want && Short(got.username) && Short(got.password)
    ensures Authenticate(want, Login(got) + rest) == Step(None, [1, 1], rest)
  {
    hide Login;
    var head: Bytes, length: Bytes := [AUTH_VERSION, |got.username|], [|got.password|];
    LoginParts(got, rest);
    ReceivePart(head, got.username + (length + (got.password + rest)));
    ReceivePart(got.username, length + (got.password + rest));
    ReceivePart(length, got.password + rest);
    ReceivePart(got.password, rest);
  }

  // All that is ever sent where there is no tunnel.
  ghost predicate IsRefusal(config: Config, sent: Bytes) {
    || sent == [] || sent == [5, 0xFF] || sent == OpeningReplies(config)
    || (config.credential.Some? && (sent == [5, 2] || sent == [5, 2, 1, 1]))
    || exists code: byte :: code in {2, 4, 7, 8} && sent == OpeningReplies(config) + Reply(config.bound, code)
  }

  lemma RefusalsAreKnown(config: Config, input: Bytes)
    requires Serve(config, input).value.None?
    ensures IsRefusal(config, Serve(config, input).sent)
  {
    hide Reply;
    var greeting := Greet(config, input);
    GreetingSends(config, input);
    if greeting.value.Some? {
      RequestSends(config, greeting.rest);
      hide Greet, ReadRequest, OpeningReplies;
      assert OpeningReplies(config) + [] == OpeningReplies(config);
    }
  }

  lemma LoginSends(want: Credential, input: Bytes)
    ensures var a := Authenticate(want, input);
      if a.value.Some? then a.sent == [1, 0] else a.sent == [] || a.sent == [1, 1]
  {
  }

  lemma GreetingSends(config: Config, input: Bytes)
    ensures var g := Greet(config, input);
      if g.value.Some? then g.sent == OpeningReplies(config)
      else
        || g.sent == [] || g.sent == [5, 0xFF]
        || (config.credential.Some? && (g.sent == [5, 2] || g.sent == [5, 2, 1, 1]))
  {
    hide Authenticate;
    if config.credential.Some? {
      forall rest {
        LoginSends(config.credential.value, rest);
      }
    }
  }

  lemma RequestSends(config: Config, input: Bytes)
    ensures var r := ReadRequest(config, input);
      if r.value.Some? then r.sent == []
      else r.sent == [] || r.sent == Reply(config.bound, 7) || r.sent == Reply(config.bound, 8)
  {
    hide Reply, ReadAddress;
  }

  // So a client is never told that it has a tunnel when it has none.
  lemma NoSuccessWithoutTunnel(config: Config, input: Bytes)
    requires Serve(config, input).value.None?
    ensures !(OpeningReplies(config) + [5, 0] <= Serve(config, input).sent)
  {
    RefusalsAreKnown(config, input);
    hide Serve;
    var sent, opening := Serve(config, input).sent, OpeningReplies(config);
    forall code: byte | sent == opening + Reply(config.bound, code)
      ensures opening + [5, 0] <= sent ==> code == 0
    {
      ReplyCode(config.bound, code);
      assert opening + [5, 0] <= sent ==> (opening + [5, 0])[|opening| + 1] == sent[|opening| + 1];
    }
  }

  lemma ReplyCode(bound: Bound, code: byte)
    ensures |Reply(bound, code)| > 1 && Reply(bound, code)[1] == code
  {
  }
}
