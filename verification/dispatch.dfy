/** The request handler of client.c: client_read_message reads a login or
    registration request from a received buffer, consults the database and
    answers; a successful login runs client_connected, which whitelists the
    account on its game server and binds a player to the connection's
    registry entry. */
module Dispatch {
  import opened Base
  import opened Wire
  import opened AtomicList
  import opened Registry
  import Servers

  // ---------------------------------------------------------------------
  // What the handler works on.

  /** What db_register_user is given: the three fields read from the
      request, the address net_get_ip reports and the hour the request
      arrived in. */
  datatype Registration = Registration(login: seq<byte>, password: seq<byte>, mail: seq<byte>, ip: u32, hour: int)

  /** The database, whose answers the model does not compute: whether a
      hardware id is banned, the code db_login_user returns for a login and
      password, and the code db_register_user returns for a registration. */
  datatype Db = Db(
    banned: seq<byte> -> bool,
    login: (seq<byte>, seq<byte>) -> int,
    register: Registration -> int)

  /** The connection: the peer's address as net_accept read it from
      accept and keyed the registry with; the value net_get_ip returns for
      the socket; the clock; and whatever the stack slot of user.ip holds
      before anything is written to it.  net_get_ip hands getpeername a
      4-byte in_addr as the socket address, so it returns the first four
      bytes of the peer's sockaddr_in (its family and port) where the call
      truncates, and INVALID_IP where it fails: in either case not the
      peer's address, so the two are separate parameters. */
  datatype Conn = Conn(acceptIp: u32, reportedIp: u32, now: int, stackIp: u32)

  /** The gateway state a request reaches: the configured servers and the
      client registry. */
  datatype Gateway = Gateway(servers: seq<Servers.Server>, clients: Clients)

  /** What a request leaves: the answer code sent (None where the handler
      returns NO_ANSWER and sends nothing), the console commands queued for
      game servers, and the registry; or a NULL dereference, after the
      commands already queued. */
  datatype Outcome =
    | Outcome(answer: Option<int>, log: seq<Command>, clients: Clients)
    | Crash(log: seq<Command>)

  function Silent(c: Clients): Outcome {
    Outcome(None, [], c)
  }

  function Answer(code: int, c: Clients): Outcome {
    Outcome(Some(code), [], c)
  }

  /** The request left a trace beyond its answer: it queued a command,
      changed the registry or crashed. */
  predicate Touched(r: Outcome, c: Clients) {
    r.Crash? || r.log != [] || r.clients != c
  }

  /** b differs from a at most in the players bound to its records. */
  predicate Rebound(a: Clients, b: Clients) {
    && b.shards == a.shards
    && b.heap.Keys == a.heap.Keys
    && forall n :: n in a.heap ==> b.heap[n] == a.heap[n].(player := b.heap[n].player)
  }

  /** A request buffer as received: the cursor at its start. */
  function Request(data: seq<byte>): (m: Msg)
    ensures m.Valid() && m.readcount == 0 && m.data == data
  {
    Msg(data, 0, |data|)
  }

  // ---------------------------------------------------------------------
  // client_connected

  /** The console command server_command formats for a login. */
  function WhitelistAdd(server: nat, login: seq<byte>): Command {
    Command(server, "whitelist add " + TextOfBytes(login))
  }

  /** The player record client_connected allocates. */
  function NewPlayer(server: nat, login: seq<byte>): Player {
    Player(TextOfBytes(login), 0, server)
  }

  /** The key client_connected searches the registry for: user.ip, which
      the login path never writes (as written), or the address net_accept
      keyed the connection's entry with (as intended). */
  function LoginKey(conn: Conn, v: Variant): u32 {
    if v == AsWritten then conn.stackIp else conn.acceptIp
  }

  /** client_connected: "whitelist add <login>" goes to the account's
      server first, whatever follows; then the registry entry client_find
      returns for the key, if any, gets the new player, a player_t not yet
      freed. */
  function ClientConnected(c: Clients, server: nat, login: seq<byte>, key: u32): (r: Outcome)
    requires WellLinked(c)
    ensures r.log == [WhitelistAdd(server, login)]
    ensures r.Crash? <==> ClientFind(c, key).NullDeref?
    ensures r.Outcome? ==> r.answer.None? && Rebound(c, r.clients)
    ensures ClientFind(c, key).NotFound? ==> r.Outcome? && r.clients == c
    ensures ClientFind(c, key).Found? ==>
      && r.Outcome?
      && r.clients.heap[ClientFind(c, key).node].ip == key
      && r.clients.heap[ClientFind(c, key).node].player == Some(NewPlayer(server, login))
      && (forall n :: n in c.heap && n != ClientFind(c, key).node ==> r.clients.heap[n] == c.heap[n])
      && r.clients.playersFreed == c.playersFreed - {ClientFind(c, key).node}
  {
    var log := [WhitelistAdd(server, login)];
    match ClientFind(c, key)
    case NullDeref => Crash(log)
    case NotFound => Outcome(None, log, c)
    case Found(n) =>
      Outcome(None, log, c.(heap := c.heap[n := c.heap[n].(player := Some(NewPlayer(server, login)))],
                            playersFreed := c.playersFreed - {n}))
  }

  /** Binding players leaves every shard's list as it was. */
  lemma ReboundKeepsLists(a: Clients, b: Clients)
    requires WellLinked(a) && Rebound(a, b)
    ensures WellLinked(b)
    ensures forall k :: 0 <= k < |a.shards| ==> ChainOf(b, k) == ChainOf(a, k)
  {
    forall k | 0 <= k < |a.shards|
      ensures Chain(b.heap, b.shards[k].head) == Chain(a.heap, a.shards[k].head)
    {
      var ns := Chain(a.heap, a.shards[k].head).value;
      ChainCharacterized(a.heap, a.shards[k].head, ns);
      ChainIsLinks(a.heap, a.shards[k].head, ns);
      ChainFrame(a.heap, b.heap, a.shards[k].head, ns);
      ChainCharacterized(b.heap, b.shards[k].head, ns);
    }
  }

  /** Binding players changes no lookup: client_find reads addresses,
      links and live flags only. */
  lemma ReboundKeepsLookups(a: Clients, b: Clients, ip: u32)
    requires WellLinked(a) && Rebound(a, b)
    ensures WellLinked(b) && ClientFind(b, ip) == ClientFind(a, ip)
  {
    ReboundKeepsLists(a, b);
    FindFromRebound(a, b, 0, ip);
  }

  lemma {:induction false} FindFromRebound(a: Clients, b: Clients, k: nat, ip: u32)
    requires WellLinked(a) && Rebound(a, b) && k <= |a.shards|
    requires WellLinked(b) && forall j :: 0 <= j < |a.shards| ==> ChainOf(b, j) == ChainOf(a, j)
    ensures FindFrom(b, k, ip) == FindFrom(a, k, ip)
    decreases |a.shards| - k
  {
    if k < |a.shards| {
      var ns := ChainOf(a, k);
      if |ns| > 0 {
        FirstWithIpRebound(a.heap, b.heap, ns[1..], ip);
        FindFromRebound(a, b, k + 1, ip);
      }
    }
  }

  lemma {:induction false} FirstWithIpRebound(h: Heap, h': Heap, ns: seq<NodeId>, ip: u32)
    requires forall i :: 0 <= i < |ns| ==> ns[i] in h && ns[i] in h' && h'[ns[i]].ip == h[ns[i]].ip
    ensures FirstWithIp(h', ns, ip) == FirstWithIp(h, ns, ip)
    decreases |ns|
  {
    if |ns| > 0 {
      FirstWithIpRebound(h, h', ns[1..], ip);
    }
  }

  // ---------------------------------------------------------------------
  // client_read_message

  /** client_read_message: the opcode selects the login or the register
      path; any other opcode, or a buffer too short to hold one (read as 0),
      is not answered. */
  function ClientReadMessage(g: Gateway, m: Msg, db: Db, conn: Conn, v: Variant): (r: Outcome)
    requires m.Valid() && WellLinked(g.clients)
    ensures m.readcount + 4 > m.maxsize ==> r == Silent(g.clients)
    ensures MsgGetUint(m, 0).0 != NTL_LOGIN && MsgGetUint(m, 0).0 != NTL_REGISTER ==> r == Silent(g.clients)
    ensures MsgGetUint(m, 0).0 == NTL_REGISTER ==> !Touched(r, g.clients)
    ensures Touched(r, g.clients) ==>
      MsgGetUint(m, 0).0 == NTL_LOGIN && |r.log| == 1 && (r.Crash? || r.answer == Some(NTLE_NO_ERROR))
    ensures r.Outcome? ==> Rebound(g.clients, r.clients)
  {
    var (op, m1) := MsgGetUint(m, 0);
    if op == NTL_LOGIN then LoginRequest(g, m1, db, conn, v)
    else if op == NTL_REGISTER then RegisterRequest(g, m1, db, conn)
    else Silent(g.clients)
  }

  /** The login path up to the ban check: an unterminated hardware id is
      not answered, before the database is asked; a banned one is refused. */
  function LoginRequest(g: Gateway, m: Msg, db: Db, conn: Conn, v: Variant): (r: Outcome)
    requires m.Valid() && WellLinked(g.clients)
    ensures MsgGetString(m, MAX_HWID_LEN).0.None? ==> r == Silent(g.clients)
    ensures MsgGetString(m, MAX_HWID_LEN).0.Some? && db.banned(MsgGetString(m, MAX_HWID_LEN).0.value) ==>
      r == Answer(NTLE_YOU_ARE_BANNED, g.clients)
    ensures Touched(r, g.clients) ==> |r.log| == 1 && (r.Crash? || r.answer == Some(NTLE_NO_ERROR))
    ensures r.Outcome? ==> Rebound(g.clients, r.clients)
  {
    var (hwid, m1) := MsgGetString(m, MAX_HWID_LEN);
    if hwid.None? then Silent(g.clients)
    else if db.banned(hwid.value) then Answer(NTLE_YOU_ARE_BANNED, g.clients)
    else LoginServer(g, m1, db, conn, v)
  }

  /** The game server the client asks for: a zero or missing address or
      port is not answered; an address no entry serves is refused. */
  function LoginServer(g: Gateway, m: Msg, db: Db, conn: Conn, v: Variant): (r: Outcome)
    requires m.Valid() && WellLinked(g.clients)
    ensures MsgGetUint(m, 0).0 == 0 ==> r == Silent(g.clients)
    ensures Touched(r, g.clients) ==> |r.log| == 1 && (r.Crash? || r.answer == Some(NTLE_NO_ERROR))
    ensures r.Outcome? ==> Rebound(g.clients, r.clients)
  {
    var (ip, m1) := MsgGetUint(m, 0);
    if ip == 0 then Silent(g.clients)
    else
      var (port, m2) := MsgGetUshort(m1, 0);
      if port == 0 then Silent(g.clients)
      else
        match Servers.ServerFind(g.servers, ip, port)
        case None => Answer(NTLE_INVALID_SERVER, g.clients)
        case Some(k) => LoginCredentials(g, k, m2, db, conn, v)
  }

  /** The account for server k: without both login and password the
      request is not answered; otherwise the database's code is sent, and
      only a successful login connects the client. */
  function LoginCredentials(g: Gateway, k: nat, m: Msg, db: Db, conn: Conn, v: Variant): (r: Outcome)
    requires m.Valid() && WellLinked(g.clients)
    ensures Touched(r, g.clients) ==> |r.log| == 1 && (r.Crash? || r.answer == Some(NTLE_NO_ERROR))
    ensures r.Outcome? ==> Rebound(g.clients, r.clients)
  {
    var (login, m1) := MsgGetString(m, MAX_PLAYER_NAME);
    if login.None? then Silent(g.clients)
    else
      var (password, _) := MsgGetString(m1, MAX_PASS_LEN);
      if password.None? then Silent(g.clients)
      else
        var res := db.login(login.value, password.value);
        if res != NTLE_NO_ERROR then Answer(res, g.clients)
        else
          match ClientConnected(g.clients, k, login.value, LoginKey(conn, v))
          case Crash(log) => Crash(log)
          case Outcome(_, log, c) => Outcome(Some(res), log, c)
  }

  /** The register path: the same hardware-id and ban checks, then login,
      password and mail; the database's code is sent and nothing else
      changes. */
  function RegisterRequest(g: Gateway, m: Msg, db: Db, conn: Conn): (r: Outcome)
    requires m.Valid()
    ensures !Touched(r, g.clients)
    ensures MsgGetString(m, MAX_HWID_LEN).0.None? ==> r == Silent(g.clients)
    ensures MsgGetString(m, MAX_HWID_LEN).0.Some? && db.banned(MsgGetString(m, MAX_HWID_LEN).0.value) ==>
      r == Answer(NTLE_YOU_ARE_BANNED, g.clients)
  {
    var (hwid, m1) := MsgGetString(m, MAX_HWID_LEN);
    if hwid.None? then Silent(g.clients)
    else if db.banned(hwid.value) then Answer(NTLE_YOU_ARE_BANNED, g.clients)
    else RegisterAccount(g, m1, db, conn)
  }

  /** The account to register: without login, password and mail the
      request is not answered; otherwise the database's code for them, the
      address net_get_ip reports and the hour is sent. */
  function RegisterAccount(g: Gateway, m: Msg, db: Db, conn: Conn): (r: Outcome)
    requires m.Valid()
    ensures !Touched(r, g.clients)
  {
    var (login, m1) := MsgGetString(m, MAX_PLAYER_NAME);
    if login.None? then Silent(g.clients)
    else
      var (password, m2) := MsgGetString(m1, MAX_PASS_LEN);
      if password.None? then Silent(g.clients)
      else
        var (mail, _) := MsgGetString(m2, MAX_EMAIL_LEN);
        if mail.None? then Silent(g.clients)
        else Answer(db.register(Registration(login.value, password.value, mail.value, conn.reportedIp, Hour(conn.now))), g.clients)
  }

  /** time(NULL) / (60 * 60), in C's truncating division. */
  function Hour(now: int): (h: int)
    ensures now >= 0 ==> 0 <= h && h * 3600 <= now < h * 3600 + 3600
  {
    CDiv(now, 60 * 60)
  }

  // ---------------------------------------------------------------------
  // Requests as a client sends them.

  /** A buffer laid out as consecutive fields. */
  function Concat(ps: seq<seq<byte>>): seq<byte>
    decreases |ps|
  {
    if |ps| == 0 then [] else ps[0] + Concat(ps[1..])
  }

  /** Where field j starts. */
  function Offset(ps: seq<seq<byte>>, j: nat): nat
    requires j <= |ps|
    decreases j
  {
    if j == 0 then 0 else |ps[0]| + Offset(ps[1..], j - 1)
  }

  /** Field j sits at its offset, and the next field starts right after. */
  lemma {:induction false} PartAt(ps: seq<seq<byte>>, j: nat)
    requires j < |ps|
    ensures Offset(ps, j + 1) == Offset(ps, j) + |ps[j]|
    ensures Offset(ps, j) + |ps[j]| <= |Concat(ps)|
    ensures Concat(ps)[Offset(ps, j)..Offset(ps, j) + |ps[j]|] == ps[j]
    decreases j
  {
    var d := Concat(ps);
    assert d == ps[0] + Concat(ps[1..]);
    if j == 0 {
      assert Offset(ps, 1) == |ps[0]| + Offset(ps[1..], 0);
    } else {
      PartAt(ps[1..], j - 1);
      var o := Offset(ps[1..], j - 1);
      assert ps[1..][j - 1] == ps[j];
      assert d[|ps[0]| + o..|ps[0]| + o + |ps[j]|] == Concat(ps[1..])[o..o + |ps[j]|];
    }
  }

  /** The fields fill the buffer. */
  lemma {:induction false} OffsetEnd(ps: seq<seq<byte>>)
    ensures Offset(ps, |ps|) == |Concat(ps)|
    decreases |ps|
  {
    if |ps| > 0 {
      OffsetEnd(ps[1..]);
    }
  }

  lemma OffsetBound(ps: seq<seq<byte>>, j: nat)
    requires j <= |ps|
    ensures Offset(ps, j) <= |Concat(ps)|
  {
    if j < |ps| {
      PartAt(ps, j);
    } else {
      OffsetEnd(ps);
    }
  }

  /** The buffer of the fields with the cursor at field j. */
  function At(ps: seq<seq<byte>>, j: nat): (m: Msg)
    requires j <= |ps|
    ensures m.Valid() && m.data == Concat(ps) && m.readcount == Offset(ps, j) && m.maxsize == |Concat(ps)|
  {
    OffsetBound(ps, j);
    Msg(Concat(ps), Offset(ps, j), |Concat(ps)|)
  }

  /** A string field that fits its bound reads back whole. */
  lemma StringAt(ps: seq<seq<byte>>, j: nat, s: seq<byte>, maxlen: nat)
    requires j < |ps| && ps[j] == EncodeString(s) && NoZero(s) && |s| < maxlen
    ensures MsgGetString(At(ps, j), maxlen) == (Some(s), At(ps, j + 1))
  {
    PartAt(ps, j);
    MsgGetStringReadsEncoded(At(ps, j), maxlen, s);
  }

  /** A four-byte field reads back as the value it encodes. */
  lemma UintAt(ps: seq<seq<byte>>, j: nat, x: u32, error: int)
    requires j < |ps| && ps[j] == Le32(x)
    ensures MsgGetUint(At(ps, j), error) == (x, At(ps, j + 1))
  {
    PartAt(ps, j);
    var (y, _) := MsgGetUint(At(ps, j), error);
    Le32Decodes(x);
    Le32Decodes(y);
  }

  /** A two-byte field reads back as the value it encodes. */
  lemma UshortAt(ps: seq<seq<byte>>, j: nat, x: u16, error: int)
    requires j < |ps| && ps[j] == Le16(x)
    ensures MsgGetUshort(At(ps, j), error) == (x, At(ps, j + 1))
  {
    PartAt(ps, j);
    var (y, _) := MsgGetUshort(At(ps, j), error);
    Le16Decodes(x);
    Le16Decodes(y);
  }

  /** A string field a client can send: no NUL inside, and short enough to
      leave room for its terminator within the bound. */
  predicate Fits(s: seq<byte>, bound: nat) {
    NoZero(s) && |s| < bound
  }

  /** A login request's fields. */
  datatype LoginForm = LoginForm(hwid: seq<byte>, ip: u32, port: u16, login: seq<byte>, password: seq<byte>)

  predicate LoginFormValid(f: LoginForm) {
    Fits(f.hwid, MAX_HWID_LEN) && Fits(f.login, MAX_PLAYER_NAME) && Fits(f.password, MAX_PASS_LEN)
  }

  function LoginParts(f: LoginForm): seq<seq<byte>> {
    [Le32(NTL_LOGIN), EncodeString(f.hwid), Le32(f.ip), Le16(f.port), EncodeString(f.login), EncodeString(f.password)]
  }

  function EncodeLogin(f: LoginForm): seq<byte> {
    Concat(LoginParts(f))
  }

  lemma LoginLayout(f: LoginForm)
    ensures var ps := LoginParts(f);
      && |ps| == 6 && ps[0] == Le32(NTL_LOGIN) && ps[1] == EncodeString(f.hwid)
      && ps[2] == Le32(f.ip) && ps[3] == Le16(f.port)
      && ps[4] == EncodeString(f.login) && ps[5] == EncodeString(f.password)
      && Request(EncodeLogin(f)) == At(ps, 0)
  {
  }

  /** A registration request's fields. */
  datatype RegisterForm = RegisterForm(hwid: seq<byte>, login: seq<byte>, password: seq<byte>, mail: seq<byte>)

  predicate RegisterFormValid(f: RegisterForm) {
    && Fits(f.hwid, MAX_HWID_LEN) && Fits(f.login, MAX_PLAYER_NAME)
    && Fits(f.password, MAX_PASS_LEN) && Fits(f.mail, MAX_EMAIL_LEN)
  }

  function RegisterParts(f: RegisterForm): seq<seq<byte>> {
    [Le32(NTL_REGISTER), EncodeString(f.hwid), EncodeString(f.login), EncodeString(f.password), EncodeString(f.mail)]
  }

  function EncodeRegister(f: RegisterForm): seq<byte> {
    Concat(RegisterParts(f))
  }

  lemma RegisterLayout(f: RegisterForm)
    ensures var ps := RegisterParts(f);
      && |ps| == 5 && ps[0] == Le32(NTL_REGISTER) && ps[1] == EncodeString(f.hwid)
      && ps[2] == EncodeString(f.login) && ps[3] == EncodeString(f.password) && ps[4] == EncodeString(f.mail)
      && Request(EncodeRegister(f)) == At(ps, 0)
  {
  }

  // ---------------------------------------------------------------------
  // The handler on well-formed requests.

  /** What a successful read of login and password leads to: the
      database's code, and on success client_connected's effects. */
  predicate LoginAnswered(r: Outcome, g: Gateway, k: nat, login: seq<byte>, password: seq<byte>, db: Db, key: u32)
    requires WellLinked(g.clients)
  {
    var res := db.login(login, password);
    && (res != NTLE_NO_ERROR ==> r == Answer(res, g.clients))
    && (res == NTLE_NO_ERROR ==>
          && r.log == [WhitelistAdd(k, login)]
          && (r.Crash? <==> ClientFind(g.clients, key).NullDeref?)
          && (r.Outcome? ==> r.answer == Some(NTLE_NO_ERROR)))
  }

  // Each stage of the handler, on fields laid out one after the other.

  lemma LoginOpcodeReads(g: Gateway, ps: seq<seq<byte>>, db: Db, conn: Conn, v: Variant)
    requires WellLinked(g.clients) && 1 <= |ps| && ps[0] == Le32(NTL_LOGIN)
    ensures ClientReadMessage(g, At(ps, 0), db, conn, v) == LoginRequest(g, At(ps, 1), db, conn, v)
  {
    UintAt(ps, 0, NTL_LOGIN, 0);
  }

  lemma RegisterOpcodeReads(g: Gateway, ps: seq<seq<byte>>, db: Db, conn: Conn, v: Variant)
    requires WellLinked(g.clients) && 1 <= |ps| && ps[0] == Le32(NTL_REGISTER)
    ensures ClientReadMessage(g, At(ps, 0), db, conn, v) == RegisterRequest(g, At(ps, 1), db, conn)
  {
    UintAt(ps, 0, NTL_REGISTER, 0);
  }

  lemma HwidReads(g: Gateway, ps: seq<seq<byte>>, hwid: seq<byte>, db: Db, conn: Conn, v: Variant)
    requires WellLinked(g.clients) && 2 <= |ps| && ps[1] == EncodeString(hwid) && Fits(hwid, MAX_HWID_LEN)
    ensures db.banned(hwid) ==> LoginRequest(g, At(ps, 1), db, conn, v) == Answer(NTLE_YOU_ARE_BANNED, g.clients)
    ensures !db.banned(hwid) ==> LoginRequest(g, At(ps, 1), db, conn, v) == LoginServer(g, At(ps, 2), db, conn, v)
    ensures db.banned(hwid) ==> RegisterRequest(g, At(ps, 1), db, conn) == Answer(NTLE_YOU_ARE_BANNED, g.clients)
    ensures !db.banned(hwid) ==> RegisterRequest(g, At(ps, 1), db, conn) == RegisterAccount(g, At(ps, 2), db, conn)
  {
    StringAt(ps, 1, hwid, MAX_HWID_LEN);
  }

  lemma ServerReads(g: Gateway, ps: seq<seq<byte>>, ip: u32, port: u16, db: Db, conn: Conn, v: Variant)
    requires WellLinked(g.clients) && 4 <= |ps| && ps[2] == Le32(ip) && ps[3] == Le16(port)
    ensures ip == 0 || port == 0 ==> LoginServer(g, At(ps, 2), db, conn, v) == Silent(g.clients)
    ensures ip != 0 && port != 0 && Servers.ServerFind(g.servers, ip, port).None? ==>
      LoginServer(g, At(ps, 2), db, conn, v) == Answer(NTLE_INVALID_SERVER, g.clients)
    ensures ip != 0 && port != 0 && Servers.ServerFind(g.servers, ip, port).Some? ==>
      LoginServer(g, At(ps, 2), db, conn, v) ==
      LoginCredentials(g, Servers.ServerFind(g.servers, ip, port).value, At(ps, 4), db, conn, v)
  {
    UintAt(ps, 2, ip, 0);
    UshortAt(ps, 3, port, 0);
  }

  lemma CredentialsRead(g: Gateway, k: nat, ps: seq<seq<byte>>, login: seq<byte>, password: seq<byte>,
                        db: Db, conn: Conn, v: Variant)
    requires WellLinked(g.clients) && 6 <= |ps|
    requires ps[4] == EncodeString(login) && ps[5] == EncodeString(password)
    requires Fits(login, MAX_PLAYER_NAME) && Fits(password, MAX_PASS_LEN)
    ensures LoginAnswered(LoginCredentials(g, k, At(ps, 4), db, conn, v), g, k, login, password, db, LoginKey(conn, v))
  {
    StringAt(ps, 4, login, MAX_PLAYER_NAME);
    StringAt(ps, 5, password, MAX_PASS_LEN);
  }

  lemma AccountRead(g: Gateway, ps: seq<seq<byte>>, login: seq<byte>, password: seq<byte>, mail: seq<byte>,
                    db: Db, conn: Conn)
    requires 5 <= |ps| && ps[2] == EncodeString(login) && ps[3] == EncodeString(password) && ps[4] == EncodeString(mail)
    requires Fits(login, MAX_PLAYER_NAME) && Fits(password, MAX_PASS_LEN) && Fits(mail, MAX_EMAIL_LEN)
    ensures RegisterAccount(g, At(ps, 2), db, conn) ==
      Answer(db.register(Registration(login, password, mail, conn.reportedIp, Hour(conn.now))), g.clients)
  {
    StringAt(ps, 2, login, MAX_PLAYER_NAME);
    StringAt(ps, 3, password, MAX_PASS_LEN);
    StringAt(ps, 4, mail, MAX_EMAIL_LEN);
  }

  // The handler on requests as a client sends them.

  /** A well-formed login for a served address is answered with the
      database's code; on success the account is whitelisted on the server
      that serves the address and client_connected runs. */
  lemma LoginRoundTrip(g: Gateway, f: LoginForm, db: Db, conn: Conn, v: Variant)
    requires WellLinked(g.clients) && LoginFormValid(f)
    requires f.ip != 0 && f.port != 0 && !db.banned(f.hwid)
    requires Servers.ServerFind(g.servers, f.ip, f.port).Some?
    ensures LoginAnswered(ClientReadMessage(g, Request(EncodeLogin(f)), db, conn, v), g,
                          Servers.ServerFind(g.servers, f.ip, f.port).value, f.login, f.password, db, LoginKey(conn, v))
  {
    var ps := LoginParts(f);
    LoginLayout(f);
    LoginOpcodeReads(g, ps, db, conn, v);
    HwidReads(g, ps, f.hwid, db, conn, v);
    ServerReads(g, ps, f.ip, f.port, db, conn, v);
    CredentialsRead(g, Servers.ServerFind(g.servers, f.ip, f.port).value, ps, f.login, f.password, db, conn, v);
  }

  /** A login for an address no server entry serves is refused, before
      login and password are looked at. */
  lemma UnknownServerRefused(g: Gateway, f: LoginForm, db: Db, conn: Conn, v: Variant)
    requires WellLinked(g.clients) && Fits(f.hwid, MAX_HWID_LEN)
    requires f.ip != 0 && f.port != 0 && !db.banned(f.hwid)
    requires Servers.ServerFind(g.servers, f.ip, f.port).None?
    ensures ClientReadMessage(g, Request(EncodeLogin(f)), db, conn, v) == Answer(NTLE_INVALID_SERVER, g.clients)
  {
    var ps := LoginParts(f);
    LoginLayout(f);
    LoginOpcodeReads(g, ps, db, conn, v);
    HwidReads(g, ps, f.hwid, db, conn, v);
    ServerReads(g, ps, f.ip, f.port, db, conn, v);
  }

  /** A login naming address 0 or port 0 is not answered. */
  lemma ZeroAddressIgnored(g: Gateway, f: LoginForm, db: Db, conn: Conn, v: Variant)
    requires WellLinked(g.clients) && Fits(f.hwid, MAX_HWID_LEN) && !db.banned(f.hwid)
    requires f.ip == 0 || f.port == 0
    ensures ClientReadMessage(g, Request(EncodeLogin(f)), db, conn, v) == Silent(g.clients)
  {
    var ps := LoginParts(f);
    LoginLayout(f);
    LoginOpcodeReads(g, ps, db, conn, v);
    HwidReads(g, ps, f.hwid, db, conn, v);
    ServerReads(g, ps, f.ip, f.port, db, conn, v);
  }

  /** A banned hardware id is refused, on either path, whatever follows it. */
  lemma BannedRefused(g: Gateway, op: u32, hwid: seq<byte>, rest: seq<byte>, db: Db, conn: Conn, v: Variant)
    requires WellLinked(g.clients) && (op == NTL_LOGIN || op == NTL_REGISTER)
    requires Fits(hwid, MAX_HWID_LEN) && db.banned(hwid)
    ensures ClientReadMessage(g, Request(Le32(op) + EncodeString(hwid) + rest), db, conn, v) ==
      Answer(NTLE_YOU_ARE_BANNED, g.clients)
  {
    var ps: seq<seq<byte>> := [Le32(op), EncodeString(hwid), rest];
    Concat3(Le32(op), EncodeString(hwid), rest);
    assert Request(Le32(op) + EncodeString(hwid) + rest) == At(ps, 0);
    if op == NTL_LOGIN {
      LoginOpcodeReads(g, ps, db, conn, v);
    } else {
      RegisterOpcodeReads(g, ps, db, conn, v);
    }
    HwidReads(g, ps, hwid, db, conn, v);
  }

  lemma Concat3(a: seq<byte>, b: seq<byte>, c: seq<byte>)
    ensures Concat([a, b, c]) == a + b + c
  {
    var ps: seq<seq<byte>> := [a, b, c];
    assert ps[1..] == [b, c] && ps[1..][1..] == [c] && |ps[1..][1..][1..]| == 0;
    assert Concat([c]) == c;
  }

  /** A well-formed registration is answered with the database's code for
      the fields, the address net_get_ip reports and the hour; nothing else
      changes. */
  lemma RegisterRoundTrip(g: Gateway, f: RegisterForm, db: Db, conn: Conn, v: Variant)
    requires WellLinked(g.clients) && RegisterFormValid(f) && !db.banned(f.hwid)
    ensures ClientReadMessage(g, Request(EncodeRegister(f)), db, conn, v) ==
      Answer(db.register(Registration(f.login, f.password, f.mail, conn.reportedIp, Hour(conn.now))), g.clients)
  {
    var ps := RegisterParts(f);
    RegisterLayout(f);
    RegisterOpcodeReads(g, ps, db, conn, v);
    HwidReads(g, ps, f.hwid, db, conn, v);
    AccountRead(g, ps, f.login, f.password, f.mail, db, conn);
  }

  /** The whitelist command for a login that fits its field reaches the
      console with its CR LF. */
  lemma WhitelistAddFits(server: nat, login: seq<byte>)
    requires Fits(login, MAX_PLAYER_NAME)
    ensures NoNul(WhitelistAdd(server, login).text)
    ensures Servers.CommandLine(WhitelistAdd(server, login).text) ==
      Servers.Line(WhitelistAdd(server, login).text + [Servers.CR, Servers.LF])
  {
    var t := WhitelistAdd(server, login).text;
    assert forall i :: 0 <= i < |t| ==> t[i] != '\0' by {
      forall i | 0 <= i < |t| ensures t[i] != '\0' {
        if i >= 14 { assert t[i] as int == login[i - 14]; }
      }
    }
  }

  // ---------------------------------------------------------------------
  // The key of client_connected.

  /** A registry whose only entry is the one net_accept added for the
      peer's address, live, at the head of the only shard. */
  function PeerOnly(peer: u32, now: int): (c: Clients)
    ensures WellLinked(c) && |c.shards| == 1 && ChainOf(c, 0) == [0]
  {
    var c := Clients(map[0 := Client(peer, now, None, None)], [Shard(Some(0), true)], {}, {});
    assert ChainIs(c.heap, None, []);
    assert ChainIs(c.heap, Some(0), [0]);
    ChainCharacterized(c.heap, Some(0), [0]);
    assert Chain(c.heap, c.shards[0].head) == Some([0]);
    c
  }

  /** As written, the login path searches the registry for whatever user.ip
      holds: when that is not the address net_accept keyed the peer's entry
      with, the peer's entry gets no player although the login succeeded. */
  lemma StackKeyMissesPeer(peer: u32, reported: u32, now: int, stackIp: u32, server: nat, login: seq<byte>)
    requires stackIp != peer
    ensures var c := PeerOnly(peer, now);
      var r := ClientConnected(c, server, login, LoginKey(Conn(peer, reported, now, stackIp), AsWritten));
      r.Outcome? && r.clients == c && c.heap[0].player.None?
  {
    var c := PeerOnly(peer, now);
    assert c.heap[0].ip != stackIp;
    assert FirstWithIp(c.heap, ChainOf(c, 0)[1..], stackIp) == None;
    assert FindFrom(c, 1, stackIp) == NotFound;
  }

  /** As intended, keyed by the address net_accept recorded, the player goes
      to the peer's entry, whatever user.ip and net_get_ip hold, and nothing
      else changes. */
  lemma PeerKeyBindsPeerOnly(peer: u32, reported: u32, now: int, stackIp: u32, server: nat, login: seq<byte>)
    ensures var c := PeerOnly(peer, now);
      var r := ClientConnected(c, server, login, LoginKey(Conn(peer, reported, now, stackIp), Intended));
      r == Outcome(None, [WhitelistAdd(server, login)], c.(heap := c.heap[0 := c.heap[0].(player := Some(NewPlayer(server, login)))]))
  {
    var c := PeerOnly(peer, now);
    assert ClientFind(c, peer) == Found(0);
  }
}
