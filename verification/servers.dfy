/** The game-server directory of servers.c and the remote-console framing of
    net.c: looking a server up by address or by id, framing a console line,
    wrapping it for the remote console, and reading a server's entry from the
    configuration. */
module Servers {
  import opened Base
  import Wire
  import Inet
  import Config

  const MAX_VERSION_LEN: nat := 7
  const MAX_SERVER_NAME: nat := 127
  const MAX_SERVER_ID: nat := 15
  const MAX_SERVER_PASSWORD: nat := 31
  const MAX_SRVCMD_LEN: nat := 512
  /** The header buffer: the tag, MAX_SERVER_PASSWORD characters and a NUL. */
  const HEADER_SIZE: nat := MAX_SERVER_PASSWORD + 1 + 4
  const INVALID_IP: u32 := 0

  /** How a server's console is reached: through the pipes of a process the
      gateway launched, or through the network with a header that starts
      every command.  A local entry records whether sys_run_server set
      `server->process`: when a pipe or the fork fails it returns before
      that, and the entry keeps the zeroed process, header and header_len. */
  datatype Console = Process(launchParams: string, launched: bool) | Remote(header: string, headerLen: int)

  /** server_t, as far as the gateway's logic reads it. */
  datatype Server = Server(
    ip: u32, port: int, local: int,
    id: string, version: string, name: string,
    console: Console)

  // ---------------------------------------------------------------------
  // Lookups.

  /** The entry answers for the address: its port is the port and its
      address is the address or the wildcard 0. */
  predicate Serves(s: Server, ip: u32, port: int) {
    (s.ip == ip || s.ip == INVALID_IP) && s.port == port
  }

  /** server_find: the first entry, in array order, serving the address. */
  function ServerFind(servers: seq<Server>, ip: u32, port: int): (r: Option<nat>)
    ensures r.Some? ==> r.value < |servers| && Serves(servers[r.value], ip, port)
    ensures r.Some? ==> forall j :: 0 <= j < r.value ==> !Serves(servers[j], ip, port)
    ensures r.None? <==> forall j :: 0 <= j < |servers| ==> !Serves(servers[j], ip, port)
  {
    if |servers| == 0 then None
    else if Serves(servers[0], ip, port) then Some(0)
    else match ServerFind(servers[1..], ip, port)
      case None => None
      case Some(k) => Some(k + 1)
  }

  /** server_find_id: the first entry whose id is exactly `id`. */
  function ServerFindId(servers: seq<Server>, id: string): (r: Option<nat>)
    ensures r.Some? ==> r.value < |servers| && servers[r.value].id == id
    ensures r.Some? ==> forall j :: 0 <= j < r.value ==> servers[j].id != id
    ensures r.None? <==> forall j :: 0 <= j < |servers| ==> servers[j].id != id
  {
    if |servers| == 0 then None
    else if servers[0].id == id then Some(0)
    else match ServerFindId(servers[1..], id)
      case None => None
      case Some(k) => Some(k + 1)
  }

  /** The port is never a wildcard: a lookup on another port than every
      entry's finds nothing, whatever the address. */
  lemma ServerFindNeedsPort(servers: seq<Server>, ip: u32, port: int)
    requires forall j :: 0 <= j < |servers| ==> servers[j].port != port
    ensures ServerFind(servers, ip, port).None?
  {
  }

  /** A wildcard entry ahead of an exact one hides it. */
  lemma WildcardShadows(servers: seq<Server>, w: nat, e: nat, ip: u32, port: int)
    requires w < e < |servers|
    requires servers[w].ip == INVALID_IP && servers[w].port == port
    requires servers[e].ip == ip && servers[e].port == port
    ensures ServerFind(servers, ip, port).Some? && ServerFind(servers, ip, port).value <= w
  {
  }

  // ---------------------------------------------------------------------
  // server_command: the console line.

  const CR: char := '\r'
  const LF: char := '\n'

  /** What the console line buffer holds after the formatting, read as a C
      string, or a write past the end of the buffer. */
  datatype Line = Line(text: string) | Overflow

  /** The line server_command builds from the formatted text: vsnprintf may
      use MAX_SRVCMD_LEN - 3 bytes of the buffer and reports the untruncated
      length n, then CR, LF and NUL are stored at n, n + 1 and n + 2.  A text
      of 508 bytes or fewer gets its CR LF; one of 509 is cut to 508 by the
      NUL vsnprintf leaves, so its CR LF lie beyond the string; a longer one
      writes past the buffer. */
  function CommandLine(text: string): (r: Line)
    requires NoNul(text)
    ensures r.Overflow? <==> |text| > MAX_SRVCMD_LEN - 3
    ensures r.Line? ==> NoNul(r.text) && |r.text| <= MAX_SRVCMD_LEN - 2
  {
    if |text| <= MAX_SRVCMD_LEN - 4 then Line(text + [CR, LF])
    else if |text| == MAX_SRVCMD_LEN - 3 then Line(text[..MAX_SRVCMD_LEN - 4])
    else Overflow
  }

  /** A text that fits is followed by CR LF; a text one byte longer loses
      its last byte and gets no CR LF; only a longer one overflows.  A line
      always fits the buffer with its NUL and is a C string. */
  lemma CommandLineFrames(text: string)
    requires NoNul(text)
    ensures CommandLine(text).Overflow? <==> |text| > MAX_SRVCMD_LEN - 3
    ensures CommandLine(text).Line? ==> |CommandLine(text).text| <= MAX_SRVCMD_LEN - 2
    ensures CommandLine(text).Line? ==> NoNul(CommandLine(text).text)
    ensures |text| <= MAX_SRVCMD_LEN - 4 ==>
      CommandLine(text).text[..|text|] == text && CommandLine(text).text[|text|..] == [CR, LF]
    ensures |text| == MAX_SRVCMD_LEN - 3 ==>
      |CommandLine(text).text| == |text| - 1 && CommandLine(text).text == text[..|text| - 1]
  {
  }

  // ---------------------------------------------------------------------
  // net_server_command: the remote-console frame.

  /** What net_server_command does: refuses a frame longer than its buffer,
      copies the header (reading past the header array when the recorded
      length exceeds it), or sends the frame. */
  datatype Sent = TooLong | Overread | Frame(frame: string)

  function NetServerCommand(header: string, headerLen: int, command: string): (r: Sent)
    requires |header| == HEADER_SIZE && headerLen >= 0 && NoNul(command)
    ensures r.TooLong? <==> headerLen + |command| + 1 > MAX_SRVCMD_LEN
    ensures r.Overread? <==> headerLen + |command| + 1 <= MAX_SRVCMD_LEN && headerLen > HEADER_SIZE
    ensures r.Frame? ==> |r.frame| == headerLen + |command| + 1 <= MAX_SRVCMD_LEN
    ensures r.Frame? ==> r.frame[..headerLen] == header[..headerLen]
    ensures r.Frame? ==> r.frame[headerLen..] == command + ['\0']
  {
    if headerLen + |command| + 1 > MAX_SRVCMD_LEN then TooLong
    else if headerLen > HEADER_SIZE then Overread
    else
      var b := header[..headerLen] + command + ['\0'];
      assert b[headerLen..] == command + ['\0'];
      Frame(b)
  }

  /** server_command: the line goes to the launched process's console when
      `server->process` is set, and otherwise through net_server_command with
      the entry's header: a remote entry's, or the zeroed header of length 0
      that a local entry whose launch failed still holds. */
  datatype Delivery = ToProcess(line: string) | ToRemote(sent: Sent) | LineOverflow

  function ServerCommand(s: Server, text: string): (r: Delivery)
    requires NoNul(text)
    requires s.console.Remote? ==> |s.console.header| == HEADER_SIZE && s.console.headerLen >= 0
    ensures r.LineOverflow? <==> CommandLine(text).Overflow?
    ensures r.ToProcess? <==> CommandLine(text).Line? && s.console.Process? && s.console.launched
    ensures r.ToProcess? ==> r.line == CommandLine(text).text
    ensures r.ToRemote? <==> CommandLine(text).Line? && !(s.console.Process? && s.console.launched)
    ensures r.ToRemote? && s.console.Remote? ==>
      r.sent == NetServerCommand(s.console.header, s.console.headerLen, CommandLine(text).text)
    ensures r.ToRemote? && s.console.Process? ==>
      r.sent == NetServerCommand(Nuls(HEADER_SIZE), 0, CommandLine(text).text)
  {
    CommandLineFrames(text);
    match CommandLine(text)
    case Overflow => LineOverflow
    case Line(b) =>
      match s.console
      case Process(_, launched) =>
        if launched then ToProcess(b) else ToRemote(NetServerCommand(Nuls(HEADER_SIZE), 0, b))
      case Remote(h, n) => ToRemote(NetServerCommand(h, n, b))
  }

  /** A local server whose launch failed sends each console line, bare and
      NUL-terminated, over the network socket of its zeroed entry instead of
      to a process. */
  lemma FailedLaunchSendsBareLine(s: Server, text: string)
    requires NoNul(text) && s.console.Process? && !s.console.launched
    requires |text| <= MAX_SRVCMD_LEN - 4
    ensures ServerCommand(s, text) == ToRemote(Frame(text + [CR, LF, '\0']))
  {
    var b := text + [CR, LF];
    assert CommandLine(text) == Line(b);
    assert Nuls(HEADER_SIZE)[..0] + b + ['\0'] == text + [CR, LF, '\0'];
  }

  // ---------------------------------------------------------------------
  // The remote-console header built by server_init.

  /** The first min(|s|, n) characters: what strncpy or snprintf leaves in
      a zeroed buffer of n + 1 bytes. */
  function Prefix(s: string, n: nat): (r: string)
    ensures |r| == if |s| <= n then |s| else n
    ensures r == s[..|r|]
  {
    if |s| <= n then s else s[..n]
  }

  /** The command tag as the four characters that start the header. */
  function Tag(): (t: string)
    ensures |t| == 4 && IsByteText(t) && Wire.FromLe32(BytesOfText(t)) == Wire.NTL_COMMAND
  {
    var b := Wire.Le32(Wire.NTL_COMMAND);
    Wire.Le32Decodes(Wire.NTL_COMMAND);
    BytesTextRoundTrip(b);
    TextOfBytes(b)
  }

  /** The header buffer and its recorded length.  As written, snprintf is
      given MAX_SERVER_PASSWORD bytes, so it keeps 30 characters, yet the
      recorded length is 4 plus the full password length; as intended it is
      given the MAX_SERVER_PASSWORD + 1 bytes the array holds and the length
      counts what was kept.  The server entry is zeroed before, so what
      follows the kept characters is NUL. */
  function ServerHeader(pwd: string, v: Variant): (r: (string, int))
    requires NoNul(pwd)
    ensures |r.0| == HEADER_SIZE && r.0[..4] == Tag()
    ensures v == AsWritten ==> r.1 == 4 + |pwd|
    ensures v == Intended ==> r.1 == 4 + |Prefix(pwd, MAX_SERVER_PASSWORD)|
    ensures v == Intended ==> r.0[..r.1] == Tag() + Prefix(pwd, MAX_SERVER_PASSWORD)
    ensures v == AsWritten ==> r.0[4..4 + |Prefix(pwd, MAX_SERVER_PASSWORD - 1)|] == Prefix(pwd, MAX_SERVER_PASSWORD - 1)
    ensures forall i :: 4 + |Prefix(pwd, if v == AsWritten then MAX_SERVER_PASSWORD - 1 else MAX_SERVER_PASSWORD)| <= i < HEADER_SIZE ==> r.0[i] == '\0'
  {
    var kept := Prefix(pwd, if v == AsWritten then MAX_SERVER_PASSWORD - 1 else MAX_SERVER_PASSWORD);
    var h := Tag() + kept + Nuls(HEADER_SIZE - 4 - |kept|);
    assert h[..4] == Tag() && h[4..4 + |kept|] == kept;
    assert h[..4 + |kept|] == Tag() + kept;
    (h, if v == AsWritten then 4 + |pwd| else 4 + |kept|)
  }

  function Nuls(n: nat): (z: string)
    ensures |z| == n && forall i :: 0 <= i < n ==> z[i] == '\0'
  {
    if n == 0 then [] else ['\0'] + Nuls(n - 1)
  }

  /** The frame a remote server receives for a command: the tag, the
      password, then the command as a NUL-terminated string. */
  function RemoteFrame(pwd: string, command: string): string {
    Tag() + pwd + command + ['\0']
  }

  /** With the intended header, a password that fits is sent whole: the
      server reads the tag, finds the password after it and reads the
      command back as the string that follows. */
  lemma IntendedHeaderFrames(pwd: string, command: string)
    requires NoNul(pwd) && NoNul(command)
    requires |pwd| <= MAX_SERVER_PASSWORD && 4 + |pwd| + |command| + 1 <= MAX_SRVCMD_LEN
    ensures var (h, n) := ServerHeader(pwd, Intended);
      NetServerCommand(h, n, command) == Frame(RemoteFrame(pwd, command))
  {
    var (h, n) := ServerHeader(pwd, Intended);
    var f := NetServerCommand(h, n, command).frame;
    assert f == f[..n] + f[n..];
  }

  /** The remote server reads such a frame back: the tag, the password
      after it, and the command as the string that follows. */
  lemma RemoteFrameReads(pwd: string, command: string)
    requires NoNul(pwd) && NoNul(command) && IsByteText(pwd) && IsByteText(command)
    requires 4 + |pwd| + |command| + 1 <= MAX_SRVCMD_LEN
    ensures IsByteText(RemoteFrame(pwd, command))
    ensures var f := BytesOfText(RemoteFrame(pwd, command));
      var m := Wire.Msg(f, 4 + |pwd|, |f|);
      && Wire.FromLe32(f[..4]) == Wire.NTL_COMMAND
      && f[4..4 + |pwd|] == BytesOfText(pwd)
      && Wire.MsgGetString(m, MAX_SRVCMD_LEN) == (Some(BytesOfText(command)), m.(readcount := |f|))
  {
    RemoteFrameLayout(pwd, command);
    var f := BytesOfText(RemoteFrame(pwd, command));
    var c := BytesOfText(command);
    assert Wire.NoZero(c);
    var m := Wire.Msg(f, 4 + |pwd|, |f|);
    Wire.MsgGetStringReadsEncoded(m, MAX_SRVCMD_LEN, c);
    assert m.(readcount := m.readcount + |c| + 1) == m.(readcount := |f|);
  }

  /** Where the parts of the frame sit once it is written out as bytes. */
  lemma RemoteFrameLayout(pwd: string, command: string)
    requires IsByteText(pwd) && IsByteText(command)
    ensures IsByteText(RemoteFrame(pwd, command))
    ensures var f, p, c := BytesOfText(RemoteFrame(pwd, command)), BytesOfText(pwd), BytesOfText(command);
      && |f| == 4 + |p| + |c| + 1
      && f[..4] == BytesOfText(Tag())
      && f[4..4 + |p|] == p
      && f[4 + |p|..4 + |p| + |c| + 1] == Wire.EncodeString(c)
  {
    RemoteFrameBytes(pwd, command);
    FrameParts(BytesOfText(Tag()), BytesOfText(pwd), BytesOfText(command));
  }

  lemma FrameParts(tag: seq<byte>, p: seq<byte>, c: seq<byte>)
    requires |tag| == 4
    ensures var f := tag + p + c + [0];
      f[..4] == tag && f[4..4 + |p|] == p && f[4 + |p|..4 + |p| + |c| + 1] == c + [0]
  {
    var f := tag + p + c + [0];
    assert f == tag + (p + (c + [0]));
  }

  /** The frame as bytes: the tag's, the password's and the command's, then
      the terminating zero. */
  lemma RemoteFrameBytes(pwd: string, command: string)
    requires IsByteText(pwd) && IsByteText(command)
    ensures IsByteText(RemoteFrame(pwd, command))
    ensures BytesOfText(RemoteFrame(pwd, command)) ==
      BytesOfText(Tag()) + BytesOfText(pwd) + BytesOfText(command) + [0]
  {
    BytesOfTextAppend(Tag(), pwd);
    BytesOfTextAppend(Tag() + pwd, command);
    BytesOfTextAppend(Tag() + pwd + command, ['\0']);
  }

  /** As written, a password of MAX_SERVER_PASSWORD characters loses its last
      one: the frame carries a NUL where that character belongs, so the
      server does not receive the configured password. */
  lemma WrittenHeaderDropsLastCharacter(pwd: string, command: string)
    requires NoNul(pwd) && NoNul(command)
    requires |pwd| == MAX_SERVER_PASSWORD && 4 + |pwd| + |command| + 1 <= MAX_SRVCMD_LEN
    ensures var (h, n) := ServerHeader(pwd, AsWritten);
      && NetServerCommand(h, n, command).Frame?
      && NetServerCommand(h, n, command).frame[4 + MAX_SERVER_PASSWORD - 1] == '\0'
      && NetServerCommand(h, n, command) != Frame(RemoteFrame(pwd, command))
  {
    var (h, n) := ServerHeader(pwd, AsWritten);
    var b := NetServerCommand(h, n, command).frame;
    assert b[34] == h[34] == '\0';
    assert RemoteFrame(pwd, command)[34] == pwd[30] != '\0';
  }

  /** As written, a password longer than the array makes the copy read past
      the header. */
  lemma WrittenHeaderOverreads(pwd: string, command: string)
    requires NoNul(pwd) && NoNul(command)
    requires HEADER_SIZE - 4 < |pwd| && 4 + |pwd| + |command| + 1 <= MAX_SRVCMD_LEN
    ensures var (h, n) := ServerHeader(pwd, AsWritten);
      NetServerCommand(h, n, command) == Overread
  {
  }

  /** With the intended header no password makes the copy read past the
      header: a longer one is cut to MAX_SERVER_PASSWORD characters, and the
      recorded length counts only those. */
  lemma IntendedHeaderNeverOverreads(pwd: string, command: string)
    requires NoNul(pwd) && NoNul(command)
    ensures var (h, n) := ServerHeader(pwd, Intended);
      && n <= HEADER_SIZE - 1
      && !NetServerCommand(h, n, command).Overread?
  {
  }

  // ---------------------------------------------------------------------
  // server_init

  /** net_host_to_ip: INADDR_ANY (0) for a missing host, the numeric form
      when _inet_aton reads one, else the resolver's first address, else
      INVALID_IP.  The resolver is a parameter. */
  function HostToIp(host: Option<string>, resolve: string -> Option<u32>): (ip: u32)
    requires host.Some? ==> NoNul(host.value)
    ensures host.None? ==> ip == 0
    ensures host.Some? && Inet.InetAton(host.value).Some? ==> ip == Inet.InetAton(host.value).value
    ensures host.Some? && Inet.InetAton(host.value).None? ==>
      ip == (if resolve(host.value).Some? then resolve(host.value).value else INVALID_IP)
  {
    match host
    case None => 0
    case Some(h) =>
      match Inet.InetAton(h)
      case Some(a) => a
      case None => if resolve(h).Some? then resolve(h).value else INVALID_IP
  }

  /** What server_init leaves: a rejected entry naming the field it
      complains about, a configured server, or an entry whose outcome the
      document does not determine because a key read as text holds children
      (xml_get_string then returns the child's address). */
  datatype Init = Rejected(field: string) | Started(server: Server) | Unreadable

  /** What xml_get_string gives for a key of the entry. */
  function Key(cfg: Config.Node, key: string): Config.Field {
    Config.XmlGetString(Some(cfg), key)
  }

  /** The port, as xml_get_int reads it (None where it holds children). */
  function PortOf(cfg: Config.Node): Option<int> {
    Config.XmlGetInt(Some(cfg), "port")
  }

  /** The fields server_init reads before it looks at the console: the
      entry's id is the section name cut to MAX_SERVER_ID characters; the
      port must be nonzero, and version and name present; "local" reads as
      a boolean whose missing value -1 counts as local.  The address and the
      console are filled in afterwards. */
  function EntryFields(cfg: Config.Node): (r: Init)
    ensures r.Started? || r.Rejected? || r.Unreadable?
    ensures r == Rejected("port") <==> PortOf(cfg) == Some(0)
    ensures r == Rejected("version") <==>
      PortOf(cfg).Some? && PortOf(cfg) != Some(0) && Key(cfg, "version").Missing?
    ensures r == Rejected("name") <==>
      PortOf(cfg).Some? && PortOf(cfg) != Some(0) && Key(cfg, "version").Text? && Key(cfg, "name").Missing?
    ensures r.Rejected? ==> r.field in {"port", "version", "name"}
    ensures r.Started? ==>
      && PortOf(cfg) == Some(r.server.port) && r.server.port != 0
      && r.server.id == Prefix(cfg.name, MAX_SERVER_ID)
      && Key(cfg, "version").Text? && r.server.version == Prefix(Key(cfg, "version").s, MAX_VERSION_LEN)
      && Key(cfg, "name").Text? && r.server.name == Prefix(Key(cfg, "name").s, MAX_SERVER_NAME)
      && Config.XmlGetBool(Some(cfg), "local") == Some(r.server.local)
      && r.server.ip == INVALID_IP && r.server.console == Process("", false)
  {
    match PortOf(cfg)
    case None => Unreadable
    case Some(port) =>
      if port == 0 then Rejected("port")
      else
        match Key(cfg, "version")
        case Missing => Rejected("version")
        case Nested => Unreadable
        case Text(version) =>
          match Key(cfg, "name")
          case Missing => Rejected("name")
          case Nested => Unreadable
          case Text(name) =>
            match Config.XmlGetBool(Some(cfg), "local")
            case None => Unreadable
            case Some(local) =>
              Started(Server(INVALID_IP, port, local, Prefix(cfg.name, MAX_SERVER_ID),
                             Prefix(version, MAX_VERSION_LEN), Prefix(name, MAX_SERVER_NAME), Process("", false)))
  }

  /** server_init for the section `cfg` of the configuration's servers:
      the common fields, then the local or the remote branch.  Whether
      sys_run_server manages to start the process is the parameter
      `launched`; the entry is accepted either way.  Connecting to the
      remote console is an effect the model leaves out; its outcome does not
      change the result. */
  function ServerInit(cfg: Config.Node, resolve: string -> Option<u32>, launched: bool, v: Variant): (r: Init)
    requires Config.WellFormed(cfg, 2)
    ensures !EntryFields(cfg).Started? ==> r == EntryFields(cfg)
    ensures r.Started? ==> (EntryFields(cfg).Started?
      && r.server.(ip := INVALID_IP, console := Process("", false)) == EntryFields(cfg).server)
  {
    match EntryFields(cfg)
    case Started(s) => if s.local != 0 then InitLocal(cfg, s, resolve, launched) else InitRemote(cfg, s, resolve, v)
    case other => other
  }

  /** The address the entry's host names; None where the host holds
      children. */
  function EntryIp(cfg: Config.Node, resolve: string -> Option<u32>): (r: Option<u32>)
    requires Config.WellFormed(cfg, 2)
    ensures r.None? <==> Key(cfg, "host").Nested?
    ensures Key(cfg, "host").Missing? ==> r == Some(0)
  {
    Config.GetStringIsCString(cfg, 2, "host");
    match Key(cfg, "host")
    case Nested => None
    case Missing => Some(HostToIp(None, resolve))
    case Text(h) => Some(HostToIp(Some(h), resolve))
  }

  /** The local branch: launch_params is required; the launch's outcome is
      recorded but does not reject the entry. */
  function InitLocal(cfg: Config.Node, s: Server, resolve: string -> Option<u32>, launched: bool): (r: Init)
    requires Config.WellFormed(cfg, 2)
    ensures r.Started? <==> Key(cfg, "launch_params").Text? && EntryIp(cfg, resolve).Some?
    ensures r == Rejected("launch_params") <==> Key(cfg, "launch_params").Missing?
    ensures r.Started? ==>
      r.server == s.(ip := EntryIp(cfg, resolve).value, console := Process(Key(cfg, "launch_params").s, launched))
  {
    match Key(cfg, "launch_params")
    case Missing => Rejected("launch_params")
    case Nested => Unreadable
    case Text(params) =>
      match EntryIp(cfg, resolve)
      case None => Unreadable
      case Some(ip) => Started(s.(ip := ip, console := Process(params, launched)))
  }

  /** The remote branch: a nonzero address and rc_password are required,
      and the header is built from the password. */
  function InitRemote(cfg: Config.Node, s: Server, resolve: string -> Option<u32>, v: Variant): (r: Init)
    requires Config.WellFormed(cfg, 2)
    ensures r == Rejected("ip") <==> EntryIp(cfg, resolve) == Some(INVALID_IP)
    ensures r == Rejected("remote console password") <==>
      EntryIp(cfg, resolve).Some? && EntryIp(cfg, resolve) != Some(INVALID_IP) && Key(cfg, "rc_password").Missing?
    ensures r.Started? <==>
      EntryIp(cfg, resolve).Some? && EntryIp(cfg, resolve) != Some(INVALID_IP) && Key(cfg, "rc_password").Text?
    ensures r.Started? ==>
      NoNul(Key(cfg, "rc_password").s) &&
      r.server == s.(ip := EntryIp(cfg, resolve).value,
                     console := Remote(ServerHeader(Key(cfg, "rc_password").s, v).0, ServerHeader(Key(cfg, "rc_password").s, v).1))
  {
    match EntryIp(cfg, resolve)
    case None => Unreadable
    case Some(ip) =>
      if ip == INVALID_IP then Rejected("ip")
      else
        Config.GetStringIsCString(cfg, 2, "rc_password");
        match Key(cfg, "rc_password")
        case Missing => Rejected("remote console password")
        case Nested => Unreadable
        case Text(pwd) =>
          var (h, n) := ServerHeader(pwd, v);
          Started(s.(ip := ip, console := Remote(h, n)))
  }

  /** A local entry runs the process launched with the entry's
      launch_params, and is accepted whether or not the launch succeeded. */
  lemma LocalConsole(cfg: Config.Node, resolve: string -> Option<u32>, launched: bool, v: Variant)
    requires Config.WellFormed(cfg, 2)
    requires ServerInit(cfg, resolve, launched, v).Started? && ServerInit(cfg, resolve, launched, v).server.local != 0
    ensures Key(cfg, "launch_params").Text?
    ensures ServerInit(cfg, resolve, launched, v).server.console == Process(Key(cfg, "launch_params").s, launched)
    ensures ServerInit(cfg, resolve, !launched, v).Started?
  {
    var s := EntryFields(cfg).server;
    assert ServerInit(cfg, resolve, launched, v) == InitLocal(cfg, s, resolve, launched);
    assert ServerInit(cfg, resolve, !launched, v) == InitLocal(cfg, s, resolve, !launched);
  }

  /** A remote entry has a real address and talks to the remote console
      through the header built from its rc_password. */
  lemma RemoteConsole(cfg: Config.Node, resolve: string -> Option<u32>, launched: bool, v: Variant)
    requires Config.WellFormed(cfg, 2)
    requires ServerInit(cfg, resolve, launched, v).Started? && ServerInit(cfg, resolve, launched, v).server.local == 0
    ensures ServerInit(cfg, resolve, launched, v).server.ip != INVALID_IP && Key(cfg, "rc_password").Text?
    ensures var (h, n) := ServerHeader(Key(cfg, "rc_password").s, v);
      ServerInit(cfg, resolve, launched, v).server.console == Remote(h, n)
  {
    var s := EntryFields(cfg).server;
    assert ServerInit(cfg, resolve, launched, v) == InitRemote(cfg, s, resolve, v);
  }

  /** A remote entry without a host is refused: the missing host reads as
      address 0, which is the wildcard for local servers only. */
  lemma RemoteNeedsHost(cfg: Config.Node, resolve: string -> Option<u32>, launched: bool, v: Variant)
    requires Config.WellFormed(cfg, 2)
    requires PortOf(cfg).Some? && PortOf(cfg) != Some(0)
    requires Key(cfg, "version").Text? && Key(cfg, "name").Text?
    requires Config.XmlGetBool(Some(cfg), "local") == Some(0)
    requires Key(cfg, "host").Missing?
    ensures ServerInit(cfg, resolve, launched, v) == Rejected("ip")
  {
  }

  /** An entry without a "local" key is launched locally: xml_get_bool
      reports a missing key as -1, which is true. */
  lemma MissingLocalMeansLocal(cfg: Config.Node, resolve: string -> Option<u32>, launched: bool, v: Variant)
    requires Config.WellFormed(cfg, 2)
    requires Key(cfg, "local").Missing?
    ensures ServerInit(cfg, resolve, launched, v).Started? ==> ServerInit(cfg, resolve, launched, v).server.console.Process?
  {
  }
}
