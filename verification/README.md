# ntl-server gateway core in Dafny

ntl-server is an authentication gateway for game servers. A game client
connects and sends one binary request:
- a **login** names a hardware id, the game server it wants (address and
  port) and an account; or
- a **register** names a hardware id, an account and a mail address.

The gateway checks the hardware id against a ban list and asks the
database. On a successful login it sends "whitelist add <login>" to the
console of the chosen game server. It also binds a player record to the
client's entry in the **client registry**. That registry holds one list
per worker thread of the addresses the gateway accepted connections from.
A sweeper retires stale entries and sends "whitelist remove <name>" for
the accounts bound to them. The game servers are described in a small XML
configuration. A server is either launched locally or reached through a
remote console whose frames start with a header holding a password.

The model is functional. Buffers are byte sequences with a read cursor.
The registry is an explicit heap from node addresses to client records,
plus a sequence of shards {head, head_valid}. Every operation is a pure
function, or a method over such values. Where the C code has a defect, the
model keeps the code's behaviour (`AsWritten`) and also a corrected
definition (`Intended`); see "## Findings".

Modules, one per part of the program:
- `Base`: options, the 32/16/8-bit ranges, C's truncating division, and
  text ↔ bytes.
- `Wire`: the cursor readers of util.c, little-endian words, the protocol
  tags and the answer `net_send_answer` sends.
- `Text`: `is_valid_mail`, `is_valid_hwid`, `parse`,
  `php_get_serialized` and the name part of `get_hash_func`.
- `Inet`: `_inet_aton`, with `dword` taken as 64-bit, as on an LP64
  build.
- `AtomicList`: the shard lists of atomic_list.h, read sequentially.
- `Registry`: `client_find`, `client_add`, the registry decision of
  `net_accept`, and the sweeper `clients_check_timeout`.
- `Config`: the XML reader `xml_parse` and the `xml_get_*` accessors.
- `Servers`:
  - `server_find` and `server_find_id`;
  - the console line of `server_command` and the frame of
    `net_server_command`;
  - the validation and header of `server_init`.
- `Dispatch`: `client_read_message` and `client_connected`.

These are parameters of the model:
- the database (ban check, login, registration), as functions;
- the resolver behind `gethostbyname`, as a function;
- the clock, as a number `now`;
- the address `mem_alloc_client` returns, as a fresh node id;
- the uninitialised `user.ip` of the login path, as a number;
- the peer's address as `net_accept` reads it from `accept`, and the value
  `net_get_ip` returns for the socket, as two separate numbers.

Effects are values:
- a dispatch returns the answer it sends, the console commands it issues,
  and the registry after it;
- a sweep returns the heap, the set of released records, the queued
  commands, a count of reads of released records, a count of records
  released a second time, the records whose player was freed and a count
  of players freed a second time;
- the registry remembers the records earlier sweeps released and the
  players they freed, so a later sweep can meet one again;
- a local server records whether its launch got as far as setting
  `server->process`, a parameter of the model.

A NULL dereference is an outcome (`NullDeref`, `Crash`, `SweepNullDeref`),
never a precondition. So is a configuration parse that goes on reading at
a cursor moved past the NUL ending its text (`RanPast`).

`al_head`, `al_head_valid` and `al_next` are plain reads of their
arguments (`AtomicList.AlHead`, `AlHeadValid`, `AlNext`). The registry
functions use them through `AtomicList.Chain`.

## Model

| member | source | states |
|---|---|---|
| Wire.MsgGetUint | util.c:78-97 | With fewer than 4 bytes left the result is the caller's error value and the cursor stays put. Otherwise it is the little-endian word of the 4 bytes at the cursor, and the cursor advances by 4. |
| Wire.MsgGetUshort | util.c:99-118 | The same with 2 bytes. |
| Wire.Le32Decodes | util.c:78-97 | A 32-bit word written as four little-endian bytes reads back as itself. |
| Wire.Le16Decodes | util.c:99-118 | The same for a 16-bit word in two bytes. |
| Wire.MsgGetString | util.c:120-133 | Fails, with the cursor unchanged, exactly when the first min(maxlen, bytes left) bytes hold no zero. Otherwise it yields the bytes before the first zero, shorter than that window and zero-free, and advances the cursor past the zero. |
| Wire.MsgGetStringReadsEncoded | util.c:120-133 | A string written with its terminating zero, shorter than maxlen, reads back as itself. |
| Wire.MsgGetStringRejectsOverlong | util.c:125-129 | A string of maxlen or more bytes is refused even when terminated later. |
| Wire.ReadersKeepCursorInBounds | util.c:78-133 | The three readers never move the cursor backwards or past the end of the buffer. |
| Wire.NetSendAnswer | net.c:501-509 | The answer is 8 bytes: the `ntl_answer` tag, then the code as a 32-bit word. |
| Text.IsValidMail | util.c:13-33 | Returns 1 exactly when every character is a letter, '.' or '@' and some '@' occurs; otherwise 0. |
| Text.IsValidHwid | util.c:35-50 | Returns 0 exactly when the id holds an ASCII letter; otherwise 1. |
| Text.Parse | util.c:52-76 | Records at most max_args offsets, in increasing order, each at a token start. Every token start is recorded unless parse stopped early before it. The separators passed over become NUL. |
| Text.ParseArgsAreTokens | util.c:52-76 | Each recorded argument reads, as a C string, as the whole token it starts. When parse stopped early, the last one runs to the end of the line. |
| Text.PhpGetSerialized | util.c:175-194 | Absent exactly when the name does not occur. NullDeref exactly when the name occurs but no `:"` follows its first occurrence. TooLong exactly when maxlen is negative and neither of those holds. A copied value is always empty: with maxlen ≥ 0, every other run copies the empty string. |
| Text.PhpGetSerializedIntended | util.c:175-194 | Absent when the name does not occur. A copied value fits maxlen and holds no quote. Only the offset is corrected: a missing `:"` still gives NullDeref, exactly as written, and a missing closing quote gives Absent. |
| Text.SerializedValueRoundTrip | util.c:180-193 | For an entry `name…:"value"…` the intended extractor yields the value, and the code as written yields the empty string. |
| Text.GetHashFunc | util.c:162-173 | A found function is the one of that name; nothing is found for any other name. |
| Text.GetHashFuncFindsEveryName | util.c:162-173 | md5, sha1 and sha256 are each found under their own name. |
| Inet.InetAton | net.c:44-139 | The empty string reads as address 0. The lemmas below state the other forms. |
| Inet.AtonLoop | net.c:56-102 | No contract: the loop over the dotted parts, which refuses a fourth dot or a part above 0xff before a dot and then checks the trailing text. The lemmas below state what it computes. |
| Inet.AtonReadsAddressForms | net.c:44-139 | Every a / a.b / a.b.c / a.b.c.d form with decimal parts in range reads as a<<24 \| b<<16 \| c<<8 \| d, with the last part filling the remaining bits. |
| Inet.AtonRejectsWideLastPart | net.c:112-135 | A last part above 0xffffff, 0xffff or 0xff for 2, 3 or 4 parts is refused. |
| Inet.AtonRejectsFiveParts | net.c:96-97 | A fourth dot is refused. |
| Inet.AtonRejectsWideDottedPart | net.c:96-97 | A part above 0xff before a dot is refused, whatever follows. |
| Inet.AtonTrailingText | net.c:106-107 | After the last part, whitespace and anything after it is accepted; any other character is refused. |
| Inet.AtonReadsHex | net.c:63-87 | "0x" and a hexadecimal numeral read as the number, truncated to 32 bits. |
| Inet.AtonReadsOctal | net.c:63-87 | "0" and an octal numeral read as the number, truncated to 32 bits. |
| Inet.AtonOctalTakesDecimalDigits | net.c:71-78 | '8' and '9' are taken after a leading zero, as base-8 digits. |
| Inet.AtonReadsDottedQuad | net.c:44-139 | An address printed as four decimal bytes reads back as the same address. |
| AtomicList.AlInitIsEmpty | atomic_list.h:29-33 | A fresh list reaches no node, and its head is not live. |
| AtomicList.AlInit | atomic_list.h:29-33 | No contract: the shard al_init leaves, a NULL head that is not live. AlInitIsEmpty states what it means. |
| AtomicList.AlHead | atomic_list.h:14-17 | No contract: a plain read of the head. |
| AtomicList.AlHeadValid | atomic_list.h:24-27 | No contract: a plain read of head_valid. |
| AtomicList.AlNext | atomic_list.h:35-38 | No contract: a plain read of the node's `next`. |
| AtomicList.AlSetNext | atomic_list.h:40-43 | Only the node's record changes. |
| AtomicList.AlPush | atomic_list.h:45-49 | Only obj's `next` and the head change. head_valid and every other record stay as they were. |
| AtomicList.AlPushChain | atomic_list.h:45-49 | After a push the list is obj followed by the old list. |
| AtomicList.AlRemove | atomic_list.h:51-54 | Only prev's `next` changes; the list head is not an argument, so it cannot change. |
| AtomicList.AlRemoveChain | atomic_list.h:51-54 | Removing the node after prev takes exactly that node out, and the others keep their order and the first node. |
| Registry.ClientFind | client.c:20-42 | A found node is a heap record holding the address. ClientFindScans states the whole search. |
| Registry.Find | client.c:20-42 | The intended lookup never dereferences NULL. A node found by either lookup holds the address. |
| Registry.ClientFindScans | client.c:20-42 | client_find as written scans the shards in order and stops at the first shard that is empty or holds the address. An empty shard is a NULL dereference. There the first matching node is found, unless it is a head that is no longer live: then nothing is found. With no match anywhere, nothing is found. |
| Registry.ClientFindChecked | client.c:20-42 | The intended lookup never dereferences NULL. It finds nothing exactly when no visible entry holds the address; otherwise it finds the first visible entry in shard and list order. |
| Registry.ClientFindAgrees | client.c:20-42 | Without empty shards or stale heads holding the address, the code as written finds what the intended lookup finds. |
| Registry.ClientFindEmptyShardFaults | client.c:27-29 | An empty first shard makes every lookup dereference NULL. |
| Registry.ClientFindStaleHeadHides | client.c:29-32 | A stale head holding the address in the first shard hides every visible entry for it. |
| Registry.ClientAdd | client.c:44-54 | A fresh record {ip, no player, conntime = now} becomes the live head of the shard pointing at the old head. Every other record and shard is unchanged. |
| Registry.ClientAddChains | client.c:44-54 | The shard becomes the new node followed by its old nodes; every other shard keeps its nodes. |
| Registry.ClientAddIsFound | client.c:44-54 | An added address is found at once by the intended lookup. |
| Registry.NetAccept | net.c:369-383 | A known address keeps its socket exactly when it has a player, and nothing is added. An unknown address is added once to the accepting thread's shard. As written, a lookup's NULL dereference ends the accept. |
| Registry.NetAcceptAddsOnce | net.c:369-383 | A second connection from an address just added finds the new record. That record has no player, so the socket is closed and nothing is added. |
| Registry.NetAcceptAddsAgain | net.c:369-381 | As written, a stale head holding the address in the first shard makes a second connection through another thread add the address again. |
| Registry.Thresholds | client.c:66-67 | The bound-client cut-off is now − timeout. The unbound cut-off is that point in time divided by three. |
| Registry.ThresholdsIntended | client.c:66-67 | The unbound cut-off lies a third of the timeout before now. |
| Registry.ThresholdsUnboundNeverExpire | client.c:66-67 | With now ≥ 2·timeout, an unbound client that connected after now/3 never expires under the cut-off as written. |
| Registry.ThresholdsCounterexample | client.c:66-67 | At now = 1000 with timeout 15, the unbound cut-off is 328. A client connected at 990 stays, though the intended cut-off expires it. |
| Registry.HeadChecked | client.c:71-75 | A stale head stays on its list and only loses its live flag. |
| Registry.Release | client.c:83-91 | The node is unlinked behind prev and released, then read once more. Releasing a node already released counts a double free. The queued removal names the player the node held, and that player is freed. Freeing a player already freed counts a second free(player). |
| Registry.TailPass | client.c:78-93 | The pass as written keeps the heap's addresses and changes no record besides its link. Released records, late reads and double frees only grow, commands are only appended, and released records stay heap records. |
| Registry.TailPassFixed | client.c:78-93 | The same for the intended pass. |
| Registry.LoopPass | client.c:78-93 | The pass of either variant changes no record off the walked list and no record besides its link, keeps released records among the heap's, and only appends commands. |
| Registry.SweepFrom | client.c:69-94 | A completed sweep keeps the number of shards and the heap's addresses. As written, it ends in a NULL dereference only at an empty shard, which the intended loop steps over. |
| Registry.SweepFromGrows | client.c:69-94 | However the outer loop ends, it keeps the heap's addresses. Released records, late reads, double frees and queued commands only grow, and released records stay heap records. |
| Registry.SweepShardWalk | client.c:78-93 | The inner loop over the heap's live `next` pointers computes the pass over the nodes the shard held when it began. |
| Registry.TailPassLinks | client.c:78-93 | As written, the list after the head keeps the nodes KeptAW selects. After an unlink, prev moves onto the unlinked node, so the next node is judged but never unlinked. |
| Registry.TailPassFixedLinks | client.c:78-93 | As intended, the list after the head is exactly its fresh nodes, in order. |
| Registry.TailPassReleases | client.c:80-85 | Exactly the stale nodes after the head are released, for both variants. |
| Registry.TailPassQueues | client.c:84-91 | One "whitelist remove <name>" is queued, in list order, for each released node with a player, on that player's server. |
| Registry.TailPassLateReads | client.c:84-87 | As written, every stale node is read twice after its release: for its player and for its `next`. A pass whose starting prev is itself released reads it once more. |
| Registry.TailPassFixedNoLateReads | client.c:84-87 | The intended pass reads no released record. |
| Registry.ShardPass | client.c:71-93 | One shard's pass, either variant: the head followed by the survivors, exactly the stale tail nodes released, the removals queued in order. The intended pass makes no late reads. |
| Registry.ClientsCheckTimeout | client.c:56-95 | The sweep as written starts from the records earlier sweeps released. It keeps the shard count and the heap's addresses, and ends in a NULL dereference only at an empty shard. |
| Registry.ClientsCheckTimeoutSpec | client.c:56-95 | With every shard non-empty and no released record listed, the sweep as written completes. Each shard keeps its head and KeptAW of its other nodes. Exactly the stale tail nodes are released, no head is, and the removals are queued shard by shard. |
| Registry.ClientsCheckTimeoutFixed | client.c:56-95 | The intended sweep never dereferences NULL. |
| Registry.ClientsCheckTimeoutFixedSpec | client.c:56-95 | The intended sweep completes. Each shard keeps its head, followed by exactly its fresh nodes. Exactly the stale tail nodes are released, and none stays listed. The removals are queued in order, and no released record is read. |
| Registry.SweepEmptyShardFaults | client.c:71-74 | A first shard as al_init leaves it makes the sweep as written dereference NULL. |
| Registry.SweepKeepsReleasedNode | client.c:78-83 | With two stale nodes after a head, the second one is released yet stays on the list. |
| Registry.NetClientsInit | net.c:238-239 | net_init's registry has one shard per thread, each as al_init leaves it, and nothing released. |
| Registry.NetClientsInitValid | net.c:238-239 | A fresh registry is valid, lists no released record, and every shard is empty. |
| Registry.ClientAddValid | client.c:44-54 | client_add keeps a registry valid, and one that lists no released record keeps listing none. |
| Registry.NetAcceptValid | net.c:369-383 | net_accept keeps a registry valid, whatever it decides. |
| Registry.SweptValid | client.c:56-95 | A completed sweep of either variant leaves a valid registry whose shard k holds exactly SweptList. |
| Registry.SweepKeepsValid | client.c:56-95 | On a valid registry with no empty shard the sweep as written completes. It leaves a valid registry, keeps the released records, gives shard k SweptList, and changes no record besides its link. |
| Registry.SweepFixedKeepsValid | client.c:56-95 | The intended sweep leaves a valid registry that lists no released record. |
| Registry.ThresholdsGrow | client.c:66-67 | Both cut-offs as written move forward with time. |
| Registry.SweepMeetsFreed | client.c:78-91 | A sweep that finds a released, stale record second on the first shard releases it again. It reads the record at least twice after its first release, and first queues the removal of its player. When that player was freed too, free(player) runs on it again. |
| Registry.FirstSweepLeaves | client.c:78-91 | After a sweep with two stale nodes behind the first head, that shard is the head, then the released second node, then the rest. The head is not released. |
| Registry.FirstSweepFreesPlayer | client.c:78-91 | A sweep with two stale nodes behind the first head frees the second node's player, when it has one. |
| Registry.SecondSweepFreesAgain | client.c:78-91 | The next sweep, at any later time, meets the node the first sweep left listed after releasing it. It releases the node again, reads it after the release, and first queues the removal of its player again. The node still points to the same player, which the first sweep freed: the removal is formatted from the freed player and free(player) runs a second time. |
| Config.XmlParse | config.c:162-235 | Unless the parse runs past its text, the result carries the element's name and is well formed. It uses no more pool records than it obtains. A text without '<' stays the element's string: string data below the root, invalid at the root. |
| Config.ScanTag | config.c:177-208 | Finds the end exactly when no '<' remains. A found element resumes inside the text, and its inner text and the rest are C strings. |
| Config.ScanClose | config.c:197-208 | Broken exactly when the closing pattern does not occur after the opening tag. Overrun exactly when it occurs but the skip of the name's length + 3 passes the text's end, which never happens to a name that fits the buffer. Otherwise the loop resumes that many characters after the inner text. |
| Config.ParseLoop | config.c:175-232 | Unless it runs past, the chain extends the children already chained with well-formed nodes, and it uses no more pool records than it obtains. A text without '<' ends at once. An overrun with a pool record left ends in RanPast. With the pool exhausted, an overrun or a complete element breaks the loop with the parent invalid. |
| Config.ParseElements | config.c:175-232 | The elements in order become children named by their keys, stopping only when the pool is exhausted. With the pool already used up, no child is added. Running past needs an inner text that holds '<'. |
| Config.LongCloseOverruns | config.c:197-215 | A name of 60 characters or more, closed only by its cut pattern at the end of the text, makes the scan overrun. With a pool record left the parse runs past; with the pool exhausted the parent is invalid. |
| Config.ChildRunsPast | config.c:211-218 | A child that runs past makes its parent's loop run past. |
| Config.LongNameRunsPast | config.c:197-208 | `<p><N></N</p><q>1</q>`, with N sixty characters long, runs past p's text, so the document does not determine what the load gives. |
| Config.XmlParseReadsElements | config.c:183-231 | A run of delimited elements yields one child per element, in document order. The parent becomes xml (config at the root), or invalid when the pool runs dry. |
| Config.ParseLeaves | config.c:139-148 | Leaves that fit in the pool take one record each and become string nodes. |
| Config.BrokenTagInvalid | config.c:183-205 | A tag the loop cannot complete makes the element invalid, with no data. |
| Config.MissingGtBroken | config.c:183-190 | A '<' with no '>' after it cannot be completed. |
| Config.UnclosedBroken | config.c:197-205 | An opening tag never followed by its closing tag cannot be completed. |
| Config.SameNameNesting | config.c:197-198 | `<a><a>x</a></a>` does not load: the first `</a>` closes the outer element. |
| Config.ConfigParse | config.c:237-281 | Unless the parse runs past, a loaded configuration is named after its path and has children. It holds at most XML_MAXCOUNT records besides the root. A text without '<' does not load, given that the bytes after the file read as a NUL first. |
| Config.FlatConfig | config.c:237-281 | A document of 1 to XML_MAXCOUNT leaves loads with those leaves as children. xml_get_string reads each key's text back from its first element. |
| Config.XmlGetSub | config.c:67-93 | Gives the first child with the name, or the first child when no name is given. Gives NULL for a missing node, a node without children, or an absent name. |
| Config.XmlGetSubCount | config.c:95-106 | The number of children of a node with children, else 0. |
| Config.XmlGetString | config.c:132-137 | Missing exactly when the key is not a valid node; text exactly when it holds a string. |
| Config.GetStringIsCString | config.c:132-137 | Every text read from a parsed tree is a C string. |
| Config.XmlGetInt | config.c:118-123 | atoi of the key's text; 0 for a missing key. |
| Config.AtoiReadsNumeral | config.c:118-123 | atoi reads back a decimal numeral within int's range after spaces and a sign. |
| Config.Atoi | config.c:121 | The result is within int's range. |
| Config.Strtol | config.c:121 | The result is within long's range. |
| Config.Int32 | config.c:121 | The result is within int's range and equals the long modulo 2^32. |
| Config.StrtolReadsNumeral | config.c:121 | Leading white space, an optional sign and a decimal numeral within int's range, followed by a non-digit, read as that signed number. |
| Config.XmlGetBool | config.c:125-130 | −1 for a missing key; 1 for "true" or a leading '1'; 0 otherwise. |
| Servers.ServerFind | servers.c:16-27 | The first entry whose port matches and whose address matches or is the wildcard 0. Nothing exactly when no entry serves. |
| Servers.ServerFindNeedsPort | servers.c:20-26 | The port is never a wildcard. |
| Servers.WildcardShadows | servers.c:20-24 | A wildcard entry ahead of an exact one hides it. |
| Servers.ServerFindId | servers.c:29-40 | The first entry whose id equals the id exactly; nothing exactly when none does. |
| Servers.CommandLine | servers.c:48-52 | Overflows exactly when the text is longer than 509 characters. Otherwise the line is a C string of at most 510 characters. |
| Servers.CommandLineFrames | servers.c:48-52 | A text of up to 508 characters gets CR LF. One of 509 loses its last character and gets none. A longer one writes past the buffer. |
| Servers.ServerCommand | servers.c:42-58 | The line goes to the process console exactly when the server is local and its launch set `process`. Otherwise it goes through net_server_command: with the server's header when remote, and with a zeroed header of length 0 when a local launch failed. |
| Servers.FailedLaunchSendsBareLine | sys.c:266-293 | A local server whose pipe or fork failed keeps process 0, so a short enough command is sent as a bare frame: the text, CR LF and NUL, with no header. |
| Servers.NetServerCommand | net.c:479-499 | Refuses a frame longer than MAX_SRVCMD_LEN. Otherwise it sends exactly header_len header bytes, then the command and its NUL. A recorded length beyond the header array reads past it. |
| Servers.ServerHeader | servers.c:120-121 | The header starts with the `ntl_command` tag and NUL-pads the rest. As written it keeps 30 password characters but records 4 + the full length; as intended it keeps 31 and records what it kept. |
| Servers.IntendedHeaderFrames | servers.c:120-121 | With the intended header a password that fits is sent whole: tag, password, command, NUL. |
| Servers.IntendedHeaderNeverOverreads | servers.c:120-121 | With the intended header no password makes the frame read past the header. |
| Servers.RemoteFrameReads | net.c:494-498 | The remote side reads the tag, the password after it, and the command back as the string that follows. |
| Servers.WrittenHeaderDropsLastCharacter | servers.c:121 | As written, a 31-character password reaches the remote console with its last character replaced by NUL. |
| Servers.WrittenHeaderOverreads | servers.c:121 | As written, a password longer than 32 characters makes the frame copy read past the header. |
| Servers.HostToIp | net.c:141-176 | A missing host gives 0, a numeric host its _inet_aton value, otherwise the resolver's address or INVALID_IP. |
| Servers.EntryFields | servers.c:64-89 | A zero port, then a missing version, then a missing name each reject the entry. Otherwise the id, version and name are cut to their field sizes, and "local" is read as a boolean. |
| Servers.ServerInit | servers.c:60-130 | A rejection by the common fields stands. A started server carries exactly those fields. |
| Servers.InitLocal | servers.c:91-105 | A local entry needs launch_params, runs that process, and records whether the launch set `process`. |
| Servers.InitRemote | servers.c:106-127 | A remote entry is rejected for address 0 and then for a missing rc_password. Otherwise it talks through the header built from the password. |
| Servers.LocalConsole | servers.c:91-105 | A started local server's console is the process of launch_params with the launch's outcome. The entry is accepted whether or not the launch succeeded. |
| Servers.RemoteConsole | servers.c:106-121 | A started remote server has a nonzero address and the header of its rc_password. |
| Servers.RemoteNeedsHost | servers.c:66-112 | A remote entry without a host is rejected for its address. |
| Servers.MissingLocalMeansLocal | servers.c:89-91 | A missing "local" key reads as −1 and launches locally. |
| Dispatch.ClientReadMessage | client.c:97-170 | A buffer under 4 bytes or an unknown opcode is not answered. Register never touches the registry or sends commands. Only a successful login sends one command and binds a player. No path changes a list. |
| Dispatch.LoginRequest | client.c:110-115 | An unterminated hardware id is not answered, before the ban check; a banned one is refused. |
| Dispatch.LoginServer | client.c:117-121 | A zero address is not answered. |
| Dispatch.ServerReads | client.c:117-121 | A zero address or port is not answered. An unserved address is refused with ntle_invalid_server. Otherwise the account for the first serving entry is read. |
| Dispatch.CredentialsRead | client.c:125-138 | The database's login code is sent. Only on success is "whitelist add <login>" sent and client_connected run. |
| Dispatch.LoginCredentials | client.c:125-140 | A path that crashes, queues a command or changes the registry queues exactly one command, and it crashes or answers ntle_no_error. A path that completes changes at most the players bound to records. |
| Dispatch.RegisterRequest | client.c:142-147 | The same hardware-id and ban checks; the registry is never touched. |
| Dispatch.AccountRead | client.c:149-161 | The database's code for login, password, mail, the value net_get_ip returns and the hour is sent. |
| Dispatch.RegisterAccount | client.c:149-163 | Reading the account never touches the registry. |
| Dispatch.Hour | client.c:155 | The hour is now / 3600, in whole hours. |
| Dispatch.LoginRoundTrip | client.c:108-140 | A well-formed login for a served address, as a client encodes it, is answered with the database's code. Success whitelists the account on the serving entry and runs client_connected. |
| Dispatch.UnknownServerRefused | client.c:120-121 | A well-formed login for an unserved address is refused before the account is read. |
| Dispatch.ZeroAddressIgnored | client.c:117-118 | A login naming address 0 or port 0 is not answered. |
| Dispatch.BannedRefused | client.c:108-147 | A banned hardware id is refused on either path, whatever follows it. |
| Dispatch.RegisterRoundTrip | client.c:142-163 | A well-formed registration is answered with the database's code and changes nothing else. |
| Dispatch.ClientConnected | client.c:172-190 | "whitelist add <login>" is sent first, unconditionally. A NULL dereference in client_find crashes. Otherwise the found entry gets the player {login, 0, server}, a player not yet freed, and nothing else changes; with no entry, nothing changes. |
| Dispatch.ReboundKeepsLookups | client.c:184-189 | Binding a player changes no lookup. |
| Dispatch.WhitelistAddFits | client.c:177 | The command for a login that fits its field reaches the console with its CR LF. |
| Dispatch.StackKeyMissesPeer | client.c:179 | As written, when user.ip is not the address net_accept keyed the peer's entry with, the peer's entry gets no player. |
| Dispatch.PeerKeyBindsPeerOnly | client.c:179 | In a registry holding only the peer's entry, the key net_accept recorded binds the player to it and changes nothing else, whatever user.ip and net_get_ip hold. |

## Left out

- main.c: the epoll and Windows worker loops, signals, the pipe reader and the console loop are concurrency and I/O. The dispatcher and sweeper they call are modelled directly.
- sys.c: thread creation, fork/exec, pipes and sleeps are operating-system primitives. Launching a local server is reduced to recording its launch_params and whether the launch reached `server->process = pid`, which is a parameter.
- database.c: the MySQL queries and password hashing become the oracle parameters `banned`, `login` and `register`.
- hash_md5, hash_sha1, hash_sha256: foreign libraries. Only the name-to-function choice of get_hash_func is modelled.
- Sockets, DNS and the echo handshake of net.c: net_listen, net_init, net_recv, net_send, net_server_connect, net_get_ip and gethostbyname. The resolver, the address net_accept reads and the value net_get_ip returns are parameters. net_get_ip passes getpeername a 4-byte in_addr as the socket address, so it returns the truncated sockaddr_in (family and port) or INVALID_IP, not the peer's address; the model does not compute that value. What net_send returns is not modelled; the dispatcher returns the bytes it would send.
- Atomicity of atomic_list.h: memory ordering and reclamation against concurrent readers are concurrency. Released records stay in the heap, marked in a released set, and mem_free_client never hands one out again.
- AtomicList: `head` and `next` are atomic_int holding `(int)` casts of record addresses, which on an LP64 build keep only the low 32 bits. The NodeId links assume that every record address survives the round trip through int, that is, that mem_alloc_client's addresses lie below 2^31.
- time(NULL) is the parameter `now`. vsnprintf formatting is modelled only for the "whitelist add/remove %s" commands.
- config_load's file reading (fopen, ftell, fread): ConfigParse starts from the text in memory.
- Config.ConfigParse: config_load writes no NUL after the file's bytes, which the pool records follow in the same allocation, so the root-level scan for '<' and the searches for '>' and the closing tag read on into those records. The model assumes they read as a NUL before any '<' or '>' and takes the end of the text as the terminator. It does not model what the load gives otherwise.
- Config.XmlParse: the closing-tag buffer keeps XML_MAXLEN − 1 characters, but the cursor skips the full length snprintf reports. When that skip passes the NUL ending the current text and a pool record is left, the model stops with `RanPast`; with the pool exhausted the loop breaks first, and the parent is invalid. It does not follow the read into the bytes beyond: the parent's closing tag, NULs written by earlier steps, or, at the root, the pool records. Config.ConfigParse then gives `RanPast` instead of a configuration or NULL.
- Servers.ServerInit: a key whose value holds child elements (xml_get_string then returns a node address as text) gives `Unreadable` instead of a value.
- Servers.ServerInit: server->online, the process streams and the connect attempt are effects that do not change whether the entry is accepted.
- Registry.NetAcceptAddsOnce: for the code as written it assumes no empty shard and no stale head holding the address. NetAcceptAddsAgain shows what happens otherwise.
- Dispatch.LoginServer: its contract covers only the zero address. The zero port, the unserved address and the account stage are stated by Dispatch.ServerReads.
- mem.h's allocator is the fresh-node parameter. main.h, dbg.h and net_clients.h are not part of this model.

## Findings

| source | as written | input that shows it | evidently intended | confidence | as-written member | corrected member |
|---|---|---|---|---|---|---|
| client.c:27-29 | the head of every scanned shard is dereferenced unchecked | a registry whose first shard is empty, as al_init and the zeroed allocation leave it | step over empty shards | not executed | Registry.ClientFindEmptyShardFaults | Registry.ClientFindChecked |
| client.c:29-32 | a head holding the address ends the whole search, with NULL when that head is no longer live | first shard's head holds the address with head_valid false; a later shard holds a live entry for it | go on scanning past a head that is no longer live | not executed | Registry.ClientFindStaleHeadHides | Registry.ClientFindChecked |
| client.c:66-67 | the unbound cut-off is (now − timeout) / 3, a point in time divided by three | now = 1000, timeout = 15, an unbound client connected at 990: cut-off 328, so it stays | now − timeout / 3 | not executed | Registry.ThresholdsCounterexample | Registry.ThresholdsIntended |
| client.c:78-83 | after al_remove(prev, cl) the loop sets prev = cl, the node just unlinked | two consecutive stale nodes after a head: the second is released yet stays linked | keep prev when the node after it is unlinked | not executed | Registry.SweepKeepsReleasedNode | Registry.ClientsCheckTimeoutFixedSpec |
| client.c:84-87 | cl->player and then al_next(prev) read the record mem_free_client has released | any stale node after a head | read the record before releasing it | not executed | Registry.TailPassLateReads | Registry.TailPassFixedNoLateReads |
| client.c:71-74 | the sweep dereferences the head of an empty shard | a registry whose first shard is as al_init leaves it | step over empty shards | not executed | Registry.SweepEmptyShardFaults | Registry.ClientsCheckTimeoutFixed |
| client.c:123-133 | the login path never sets user.ip, yet client_connected looks the registry up with it | a peer whose registry entry is the only one, with user.ip holding any other value | set user.ip to the address net_accept recorded | not executed | Dispatch.StackKeyMissesPeer | Dispatch.PeerKeyBindsPeerOnly |
| util.c:183-186 | `strstr(pos, ":\"") + 1` points at the quote, so strchr finds that same quote and the length is 0 | a blob `name…:"value"…` | the text between the two quotes | not executed | Text.PhpGetSerialized | Text.PhpGetSerializedIntended |
| servers.c:121 | snprintf is given MAX_SERVER_PASSWORD bytes, so a 31-character password loses its last character | a 31-character rc_password | give snprintf the MAX_SERVER_PASSWORD + 1 bytes the array holds | not executed | Servers.WrittenHeaderDropsLastCharacter | Servers.IntendedHeaderFrames |
| servers.c:121 | header_len is 4 plus the untruncated password length, so net_server_command copies past the 36-byte header | an rc_password of 33 characters or more | record the length actually kept | not executed | Servers.WrittenHeaderOverreads | Servers.IntendedHeaderNeverOverreads |
| client.c:78-91 | the node left listed after its release is met by every later sweep, which reads it, releases it again, formats the removal from its freed player and frees that player again | two consecutive stale nodes after a head, swept twice | never leave a released node listed | not executed | Registry.SecondSweepFreesAgain | Registry.SweepFixedKeepsValid |
