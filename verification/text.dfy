/** The string utilities of util.c: the e-mail and hardware-id validators, the
    in-place command-line splitter, the PHP-serialized value extractor and the
    hash-name lookup.  Strings are the characters of a C string, before its
    terminating NUL. */
module Text {
  import opened Base

  predicate IsLetter(c: char) {
    ('a' <= c <= 'z') || ('A' <= c <= 'Z')
  }

  /** A character is_valid_mail lets through without failing. */
  predicate IsMailChar(c: char) {
    IsLetter(c) || c == '.' || c == '@'
  }

  /** is_valid_mail: 1 exactly when every character is a letter, '.' or '@'
      and at least one '@' occurs; digits and every other character give 0. */
  method IsValidMail(data: seq<char>) returns (a: int)
    requires NoNul(data)
    ensures a == 0 || a == 1
    ensures a == 1 <==>
      && (forall i :: 0 <= i < |data| ==> IsMailChar(data[i]))
      && (exists i :: 0 <= i < |data| && data[i] == '@')
  {
    a := 0;
    var i := 0;
    while i < |data|
      invariant 0 <= i <= |data|
      invariant a == 0 || a == 1
      invariant forall j :: 0 <= j < i ==> IsMailChar(data[j])
      invariant a == 1 <==> exists j :: 0 <= j < i && data[j] == '@'
    {
      var c := data[i];
      if IsLetter(c) || c == '.' {
      } else if c == '@' {
        a := 1;
      } else {
        a := 0;
        break;
      }
      i := i + 1;
    }
  }

  /** is_valid_hwid: 0 exactly when the id holds an ASCII letter, else 1. */
  method IsValidHwid(data: seq<char>) returns (r: int)
    requires NoNul(data)
    ensures r == 0 || r == 1
    ensures r == 0 <==> exists i :: 0 <= i < |data| && IsLetter(data[i])
  {
    var i := 0;
    while i < |data|
      invariant 0 <= i <= |data|
      invariant forall j :: 0 <= j < i ==> !IsLetter(data[j])
    {
      if IsLetter(data[i]) {
        return 0;
      }
      i := i + 1;
    }
    return 1;
  }

  /** The separators `parse` overwrites: space, tab, newline, carriage return. */
  predicate IsSep(c: char) {
    c == ' ' || c == '\t' || c == '\n' || c == '\r'
  }

  /** Position k begins a token: a non-separator at the start of the line or
      right after a separator. */
  predicate IsTokenStart(line: seq<char>, k: int) {
    0 <= k < |line| && !IsSep(line[k]) && (k == 0 || IsSep(line[k - 1]))
  }

  /** `parse` stopped because it had filled all max_args slots. */
  predicate Truncated(argv: seq<nat>, maxArgs: int) {
    maxArgs >= 1 && |argv| == maxArgs
  }

  /** How far `parse` got in overwriting separators: up to the last recorded
      argument when it stopped early, otherwise the whole line. */
  function Cut(line: seq<char>, argv: seq<nat>, maxArgs: int): int {
    if Truncated(argv, maxArgs) then argv[|argv| - 1] else |line|
  }

  /** The line with every separator before position `cut` overwritten by NUL. */
  function Blanked(line: seq<char>, cut: int): (buf: seq<char>)
    ensures |buf| == |line|
    ensures forall k :: 0 <= k < |line| ==>
      buf[k] == (if IsSep(line[k]) && k < cut then '\0' else line[k])
  {
    seq(|line|, k requires 0 <= k < |line| => if IsSep(line[k]) && k < cut then '\0' else line[k])
  }

  /** What `parse` leaves behind: the rewritten line and the recorded
      argument offsets. */
  ghost predicate ParseResult(line: seq<char>, maxArgs: int, buf: seq<char>, argv: seq<nat>) {
    && (maxArgs >= 1 ==> |argv| <= maxArgs)
    && (forall a :: 0 <= a < |argv| ==> IsTokenStart(line, argv[a]))
    && (forall a, b :: 0 <= a < b < |argv| ==> argv[a] < argv[b])
    && (forall k :: IsTokenStart(line, k) ==>
          k in argv || (Truncated(argv, maxArgs) && argv[|argv| - 1] < k))
    && buf == Blanked(line, Cut(line, argv, maxArgs))
  }

  /** The first inner loop of parse: overwrites the run of separators at i. */
  method NullSeparators(line: seq<char>, buf: seq<char>, i: nat) returns (buf': seq<char>, j: nat)
    requires i <= |line| && buf == Blanked(line, i)
    ensures i <= j <= |line| && buf' == Blanked(line, j)
    ensures forall k :: i <= k < j ==> IsSep(line[k])
    ensures j == |line| || !IsSep(line[j])
  {
    buf', j := buf, i;
    while j < |buf'| && IsSep(buf'[j])
      invariant i <= j <= |line| && buf' == Blanked(line, j)
      invariant forall k :: i <= k < j ==> IsSep(line[k])
    {
      buf' := buf'[j := '\0'];
      j := j + 1;
    }
  }

  /** The second inner loop of parse: steps over the argument at i. */
  method SkipArgument(line: seq<char>, buf: seq<char>, i: nat) returns (j: nat)
    requires NoNul(line)
    requires i <= |line| && buf == Blanked(line, i)
    ensures j == TokenEnd(line, i)
  {
    j := i;
    while j < |buf| && buf[j] != '\0' && !IsSep(buf[j])
      invariant i <= j <= |line|
      invariant forall k :: i <= k < j ==> !IsSep(line[k])
      invariant TokenEnd(line, i) == TokenEnd(line, j)
    {
      j := j + 1;
    }
  }

  /** Stepping over a token changes nothing that is blanked, and no token
      starts inside it. */
  lemma BlankedOverToken(line: seq<char>, start: nat, e: nat)
    requires start <= e <= |line|
    requires forall k :: start <= k < e ==> !IsSep(line[k])
    ensures Blanked(line, start) == Blanked(line, e)
    ensures forall k :: start < k < e ==> !IsTokenStart(line, k)
  {
    forall k | start < k < e ensures !IsTokenStart(line, k) {
      assert !IsSep(line[k - 1]);
    }
  }

  /** What holds each time parse comes back to the top of its outer loop at
      offset i with room for more arguments. */
  ghost predicate ParseInv(line: seq<char>, maxArgs: int, buf: seq<char>, argv: seq<nat>, i: nat) {
    && i <= |line| && buf == Blanked(line, i)
    && (i == 0 || i == |line| || IsSep(line[i]))
    && (forall a :: 0 <= a < |argv| ==> IsTokenStart(line, argv[a]) && argv[a] < i)
    && (forall a, b :: 0 <= a < b < |argv| ==> argv[a] < argv[b])
    && (forall k :: 0 <= k < i && IsTokenStart(line, k) ==> k in argv)
    && (maxArgs >= 1 ==> |argv| < maxArgs)
  }

  /** One round of parse's outer loop: blank the separators at i, then record
      and step over the token there.  `full` is the break on the last slot. */
  method ParseRound(line: seq<char>, maxArgs: int, buf: seq<char>, argv: seq<nat>, i: nat)
    returns (buf': seq<char>, argv': seq<nat>, i': nat, full: bool)
    requires NoNul(line) && i < |line| && ParseInv(line, maxArgs, buf, argv, i)
    ensures full ==> ParseResult(line, maxArgs, buf', argv')
    ensures !full ==> i < i' && ParseInv(line, maxArgs, buf', argv', i')
  {
    buf', i' := NullSeparators(line, buf, i);
    argv' := argv;
    full := false;
    if i' < |buf'| && buf'[i'] != '\0' {
      argv' := argv + [i'];
      if |argv'| == maxArgs {
        RecordKeepsOrder(line, maxArgs, argv, i, i');
        full := true;
        return;
      }
      var start := i';
      i' := SkipArgument(line, buf', i');
      RecordAndSkip(line, maxArgs, argv, i, start, i');
    }
  }

  /** Recording the token that starts after the separators at i keeps the
      recorded offsets increasing token starts, and every start before the
      token recorded. */
  lemma RecordKeepsOrder(line: seq<char>, maxArgs: int, argv: seq<nat>, i: nat, t: nat)
    requires NoNul(line) && i < |line| && ParseInv(line, maxArgs, Blanked(line, i), argv, i)
    requires i <= t < |line| && !IsSep(line[t])
    requires forall k :: i <= k < t ==> IsSep(line[k])
    ensures IsTokenStart(line, t)
    ensures (forall a :: 0 <= a < |argv + [t]| ==> IsTokenStart(line, (argv + [t])[a]) && (argv + [t])[a] <= t)
    ensures forall a, b :: 0 <= a < b < |argv + [t]| ==> (argv + [t])[a] < (argv + [t])[b]
    ensures forall k :: 0 <= k <= t && IsTokenStart(line, k) ==> k in argv + [t]
    ensures |argv + [t]| == maxArgs ==> ParseResult(line, maxArgs, Blanked(line, t), argv + [t])
  {
    assert IsTokenStart(line, t);
    var argv' := argv + [t];
    forall k | 0 <= k <= t && IsTokenStart(line, k) ensures k in argv' {
      if k < i {
        assert k in argv;
      } else if k < t {
        assert false;
      } else {
        assert argv'[|argv|] == k;
      }
    }
    if |argv'| == maxArgs {
      assert Cut(line, argv', maxArgs) == t;
      forall k | IsTokenStart(line, k)
        ensures k in argv' || (Truncated(argv', maxArgs) && argv'[|argv'| - 1] < k)
      {
        if k <= t {
          assert k in argv';
        }
      }
    }
  }

  /** Recording the token at t and stepping over it to e restores the loop
      invariant at e. */
  lemma RecordAndSkip(line: seq<char>, maxArgs: int, argv: seq<nat>, i: nat, t: nat, e: nat)
    requires NoNul(line) && i < |line| && ParseInv(line, maxArgs, Blanked(line, i), argv, i)
    requires i <= t < |line| && !IsSep(line[t])
    requires forall k :: i <= k < t ==> IsSep(line[k])
    requires |argv + [t]| != maxArgs
    requires e == TokenEnd(line, t)
    ensures i < e && ParseInv(line, maxArgs, Blanked(line, e), argv + [t], e)
  {
    RecordKeepsOrder(line, maxArgs, argv, i, t);
    BlankedOverToken(line, t, e);
  }

  /** parse: splits a line in place.  Every token start is recorded, in order,
      until max_args offsets are stored; the separators passed over become NUL. */
  method Parse(line: seq<char>, maxArgs: int) returns (buf: seq<char>, argv: seq<nat>)
    requires NoNul(line)
    ensures |buf| == |line|
    ensures maxArgs >= 1 ==> |argv| <= maxArgs
    ensures forall a :: 0 <= a < |argv| ==> IsTokenStart(line, argv[a])
    ensures forall a, b :: 0 <= a < b < |argv| ==> argv[a] < argv[b]
    ensures forall k :: IsTokenStart(line, k) ==>
      k in argv || (Truncated(argv, maxArgs) && argv[|argv| - 1] < k)
    ensures buf == Blanked(line, Cut(line, argv, maxArgs))
  {
    buf := line;
    assert buf == Blanked(line, 0);
    argv := [];
    var i: nat := 0;
    while i < |buf| && buf[i] != '\0'
      invariant ParseInv(line, maxArgs, buf, argv, i)
      decreases |line| - i
    {
      var full;
      buf, argv, i, full := ParseRound(line, maxArgs, buf, argv, i);
      if full {
        return;
      }
    }
  }

  /** The position of the first separator at or after k, or the end of line. */
  function TokenEnd(line: seq<char>, k: nat): (e: nat)
    requires k <= |line|
    ensures k <= e <= |line|
    ensures forall j :: k <= j < e ==> !IsSep(line[j])
    ensures e == |line| || IsSep(line[e])
    decreases |line| - k
  {
    if k == |line| || IsSep(line[k]) then k else TokenEnd(line, k + 1)
  }

  /** The C string starting at offset k of a buffer: up to the next NUL. */
  function CStrAt(buf: seq<char>, k: nat): (s: seq<char>)
    requires k <= |buf|
    ensures NoNul(s)
    ensures k + |s| <= |buf| && s == buf[k..k + |s|]
    ensures k + |s| == |buf| || buf[k + |s|] == '\0'
    decreases |buf| - k
  {
    if k == |buf| || buf[k] == '\0' then [] else [buf[k]] + CStrAt(buf, k + 1)
  }

  /** A C string is determined by where its first NUL (or the buffer end) is. */
  lemma {:induction false} CStrAtIs(buf: seq<char>, k: nat, e: nat)
    requires k <= e <= |buf|
    requires forall j :: k <= j < e ==> buf[j] != '\0'
    requires e == |buf| || buf[e] == '\0'
    ensures CStrAt(buf, k) == buf[k..e]
    decreases e - k
  {
    if k < e {
      CStrAtIs(buf, k + 1, e);
    }
  }

  /** What the arguments `parse` records read as: each is the whole token it
      starts, except that when parse stopped early the last one runs on to the
      end of the line, separators included. */
  lemma ParseArgsAreTokens(line: seq<char>, maxArgs: int, buf: seq<char>, argv: seq<nat>)
    requires NoNul(line)
    requires ParseResult(line, maxArgs, buf, argv)
    ensures forall a :: 0 <= a < |argv| ==>
      CStrAt(buf, argv[a]) ==
        (if Truncated(argv, maxArgs) && a == |argv| - 1 then line[argv[a]..]
         else line[argv[a]..TokenEnd(line, argv[a])])
  {
    ArgsReadAsTokens(line, maxArgs, buf, argv);
  }

  /** ParseArgsAreTokens from only the facts it needs: the offsets are
      increasing token starts and the buffer is blanked up to the cut. */
  lemma ArgsReadAsTokens(line: seq<char>, maxArgs: int, buf: seq<char>, argv: seq<nat>)
    requires NoNul(line)
    requires forall a :: 0 <= a < |argv| ==> argv[a] < |line| && IsTokenStart(line, argv[a])
    requires forall a, b :: 0 <= a < b < |argv| ==> argv[a] < argv[b]
    requires buf == Blanked(line, Cut(line, argv, maxArgs))
    ensures forall a :: 0 <= a < |argv| ==>
      CStrAt(buf, argv[a]) ==
        (if Truncated(argv, maxArgs) && a == |argv| - 1 then line[argv[a]..]
         else line[argv[a]..TokenEnd(line, argv[a])])
  {
    forall a | 0 <= a < |argv|
      ensures CStrAt(buf, argv[a]) ==
        (if Truncated(argv, maxArgs) && a == |argv| - 1 then line[argv[a]..]
         else line[argv[a]..TokenEnd(line, argv[a])])
    {
      ArgReadsAt(line, maxArgs, buf, argv, a);
    }
  }

  /** ArgsReadAsTokens for the argument at position a. */
  lemma ArgReadsAt(line: seq<char>, maxArgs: int, buf: seq<char>, argv: seq<nat>, a: nat)
    requires NoNul(line) && a < |argv|
    requires IsTokenStart(line, argv[a]) && argv[|argv| - 1] < |line|
    requires a + 1 < |argv| ==> IsTokenStart(line, argv[a + 1]) && argv[a] < argv[a + 1] <= argv[|argv| - 1]
    requires buf == Blanked(line, Cut(line, argv, maxArgs))
    ensures CStrAt(buf, argv[a]) ==
      (if Truncated(argv, maxArgs) && a == |argv| - 1 then line[argv[a]..]
       else line[argv[a]..TokenEnd(line, argv[a])])
  {
    var cut := Cut(line, argv, maxArgs);
    if Truncated(argv, maxArgs) && a == |argv| - 1 {
      BlankedTail(line, cut);
    } else {
      ArgBeforeCut(line, maxArgs, argv, a);
      BlankedToken(line, argv[a], cut);
    }
  }

  /** Every argument but a truncated last one ends before the cut, or at the
      end of the line. */
  lemma ArgBeforeCut(line: seq<char>, maxArgs: int, argv: seq<nat>, a: nat)
    requires a < |argv| && !(Truncated(argv, maxArgs) && a == |argv| - 1)
    requires IsTokenStart(line, argv[a])
    requires a + 1 < |argv| ==> IsTokenStart(line, argv[a + 1]) && argv[a] < argv[a + 1] <= argv[|argv| - 1]
    ensures TokenEnd(line, argv[a]) < Cut(line, argv, maxArgs) || TokenEnd(line, argv[a]) == |line|
  {
    if a + 1 < |argv| {
      TokenEndBeforeNextStart(line, argv[a], argv[a + 1]);
    }
  }

  /** Nothing from the cut onwards is blanked. */
  lemma BlankedTail(line: seq<char>, cut: nat)
    requires NoNul(line) && cut <= |line|
    ensures CStrAt(Blanked(line, cut), cut) == line[cut..]
  {
    var buf := Blanked(line, cut);
    CStrAtIs(buf, cut, |buf|);
    assert buf[cut..] == line[cut..];
  }

  /** A token that ends before the cut reads as itself, up to the NUL that
      replaced the separator after it. */
  lemma BlankedToken(line: seq<char>, k: nat, cut: int)
    requires NoNul(line) && k <= |line|
    requires TokenEnd(line, k) < cut || TokenEnd(line, k) == |line|
    ensures CStrAt(Blanked(line, cut), k) == line[k..TokenEnd(line, k)]
  {
    var buf := Blanked(line, cut);
    var e := TokenEnd(line, k);
    assert forall j :: k <= j < e ==> buf[j] == line[j];
    CStrAtIs(buf, k, e);
    assert buf[k..e] == line[k..e];
  }

  /** A token ends no later than the next token begins. */
  lemma TokenEndBeforeNextStart(line: seq<char>, k: nat, k': nat)
    requires IsTokenStart(line, k) && IsTokenStart(line, k') && k < k'
    ensures TokenEnd(line, k) < k'
  {
  }

  /** The first position at or after `from` where `pat` occurs in `s`:
      strstr on a suffix of `s`. */
  predicate OccursAt(s: seq<char>, pat: seq<char>, i: int) {
    0 <= i && i + |pat| <= |s| && s[i..i + |pat|] == pat
  }

  function FindFrom(s: seq<char>, pat: seq<char>, from: nat): (r: Option<nat>)
    requires from <= |s|
    ensures r.Some? ==> from <= r.value && OccursAt(s, pat, r.value)
    ensures r.Some? ==> forall j :: from <= j < r.value ==> !OccursAt(s, pat, j)
    ensures r.None? ==> forall j :: from <= j <= |s| ==> !OccursAt(s, pat, j)
    decreases |s| - from
  {
    if OccursAt(s, pat, from) then Some(from)
    else if from == |s| then None
    else FindFrom(s, pat, from + 1)
  }

  /** The first occurrence is found when nothing earlier matches. */
  lemma FindFromFirst(s: seq<char>, pat: seq<char>, from: nat, i: nat)
    requires from <= i <= |s|
    requires OccursAt(s, pat, i)
    requires forall j :: from <= j < i ==> !OccursAt(s, pat, j)
    ensures FindFrom(s, pat, from) == Some(i)
  {
  }

  /** What php_get_serialized can end in. */
  datatype Serialized =
    | Absent              // the variable name does not occur: returns 0
    | TooLong             // the value would not fit: returns 0
    | Copied(value: seq<char>)  // the value was copied out: returns 1
    | NullDeref           // the `:"` marker is missing: NULL + 1 is dereferenced

  /** php_get_serialized as written.  `strstr(pos, ":\"") + 1` points at the
      opening quote itself, so the following strchr finds that same quote and
      the copied value is always empty. */
  function PhpGetSerialized(blob: seq<char>, name: seq<char>, maxlen: int): (r: Serialized)
    requires NoNul(blob) && NoNul(name)
    ensures r == Absent <==> forall j :: 0 <= j <= |blob| ==> !OccursAt(blob, name, j)
    ensures r.Copied? ==> r.value == []
    ensures r == NullDeref <==>
      FindFrom(blob, name, 0).Some? && FindFrom(blob, ":\"", FindFrom(blob, name, 0).value).None?
    ensures r == TooLong <==> maxlen < 0 && r != Absent && r != NullDeref
    ensures maxlen >= 0 && r != Absent && r != NullDeref ==> r == Copied([])
  {
    match FindFrom(blob, name, 0)
    case None => Absent
    case Some(p) =>
      match FindFrom(blob, ":\"", p)
      case None => NullDeref
      case Some(q) =>
        var pos := q + 1;
        assert OccursAt(blob, "\"", pos) by {
          assert blob[q..q + 2] == ":\"";
          assert blob[pos] == '"';
        }
        match FindFrom(blob, "\"", pos)
        case None => NullDeref
        case Some(e) =>
          assert e == pos;
          var len := e - pos;
          if len > maxlen then TooLong else Copied(blob[pos..e])
  }

  /** php_get_serialized as evidently intended: the value is the text between
      the quotes that follow the first `:"` after the variable name.  Only the
      offset is corrected, so a missing `:"` still dereferences NULL + 2; a
      missing closing quote, which the code as written never meets, is
      answered with 0, as an absent name is. */
  function PhpGetSerializedIntended(blob: seq<char>, name: seq<char>, maxlen: int): (r: Serialized)
    requires NoNul(blob) && NoNul(name)
    ensures (forall j :: 0 <= j <= |blob| ==> !OccursAt(blob, name, j)) ==> r == Absent
    ensures r == NullDeref <==>
      FindFrom(blob, name, 0).Some? && FindFrom(blob, ":\"", FindFrom(blob, name, 0).value).None?
    ensures r.Copied? ==> |r.value| <= maxlen && forall i :: 0 <= i < |r.value| ==> r.value[i] != '"'
  {
    match FindFrom(blob, name, 0)
    case None => Absent
    case Some(p) =>
      match FindFrom(blob, ":\"", p)
      case None => NullDeref
      case Some(q) =>
        var pos := q + 2;
        match FindFrom(blob, "\"", pos)
        case None => Absent
        case Some(e) =>
          QuoteFree(blob, pos, e);
          if e - pos > maxlen then TooLong else Copied(blob[pos..e])
  }

  /** The text strchr skips over on its way to the first quote holds none. */
  lemma QuoteFree(blob: seq<char>, pos: nat, e: nat)
    requires pos <= |blob| && FindFrom(blob, "\"", pos) == Some(e)
    ensures e <= |blob| && forall i :: 0 <= i < |blob[pos..e]| ==> blob[pos..e][i] != '"'
  {
    forall i | pos <= i < e ensures blob[i] != '"' {
      assert !OccursAt(blob, "\"", i);
      assert blob[i..i + 1] == [blob[i]];
    }
  }

  predicate NoChar(s: seq<char>, c: char) {
    forall i :: 0 <= i < |s| ==> s[i] != c
  }

  /** A serialized entry `name ... :"value"` as PHP writes it, with no colon
      between the name and the marker. */
  function SerializedEntry(name: seq<char>, mid: seq<char>, value: seq<char>, rest: seq<char>): seq<char> {
    name + mid + ":\"" + value + "\"" + rest
  }

  /** The entry is a C string. */
  lemma EntryNoNul(name: seq<char>, mid: seq<char>, value: seq<char>, rest: seq<char>)
    requires NoNul(name) && NoNul(mid) && NoNul(value) && NoNul(rest)
    ensures NoNul(SerializedEntry(name, mid, value, rest))
  {
    var blob := SerializedEntry(name, mid, value, rest);
    var q := |name + mid|;
    forall i | 0 <= i < |blob| ensures blob[i] != '\0' {
      if i < q { assert blob[i] == (name + mid)[i]; }
      else if i < q + 2 + |value| && i >= q + 2 { assert blob[i] == value[i - q - 2]; }
      else if i > q + 2 + |value| { assert blob[i] == rest[i - q - 3 - |value|]; }
    }
  }

  /** In the entry, the name is found at the start and the first `:"` right
      after the text between the name and the marker. */
  lemma EntryMarker(name: seq<char>, mid: seq<char>, value: seq<char>, rest: seq<char>)
    requires NoChar(name + mid, ':')
    ensures FindFrom(SerializedEntry(name, mid, value, rest), name, 0) == Some(0)
    ensures FindFrom(SerializedEntry(name, mid, value, rest), ":\"", 0) == Some(|name + mid|)
  {
    var blob := SerializedEntry(name, mid, value, rest);
    var q := |name + mid|;
    assert blob == (name + mid) + (":\"" + value + "\"" + rest);
    assert OccursAt(blob, name, 0) by { assert blob[..|name|] == name; }
    FindFromFirst(blob, name, 0, 0);
    assert OccursAt(blob, ":\"", q) by { assert blob[q..q + 2] == ":\""; }
    forall j | 0 <= j < q ensures !OccursAt(blob, ":\"", j) {
      assert blob[j] == (name + mid)[j];
    }
    FindFromFirst(blob, ":\"", 0, q);
  }

  /** In the entry, the first quote after the opening one closes the value. */
  lemma EntryClosingQuote(name: seq<char>, mid: seq<char>, value: seq<char>, rest: seq<char>, blob: seq<char>, from: nat)
    requires NoChar(value, '"')
    requires blob == SerializedEntry(name, mid, value, rest) && from == |name + mid| + 2
    ensures FindFrom(blob, "\"", from) == Some(from + |value|)
    ensures blob[from..from + |value|] == value
  {
    EntryValueLayout(name, mid, value, rest, blob);
    QuoteAfterRun(blob, from, value);
  }

  lemma EntryValueLayout(name: seq<char>, mid: seq<char>, value: seq<char>, rest: seq<char>, blob: seq<char>)
    requires blob == SerializedEntry(name, mid, value, rest)
    ensures |name + mid| + 2 + |value| < |blob|
    ensures blob[|name + mid| + 2..|name + mid| + 2 + |value|] == value
    ensures blob[|name + mid| + 2 + |value|] == '"'
  {
    assert blob == (name + mid + ":\"") + value + ("\"" + rest);
  }

  /** A run without a quote followed by a quote: the search for a quote from
      the run's start stops right after the run. */
  lemma QuoteAfterRun(s: seq<char>, from: nat, run: seq<char>)
    requires NoChar(run, '"') && from + |run| < |s|
    requires s[from..from + |run|] == run && s[from + |run|] == '"'
    ensures FindFrom(s, "\"", from) == Some(from + |run|)
  {
    var e := from + |run|;
    assert OccursAt(s, "\"", e) by { assert s[e..e + 1] == "\""; }
    forall j | from <= j < e ensures !OccursAt(s, "\"", j) {
      assert s[j] == run[j - from];
    }
    FindFromFirst(s, "\"", from, e);
  }

  /** The intended extractor reads back the value of such an entry; the code
      as written yields the empty string for the same blob. */
  lemma SerializedValueRoundTrip(name: seq<char>, mid: seq<char>, value: seq<char>, rest: seq<char>, maxlen: int)
    requires NoNul(name) && NoNul(mid) && NoNul(value) && NoNul(rest)
    requires NoChar(name + mid, ':') && NoChar(value, '"')
    requires |value| <= maxlen
    ensures NoNul(SerializedEntry(name, mid, value, rest))
    ensures PhpGetSerializedIntended(SerializedEntry(name, mid, value, rest), name, maxlen) == Copied(value)
    ensures PhpGetSerialized(SerializedEntry(name, mid, value, rest), name, maxlen) == Copied([])
  {
    EntryNoNul(name, mid, value, rest);
    EntryMarker(name, mid, value, rest);
    EntryClosingQuote(name, mid, value, rest, SerializedEntry(name, mid, value, rest), |name + mid| + 2);
  }

  /** The hash functions a password scheme can name. */
  datatype HashKind = Md5 | Sha1 | Sha256

  function HashName(k: HashKind): seq<char> {
    match k
    case Md5 => "md5"
    case Sha1 => "sha1"
    case Sha256 => "sha256"
  }

  /** The name-to-function part of get_hash_func: NULL for an unknown name. */
  function GetHashFunc(name: seq<char>): (r: Option<HashKind>)
    ensures r.Some? ==> HashName(r.value) == name
    ensures r.None? ==> forall k :: HashName(k) != name
  {
    if name == "md5" then Some(Md5)
    else if name == "sha1" then Some(Sha1)
    else if name == "sha256" then Some(Sha256)
    else None
  }

  /** Every hash function is found again under its own name. */
  lemma GetHashFuncFindsEveryName(k: HashKind)
    ensures GetHashFunc(HashName(k)) == Some(k)
  {
  }
}
