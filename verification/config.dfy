/** The mini XML reader of config.c.  `xml_parse` works in place on a
    NUL-terminated buffer; because every element's text is cut off by a NUL
    written over its closing tag before it is parsed, each call sees exactly
    the text of one element, so the model parses a `string` and builds an
    immutable node tree.  Nodes come from a fixed pool of XML_MAXCOUNT records
    whose cursor `used` is threaded through the parse. */
module Config {
  import opened Base
  import Text
  import Inet

  const XML_MAXCOUNT: nat := 256
  /** The closing-tag buffer holds XML_MAXLEN + 1 bytes, and snprintf is told
      one byte less, so at most XML_MAXLEN - 1 characters of "</name>" are kept. */
  const XML_MAXLEN: nat := 63
  const CLOSE_KEPT: nat := XML_MAXLEN - 1

  /** xml_data_type_t. */
  datatype Kind = InvalidData | StringData | XmlData | ConfigData

  /** The data union of a node: its text, its chain of children, or NULL. */
  datatype Data = Str(s: string) | Sub(children: seq<Node>) | NoData

  datatype Node = Node(name: string, kind: Kind, data: Data)

  /** What a parse leaves, or that it went on reading at a cursor moved
      past the NUL ending the text it works on, where the bytes are not
      determined by the document. */
  datatype Parse<T> = Parsed(value: T) | RanPast

  // ---------------------------------------------------------------------
  // Searching the text.

  /** strchr from `from`: the first position at or after it holding c. */
  function IndexOf(s: string, c: char, from: nat): (r: Option<nat>)
    requires from <= |s|
    ensures r.Some? ==> from <= r.value < |s| && s[r.value] == c
    ensures r.Some? ==> forall j :: from <= j < r.value ==> s[j] != c
    ensures r.None? ==> forall j :: from <= j < |s| ==> s[j] != c
    decreases |s| - from
  {
    if from == |s| then None
    else if s[from] == c then Some(from)
    else IndexOf(s, c, from + 1)
  }

  /** The closing tag of `name` as snprintf leaves it in the buffer, and the
      length snprintf reports, which the parser skips after a match. */
  function ClosePattern(name: string): (r: (string, nat))
    ensures r.1 == |name| + 3
    ensures |r.0| == if r.1 <= CLOSE_KEPT then r.1 else CLOSE_KEPT
    ensures r.0 == ("</" + name + ">")[..|r.0|]
  {
    var full := "</" + name + ">";
    if |full| <= CLOSE_KEPT then (full, |full|) else (full[..CLOSE_KEPT], |full|)
  }

  /** The complete closing tag. */
  function Close(name: string): string {
    "</" + name + ">"
  }

  // ---------------------------------------------------------------------
  // The parser.

  /** The capacity still free in the pool once `used` records were taken. */
  function Cap(used: nat): nat {
    if used < XML_MAXCOUNT then XML_MAXCOUNT - used else 0
  }

  /** The number of records of a tree, the node itself included. */
  function Size(n: Node): nat {
    1 + (match n.data case Sub(cs) => SizeSeq(cs) case _ => 0)
  }

  /** The record count of a list of trees. */
  function SizeSeq(ns: seq<Node>): nat {
    if |ns| == 0 then 0 else Size(ns[0]) + SizeSeq(ns[1..])
  }

  /** The shape every parsed node has: its text is a C string, the kind
      agrees with the data, the top level is `dt_config` or invalid, nested
      nodes never are `dt_config`, and only valid nodes with children hold
      a chain. */
  predicate WellFormed(n: Node, level: nat)
    decreases n
  {
    (n.data.Str? ==> NoNul(n.data.s)) &&
    match n.kind
    case InvalidData => n.data.NoData? || (level == 0 && n.data.Str?)
    case StringData => level > 0 && n.data.Str?
    case XmlData =>
      level > 0 && n.data.Sub? && |n.data.children| > 0
      && forall i :: 0 <= i < |n.data.children| ==> WellFormed(n.data.children[i], level + 1)
    case ConfigData =>
      level == 0 && n.data.Sub? && |n.data.children| > 0
      && forall i :: 0 <= i < |n.data.children| ==> WellFormed(n.data.children[i], level + 1)
  }

  /** xml_parse(data, parent, pool, level) for the element `name` whose text
      is `s`: the parent node it leaves behind and the pool cursor after it.
      The record count of the subtree never exceeds the pool records its
      parse obtained. */
  function XmlParse(s: string, name: string, level: nat, used: nat): (r: Parse<(Node, nat)>)
    requires NoNul(s)
    ensures r.Parsed? ==> r.value.0.name == name && WellFormed(r.value.0, level)
    ensures r.Parsed? ==> used <= r.value.1 && Size(r.value.0) - 1 <= Cap(used) - Cap(r.value.1)
    ensures r.Parsed? && r.value.0.data.Str? ==> r.value.0.data.s == s
    ensures (forall i :: 0 <= i < |s| ==> s[i] != '<') ==>
      r == Parsed((Node(name, if level > 0 then StringData else InvalidData, Str(s)), used))
    decreases |s|, 1
  {
    match ParseLoop(s, level, used, [])
    case RanPast => RanPast
    case Parsed((kids, ok, used')) =>
      if !ok then Parsed((Node(name, InvalidData, NoData), used'))
      else if |kids| == 0 then Parsed((Node(name, if level > 0 then StringData else InvalidData, Str(s)), used'))
      else Parsed((Node(name, if level > 0 then XmlData else ConfigData, Sub(kids)), used'))
  }

  /** What one pass of the loop finds ahead of the cursor: the terminator
      before any '<', a tag it cannot complete (it breaks out), a complete
      element with its tag text, its inner text and where the loop resumes,
      or a closing pattern found so close to the end that the skip past it
      leaves the text.  The inner text ends where the closing pattern is
      first found; the loop resumes the length snprintf reported past that
      point, which exceeds the pattern's own length when the pattern was
      cut. */
  datatype Scan = AtEnd | Broken | Overrun | Found(tag: string, inner: string, next: nat)

  function ScanTag(s: string): (r: Scan)
    requires NoNul(s)
    ensures r.AtEnd? <==> forall i :: 0 <= i < |s| ==> s[i] != '<'
    ensures r.Found? ==> 0 < r.next <= |s| && |r.inner| < |s| && NoNul(r.inner) && NoNul(s[r.next..])
  {
    match IndexOf(s, '<', 0)
    case None => AtEnd
    case Some(lt) =>
      match IndexOf(s, '>', lt + 1)
      case None => Broken
      case Some(gt) => ScanClose(s, gt, s[lt + 1..gt])
  }

  /** The search for the closing pattern of `tag`, whose opening tag ends
      at gt. */
  function ScanClose(s: string, gt: nat, tag: string): (r: Scan)
    requires NoNul(s) && gt < |s|
    ensures r.Broken? <==> Text.FindFrom(s, ClosePattern(tag).0, gt + 1).None?
    ensures r.Overrun? <==>
      Text.FindFrom(s, ClosePattern(tag).0, gt + 1).Some? && Text.FindFrom(s, ClosePattern(tag).0, gt + 1).value + |tag| + 3 > |s|
    ensures !r.AtEnd?
    ensures |tag| + 3 <= CLOSE_KEPT ==> !r.Overrun?
    ensures r.Found? ==> r.tag == tag && gt < r.next <= |s| && |r.inner| < |s| - gt && NoNul(r.inner) && NoNul(s[r.next..])
    ensures r.Found? ==> r.next == gt + 1 + |r.inner| + |tag| + 3
  {
    var pat := ClosePattern(tag).0;
    match Text.FindFrom(s, pat, gt + 1)
    case None => Broken
    case Some(m) =>
      if m + ClosePattern(tag).1 > |s| then Overrun
      else
        NoNulSlice(s, gt + 1, m);
        NoNulSlice(s, m + ClosePattern(tag).1, |s|);
        Found(tag, s[gt + 1..m], m + ClosePattern(tag).1)
  }

  /** The `for(;;)` loop of xml_parse on the text `s` still ahead of the
      cursor, with the children `acc` already chained: the complete chain,
      whether the loop ended at the terminator (rather than by `break`), and
      the pool cursor.  The pool is asked for a record only once an element
      is complete, and the cursor advances even when the pool is empty.
      An overrun moves the cursor past the text; with the pool exhausted
      the loop breaks before reading there, and otherwise the read that
      follows (after the child's parse) ends what the model follows, as
      does a child's own overrun. */
  function ParseLoop(s: string, level: nat, used: nat, acc: seq<Node>): (r: Parse<(seq<Node>, bool, nat)>)
    requires NoNul(s)
    ensures r.Parsed? ==> |acc| <= |r.value.0| && r.value.0[..|acc|] == acc
    ensures r.Parsed? ==> forall i :: |acc| <= i < |r.value.0| ==> WellFormed(r.value.0[i], level + 1)
    ensures r.Parsed? ==> used <= r.value.2 && SizeSeq(r.value.0[|acc|..]) <= Cap(used) - Cap(r.value.2)
    ensures (forall i :: 0 <= i < |s| ==> s[i] != '<') ==> r == Parsed((acc, true, used))
    ensures ScanTag(s).Overrun? && used < XML_MAXCOUNT ==> r == RanPast
    ensures (ScanTag(s).Overrun? || ScanTag(s).Found?) && used >= XML_MAXCOUNT ==> r == Parsed((acc, false, used + 1))
    decreases |s|, 0
  {
    match ScanTag(s)
    case AtEnd => Parsed((acc, true, used))
    case Broken => Parsed((acc, false, used))
    case Overrun =>
      if used >= XML_MAXCOUNT then Parsed((acc, false, used + 1)) else RanPast
    case Found(tag, inner, next) =>
      if used >= XML_MAXCOUNT then Parsed((acc, false, used + 1))
      else
        match XmlParse(inner, tag, level + 1, used + 1)
        case RanPast => RanPast
        case Parsed((child, used')) =>
          var r := ParseLoop(s[next..], level, used', acc + [child]);
          if r.RanPast? then r
          else
            ParseLoopStep(acc, child, r.value.0, level, used, used', r.value.2);
            r
  }

  lemma NoNulSlice(s: string, a: nat, b: nat)
    requires NoNul(s) && a <= b <= |s|
    ensures NoNul(s[a..b])
  {
  }

  /** One chained child: what the rest of the loop promises, together with
      what the child's parse promises, is what the whole loop promises. */
  lemma ParseLoopStep(acc: seq<Node>, child: Node, kids: seq<Node>, level: nat, used: nat, usedChild: nat, usedEnd: nat)
    requires used < XML_MAXCOUNT
    requires WellFormed(child, level + 1)
    requires used + 1 <= usedChild && Size(child) - 1 <= Cap(used + 1) - Cap(usedChild)
    requires |acc + [child]| <= |kids| && kids[..|acc + [child]|] == acc + [child]
    requires forall i :: |acc + [child]| <= i < |kids| ==> WellFormed(kids[i], level + 1)
    requires usedChild <= usedEnd && SizeSeq(kids[|acc + [child]|..]) <= Cap(usedChild) - Cap(usedEnd)
    ensures |acc| <= |kids| && kids[..|acc|] == acc
    ensures forall i :: |acc| <= i < |kids| ==> WellFormed(kids[i], level + 1)
    ensures used <= usedEnd && SizeSeq(kids[|acc|..]) <= Cap(used) - Cap(usedEnd)
  {
    assert kids[..|acc|] == kids[..|acc + [child]|][..|acc|];
    assert kids[|acc|] == (acc + [child])[|acc|];
    assert kids[|acc|..][1..] == kids[|acc| + 1..];
  }

  /** config_load after reading the file: the root named after the path when
      the text parses to a valid configuration, NULL otherwise, unless the
      parse ran past the end of a text.  A loaded configuration holds at most
      XML_MAXCOUNT records besides its root.  config_load writes no NUL after
      the file's bytes, which the pool records follow in the same block; the
      model takes the end of `text` for the terminator, that is, it assumes
      those bytes read as a NUL before any '<' or '>' does. */
  function ConfigParse(path: string, text: string): (r: Parse<Option<Node>>)
    requires NoNul(text)
    ensures r.Parsed? && r.value.Some? ==>
      r.value.value.name == path && r.value.value.kind == ConfigData && WellFormed(r.value.value, 0)
    ensures r.Parsed? && r.value.Some? ==> |Children(r.value.value)| > 0 && Size(r.value.value) <= XML_MAXCOUNT + 1
    ensures (forall i :: 0 <= i < |text| ==> text[i] != '<') ==> r == Parsed(None)
  {
    match XmlParse(text, path, 0, 0)
    case RanPast => RanPast
    case Parsed((root, _)) => Parsed(if root.kind == InvalidData then None else Some(root))
  }

  // ---------------------------------------------------------------------
  // Accessors.

  /** The chain a node's data points to (none for text or NULL). */
  function Children(n: Node): seq<Node> {
    if n.data.Sub? then n.data.children else []
  }

  /** The kinds whose data is read as a chain of children. */
  predicate HasChain(n: Node) {
    n.kind == XmlData || n.kind == ConfigData
  }

  /** The position of the first node named `name`. */
  function FirstNamed(cs: seq<Node>, name: string): (r: Option<nat>)
    ensures r.Some? ==> r.value < |cs| && cs[r.value].name == name
    ensures r.Some? ==> forall j :: 0 <= j < r.value ==> cs[j].name != name
    ensures r.None? ==> forall j :: 0 <= j < |cs| ==> cs[j].name != name
  {
    if |cs| == 0 then None
    else if cs[0].name == name then Some(0)
    else match FirstNamed(cs[1..], name)
      case None => None
      case Some(k) => Some(k + 1)
  }

  /** xml_get_sub: the first child called `name`, or the first child when no
      name is given; NULL when `from` is NULL or holds no chain. */
  function XmlGetSub(from: Option<Node>, name: Option<string>): (r: Option<Node>)
    ensures !(from.Some? && HasChain(from.value)) ==> r.None?
    ensures from.Some? && HasChain(from.value) && name.None? ==>
      r == (if |Children(from.value)| > 0 then Some(Children(from.value)[0]) else None)
    ensures from.Some? && HasChain(from.value) && name.Some? ==>
      (r.None? <==> forall j :: 0 <= j < |Children(from.value)| ==> Children(from.value)[j].name != name.value)
    ensures r.Some? && name.Some? ==>
      exists i :: 0 <= i < |Children(from.value)| && Children(from.value)[i] == r.value
        && r.value.name == name.value
        && forall j :: 0 <= j < i ==> Children(from.value)[j].name != name.value
  {
    if from.None? || !HasChain(from.value) then None
    else
      var cs := Children(from.value);
      match name
      case None => if |cs| > 0 then Some(cs[0]) else None
      case Some(n) =>
        match FirstNamed(cs, n)
        case None => None
        case Some(i) => Some(cs[i])
  }

  /** The length of a chain, walked one `next` at a time. */
  function ChainLength(cs: seq<Node>): (count: nat)
    ensures count == |cs|
  {
    if |cs| == 0 then 0 else 1 + ChainLength(cs[1..])
  }

  /** xml_get_sub_count: how many children `from` has. */
  function XmlGetSubCount(from: Option<Node>): (count: nat)
    ensures from.Some? && HasChain(from.value) ==> count == |Children(from.value)|
    ensures !(from.Some? && HasChain(from.value)) ==> count == 0
  {
    if from.None? || !HasChain(from.value) then 0 else ChainLength(Children(from.value))
  }

  /** xml_valid. */
  predicate XmlValid(n: Option<Node>) {
    n.Some? && n.value.kind != InvalidData
  }

  /** What `data.string` of a looked-up key gives: NULL for a missing or
      invalid key, the element's text, or, for an element with children, the
      address of its first child read as characters, which the document does
      not determine. */
  datatype Field = Missing | Text(s: string) | Nested

  /** xml_get_string. */
  function XmlGetString(from: Option<Node>, name: string): (r: Field)
    ensures r.Missing? <==> !XmlValid(XmlGetSub(from, Some(name)))
    ensures r.Text? <==> XmlValid(XmlGetSub(from, Some(name))) && XmlGetSub(from, Some(name)).value.data.Str?
    ensures r.Text? ==> r.s == XmlGetSub(from, Some(name)).value.data.s
  {
    var sub := XmlGetSub(from, Some(name));
    if !XmlValid(sub) then Missing
    else if sub.value.data.Str? then Text(sub.value.data.s)
    else Nested
  }

  /** Every text read from a parsed tree is a C string. */
  lemma GetStringIsCString(n: Node, level: nat, name: string)
    requires WellFormed(n, level)
    ensures XmlGetString(Some(n), name).Text? ==> NoNul(XmlGetString(Some(n), name).s)
  {
    var sub := XmlGetSub(Some(n), Some(name));
    if sub.Some? {
      var i :| 0 <= i < |Children(n)| && Children(n)[i] == sub.value;
      assert WellFormed(Children(n)[i], level + 1);
    }
  }

  const XML_INVALID_INT: int := 0
  const XML_INVALID_BOOL: int := -1

  /** xml_get_int: atoi of the key's text, 0 for a missing key; None where
      the text is a child's address. */
  function XmlGetInt(from: Option<Node>, name: string): (r: Option<int>)
    ensures r.None? <==> XmlGetString(from, name).Nested?
    ensures XmlGetString(from, name).Missing? ==> r == Some(XML_INVALID_INT)
    ensures XmlGetString(from, name).Text? ==> r == Some(Atoi(XmlGetString(from, name).s))
  {
    match XmlGetString(from, name)
    case Missing => Some(XML_INVALID_INT)
    case Text(v) => Some(Atoi(v))
    case Nested => None
  }

  /** The truth test of xml_get_bool: exactly "true", or a leading '1'. */
  predicate IsTrue(v: string) {
    v == "true" || (|v| > 0 && v[0] == '1')
  }

  /** xml_get_bool: 1 or 0 for a present key, -1 for a missing one. */
  function XmlGetBool(from: Option<Node>, name: string): (r: Option<int>)
    ensures r.None? <==> XmlGetString(from, name).Nested?
    ensures r == Some(XML_INVALID_BOOL) <==> XmlGetString(from, name).Missing?
    ensures r == Some(1) <==> XmlGetString(from, name).Text? && IsTrue(XmlGetString(from, name).s)
    ensures r == Some(0) <==> XmlGetString(from, name).Text? && !IsTrue(XmlGetString(from, name).s)
  {
    match XmlGetString(from, name)
    case Missing => Some(XML_INVALID_BOOL)
    case Text(v) => Some(if IsTrue(v) then 1 else 0)
    case Nested => None
  }

  // ---------------------------------------------------------------------
  // atoi, as glibc computes it: (int) strtol(s, NULL, 10).

  const LONG_MAX: int := 0x7FFF_FFFF_FFFF_FFFF
  const LONG_MIN: int := -0x8000_0000_0000_0000

  /** The first position at or after i that is not white space. */
  function SkipSpaces(s: string, i: nat): (j: nat)
    requires i <= |s|
    ensures i <= j <= |s| && (j == |s| || !Inet.IsSpace(s[j]))
    ensures forall k :: i <= k < j ==> Inet.IsSpace(s[k])
    decreases |s| - i
  {
    if i < |s| && Inet.IsSpace(s[i]) then SkipSpaces(s, i + 1) else i
  }

  /** The end of the run of decimal digits starting at i. */
  function DigitsEnd(s: string, i: nat): (j: nat)
    requires i <= |s|
    ensures i <= j <= |s| && (j == |s| || !Inet.IsDigit(s[j]))
    ensures forall k :: i <= k < j ==> Inet.IsDigit(s[k])
    decreases |s| - i
  {
    if i < |s| && Inet.IsDigit(s[i]) then DigitsEnd(s, i + 1) else i
  }

  /** strtol in base 10: spaces, an optional sign, the digits; a magnitude
      beyond the range of `long` saturates. */
  function Strtol(s: string): (v: int)
    ensures LONG_MIN <= v <= LONG_MAX
  {
    var i := SkipSpaces(s, 0);
    var j := if i < |s| && (s[i] == '-' || s[i] == '+') then i + 1 else i;
    var mag: int := Inet.Fold(0, s[j..DigitsEnd(s, j)], 10);
    if i < |s| && s[i] == '-' then (if mag > -LONG_MIN then LONG_MIN else -mag)
    else if mag > LONG_MAX then LONG_MAX else mag
  }

  /** The conversion of a `long` to a 32-bit `int`, modulo 2^32. */
  function Int32(v: int): (r: int)
    ensures -0x8000_0000 <= r < 0x8000_0000
    ensures (r - v) % TWO_32 == 0
  {
    (v + 0x8000_0000) % TWO_32 - 0x8000_0000
  }

  function Atoi(s: string): (v: int)
    ensures -0x8000_0000 <= v < 0x8000_0000
  {
    Int32(Strtol(s))
  }

  /** atoi reads back a decimal numeral written after white space and an
      optional sign, whatever follows the numeral's last digit. */
  lemma AtoiReadsNumeral(pre: string, sign: string, n: nat, rest: string)
    requires forall k :: 0 <= k < |pre| ==> Inet.IsSpace(pre[k])
    requires sign == "" || sign == "+" || sign == "-"
    requires if sign == "-" then n <= 0x8000_0000 else n < 0x8000_0000
    requires |rest| == 0 || !Inet.IsDigit(rest[0])
    ensures Atoi(pre + sign + Inet.Numeral(n, 10) + rest) == if sign == "-" then -(n as int) else n
  {
    StrtolReadsNumeral(pre, sign, n, rest);
    Int32Fits(if sign == "-" then -(n as int) else n);
  }

  lemma Int32Fits(v: int)
    requires -0x8000_0000 <= v < 0x8000_0000
    ensures Int32(v) == v
  {
  }

  lemma StrtolReadsNumeral(pre: string, sign: string, n: nat, rest: string)
    requires forall k :: 0 <= k < |pre| ==> Inet.IsSpace(pre[k])
    requires sign == "" || sign == "+" || sign == "-"
    requires if sign == "-" then n <= 0x8000_0000 else n < 0x8000_0000
    requires |rest| == 0 || !Inet.IsDigit(rest[0])
    ensures Strtol(pre + sign + Inet.Numeral(n, 10) + rest) == if sign == "-" then -(n as int) else n
  {
    var num := Inet.Numeral(n, 10);
    var s := pre + sign + num + rest;
    Inet.NumeralDigits(n, 10);
    SignLayout(pre, sign, num, rest, s);
    NumeralDigitsEnd(pre + sign, num, rest, s);
    Inet.FoldNumeral(n, 10);
  }

  /** Where strtol's scan of white space, a sign and a numeral stops: at the
      sign, which is a '-' or '+' exactly when one was written. */
  lemma SignLayout(pre: string, sign: string, num: string, rest: string, s: string)
    requires forall k :: 0 <= k < |pre| ==> Inet.IsSpace(pre[k])
    requires sign == "" || sign == "+" || sign == "-"
    requires |num| >= 1 && forall k :: 0 <= k < |num| ==> Inet.IsDigit(num[k])
    requires s == pre + sign + num + rest
    ensures SkipSpaces(s, 0) == |pre| < |s|
    ensures (s[|pre|] == '-' || s[|pre|] == '+') == (sign != "")
    ensures (s[|pre|] == '-') == (sign == "-")
  {
    var tail := sign + num + rest;
    assert tail[0] == if sign == "" then num[0] else sign[0];
    ConcatAssoc(pre, sign, num, rest);
    SpacesBefore(pre, tail, s);
  }

  lemma ConcatAssoc(a: string, b: string, c: string, d: string)
    ensures a + b + c + d == a + (b + c + d)
  {
  }

  /** strtol's skip over white space stops where the first other character
      is. */
  lemma SpacesBefore(pre: string, tail: string, s: string)
    requires forall k :: 0 <= k < |pre| ==> Inet.IsSpace(pre[k])
    requires |tail| >= 1 && !Inet.IsSpace(tail[0])
    requires s == pre + tail
    ensures SkipSpaces(s, 0) == |pre| < |s| && s[|pre|] == tail[0]
  {
    assert s[..|pre|] == pre;
    SkipSpacesOver(s, pre);
  }

  /** The digits of a numeral followed by a non-digit are one run. */
  lemma NumeralDigitsEnd(lead: string, num: string, rest: string, s: string)
    requires forall k :: 0 <= k < |num| ==> Inet.IsDigit(num[k])
    requires |rest| == 0 || !Inet.IsDigit(rest[0])
    requires s == lead + num + rest
    ensures DigitsEnd(s, |lead|) == |lead| + |num|
    ensures s[|lead|..|lead| + |num|] == num
  {
    var j := |lead|;
    assert s[j..j + |num|] == num;
    assert j + |num| == |s| || !Inet.IsDigit(s[j + |num|]) by {
      if j + |num| < |s| {
        assert s[j + |num|] == rest[0];
      }
    }
    DigitsEndOver(s, j, num);
  }

  lemma SkipSpacesOver(s: string, pre: string)
    requires |pre| <= |s| && s[..|pre|] == pre
    requires forall k :: 0 <= k < |pre| ==> Inet.IsSpace(pre[k])
    requires |pre| == |s| || !Inet.IsSpace(s[|pre|])
    ensures SkipSpaces(s, 0) == |pre|
  {
    forall k | 0 <= k < |pre|
      ensures Inet.IsSpace(s[k])
    {
      assert s[k] == s[..|pre|][k];
    }
  }

  lemma DigitsEndOver(s: string, j: nat, num: string)
    requires j + |num| <= |s| && s[j..j + |num|] == num
    requires forall k :: 0 <= k < |num| ==> Inet.IsDigit(num[k])
    requires j + |num| == |s| || !Inet.IsDigit(s[j + |num|])
    ensures DigitsEnd(s, j) == j + |num|
  {
    forall k | j <= k < j + |num|
      ensures Inet.IsDigit(s[k])
    {
      assert s[k] == s[j..j + |num|][k - j];
    }
  }

  // ---------------------------------------------------------------------
  // Documents: what the parser makes of a sequence of elements.

  /** An element as written in a document: text before it, its tag name and
      the text between its opening and closing tags. */
  datatype Element = Element(gap: string, key: string, inner: string)

  /** The text up to and including the element's opening tag. */
  function Open(e: Element): string {
    e.gap + "<" + e.key + ">"
  }

  function RenderOne(e: Element): string {
    Open(e) + e.inner + Close(e.key)
  }

  function Render(es: seq<Element>): string {
    if |es| == 0 then "" else RenderOne(es[0]) + Render(es[1..])
  }

  /** An element the parser delimits as written: no '<' before it, no '>' in
      its name, a closing tag short enough to be searched for whole, and no
      earlier occurrence of that closing tag inside its text. */
  predicate Delimited(e: Element) {
    && NoNul(e.gap) && NoNul(e.key) && NoNul(e.inner)
    && (forall k :: 0 <= k < |e.gap| ==> e.gap[k] != '<')
    && (forall k :: 0 <= k < |e.key| ==> e.key[k] != '>')
    && |e.key| + 3 <= CLOSE_KEPT
    && NoEarlyClose(e.inner, Close(e.key))
  }

  /** The closing tag does not start anywhere inside the element's text. */
  predicate NoEarlyClose(inner: string, close: string) {
    forall j :: 0 <= j < |inner| ==> !Text.OccursAt(inner + close, close, j)
  }

  /** The elements' meaning independent of the text search: each one, in
      order, takes a pool record (or ends the loop when there is none) and
      becomes a child parsed from its own text one level deeper. */
  function ParseElements(es: seq<Element>, level: nat, used: nat, acc: seq<Node>): (r: Parse<(seq<Node>, bool, nat)>)
    requires forall i :: 0 <= i < |es| ==> Delimited(es[i])
    ensures r.Parsed? ==> ChainedAfter(acc, r.value.0, es)
    ensures r.Parsed? && r.value.1 ==> |r.value.0| == |acc| + |es|
    ensures r.Parsed? && !r.value.1 ==> r.value.2 > XML_MAXCOUNT
    ensures |es| > 0 && used >= XML_MAXCOUNT ==> r == Parsed((acc, false, used + 1))
    ensures r.RanPast? ==> exists i :: 0 <= i < |es| && '<' in es[i].inner
    decreases |es|
  {
    if |es| == 0 then Parsed((acc, true, used))
    else if used >= XML_MAXCOUNT then Parsed((acc, false, used + 1))
    else
      assert Delimited(es[0]);
      match ParseChild(es[0], level, used)
      case RanPast => RanPast
      case Parsed((child, used')) =>
        var r := ParseElements(es[1..], level, used', acc + [child]);
        if r.Parsed? then ElementsStep(es, acc, child, r.value.0); r
        else LtInLater(es); r
  }

  /** The child one element becomes: its own text parsed one level deeper,
      taking the next pool record. */
  function ParseChild(e: Element, level: nat, used: nat): (r: Parse<(Node, nat)>)
    requires NoNul(e.inner)
    ensures r.RanPast? ==> '<' in e.inner
    ensures r.Parsed? ==> r.value.0.name == e.key
  {
    XmlParse(e.inner, e.key, level + 1, used + 1)
  }

  /** The chain kids extends acc by at most one child per element of es,
      each named by its element's key, in order. */
  predicate ChainedAfter(acc: seq<Node>, kids: seq<Node>, es: seq<Element>) {
    && |acc| <= |kids| <= |acc| + |es| && kids[..|acc|] == acc
    && forall i :: |acc| <= i < |kids| ==> kids[i].name == es[i - |acc|].key
  }

  /** The children of es[1..], chained after acc and the child of es[0],
      are the children of es chained after acc. */
  lemma ElementsStep(es: seq<Element>, acc: seq<Node>, child: Node, kids: seq<Node>)
    requires |es| > 0 && child.name == es[0].key
    requires ChainedAfter(acc + [child], kids, es[1..])
    ensures ChainedAfter(acc, kids, es)
  {
    var acc' := acc + [child];
    assert kids[..|acc|] == kids[..|acc'|][..|acc|];
    forall i | |acc| <= i < |kids|
      ensures kids[i].name == es[i - |acc|].key
    {
      if i == |acc| {
        assert kids[i] == kids[..|acc'|][i];
      } else {
        assert es[1..][i - |acc'|] == es[i - |acc|];
      }
    }
  }

  /** An element of es[1..] whose text holds '<' is one of es. */
  lemma LtInLater(es: seq<Element>)
    requires |es| > 0 && exists i :: 0 <= i < |es[1..]| && '<' in es[1..][i].inner
    ensures exists i :: 0 <= i < |es| && '<' in es[i].inner
  {
    var i :| 0 <= i < |es[1..]| && '<' in es[1..][i].inner;
    assert es[1..][i] == es[i + 1];
  }

  lemma IndexOfFirst(s: string, c: char, from: nat, i: nat)
    requires from <= i < |s| && s[i] == c
    requires forall j :: from <= j < i ==> s[j] != c
    ensures IndexOf(s, c, from) == Some(i)
    decreases i - from
  {
  }

  lemma SliceShift(s: string, t: string, at: nat, j: nat, n: nat)
    requires at + |t| <= |s| && s[at..at + |t|] == t && j + n <= |t|
    ensures s[at + j..at + j + n] == t[j..j + n]
  {
    var u, v := s[at + j..at + j + n], t[j..j + n];
    forall k | 0 <= k < n
      ensures u[k] == v[k]
    {
      assert s[at + j + k] == s[at..at + |t|][j + k];
    }
  }

  lemma SliceOfConcat(a: string, b: string, c: string)
    ensures (a + b + c)[|a|..|a| + |b|] == b
    ensures (a + b + c)[|a| + |b|..] == c
  {
  }

  /** The text search finds the first closing tag of an element right
      after its text. */
  lemma CloseFound(s: string, inner: string, close: string, at: nat)
    requires at + |inner| + |close| <= |s| && s[at..at + |inner| + |close|] == inner + close
    requires NoEarlyClose(inner, close)
    ensures Text.FindFrom(s, close, at) == Some(at + |inner|)
  {
    var t := inner + close;
    assert s[at + |inner|..at + |inner| + |close|] == t[|inner|..] == close;
    forall j | at <= j < at + |inner|
      ensures !Text.OccursAt(s, close, j)
    {
      SliceShift(s, t, at, j - at, |close|);
      assert !Text.OccursAt(t, close, j - at);
    }
    Text.FindFromFirst(s, close, at, at + |inner|);
  }

  /** Where the parser finds an opening tag with no '<' before it and no
      '>' inside it, whatever follows. */
  lemma OpenTagFound(e: Element, rest: string, s: string)
    requires forall k :: 0 <= k < |e.gap| ==> e.gap[k] != '<'
    requires forall k :: 0 <= k < |e.key| ==> e.key[k] != '>'
    requires s == Open(e) + rest
    ensures IndexOf(s, '<', 0) == Some(|e.gap|)
    ensures IndexOf(s, '>', |e.gap| + 1) == Some(|e.gap| + 1 + |e.key|)
    ensures s[|e.gap| + 1..|e.gap| + 1 + |e.key|] == e.key
  {
    var lt := |e.gap|;
    var gt := lt + 1 + |e.key|;
    assert s[..gt + 1] == e.gap + "<" + e.key + ">";
    assert s[lt] == '<';
    assert forall j :: 0 <= j < lt ==> s[j] == e.gap[j];
    IndexOfFirst(s, '<', 0, lt);
    assert s[gt] == '>';
    assert forall j :: lt + 1 <= j < gt ==> s[j] == e.key[j - lt - 1];
    IndexOfFirst(s, '>', lt + 1, gt);
  }

  /** Where the parser finds the closing tag of a delimited element. */
  lemma ElementCloses(e: Element, rest: string, s: string, gt: nat, next: nat)
    requires NoEarlyClose(e.inner, Close(e.key))
    requires s == RenderOne(e) + rest && gt == |e.gap| + 1 + |e.key| && next == |RenderOne(e)|
    ensures Text.FindFrom(s, Close(e.key), gt + 1) == Some(gt + 1 + |e.inner|)
    ensures s[gt + 1..gt + 1 + |e.inner|] == e.inner
    ensures next == gt + 1 + |e.inner| + |e.key| + 3 <= |s|
  {
    var open, close := Open(e), Close(e.key);
    RenderOneShape(e, rest);
    assert |open| == gt + 1 && |close| == |e.key| + 3;
    CloseFoundIn(open, e.inner, close, rest, s);
  }

  lemma RenderOneShape(e: Element, rest: string)
    ensures |Open(e)| == |e.gap| + 1 + |e.key| + 1 && |Close(e.key)| == |e.key| + 3
    ensures RenderOne(e) + rest == Open(e) + e.inner + Close(e.key) + rest
  {
  }

  lemma CloseFoundIn(open: string, inner: string, close: string, rest: string, s: string)
    requires NoEarlyClose(inner, close) && s == open + inner + close + rest
    ensures Text.FindFrom(s, close, |open|) == Some(|open| + |inner|)
    ensures s[|open|..|open| + |inner|] == inner
  {
    assert Text.FindFrom(s, close, |open|) == Some(|open| + |inner|) by {
      assert s[|open|..|open| + |inner| + |close|] == inner + close by {
        assert s == open + (inner + close) + rest;
        SliceOfConcat(open, inner + close, rest);
      }
      CloseFound(s, inner, close, |open|);
    }
    assert s[|open|..|open| + |inner|] == inner by {
      assert s == open + inner + (close + rest);
      SliceOfConcat(open, inner, close + rest);
    }
  }

  lemma RenderNoNul(e: Element, rest: string)
    requires Delimited(e) && NoNul(rest)
    ensures NoNul(RenderOne(e) + rest)
  {
    assert NoNul(Close(e.key));
    NoNulConcat(e.gap, "<" + e.key + ">");
    NoNulConcat(Open(e), e.inner);
    NoNulConcat(Open(e) + e.inner, Close(e.key));
    NoNulConcat(RenderOne(e), rest);
  }

  /** One pass of the loop over a delimited element finds exactly it. */
  lemma ScanElement(e: Element, rest: string)
    requires Delimited(e) && NoNul(rest)
    ensures NoNul(RenderOne(e) + rest)
    ensures ScanTag(RenderOne(e) + rest) == Found(e.key, e.inner, |RenderOne(e)|)
  {
    RenderNoNul(e, rest);
    ScanElementOpen(e, rest);
    ScanElementClose(e, rest);
  }

  /** The element's open tag is the first tag of its rendering. */
  lemma ScanElementOpen(e: Element, rest: string)
    requires Delimited(e) && NoNul(rest)
    ensures NoNul(RenderOne(e) + rest) && |e.gap| + 1 + |e.key| < |RenderOne(e) + rest|
    ensures ScanTag(RenderOne(e) + rest) == ScanClose(RenderOne(e) + rest, |e.gap| + 1 + |e.key|, e.key)
  {
    RenderNoNul(e, rest);
    var s := RenderOne(e) + rest;
    assert s == Open(e) + (e.inner + Close(e.key) + rest);
    OpenTagScanned(e, e.inner + Close(e.key) + rest, s);
  }

  /** The element's close tag ends the scan. */
  lemma ScanElementClose(e: Element, rest: string)
    requires Delimited(e) && NoNul(rest)
    ensures NoNul(RenderOne(e) + rest) && |e.gap| + 1 + |e.key| < |RenderOne(e) + rest|
    ensures ScanClose(RenderOne(e) + rest, |e.gap| + 1 + |e.key|, e.key) == Found(e.key, e.inner, |RenderOne(e)|)
  {
    RenderNoNul(e, rest);
    ClosedAt(e, rest, RenderOne(e) + rest, |e.gap| + 1 + |e.key|);
  }

  /** ScanElementClose with the rendering and the open tag's end named. */
  lemma ClosedAt(e: Element, rest: string, s: string, gt: nat)
    requires |e.key| + 3 <= CLOSE_KEPT && NoEarlyClose(e.inner, Close(e.key))
    requires s == RenderOne(e) + rest && gt == |e.gap| + 1 + |e.key| && NoNul(s)
    ensures gt < |s|
    ensures ScanClose(s, gt, e.key) == Found(e.key, e.inner, |RenderOne(e)|)
  {
    ElementCloses(e, rest, s, gt, |RenderOne(e)|);
    ScanCloseFinds(s, gt, e.key, e.inner, |RenderOne(e)|);
  }

  lemma ClosePatternWhole(name: string)
    requires |name| + 3 <= CLOSE_KEPT
    ensures ClosePattern(name) == (Close(name), |name| + 3)
  {
  }

  /** ScanTag once its two character searches are known. */
  lemma ScanTagOpens(s: string, lt: nat, gt: nat, tag: string)
    requires NoNul(s)
    requires IndexOf(s, '<', 0) == Some(lt) && IndexOf(s, '>', lt + 1) == Some(gt)
    requires s[lt + 1..gt] == tag
    ensures ScanTag(s) == ScanClose(s, gt, tag)
  {
  }

  /** ScanClose once its search is known. */
  lemma ScanCloseFinds(s: string, gt: nat, tag: string, inner: string, next: nat)
    requires NoNul(s) && gt < |s| && |tag| + 3 <= CLOSE_KEPT
    requires Text.FindFrom(s, Close(tag), gt + 1) == Some(gt + 1 + |inner|)
    requires s[gt + 1..gt + 1 + |inner|] == inner
    requires next == gt + 1 + |inner| + |tag| + 3 <= |s|
    ensures ScanClose(s, gt, tag) == Found(tag, inner, next)
  {
    ClosePatternWhole(tag);
  }

  /** One iteration of the loop over a delimited element. */
  lemma ParseLoopOneElement(e: Element, rest: string, level: nat, used: nat, acc: seq<Node>)
    requires Delimited(e) && NoNul(rest)
    ensures NoNul(RenderOne(e) + rest)
    ensures ParseLoop(RenderOne(e) + rest, level, used, acc) ==
      if used >= XML_MAXCOUNT then Parsed((acc, false, used + 1))
      else if XmlParse(e.inner, e.key, level + 1, used + 1).RanPast? then RanPast
      else ParseLoop(rest, level, XmlParse(e.inner, e.key, level + 1, used + 1).value.1,
                     acc + [XmlParse(e.inner, e.key, level + 1, used + 1).value.0])
  {
    ScanElement(e, rest);
    assert (RenderOne(e) + rest)[|RenderOne(e)|..] == rest;
  }

  /** The loop over a run of delimited elements followed by text without
      tags means exactly what ParseElements says: each element becomes one
      child, in document order, named by its tag and parsed from its own
      text, and an invalid child does not stop its siblings. */
  lemma {:induction false} ParseLoopReadsElements(es: seq<Element>, tail: string, level: nat, used: nat, acc: seq<Node>)
    requires forall i :: 0 <= i < |es| ==> Delimited(es[i])
    requires NoNul(tail) && forall k :: 0 <= k < |tail| ==> tail[k] != '<'
    ensures NoNul(Render(es) + tail)
    ensures ParseLoop(Render(es) + tail, level, used, acc) == ParseElements(es, level, used, acc)
    decreases |es|
  {
    if |es| == 0 {
      assert Render(es) + tail == tail;
    } else {
      var rest := Render(es[1..]) + tail;
      ParseLoopReadsElements(es[1..], tail, level, 0, []);
      assert Render(es) + tail == RenderOne(es[0]) + rest;
      ParseLoopOneElement(es[0], rest, level, used, acc);
      if used < XML_MAXCOUNT && XmlParse(es[0].inner, es[0].key, level + 1, used + 1).Parsed? {
        var (child, used') := XmlParse(es[0].inner, es[0].key, level + 1, used + 1).value;
        ParseLoopReadsElements(es[1..], tail, level, used', acc + [child]);
      }
    }
  }

  /** xml_parse over a run of delimited elements: the parent keeps its text
      when there are none, becomes invalid when the pool ran dry, and
      otherwise holds the children ParseElements reads. */
  lemma XmlParseReadsElements(es: seq<Element>, tail: string, name: string, level: nat, used: nat)
    requires forall i :: 0 <= i < |es| ==> Delimited(es[i])
    requires NoNul(tail) && forall k :: 0 <= k < |tail| ==> tail[k] != '<'
    ensures NoNul(Render(es) + tail)
    ensures ParseElements(es, level, used, []).RanPast? ==> XmlParse(Render(es) + tail, name, level, used) == RanPast
    ensures ParseElements(es, level, used, []).Parsed? ==>
      var (kids, ok, used') := ParseElements(es, level, used, []).value;
      XmlParse(Render(es) + tail, name, level, used) ==
        if !ok then Parsed((Node(name, InvalidData, NoData), used'))
        else if |kids| == 0 then Parsed((Node(name, if level > 0 then StringData else InvalidData, Str(Render(es) + tail)), used'))
        else Parsed((Node(name, if level > 0 then XmlData else ConfigData, Sub(kids)), used'))
  {
    ParseLoopReadsElements(es, tail, level, used, []);
  }

  /** An element whose text holds no tag. */
  predicate Leaf(e: Element) {
    forall k :: 0 <= k < |e.inner| ==> e.inner[k] != '<'
  }

  /** A run of delimited elements none of which holds a tag. */
  predicate AllLeaves(es: seq<Element>) {
    forall i :: 0 <= i < |es| ==> Delimited(es[i]) && Leaf(es[i])
  }

  /** The string nodes a run of leaves becomes. */
  function Leaves(es: seq<Element>): (ns: seq<Node>)
    ensures |ns| == |es|
  {
    if |es| == 0 then [] else [Node(es[0].key, StringData, Str(es[0].inner))] + Leaves(es[1..])
  }

  /** Leaves that fit in the pool each take one record and become string
      nodes holding their text. */
  lemma {:induction false} ParseLeaves(es: seq<Element>, level: nat, used: nat, acc: seq<Node>)
    requires AllLeaves(es)
    requires used + |es| <= XML_MAXCOUNT
    ensures ParseElements(es, level, used, acc) == Parsed((acc + Leaves(es), true, used + |es|))
    decreases |es|, 1
  {
    if |es| == 0 {
      assert acc + Leaves(es) == acc;
    } else {
      ParseLeavesCons(es, level, used, acc);
    }
  }

  /** ParseLeaves for a run that has a first leaf. */
  lemma {:induction false} ParseLeavesCons(es: seq<Element>, level: nat, used: nat, acc: seq<Node>)
    requires AllLeaves(es) && |es| > 0
    requires used + |es| <= XML_MAXCOUNT
    ensures ParseElements(es, level, used, acc) == Parsed((acc + Leaves(es), true, used + |es|))
    decreases |es|, 0
  {
    AllLeavesTail(es);
    ParseLeaves(es[1..], level, used + 1, acc + [Node(es[0].key, StringData, Str(es[0].inner))]);
    LeafThenLeaves(es, level, used, acc);
  }

  /** The first leaf's step followed by the rest of the run. */
  lemma LeafThenLeaves(es: seq<Element>, level: nat, used: nat, acc: seq<Node>)
    requires forall i :: 0 <= i < |es| ==> Delimited(es[i])
    requires |es| > 0 && Leaf(es[0]) && used < XML_MAXCOUNT
    requires ParseElements(es[1..], level, used + 1, acc + [Node(es[0].key, StringData, Str(es[0].inner))]) ==
      Parsed((acc + [Node(es[0].key, StringData, Str(es[0].inner))] + Leaves(es[1..]), true, used + 1 + |es[1..]|))
    ensures ParseElements(es, level, used, acc) == Parsed((acc + Leaves(es), true, used + |es|))
  {
    ParseLeafStep(es, level, used, acc);
    LeavesCons(acc, es);
  }

  lemma AllLeavesTail(es: seq<Element>)
    requires AllLeaves(es) && |es| > 0
    ensures Leaf(es[0]) && AllLeaves(es[1..])
    ensures forall i :: 0 <= i < |es| ==> Delimited(es[i])
  {
    assert forall i :: 0 <= i < |es| - 1 ==> es[1..][i] == es[i + 1];
  }

  lemma LeavesCons(acc: seq<Node>, es: seq<Element>)
    requires |es| > 0
    ensures acc + [Node(es[0].key, StringData, Str(es[0].inner))] + Leaves(es[1..]) == acc + Leaves(es)
  {
  }

  /** The first leaf becomes a string node and takes one record. */
  lemma ParseLeafStep(es: seq<Element>, level: nat, used: nat, acc: seq<Node>)
    requires forall i :: 0 <= i < |es| ==> Delimited(es[i])
    requires |es| > 0 && Leaf(es[0]) && used < XML_MAXCOUNT
    ensures ParseElements(es, level, used, acc) ==
      ParseElements(es[1..], level, used + 1, acc + [Node(es[0].key, StringData, Str(es[0].inner))])
  {
    assert Delimited(es[0]);
  }

  /** The keys of a flat configuration: a document of between one and
      XML_MAXCOUNT leaves loads as a configuration whose children are those
      leaves, and xml_get_string reads each key's text back from the first
      element carrying it. */
  lemma FlatConfig(path: string, es: seq<Element>, tail: string, i: nat)
    requires 0 < |es| <= XML_MAXCOUNT && AllLeaves(es)
    requires NoNul(tail) && forall k :: 0 <= k < |tail| ==> tail[k] != '<'
    requires i < |es| && forall j :: 0 <= j < i ==> es[j].key != es[i].key
    ensures NoNul(Render(es) + tail)
    ensures ConfigParse(path, Render(es) + tail) == Parsed(Some(Node(path, ConfigData, Sub(Leaves(es)))))
    ensures XmlGetString(ConfigParse(path, Render(es) + tail).value, es[i].key) == Text(es[i].inner)
  {
    FlatConfigLoads(path, es, tail);
    LeavesAt(es);
    FirstNamedAt(Leaves(es), es[i].key, i);
  }

  lemma FlatConfigLoads(path: string, es: seq<Element>, tail: string)
    requires 0 < |es| <= XML_MAXCOUNT && AllLeaves(es)
    requires NoNul(tail) && forall k :: 0 <= k < |tail| ==> tail[k] != '<'
    ensures NoNul(Render(es) + tail)
    ensures ConfigParse(path, Render(es) + tail) == Parsed(Some(Node(path, ConfigData, Sub(Leaves(es)))))
  {
    FlatElements(es);
    XmlParseReadsElements(es, tail, path, 0, 0);
  }

  /** The root's elements, all leaves within the pool, become its children. */
  lemma FlatElements(es: seq<Element>)
    requires |es| <= XML_MAXCOUNT && AllLeaves(es)
    ensures ParseElements(es, 0, 0, []) == Parsed((Leaves(es), true, |es|))
  {
    ParseLeaves(es, 0, 0, []);
    assert [] + Leaves(es) == Leaves(es);
  }

  lemma {:induction false} LeavesAt(es: seq<Element>)
    ensures forall i :: 0 <= i < |es| ==> Leaves(es)[i] == Node(es[i].key, StringData, Str(es[i].inner))
  {
    if |es| > 0 {
      LeavesAt(es[1..]);
    }
  }

  lemma FirstNamedAt(cs: seq<Node>, name: string, i: nat)
    requires i < |cs| && cs[i].name == name && forall j :: 0 <= j < i ==> cs[j].name != name
    ensures FirstNamed(cs, name) == Some(i)
  {
    var r := FirstNamed(cs, name);
    assert r.Some?;
  }

  // ---------------------------------------------------------------------
  // Texts the parser rejects.

  /** A tag the loop cannot complete makes the element invalid, with no
      data, and takes no pool record. */
  lemma BrokenTagInvalid(s: string, name: string, level: nat, used: nat)
    requires NoNul(s) && ScanTag(s).Broken?
    ensures XmlParse(s, name, level, used) == Parsed((Node(name, InvalidData, NoData), used))
  {
  }

  /** A '<' with no '>' after it cannot be completed. */
  lemma MissingGtBroken(gap: string, after: string)
    requires NoNul(gap + "<" + after)
    requires forall k :: 0 <= k < |gap| ==> gap[k] != '<'
    requires forall k :: 0 <= k < |after| ==> after[k] != '>'
    ensures ScanTag(gap + "<" + after).Broken?
  {
    var s := gap + "<" + after;
    assert forall j :: 0 <= j < |gap| ==> s[j] == gap[j];
    IndexOfFirst(s, '<', 0, |gap|);
    assert forall j :: |gap| + 1 <= j < |s| ==> s[j] == after[j - |gap| - 1];
  }

  /** No closing pattern of `key` starts anywhere in `t`. */
  predicate NoClosing(t: string, key: string) {
    forall j :: 0 <= j <= |t| ==> !Text.OccursAt(t, ClosePattern(key).0, j)
  }

  /** An opening tag whose closing pattern never follows it cannot be
      completed. */
  lemma UnclosedBroken(e: Element)
    requires NoNul(Open(e) + e.inner)
    requires forall k :: 0 <= k < |e.gap| ==> e.gap[k] != '<'
    requires forall k :: 0 <= k < |e.key| ==> e.key[k] != '>'
    requires NoClosing(e.inner, e.key)
    ensures ScanTag(Open(e) + e.inner).Broken?
  {
    var s := Open(e) + e.inner;
    var gt := |e.gap| + 1 + |e.key|;
    assert ScanTag(s) == ScanClose(s, gt, e.key) by {
      OpenTagFound(e, e.inner, s);
      ScanTagOpens(s, |e.gap|, gt, e.key);
    }
    assert Text.FindFrom(s, ClosePattern(e.key).0, gt + 1).None? by {
      AfterOpen(e, e.inner);
      NoClosingAfter(s, gt + 1, e.inner, e.key);
    }
  }

  /** The text after an opening tag. */
  lemma AfterOpen(e: Element, t: string)
    ensures |Open(e)| == |e.gap| + |e.key| + 2
    ensures (Open(e) + t)[|e.gap| + |e.key| + 2..] == t
  {
  }

  /** The search for a closing pattern in a text that holds none fails. */
  lemma NoClosingAfter(s: string, at: nat, t: string, key: string)
    requires at <= |s| && s[at..] == t && NoClosing(t, key)
    ensures Text.FindFrom(s, ClosePattern(key).0, at).None?
  {
    var pat := ClosePattern(key).0;
    match Text.FindFrom(s, pat, at)
    case None =>
    case Some(m) =>
      SliceShift(s, t, at, m - at, |pat|);
      assert Text.OccursAt(t, pat, m - at);
      assert false;
  }

  // ---------------------------------------------------------------------
  // Names too long for the closing-tag buffer.

  /** An element whose name is too long for the closing-tag buffer, closed
      only by the cut pattern at the very end of its parent's text: the
      search finds the cut pattern, and the skip by the full length snprintf
      reported lands past the NUL ending the text.  With a pool record left
      the parse runs past; with the pool exhausted the parent only becomes
      invalid. */
  lemma LongCloseOverruns(e: Element, name: string, level: nat, used: nat)
    requires NoNul(e.gap) && NoNul(e.key) && NoNul(e.inner)
    requires forall k :: 0 <= k < |e.gap| ==> e.gap[k] != '<'
    requires forall k :: 0 <= k < |e.key| ==> e.key[k] != '>'
    requires |e.key| + 3 > CLOSE_KEPT
    requires NoEarlyClose(e.inner, ClosePattern(e.key).0)
    ensures NoNul(Open(e) + e.inner + ClosePattern(e.key).0)
    ensures ScanTag(Open(e) + e.inner + ClosePattern(e.key).0) == Overrun
    ensures XmlParse(Open(e) + e.inner + ClosePattern(e.key).0, name, level, used) ==
      if used < XML_MAXCOUNT then RanPast else Parsed((Node(name, InvalidData, NoData), used + 1))
  {
    LongCloseScan(e);
  }

  /** The scan half of LongCloseOverruns. */
  lemma LongCloseScan(e: Element)
    requires NoNul(e.gap) && NoNul(e.key) && NoNul(e.inner)
    requires forall k :: 0 <= k < |e.gap| ==> e.gap[k] != '<'
    requires forall k :: 0 <= k < |e.key| ==> e.key[k] != '>'
    requires |e.key| + 3 > CLOSE_KEPT
    requires NoEarlyClose(e.inner, ClosePattern(e.key).0)
    ensures NoNul(Open(e) + e.inner + ClosePattern(e.key).0)
    ensures ScanTag(Open(e) + e.inner + ClosePattern(e.key).0) == Overrun
  {
    var pat := ClosePattern(e.key).0;
    var s := Open(e) + e.inner + pat;
    LongCloseNoNul(e, pat, s);
    LongCloseOverrun(e, pat, s);
  }

  /** The text of an element cut off inside its kept closing pattern is
      still a C string. */
  lemma LongCloseNoNul(e: Element, pat: string, s: string)
    requires NoNul(e.gap) && NoNul(e.key) && NoNul(e.inner)
    requires pat == ClosePattern(e.key).0 && s == Open(e) + e.inner + pat
    ensures NoNul(s)
  {
    assert NoNul(pat) by {
      assert NoNul(Close(e.key));
      assert pat == Close(e.key)[..|pat|];
    }
    NoNulConcat(e.gap, "<" + e.key + ">");
    NoNulConcat(Open(e), e.inner);
    NoNulConcat(Open(e) + e.inner, pat);
  }

  /** The kept prefix of a long closing pattern is found at the very end of
      the text, so the full pattern would run past it. */
  lemma LongCloseOverrun(e: Element, pat: string, s: string)
    requires NoNul(s)
    requires forall k :: 0 <= k < |e.gap| ==> e.gap[k] != '<'
    requires forall k :: 0 <= k < |e.key| ==> e.key[k] != '>'
    requires |e.key| + 3 > CLOSE_KEPT
    requires NoEarlyClose(e.inner, pat)
    requires pat == ClosePattern(e.key).0 && s == Open(e) + e.inner + pat
    ensures ScanTag(s) == Overrun
  {
    OpenTagScanned(e, e.inner + pat, s);
    assert s + "" == s;
    CloseFoundIn(Open(e), e.inner, pat, "", s + "");
  }

  /** The scan of a text that starts with an element's opening tag goes on to
      search for that element's closing pattern. */
  lemma OpenTagScanned(e: Element, rest: string, s: string)
    requires NoNul(s) && s == Open(e) + rest
    requires forall k :: 0 <= k < |e.gap| ==> e.gap[k] != '<'
    requires forall k :: 0 <= k < |e.key| ==> e.key[k] != '>'
    ensures |Open(e)| == |e.gap| + |e.key| + 2
    ensures ScanTag(s) == ScanClose(s, |e.gap| + 1 + |e.key|, e.key)
  {
    OpenTagFound(e, rest, s);
    ScanTagOpens(s, |e.gap|, |e.gap| + 1 + |e.key|, e.key);
  }

  /** A child that runs past the end of its text ends its parent's loop the
      same way. */
  lemma ChildRunsPast(e: Element, rest: string, level: nat, used: nat, acc: seq<Node>)
    requires Delimited(e) && NoNul(rest) && used < XML_MAXCOUNT
    requires XmlParse(e.inner, e.key, level + 1, used + 1) == RanPast
    ensures NoNul(RenderOne(e) + rest)
    ensures ParseLoop(RenderOne(e) + rest, level, used, acc) == RanPast
  {
    ParseLoopOneElement(e, rest, level, used, acc);
  }

  /** A name of sixty characters. */
  function LongName(): (n: string)
    ensures |n| == 60 && forall k :: 0 <= k < |n| ==> n[k] == 'a'
  {
    seq(60, _ => 'a')
  }

  /** The text of p in that document: no 'p' and no NUL in it. */
  lemma LongInnerChars(n: string)
    requires |n| == 60 && forall k :: 0 <= k < |n| ==> n[k] == 'a'
    ensures var pin := "<" + n + ">" + "</" + n;
      |pin| == 124 && forall k :: 0 <= k < |pin| ==> pin[k] != 'p' && pin[k] != '\0'
  {
    var pin := "<" + n + ">" + "</" + n;
    forall k | 0 <= k < |pin|
      ensures pin[k] != 'p' && pin[k] != '\0'
    {
      if 1 <= k <= 60 {
        assert pin[k] == n[k - 1];
      } else if 64 <= k {
        assert pin[k] == n[k - 64];
      }
    }
  }

  /** p's closing tag does not occur inside its text. */
  lemma LongInnerDelimited(n: string)
    requires |n| == 60 && forall k :: 0 <= k < |n| ==> n[k] == 'a'
    ensures Delimited(Element("", "p", "<" + n + ">" + "</" + n))
  {
    var pin := "<" + n + ">" + "</" + n;
    LongInnerChars(n);
    var t := pin + Close("p");
    forall j | 0 <= j < |pin|
      ensures !Text.OccursAt(t, Close("p"), j)
    {
      if j + 4 <= |t| {
        assert t[j + 2] != 'p' by {
          if j + 2 < |pin| {
            assert t[j + 2] == pin[j + 2];
          } else {
            assert t[j + 2] == Close("p")[j + 2 - |pin|];
          }
        }
        assert t[j..j + 4][2] == t[j + 2];
      }
    }
  }

  /** The document "<p><N></N</p><q>1</q>" with N sixty characters long: the
      cut pattern "</N" is found at the end of p's text, and the skip of the
      full 63 characters passes the NUL written over "</p>", so the parse
      of p reads on beyond its text and the load runs past. */
  lemma LongNameRunsPast(path: string)
    ensures NoNul("<p><" + LongName() + "></" + LongName() + "</p><q>1</q>")
    ensures ConfigParse(path, "<p><" + LongName() + "></" + LongName() + "</p><q>1</q>") == RanPast
  {
    var n := LongName();
    var en := Element("", n, "");
    var pat := ClosePattern(n).0;
    assert pat == "</" + n by {
      assert |Close(n)| == 63;
      assert Close(n)[..62] == "</" + n;
    }
    assert NoNul(n);
    LongCloseOverruns(en, "p", 1, 1);
    var pin := Open(en) + "" + pat;
    assert pin == "<" + n + ">" + "</" + n;
    var ep := Element("", "p", pin);
    LongInnerDelimited(n);
    ChildRunsPast(ep, "<q>1</q>", 0, 0, []);
    LongDocShape(n);
  }

  lemma LongDocShape(n: string)
    ensures RenderOne(Element("", "p", "<" + n + ">" + "</" + n)) + "<q>1</q>" == "<p><" + n + "></" + n + "</p><q>1</q>"
  {
    var pin := "<" + n + ">" + "</" + n;
    calc {
      RenderOne(Element("", "p", pin)) + "<q>1</q>";
      ("" + "<" + "p" + ">") + pin + "</p>" + "<q>1</q>";
      { assert "" + "<" + "p" + ">" == "<p>"; }
      "<p>" + pin + "</p>" + "<q>1</q>";
      { assert "</p>" + "<q>1</q>" == "</p><q>1</q>"; }
      "<p>" + pin + "</p><q>1</q>";
      { assert "<p>" + "<" == "<p><" && ">" + "</" == "></"; }
      "<p><" + n + "></" + n + "</p><q>1</q>";
    }
  }

  /** The closing tag is the first "</name>" after the opening tag, so an
      element nested in one of the same name ends its parent early: the
      parent's text is cut at the inner element's closing tag, the inner
      element is left unclosed, and the parent's own closing tag is then
      read as a tag named "/a" that never closes. */
  lemma SameNameNesting(path: string)
    ensures NoNul("<a><a>x</a></a>")
    ensures ConfigParse(path, "<a><a>x</a></a>") == Parsed(None)
  {
    NestedLoop();
  }

  /** The root loop of SameNameNesting: one invalid child, then a tag that
      never closes. */
  lemma NestedLoop()
    ensures NoNul("<a><a>x</a></a>")
    ensures ParseLoop("<a><a>x</a></a>", 0, 0, []) == Parsed(([Node("a", InvalidData, NoData)], false, 1))
  {
    var child := Node("a", InvalidData, NoData);
    NestedRender();
    NestedFirstChild(Element("", "a", "<a>x"), "</a>", child);
    NestedParentCloseUnclosed();
    assert ParseLoop("</a>", 0, 1, [child]) == Parsed(([child], false, 1));
  }

  /** The root loop reads the outer element as one invalid child and goes on
      at the parent's closing tag. */
  lemma NestedFirstChild(outer: Element, rest: string, child: Node)
    requires outer == Element("", "a", "<a>x") && rest == "</a>" && child == Node("a", InvalidData, NoData)
    ensures NoNul(RenderOne(outer) + rest)
    ensures ParseLoop(RenderOne(outer) + rest, 0, 0, []) == ParseLoop(rest, 0, 1, [child])
  {
    NestedOuterDelimited();
    NestedInnerUnclosed();
    ParseLoopParsedChild(outer, rest, 0, 0, [], child, 1);
  }

  /** One iteration of the loop over a delimited element whose child parses. */
  lemma ParseLoopParsedChild(e: Element, rest: string, level: nat, used: nat, acc: seq<Node>, child: Node, used': nat)
    requires Delimited(e) && NoNul(rest) && used < XML_MAXCOUNT
    requires XmlParse(e.inner, e.key, level + 1, used + 1) == Parsed((child, used'))
    ensures NoNul(RenderOne(e) + rest)
    ensures ParseLoop(RenderOne(e) + rest, level, used, acc) == ParseLoop(rest, level, used', acc + [child])
  {
    ParseLoopOneElement(e, rest, level, used, acc);
  }

  lemma NestedRender()
    ensures RenderOne(Element("", "a", "<a>x")) + "</a>" == "<a><a>x</a></a>"
  {
    calc {
      RenderOne(Element("", "a", "<a>x")) + "</a>";
      ("" + "<" + "a" + ">") + "<a>x" + ("</" + "a" + ">") + "</a>";
      { assert "" + "<" + "a" + ">" == "<a>" && "</" + "a" + ">" == "</a>"; }
      "<a>" + "<a>x" + "</a>" + "</a>";
    }
  }

  /** Seen by the parser, the outer element is "<a>" and "<a>x" up to the
      first "</a>". */
  lemma NestedOuterDelimited()
    ensures Delimited(Element("", "a", "<a>x"))
  {
    var t := "<a>x" + Close("a");
    assert t == "<a>x</a>";
    forall j | 0 <= j < 4 ensures !Text.OccursAt(t, Close("a"), j) {
      assert t[j + 1] != '/';
      assert Close("a")[1] == '/';
    }
  }

  /** The inner element, cut to "<a>x", has no closing tag. */
  lemma NestedInnerUnclosed()
    ensures NoNul("<a>x")
    ensures XmlParse("<a>x", "a", 1, 1) == Parsed((Node("a", InvalidData, NoData), 1))
  {
    assert NoClosing("x", "a");
    assert Open(Element("", "a", "x")) + "x" == "<a>x";
    UnclosedBroken(Element("", "a", "x"));
    BrokenTagInvalid("<a>x", "a", 1, 1);
  }

  /** The outer element's closing tag, read as the tag "/a", never closes. */
  lemma NestedParentCloseUnclosed()
    ensures NoNul("</a>")
    ensures ScanTag("</a>").Broken?
  {
    assert NoClosing("", "/a");
    assert Open(Element("", "/a", "")) + "" == "</a>";
    UnclosedBroken(Element("", "/a", ""));
  }
}
