/** `_inet_aton` of net.c: the 4.3BSD numbers-and-dots notation of an IPv4
    address (the forms a.b.c.d, a.b.c, a.b and a described for `inet_addr()`
    in POSIX.1-2017), and the dotted-quad printing of IP_TO_ARGS in net.h.
    The parser works on the characters of a C string, the text from the
    cursor `cp` onwards; the part value is an `unsigned long` (64 bits on the
    LP64 build) and the address is stored, without byte-order conversion, in
    a 32-bit `s_addr`. */
module Inet {
  import opened Base

  /** The character at i, or the terminating NUL past the end. */
  function At(s: seq<char>, i: int): char {
    if 0 <= i < |s| then s[i] else '\0'
  }

  predicate IsDigit(c: char) { '0' <= c <= '9' }

  predicate IsHexLetter(c: char) { ('a' <= c <= 'f') || ('A' <= c <= 'F') }

  /** isspace in the C locale. */
  predicate IsSpace(c: char) {
    c == ' ' || c == '\t' || c == '\n' || c as int == 0x0B || c as int == 0x0C || c == '\r'
  }

  /** The characters the digit loop consumes: decimal digits in every base,
      hexadecimal letters only in base 16. */
  predicate Accepts(base: nat, c: char) {
    IsDigit(c) || (base == 16 && IsHexLetter(c))
  }

  /** The value of a digit or hexadecimal letter (0 for any other character,
      which the digit loop never passes here). */
  function DigitVal(c: char): (d: nat)
    ensures d < 16
  {
    if IsDigit(c) then c as int - '0' as int
    else if 'a' <= c <= 'f' then c as int - 'a' as int + 10
    else if 'A' <= c <= 'F' then c as int - 'A' as int + 10
    else 0
  }

  /** `val * base`, or `val << 4` in base 16. */
  function Scale(val: nat, base: nat): nat {
    if base == 16 then val * 16 else if base == 8 then val * 8 else val * 10
  }

  /** The base chosen by a part's prefix and where its digits begin:
      "0x"/"0X" is hexadecimal, another leading "0" octal, anything else decimal. */
  function PartStart(cp: seq<char>): (r: (nat, nat))
    ensures r.0 in {8, 10, 16} && r.1 <= |cp|
  {
    if At(cp, 0) == '0' then
      if At(cp, 1) == 'x' || At(cp, 1) == 'X' then (16, 2) else (8, 1)
    else (10, 0)
  }

  /** The digit loop exactly as written: each step computes
      `val * base + digit` in the 64 bits of an `unsigned long`. */
  function ScanPartC(s: seq<char>, i: nat, base: nat, val: nat): (r: (nat, nat))
    requires i <= |s|
    ensures i <= r.1 <= |s|
    decreases |s| - i
  {
    if i < |s| && Accepts(base, s[i]) then
      ScanPartC(s, i + 1, base, (Scale(val, base) + DigitVal(s[i])) % TWO_64)
    else (val, i)
  }

  /** The digit loop in exact arithmetic; ScanPartWraps shows that reducing
      its value modulo 2^64 once gives what the C loop computes. */
  function ScanPart(s: seq<char>, i: nat, base: nat, val: nat): (r: (nat, nat))
    requires i <= |s|
    ensures i <= r.1 <= |s|
    ensures r.1 == |s| || !Accepts(base, s[r.1])
    decreases |s| - i
  {
    if i < |s| && Accepts(base, s[i]) then
      ScanPart(s, i + 1, base, Scale(val, base) + DigitVal(s[i]))
    else (val, i)
  }

  lemma AddMultiple(x: int, k: int)
    ensures (x + k * TWO_64) % TWO_64 == x % TWO_64
  {
  }

  lemma ScaleMod(val: nat, base: nat, d: nat)
    ensures (Scale(val % TWO_64, base) + d) % TWO_64 == (Scale(val, base) + d) % TWO_64
  {
    var q := val / TWO_64;
    var r := val % TWO_64;
    assert val == q * TWO_64 + r;
    if base == 16 {
      AddMultiple(r * 16 + d, q * 16);
    } else if base == 8 {
      AddMultiple(r * 8 + d, q * 8);
    } else {
      AddMultiple(r * 10 + d, q * 10);
    }
  }

  /** Wrapping at every step and wrapping once at the end agree. */
  lemma {:induction false} ScanPartWraps(s: seq<char>, i: nat, base: nat, val: nat)
    requires i <= |s|
    ensures ScanPartC(s, i, base, val % TWO_64) ==
      (ScanPart(s, i, base, val).0 % TWO_64, ScanPart(s, i, base, val).1)
    decreases |s| - i
  {
    if i < |s| && Accepts(base, s[i]) {
      var next := Scale(val, base) + DigitVal(s[i]);
      ScaleMod(val, base, DigitVal(s[i]));
      ScanPartWraps(s, i + 1, base, next);
    }
  }

  /** One part of the address: its value as the `unsigned long` the C loop
      leaves, and the offset of the first character it does not consume. */
  function ReadPart(cp: seq<char>): (r: (nat, nat))
    ensures r.0 < TWO_64 && r.1 <= |cp|
  {
    var (base, j) := PartStart(cp);
    var (val, e) := ScanPart(cp, j, base, 0);
    (val % TWO_64, e)
  }

  /** ReadPart is the C digit loop started after the part's prefix. */
  lemma ReadPartIsDigitLoop(cp: seq<char>)
    ensures ReadPart(cp) == ScanPartC(cp, PartStart(cp).1, PartStart(cp).0, 0)
  {
    ScanPartWraps(cp, PartStart(cp).1, PartStart(cp).0, 0);
  }

  /** The largest value the last part may have with n parts. */
  function LastPartMax(n: nat): nat {
    if n == 2 then 0xff_ffff else if n == 3 then 0xffff else if n == 4 then 0xff else TWO_64 - 1
  }

  /** The switch on the number of parts: the earlier parts (each at most 0xff)
      fill the high bytes and the last part must fit in what is left. */
  function Assemble(parts: seq<nat>, val: nat): (r: Option<u32>)
    requires 0 <= |parts| <= 3 && val < TWO_64
    requires forall k :: 0 <= k < |parts| ==> parts[k] <= 0xff
    ensures |parts| == 0 ==> r == Some(val % TWO_32)
    ensures |parts| > 0 ==> (r.Some? <==> val <= LastPartMax(|parts| + 1))
  {
    if |parts| == 0 then Some(val % TWO_32)
    else if |parts| == 1 then
      if val > 0xff_ffff then None else Some(parts[0] * 0x100_0000 + val)
    else if |parts| == 2 then
      if val > 0xffff then None else Some(parts[0] * 0x100_0000 + parts[1] * 0x1_0000 + val)
    else
      if val > 0xff then None
      else Some(parts[0] * 0x100_0000 + parts[1] * 0x1_0000 + parts[2] * 0x100 + val)
  }

  /** The part loop on the text from the cursor, with the dotted parts
      stored so far. */
  function AtonLoop(cp: seq<char>, parts: seq<nat>): (r: Option<u32>)
    requires |parts| <= 3
    requires forall k :: 0 <= k < |parts| ==> parts[k] <= 0xff
    decreases |cp|
  {
    var (val, e) := ReadPart(cp);
    if e < |cp| && cp[e] == '.' then
      if |parts| >= 3 || val > 0xff then None
      else AtonLoop(cp[e + 1..], parts + [val])
    else if e < |cp| && !IsSpace(cp[e]) then None
    else Assemble(parts, val)
  }

  /** _inet_aton: the address, or None where the C function returns 0. */
  function InetAton(s: seq<char>): (r: Option<u32>)
    requires NoNul(s)
    ensures |s| == 0 ==> r == Some(0)
  {
    AtonLoop(s, [])
  }

  // ---------------------------------------------------------------------
  // The notation itself: numerals and the value a list of parts denotes.

  /** The digit for d, lower-case letters beyond 9. */
  function DigitChar(d: nat): (c: char)
    requires d < 16
    ensures IsDigit(c) || IsHexLetter(c)
    ensures c != 'x' && c != 'X' && c != '\0'
  {
    if d < 10 then ('0' as int + d) as char else ('a' as int + d - 10) as char
  }

  /** The numeral of n in the given base, most significant digit first. */
  function Numeral(n: nat, base: nat): (s: seq<char>)
    requires base in {8, 10, 16}
    ensures |s| >= 1
    decreases n
  {
    if n < base then [DigitChar(n)] else Numeral(n / base, base) + [DigitChar(n % base)]
  }

  /** Not the 'x' of a hexadecimal prefix, and not the terminator. */
  predicate PlainChar(c: char) { c != 'x' && c != 'X' && c != '\0' }

  /** Every character of a numeral is a digit of its base. */
  lemma {:induction false} NumeralDigits(n: nat, base: nat)
    requires base in {8, 10, 16}
    ensures forall k :: 0 <= k < |Numeral(n, base)| ==>
      Accepts(base, Numeral(n, base)[k]) && PlainChar(Numeral(n, base)[k])
    decreases n
  {
    if n >= base {
      NumeralDigits(n / base, base);
    }
  }

  /** A numeral has a leading zero only when it is "0". */
  lemma {:induction false} NumeralLeadingDigit(n: nat, base: nat)
    requires base in {8, 10, 16}
    ensures (Numeral(n, base)[0] == '0') <==> n == 0
    decreases n
  {
    if n >= base {
      NumeralLeadingDigit(n / base, base);
      assert Numeral(n, base)[0] == Numeral(n / base, base)[0];
    }
  }

  /** The digit loop's exact value over a whole run of digits. */
  function Fold(val: nat, r: seq<char>, base: nat): nat
    decreases |r|
  {
    if |r| == 0 then val else Fold(Scale(val, base) + DigitVal(r[0]), r[1..], base)
  }

  lemma {:induction false} FoldSnoc(val: nat, r: seq<char>, c: char, base: nat)
    ensures Fold(val, r + [c], base) == Scale(Fold(val, r, base), base) + DigitVal(c)
    decreases |r|
  {
    if |r| > 0 {
      assert (r + [c])[1..] == r[1..] + [c];
      FoldSnoc(Scale(val, base) + DigitVal(r[0]), r[1..], c, base);
    }
  }

  lemma DigitOfNumeral(d: nat)
    requires d < 16
    ensures DigitVal(DigitChar(d)) == d
  {
  }

  /** Reading a numeral back gives its number. */
  lemma {:induction false} FoldNumeral(n: nat, base: nat)
    requires base in {8, 10, 16}
    ensures Fold(0, Numeral(n, base), base) == n
    decreases n
  {
    var d := n % base;
    DigitOfNumeral(d);
    if n < base {
      assert Numeral(n, base) == [DigitChar(n)];
      assert Fold(0, Numeral(n, base), base) == Fold(DigitVal(DigitChar(n)), [], base);
    } else {
      var q := n / base;
      FoldNumeral(q, base);
      FoldSnoc(0, Numeral(q, base), DigitChar(d), base);
      assert Scale(q, base) + d == n;
    }
  }

  /** The digit loop run over a run of accepted characters continues with
      the folded value after it. */
  lemma {:induction false} ScanPartRun(s: seq<char>, i: nat, base: nat, val: nat, r: seq<char>)
    requires i + |r| <= |s| && s[i..i + |r|] == r
    requires forall k :: 0 <= k < |r| ==> Accepts(base, r[k])
    ensures ScanPart(s, i, base, val) == ScanPart(s, i + |r|, base, Fold(val, r, base))
    decreases |r|
  {
    if |r| > 0 {
      assert s[i] == r[0];
      assert s[i + 1..i + 1 + |r[1..]|] == r[1..];
      ScanPartRun(s, i + 1, base, Scale(val, base) + DigitVal(r[0]), r[1..]);
    }
  }

  /** A part whose prefix selects `base` and whose digits are the numeral of
      n, up to the end or a character the base does not accept, reads as n. */
  lemma ReadRun(cp: seq<char>, base: nat, j: nat, n: nat, d: seq<char>)
    requires base in {8, 10, 16} && n < TWO_64 && PartStart(cp) == (base, j)
    requires d == Numeral(n, base) && j + |d| <= |cp| && cp[j..j + |d|] == d
    requires j + |d| == |cp| || !Accepts(base, cp[j + |d|])
    ensures ReadPart(cp) == (n, j + |d|)
  {
    NumeralDigits(n, base);
    ScanPartRun(cp, j, base, 0, d);
    FoldNumeral(n, base);
  }

  /** A character that ends a decimal part without changing its base. */
  predicate EndsPart(c: char) {
    !IsDigit(c) && !IsHexLetter(c) && c != 'x' && c != 'X'
  }

  /** What may follow a numeral without continuing it. */
  predicate EndsNumeral(rest: seq<char>) {
    |rest| == 0 || EndsPart(rest[0])
  }

  /** A decimal numeral followed by a non-digit is read as its number. */
  lemma ScanDecimal(x: nat, rest: seq<char>)
    requires x < TWO_64 && EndsNumeral(rest)
    ensures ReadPart(Numeral(x, 10) + rest) == (x, |Numeral(x, 10)|)
  {
    var d := Numeral(x, 10);
    var cp := d + rest;
    NumeralLeadingDigit(x, 10);
    NumeralDigits(x, 10);
    assert cp[0] == d[0];
    assert |d| < |cp| ==> cp[|d|] == rest[0];
    if x == 0 {
      assert d == ['0'];
      assert PartStart(cp) == (8, 1);
    } else {
      assert cp[..|d|] == d;
      ScanNonzeroDecimal(x, d, cp);
    }
  }

  /** A numeral without a leading zero is read in base 10 up to its end. */
  lemma ScanNonzeroDecimal(x: nat, d: seq<char>, cp: seq<char>)
    requires 0 < x < TWO_64 && d == Numeral(x, 10)
    requires |d| <= |cp| && cp[..|d|] == d && (|d| == |cp| || EndsPart(cp[|d|]))
    ensures ReadPart(cp) == (x, |d|)
  {
    NumeralLeadingDigit(x, 10);
    assert cp[0] == d[0];
    assert PartStart(cp) == (10, 0);
    assert cp[0..|d|] == d;
    ReadRun(cp, 10, 0, x, d);
  }

  /** One round of the part loop over a decimal part. */
  lemma AtonLoopStep(x: nat, rest: seq<char>, parts: seq<nat>)
    requires |parts| <= 3 && forall k :: 0 <= k < |parts| ==> parts[k] <= 0xff
    requires x < TWO_64 && EndsNumeral(rest)
    ensures AtonLoop(Numeral(x, 10) + rest, parts) ==
      if |rest| > 0 && rest[0] == '.' then
        (if |parts| >= 3 || x > 0xff then None else AtonLoop(rest[1..], parts + [x]))
      else if |rest| > 0 && !IsSpace(rest[0]) then None
      else Assemble(parts, x)
  {
    var d := Numeral(x, 10);
    var cp := d + rest;
    ScanDecimal(x, rest);
    AtonLoopAfterPart(cp, parts, x, |d|);
    if |rest| > 0 {
      assert cp[|d|] == rest[0];
      assert cp[|d| + 1..] == rest[1..];
    }
  }

  /** One round of the part loop once the part it reads is known. */
  lemma AtonLoopAfterPart(cp: seq<char>, parts: seq<nat>, x: nat, e: nat)
    requires |parts| <= 3 && forall k :: 0 <= k < |parts| ==> parts[k] <= 0xff
    requires ReadPart(cp) == (x, e)
    ensures AtonLoop(cp, parts) ==
      if e < |cp| && cp[e] == '.' then
        (if |parts| >= 3 || x > 0xff then None else AtonLoop(cp[e + 1..], parts + [x]))
      else if e < |cp| && !IsSpace(cp[e]) then None
      else Assemble(parts, x)
  {
  }

  /** Decimal parts joined by dots. */
  function JoinDec(ps: seq<nat>): (s: seq<char>)
    requires |ps| >= 1
    ensures |s| >= 1
  {
    if |ps| == 1 then Numeral(ps[0], 10) else Numeral(ps[0], 10) + "." + JoinDec(ps[1..])
  }

  /** The notation, read the way the standard describes it: every part but the
      last is one byte, and the last part fills the remaining low-order bytes. */
  predicate IsAddressForm(ps: seq<nat>) {
    && 1 <= |ps| <= 4
    && (forall k :: 0 <= k < |ps| - 1 ==> ps[k] <= 0xff)
    && ps[|ps| - 1] <= LastPartMax(|ps|)
  }

  function AddressOf(ps: seq<nat>): (a: u32)
    requires IsAddressForm(ps)
  {
    if |ps| == 1 then ps[0] % TWO_32
    else if |ps| == 2 then ps[0] * 0x100_0000 + ps[1]
    else if |ps| == 3 then ps[0] * 0x100_0000 + ps[1] * 0x1_0000 + ps[2]
    else ps[0] * 0x100_0000 + ps[1] * 0x1_0000 + ps[2] * 0x100 + ps[3]
  }

  /** Decimal parts whose every part but the last fits in a byte. */
  predicate DottedParts(ps: seq<nat>) {
    && 1 <= |ps|
    && (forall k :: 0 <= k < |ps| - 1 ==> ps[k] <= 0xff)
    && ps[|ps| - 1] < TWO_64
  }

  /** What the part loop makes of dotted decimal parts followed by a tail
      that does not continue the last part. */
  function JoinOutcome(parts: seq<nat>, ps: seq<nat>, t: seq<char>): Option<u32>
    requires |parts| <= 3 && forall k :: 0 <= k < |parts| ==> parts[k] <= 0xff
    requires DottedParts(ps)
  {
    if |parts| + |ps| > 4 || (|t| > 0 && !IsSpace(t[0])) then None
    else Assemble(parts + ps[..|ps| - 1], ps[|ps| - 1])
  }

  lemma JoinDecCons(ps: seq<nat>, t: seq<char>)
    requires |ps| >= 2
    ensures JoinDec(ps) + t == Numeral(ps[0], 10) + ("." + (JoinDec(ps[1..]) + t))
  {
  }

  /** Moving the first part into the stored parts does not change the outcome. */
  lemma JoinOutcomeShift(parts: seq<nat>, ps: seq<nat>, t: seq<char>)
    requires |parts| < 3 && forall k :: 0 <= k < |parts| ==> parts[k] <= 0xff
    requires |ps| >= 2 && DottedParts(ps)
    ensures forall k :: 0 <= k < |parts + [ps[0]]| ==> (parts + [ps[0]])[k] <= 0xff
    ensures DottedParts(ps[1..])
    ensures JoinOutcome(parts + [ps[0]], ps[1..], t) == JoinOutcome(parts, ps, t)
  {
    assert ps[1..][..|ps| - 2] == ps[1..|ps| - 1];
    assert ps[..|ps| - 1] == [ps[0]] + ps[1..|ps| - 1];
    assert parts + [ps[0]] + ps[1..][..|ps| - 2] == parts + ps[..|ps| - 1];
  }

  /** The part loop over dotted decimal parts followed by a tail that does
      not continue the last part: too many parts fail, a tail other than
      whitespace fails, and otherwise the parts are assembled. */
  lemma {:induction false} AtonLoopJoin(parts: seq<nat>, ps: seq<nat>, t: seq<char>)
    requires |parts| <= 3 && forall k :: 0 <= k < |parts| ==> parts[k] <= 0xff
    requires DottedParts(ps)
    requires |t| == 0 || (EndsPart(t[0]) && t[0] != '.')
    ensures AtonLoop(JoinDec(ps) + t, parts) == JoinOutcome(parts, ps, t)
    decreases |ps|
  {
    if |ps| == 1 {
      AtonLoopStep(ps[0], t, parts);
      assert parts + ps[..0] == parts;
    } else {
      var u := "." + (JoinDec(ps[1..]) + t);
      JoinDecCons(ps, t);
      AtonLoopStep(ps[0], u, parts);
      assert u[1..] == JoinDec(ps[1..]) + t;
      if |parts| < 3 {
        JoinOutcomeShift(parts, ps, t);
        AtonLoopJoin(parts + [ps[0]], ps[1..], t);
      }
    }
  }

  lemma {:induction false} JoinDecNoNul(ps: seq<nat>)
    requires |ps| >= 1
    ensures NoNul(JoinDec(ps))
    decreases |ps|
  {
    NumeralDigits(ps[0], 10);
    if |ps| > 1 {
      JoinDecNoNul(ps[1..]);
      var d := Numeral(ps[0], 10);
      forall k | 0 <= k < |JoinDec(ps)| ensures JoinDec(ps)[k] != '\0' {
        if k < |d| {
          assert JoinDec(ps)[k] == d[k];
        } else if k > |d| {
          assert JoinDec(ps)[k] == JoinDec(ps[1..])[k - |d| - 1];
        }
      }
    }
  }

  /** The whole text of a list of decimal parts, with nothing after it. */
  lemma AtonJoin(ps: seq<nat>)
    requires DottedParts(ps)
    ensures NoNul(JoinDec(ps))
    ensures InetAton(JoinDec(ps)) ==
      if |ps| > 4 then None else Assemble(ps[..|ps| - 1], ps[|ps| - 1])
  {
    JoinDecNoNul(ps);
    assert JoinDec(ps) + [] == JoinDec(ps);
    AtonLoopJoin([], ps, []);
    assert [] + ps[..|ps| - 1] == ps[..|ps| - 1];
  }

  /** The switch on the part count computes the address of the form. */
  lemma AssembleAddress(ps: seq<nat>)
    requires IsAddressForm(ps)
    ensures Assemble(ps[..|ps| - 1], ps[|ps| - 1]) == Some(AddressOf(ps))
  {
  }

  /** Every numbers-and-dots form written with decimal parts denotes the
      address the standard gives it. */
  lemma AtonReadsAddressForms(ps: seq<nat>)
    requires IsAddressForm(ps)
    ensures NoNul(JoinDec(ps))
    ensures InetAton(JoinDec(ps)) == Some(AddressOf(ps))
  {
    AtonJoin(ps);
    AssembleAddress(ps);
  }

  /** A last part wider than the room the earlier parts leave is refused. */
  lemma AtonRejectsWideLastPart(ps: seq<nat>)
    requires 2 <= |ps| <= 4 && DottedParts(ps)
    requires LastPartMax(|ps|) < ps[|ps| - 1]
    ensures NoNul(JoinDec(ps))
    ensures InetAton(JoinDec(ps)) == None
  {
    AtonJoin(ps);
  }

  /** Five or more parts are refused. */
  lemma AtonRejectsFiveParts(ps: seq<nat>)
    requires |ps| >= 5 && DottedParts(ps)
    ensures NoNul(JoinDec(ps))
    ensures InetAton(JoinDec(ps)) == None
  {
    AtonJoin(ps);
  }

  /** A part above 0xff before a dot is refused, whatever follows. */
  lemma AtonRejectsWideDottedPart(x: nat, rest: seq<char>)
    requires 0xff < x < TWO_64 && NoNul(rest)
    ensures NoNul(Numeral(x, 10) + "." + rest)
    ensures InetAton(Numeral(x, 10) + "." + rest) == None
  {
    var d := Numeral(x, 10);
    NumeralDigits(x, 10);
    assert d + "." + rest == d + ("." + rest);
    AtonLoopStep(x, "." + rest, []);
    var s := d + "." + rest;
    forall k | 0 <= k < |s| ensures s[k] != '\0' {
      if k < |d| { assert s[k] == d[k]; }
      else if k > |d| { assert s[k] == rest[k - |d| - 1]; }
    }
  }

  /** After the last part only whitespace may follow: whitespace and whatever
      comes after it are ignored, any other non-digit makes the text invalid. */
  lemma AtonTrailingText(ps: seq<nat>, c: char, rest: seq<char>)
    requires IsAddressForm(ps)
    requires EndsPart(c) && c != '.' && c != '\0' && NoNul(rest)
    ensures NoNul(JoinDec(ps) + [c] + rest)
    ensures IsSpace(c) ==> InetAton(JoinDec(ps) + [c] + rest) == Some(AddressOf(ps))
    ensures !IsSpace(c) ==> InetAton(JoinDec(ps) + [c] + rest) == None
  {
    var j := JoinDec(ps);
    var s := j + [c] + rest;
    assert s == j + ([c] + rest);
    AtonLoopJoin([], ps, [c] + rest);
    assert [] + ps[..|ps| - 1] == ps[..|ps| - 1];
    AssembleAddress(ps);
    JoinDecNoNul(ps);
    forall k | 0 <= k < |s| ensures s[k] != '\0' {
      if k < |j| { assert s[k] == j[k]; }
      else if k > |j| { assert s[k] == rest[k - |j| - 1]; }
    }
  }

  /** A single hexadecimal numeral is read as its number, truncated to the
      32 bits of the stored address. */
  lemma AtonReadsHex(n: nat)
    requires n < TWO_64
    ensures NoNul("0x" + Numeral(n, 16))
    ensures InetAton("0x" + Numeral(n, 16)) == Some(n % TWO_32)
  {
    HexPart(n, "0x" + Numeral(n, 16));
  }

  /** The "0x" prefix selects base 16 and the digits after it are one part. */
  lemma HexPart(n: nat, h: seq<char>)
    requires n < TWO_64 && h == "0x" + Numeral(n, 16)
    ensures NoNul(h) && ReadPart(h) == (n, |h|)
  {
    var d := Numeral(n, 16);
    assert h[2..2 + |d|] == d;
    assert PartStart(h) == (16, 2);
    ReadRun(h, 16, 2, n, d);
    NumeralDigits(n, 16);
    NoNulConcat("0x", d);
  }

  /** A single octal numeral is read as its number, truncated to the 32 bits
      of the stored address. */
  lemma AtonReadsOctal(n: nat)
    requires n < TWO_64
    ensures NoNul("0" + Numeral(n, 8))
    ensures InetAton("0" + Numeral(n, 8)) == Some(n % TWO_32)
  {
    OctalPart(n, "0" + Numeral(n, 8));
  }

  /** The leading zero selects base 8 and the digits after it are one part. */
  lemma OctalPart(n: nat, o: seq<char>)
    requires n < TWO_64 && o == "0" + Numeral(n, 8)
    ensures NoNul(o) && ReadPart(o) == (n, |o|)
  {
    var d := Numeral(n, 8);
    NumeralDigits(n, 8);
    assert o[1..1 + |d|] == d;
    assert o[1] == d[0];
    assert PartStart(o) == (8, 1);
    ReadRun(o, 8, 1, n, d);
    NoNulConcat("0", d);
  }

  /** A decimal digit after a leading zero is still taken, in base 8. */
  lemma AtonOctalTakesDecimalDigits(c: char)
    requires '8' <= c <= '9'
    ensures NoNul(['0', c])
    ensures InetAton(['0', c]) == Some(c as int - '0' as int)
  {
    var s := ['0', c];
    assert PartStart(s) == (8, 1);
    assert ScanPart(s, 2, 8, DigitVal(c)) == (DigitVal(c), 2);
  }

  /** IP_TO_ARGS: the four bytes of an address, most significant first, as
      the gateway prints them with "%i.%i.%i.%i". */
  function DottedQuad(ip: u32): (s: seq<char>) {
    JoinDec([ip / 0x100_0000, (ip / 0x1_0000) % 0x100, (ip / 0x100) % 0x100, ip % 0x100])
  }

  lemma BytesOfAddress(ip: u32)
    ensures ip == (ip / 0x100_0000) * 0x100_0000 + ((ip / 0x1_0000) % 0x100) * 0x1_0000
                  + ((ip / 0x100) % 0x100) * 0x100 + ip % 0x100
  {
    var a := ip / 0x100;
    var b := a / 0x100;
    assert ip == a * 0x100 + ip % 0x100;
    assert a == b * 0x100 + a % 0x100;
    assert b == (b / 0x100) * 0x100 + b % 0x100;
    assert b == ip / 0x1_0000;
    assert b / 0x100 == ip / 0x100_0000;
  }

  /** A printed address reads back as the same address. */
  lemma AtonReadsDottedQuad(ip: u32)
    ensures NoNul(DottedQuad(ip))
    ensures InetAton(DottedQuad(ip)) == Some(ip)
  {
    var ps := [ip / 0x100_0000, (ip / 0x1_0000) % 0x100, (ip / 0x100) % 0x100, ip % 0x100];
    AtonReadsAddressForms(ps);
    BytesOfAddress(ip);
  }
}
