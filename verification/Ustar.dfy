/** Archive headers in the ustar interchange format of the pax utility (proj-pregame/src/lib/ustar.c), with the octal
    conversions of proj-pregame/src/lib/stdio.c that they use. */
module Ustar {
  import opened Basics

  type Bytes = seq<Byte>

  const SLASH: Byte := 47
  const DOT: Byte := 46
  const ZERO: Byte := 48
  const SPACE: Byte := 32

  /* ---- Octal fields ---- */

  function Pow8(n: nat): nat { if n == 0 then 1 else 8 * Pow8(n - 1) }

  /** The last `n` octal digits of `v`, most significant first. */
  function Octal(v: nat, n: nat): (s: Bytes)
    ensures |s| == n
  {
    if n == 0 then [] else Octal(v / 8, n - 1) + [ZERO + v % 8]
  }

  /** The digit loop of `format_integer`: least significant digit first, none for zero. */
  function Digits(v: nat): Bytes {
    if v == 0 then [] else [ZERO + v % 8] + Digits(v / 8)
  }

  method DigitLoop(v: nat) returns (buf: Bytes)
    ensures buf == Digits(v)
  {
    buf := [];
    var value := v;
    while value > 0
      invariant buf + Digits(value) == Digits(v)
    {
      buf := buf + [ZERO + value % 8];
      value := value / 8;
    }
  }

  function Reversed(s: Bytes): Bytes { if s == [] then [] else Reversed(s[1..]) + [s[0]] }

  function Repeated(b: Byte, n: int): (s: Bytes)
    ensures |s| == if n <= 0 then 0 else n
    decreases if n <= 0 then 0 else n
  {
    if n <= 0 then [] else [b] + Repeated(b, n - 1)
  }

  /** What "%0<width>o" prints. A zero is printed as one digit. */
  function FormatOctal(v: nat, width: nat): Bytes {
    var buf := if v == 0 then [ZERO] else Digits(v);
    Repeated(ZERO, width - |buf|) + Reversed(buf)
  }

  /** `snprintf` with that format into a field of `size` bytes that was all zero. */
  function Field(text: Bytes, size: nat): (f: Bytes)
    requires size > 0
    ensures |f| == size
  {
    if |text| < size then text + Repeated(0, size - |text|) else text[..size - 1] + [0]
  }

  /** A number with at most `n` digits is printed with leading zeros. */
  lemma {:induction false} DigitsPadded(v: nat, n: nat)
    requires v < Pow8(n)
    ensures |Digits(v)| <= n && Repeated(ZERO, n - |Digits(v)|) + Reversed(Digits(v)) == Octal(v, n)
  {
    if v == 0 {
      ZerosAreOctal(n);
      assert Repeated(ZERO, n) + [] == Repeated(ZERO, n);
    } else {
      var d, rest := [ZERO + v % 8], Digits(v / 8);
      DigitsPadded(v / 8, n - 1);
      var pad := Repeated(ZERO, n - |Digits(v)|);
      calc {
        pad + Reversed(Digits(v));
        { ReversedFirst(ZERO + v % 8, rest); }
        pad + (Reversed(rest) + d);
        { Regroup(pad, Reversed(rest), d); }
        pad + Reversed(rest) + d;
        Octal(v / 8, n - 1) + d;
        Octal(v, n);
      }
    }
  }

  lemma ReversedFirst(b: Byte, s: Bytes)
    ensures Reversed([b] + s) == Reversed(s) + [b]
  {
    assert ([b] + s)[1..] == s;
  }

  lemma Regroup(a: Bytes, b: Bytes, c: Bytes)
    ensures a + (b + c) == (a + b) + c
  {
  }

  lemma {:induction false} ZerosAreOctal(n: nat)
    ensures Repeated(ZERO, n) == Octal(0, n)
  {
    if n > 0 {
      ZerosAreOctal(n - 1);
      ZerosShift(n - 1);
    }
  }

  lemma {:induction false} ZerosShift(n: nat)
    ensures [ZERO] + Repeated(ZERO, n) == Repeated(ZERO, n) + [ZERO]
  {
    if n > 0 {
      ZerosShift(n - 1);
      assert [ZERO] + (Repeated(ZERO, n - 1) + [ZERO]) == ([ZERO] + Repeated(ZERO, n - 1)) + [ZERO];
    }
  }

  lemma FormatIsOctal(v: nat, n: nat)
    requires v < Pow8(n) && n > 0
    ensures FormatOctal(v, n) == Octal(v, n)
  {
    DigitsPadded(v, n);
    if v == 0 {
      ZerosShift(n - 1);
      assert Reversed([ZERO]) == [ZERO] by { assert [ZERO][1..] == []; }
      ZerosAreOctal(n);
    }
  }

  /* ---- Parsing octal fields ---- */

  const ULONG_MAX: nat := 0xFFFF_FFFF

  /** `parse_octal_field` from offset `ofs` on, with the value so far. */
  function ParseFrom(s: Bytes, ofs: nat, value: nat): Option<nat>
    decreases |s| - ofs
  {
    if ofs >= |s| then None
    else
      var c := s[ofs];
      if 48 <= c <= 55 then
        if value > ULONG_MAX / 8 then None else ParseFrom(s, ofs + 1, c - 48 + value * 8)
      else if c == SPACE || c == 0 then
        if ofs > 0 then Some(value) else None
      else None
  }

  predicate IsOctal(c: Byte) { 48 <= c <= 55 }

  /** The number of octal digits at the start of a field. */
  function Leading(s: Bytes): (n: nat)
    ensures n <= |s| && (n < |s| ==> !IsOctal(s[n])) && (forall i :: 0 <= i < n ==> IsOctal(s[i]))
  {
    if s == [] || !IsOctal(s[0]) then 0 else 1 + Leading(s[1..])
  }

  /** The number that some octal digits stand for. */
  function OctalValue(s: Bytes): nat
    requires forall i :: 0 <= i < |s| ==> IsOctal(s[i])
  {
    if s == [] then 0 else assert IsOctal(s[|s| - 1]); 8 * OctalValue(s[..|s| - 1]) + s[|s| - 1] - 48
  }

  /** What a field means: a number if it starts with at least one digit, the digits are followed by a space or a null
      byte inside the field, and the number fits an `unsigned long`. */
  function FieldValue(s: Bytes): Option<nat> {
    var n := Leading(s);
    if 0 < n < |s| && (s[n] == SPACE || s[n] == 0) && OctalValue(s[..n]) <= ULONG_MAX then Some(OctalValue(s[..n]))
    else None
  }

  /** More digits do not make a number smaller. */
  lemma {:induction false} OctalGrows(s: Bytes, i: nat, n: nat)
    requires i <= n <= |s| && (forall j :: 0 <= j < n ==> IsOctal(s[j]))
    ensures OctalValue(s[..i]) <= OctalValue(s[..n])
    decreases n
  {
    if i < n {
      assert s[..n][..n - 1] == s[..n - 1];
      OctalGrows(s, i, n - 1);
    }
  }

  lemma {:induction false} ParseIs(s: Bytes, ofs: nat)
    requires ofs <= Leading(s) && OctalValue(s[..ofs]) <= ULONG_MAX
    ensures ParseFrom(s, ofs, OctalValue(s[..ofs])) == FieldValue(s)
    decreases |s| - ofs
  {
    if ofs < Leading(s) {
      assert s[..ofs + 1][..ofs] == s[..ofs];
      var next := OctalValue(s[..ofs + 1]);
      assert next == 8 * OctalValue(s[..ofs]) + s[ofs] - 48;
      OctalGrows(s, ofs + 1, Leading(s));
      if next <= ULONG_MAX {
        ParseIs(s, ofs + 1);
      }
    }
  }

  /** `parse_octal_field`. */
  method ParseOctalField(s: Bytes) returns (r: Option<nat>)
    ensures r == FieldValue(s)
  {
    var value := 0;
    assert s[..0] == [];
    ParseIs(s, 0);
    for ofs := 0 to |s|
      invariant 0 <= value && ParseFrom(s, 0, 0) == ParseFrom(s, ofs, value)
    {
      var c := s[ofs];
      if 48 <= c <= 55 {
        if value > ULONG_MAX / 8 {
          return None;
        }
        value := c - 48 + value * 8;
      } else if c == SPACE || c == 0 {
        return if ofs > 0 then Some(value) else None;
      } else {
        return None;
      }
    }
    r := None;
  }

  lemma {:induction false} OctalTail(v: nat, n: nat, k: nat)
    requires k < n
    ensures Octal(v, n)[k] == ZERO + DigitOf(v, n - 1 - k) % 8
  {
    if k < n - 1 {
      OctalTail(v / 8, n - 1, k);
    }
  }

  /** `v` without its last `k` octal digits. */
  function DigitOf(v: nat, k: nat): nat { if k == 0 then v else DigitOf(v / 8, k - 1) }

  lemma {:induction false} DigitStep(v: nat, k: nat)
    ensures DigitOf(v, k) / 8 == DigitOf(v, k + 1)
  {
    if k > 0 {
      DigitStep(v / 8, k - 1);
    }
  }

  lemma {:induction false} NoDigitsLeft(v: nat, n: nat)
    requires v < Pow8(n)
    ensures DigitOf(v, n) == 0
  {
    if n > 0 {
      NoDigitsLeft(v / 8, n - 1);
    }
  }

  lemma {:induction false} DigitSmaller(v: nat, k: nat)
    ensures DigitOf(v, k) <= v
  {
    if k > 0 {
      DigitSmaller(v / 8, k - 1);
    }
  }

  /** Having read the first `ofs` digits, the value is `v` without the other digits. */
  lemma {:induction false} ParseDigits(v: nat, n: nat, rest: Bytes, ofs: nat)
    requires ofs <= n && 0 < n && rest != [] && rest[0] == 0 && v <= ULONG_MAX
    ensures ParseFrom(Octal(v, n) + rest, ofs, DigitOf(v, n - ofs)) == Some(v)
    decreases n - ofs
  {
    var s := Octal(v, n) + rest;
    if ofs < n {
      var d := DigitOf(v, n - ofs - 1);
      OctalTail(v, n, ofs);
      DigitStep(v, n - ofs - 1);
      DigitSmaller(v, n - ofs - 1);
      assert s[ofs] == ZERO + d % 8;
      ParseDigits(v, n, rest, ofs + 1);
    } else {
      assert s[n] == rest[0];
    }
  }

  /** Parsing undoes printing. */
  lemma OctalRoundTrip(v: nat, n: nat)
    requires v < Pow8(n) && v <= ULONG_MAX && n > 0
    ensures ParseFrom(Field(FormatOctal(v, n), n + 1), 0, 0) == Some(v)
  {
    FormatIsOctal(v, n);
    NoDigitsLeft(v, n);
    assert Repeated(0, 1)[0] == 0;
    ParseDigits(v, n, Repeated(0, 1), 0);
  }

  /* ---- File names ---- */

  predicate StartsWith(s: Bytes, p: Bytes) { |p| <= |s| && s[..|p|] == p }

  predicate Antisocial(name: Bytes) {
    StartsWith(name, [SLASH]) || StartsWith(name, [DOT, SLASH]) || StartsWith(name, [DOT, DOT, SLASH])
  }

  /** `strchr(name, '/') + 1`. */
  function AfterSlash(name: Bytes): (r: Bytes)
    ensures |r| <= |name| && (SLASH in name ==> |r| < |name|)
  {
    if name == [] then [] else if name[0] == SLASH then name[1..] else AfterSlash(name[1..])
  }

  /** The name without any number of prefixes "/", "./" and "../". */
  function Dropped(name: Bytes): (r: Bytes)
    ensures !Antisocial(r)
    decreases |name|
  {
    if Antisocial(name) then
      SlashIn(name);
      Dropped(AfterSlash(name))
    else name
  }

  lemma SlashIn(name: Bytes)
    requires Antisocial(name)
    ensures SLASH in name
  {
    assert StartsWith(name, [SLASH]) ==> name[0] == name[..1][0];
    assert StartsWith(name, [DOT, SLASH]) ==> name[1] == name[..2][1];
    assert StartsWith(name, [DOT, DOT, SLASH]) ==> name[2] == name[..3][2];
  }

  /** Nothing but "/", "./" and "../". */
  ghost predicate OnlyPrefixes(p: Bytes)
    decreases |p|
  {
    || p == []
    || (StartsWith(p, [47]) && OnlyPrefixes(p[1..]))
    || (StartsWith(p, [46, 47]) && OnlyPrefixes(p[2..]))
    || (StartsWith(p, [46, 46, 47]) && OnlyPrefixes(p[3..]))
  }

  lemma SlashAt(name: Bytes, n: nat)
    requires n < |name| && name[n] == SLASH && SLASH !in name[..n]
    ensures AfterSlash(name) == name[n + 1..]
  {
    if n > 0 {
      assert name[0] in name[..n];
      assert name[1..][..n - 1] == name[1..n];
      assert forall x :: x in name[1..n] ==> x in name[..n];
      SlashAt(name[1..], n - 1);
    }
  }

  /** One round drops one prefix. */
  lemma OnePrefix(name: Bytes) returns (n: nat)
    requires Antisocial(name)
    ensures 0 < n <= |name| && AfterSlash(name) == name[n..] && name[..n] in [[47], [46, 47], [46, 46, 47]]
  {
    if StartsWith(name, [SLASH]) {
      n := 1;
      assert name[0] == name[..1][0];
    } else if StartsWith(name, [DOT, SLASH]) {
      n := 2;
      assert name[0] == name[..2][0] && name[1] == name[..2][1];
    } else {
      n := 3;
      assert name[0] == name[..3][0] && name[1] == name[..3][1] && name[2] == name[..3][2];
    }
    assert name[..n - 1] == name[..n][..n - 1];
    SlashAt(name, n - 1);
  }

  /** What is dropped from the start of a name is nothing but these prefixes; the rest stays as it is. */
  lemma {:induction false} DroppedIs(name: Bytes) returns (n: nat)
    ensures n <= |name| && Dropped(name) == name[n..] && OnlyPrefixes(name[..n])
    decreases |name|
  {
    n := 0;
    if Antisocial(name) {
      SlashIn(name);
      var k := OnePrefix(name);
      var m := DroppedIs(name[k..]);
      n := k + m;
      PrefixFirst(name, k, n);
    }
  }

  lemma PrefixFirst(name: Bytes, k: nat, n: nat)
    requires 0 < k <= n <= |name| && name[..k] in [[47], [46, 47], [46, 46, 47]] && OnlyPrefixes(name[k..][..n - k])
    ensures OnlyPrefixes(name[..n]) && name[k..][n - k..] == name[n..]
  {
    var p := name[..n];
    assert p[..k] == name[..k] && p[k..] == name[k..][..n - k];
    assert k == |name[..k]|;
  }

  function Strip(name: Bytes): Bytes {
    var r := Dropped(name);
    if r == [] || r == [DOT, DOT] then [DOT] else r
  }

  /** `strip_antisocial_prefixes`. It ends, since every round finds a slash to drop. */
  method StripAntisocialPrefixes(name: Bytes) returns (r: Bytes)
    ensures r == Strip(name)
  {
    r := name;
    while Antisocial(r)
      invariant Dropped(r) == Dropped(name)
      decreases |r|
    {
      SlashIn(r);
      r := AfterSlash(r);
    }
    if r == [] || r == [DOT, DOT] {
      r := [DOT];
    }
  }

  /** Stripping twice is stripping once, and leaves a name that neither starts with "/", "./" or "../" nor is "..". */
  lemma StripTwice(name: Bytes)
    ensures Strip(Strip(name)) == Strip(name) && Strip(name) != [] && Strip(name) != [46, 46]
    ensures var r := Strip(name); !StartsWith(r, [47]) && !StartsWith(r, [46, 47]) && !StartsWith(r, [46, 46, 47])
  {
    assert [DOT][..1] == [DOT] && [DOT][0] != SLASH;
    assert !Antisocial([DOT]);
  }

  /** Only the start of a name is looked at: "a/../../x" stays as it is. */
  lemma StripLooksAtTheStart()
    ensures var name := [97, SLASH, DOT, DOT, SLASH, DOT, DOT, SLASH, 120]; Strip(name) == name
  {
    var name := [97, SLASH, DOT, DOT, SLASH, DOT, DOT, SLASH, 120];
    assert name[..1] == [97] && name[..2] == [97, SLASH] && name[..3] == [97, SLASH, DOT];
    assert [97, SLASH][0] != [DOT, SLASH][0] && [97, SLASH, DOT][0] != [DOT, DOT, SLASH][0] && [97][0] != [SLASH][0];
    assert !Antisocial(name);
  }

  lemma {:induction false} AfterSlashIsSuffix(name: Bytes)
    ensures name[|name| - |AfterSlash(name)|..] == AfterSlash(name)
  {
    if name != [] && name[0] != SLASH {
      AfterSlashIsSuffix(name[1..]);
    }
  }

  /** The dropped name is a suffix of the name. */
  lemma {:induction false} DroppedIsSuffix(name: Bytes)
    ensures |Dropped(name)| <= |name| && name[|name| - |Dropped(name)|..] == Dropped(name)
    decreases |name|
  {
    if Antisocial(name) {
      SlashIn(name);
      AfterSlashIsSuffix(name);
      DroppedIsSuffix(AfterSlash(name));
    }
  }

  lemma StripKeepsNulFree(name: Bytes)
    requires 0 !in name
    ensures 0 !in Strip(name)
  {
    DroppedIsSuffix(name);
    assert forall i :: 0 <= i < |Dropped(name)| ==> Dropped(name)[i] == name[|name| - |Dropped(name)| + i];
  }

  /* ---- Headers ---- */

  /** `struct ustar_header`, field by field. */
  datatype Header = Header(
    name: Bytes, mode: Bytes, uid: Bytes, gid: Bytes, size: Bytes, mtime: Bytes, chksum: Bytes, typeflag: Byte,
    linkname: Bytes, magic: Bytes, version: Bytes, uname: Bytes, gname: Bytes, devmajor: Bytes, devminor: Bytes,
    prefix: Bytes, padding: Bytes)

  ghost predicate Shaped(h: Header) {
    && |h.name| == 100 && |h.mode| == |h.uid| == |h.gid| == 8 && |h.size| == |h.mtime| == 12 && |h.chksum| == 8
    && |h.linkname| == 100 && |h.magic| == 6 && |h.version| == 2 && |h.uname| == |h.gname| == 32
    && |h.devmajor| == |h.devminor| == 8 && |h.prefix| == 155 && |h.padding| == 12
  }

  function Front(h: Header): Bytes { h.name + h.mode + h.uid + h.gid + h.size + h.mtime }

  function Back(h: Header): Bytes {
    [h.typeflag] + h.linkname + h.magic + h.version + h.uname + h.gname + h.devmajor + h.devminor + h.prefix + h.padding
  }

  /** The header as 512 bytes. */
  function Packed(h: Header): Bytes { Front(h) + h.chksum + Back(h) }

  lemma PackedLength(h: Header)
    requires Shaped(h)
    ensures |Front(h)| == 148 && |Packed(h)| == 512
  {
  }

  /** The sum of the first `n` bytes, with spaces in place of the checksum field. */
  function ChksumTo(b: Bytes, n: nat): nat
    requires n <= |b|
  {
    if n == 0 then 0 else ChksumTo(b, n - 1) + if 148 <= n - 1 < 156 then SPACE else b[n - 1]
  }

  /** `calculate_chksum`. */
  method CalculateChksum(b: Bytes) returns (chksum: nat)
    ensures chksum == ChksumTo(b, |b|) && chksum <= 255 * |b|
  {
    chksum := 0;
    for i := 0 to |b|
      invariant chksum == ChksumTo(b, i) && chksum <= 255 * i
    {
      chksum := chksum + if 148 <= i < 156 then SPACE else b[i];
    }
  }

  lemma {:induction false} ChksumSmall(b: Bytes, n: nat)
    requires n <= |b|
    ensures ChksumTo(b, n) <= 255 * n
  {
    if n > 0 {
      ChksumSmall(b, n - 1);
    }
  }

  lemma {:induction false} ChksumSame(a: Bytes, b: Bytes, n: nat)
    requires n <= |a| == |b| && (forall i :: 0 <= i < |a| && !(148 <= i < 156) ==> a[i] == b[i])
    ensures ChksumTo(a, n) == ChksumTo(b, n)
  {
    if n > 0 {
      ChksumSame(a, b, n - 1);
    }
  }

  lemma FrontBack(a: Bytes, c: Bytes, d: Bytes, b: Bytes)
    requires |a| == 148 && |c| == |d| == 8
    ensures forall i :: 0 <= i < |a + c + b| && !(148 <= i < 156) ==> (a + c + b)[i] == (a + d + b)[i]
  {
  }

  function Chksum(h: Header): nat { ChksumTo(Packed(h), |Packed(h)|) }

  /** The checksum does not depend on its own field, and fits seven octal digits. */
  lemma ChksumIsIndependent(h: Header, c: Bytes)
    requires Shaped(h) && |c| == 8
    ensures Chksum(h.(chksum := c)) == Chksum(h) && Chksum(h) < Pow8(7)
  {
    var g := h.(chksum := c);
    PackedLength(h);
    PackedLength(g);
    assert Front(g) == Front(h) && Back(g) == Back(h);
    FrontBack(Front(h), h.chksum, c, Back(h));
    ChksumSame(Packed(h), Packed(g), 512);
    ChksumSmall(Packed(h), 512);
    assert Pow8(7) == 2097152 by { assert Pow8(3) == 512 && Pow8(5) == 32768; }
  }

  const REGULAR: Byte := 48
  const DIRECTORY: Byte := 53
  const INT_MAX: nat := 0x7FFF_FFFF

  /** "ustar" with its null byte. */
  const MAGIC: Bytes := [117, 115, 116, 97, 114, 0]

  const ROOT: Bytes := [114, 111, 111, 116]

  /** How "%o" reads an `int`. */
  function Unsigned(v: int): nat
    requires -0x8000_0000 <= v <= INT_MAX
  {
    if v < 0 then v + 0x1_0000_0000 else v
  }

  /** The header without its checksum. */
  function Blank(name: Bytes, typ: Byte, size: int): Header
    requires -0x8000_0000 <= size <= INT_MAX
  {
    Header(Field(name, 100), Field(FormatOctal(if typ == REGULAR then 420 else 493, 7), 8),
           Field(Repeated(ZERO, 7), 8), Field(Repeated(ZERO, 7), 8), Field(FormatOctal(Unsigned(size), 11), 12),
           Field(FormatOctal(1136102400, 11), 12), Repeated(0, 8), typ, Repeated(0, 100), MAGIC, [ZERO, ZERO],
           Field(ROOT, 32), Field(ROOT, 32), Repeated(0, 8), Repeated(0, 8), Repeated(0, 155), Repeated(0, 12))
  }

  /** `ustar_make_header`. */
  function MakeHeader(name: Bytes, typ: Byte, size: int): Option<Header>
    requires (typ == REGULAR || typ == DIRECTORY) && -0x8000_0000 <= size <= INT_MAX
  {
    var stripped := Strip(name);
    if |stripped| > 99 then None
    else
      var h := Blank(stripped, typ, size);
      Some(h.(chksum := Field(FormatOctal(Chksum(h), 7), 8)))
  }

  datatype Parsed = Eof | Entry(name: Bytes, typ: Byte, size: nat) | Error(message: string)

  /** The string in a field: the bytes before the first null byte. */
  function CString(s: Bytes): Bytes {
    if s == [] || s[0] == 0 then [] else [s[0]] + CString(s[1..])
  }

  predicate AllZeros(s: Bytes) { forall i :: 0 <= i < |s| ==> s[i] == 0 }

  /** `ustar_parse_header`. */
  function ParseHeader(h: Header): Parsed
    requires |h.name| == 100 && |h.version| == 2 && |h.prefix| == 155
  {
    if AllZeros(Packed(h)) then Eof
    else if h.magic != MAGIC then Error("not a ustar archive")
    else if h.version[0] != ZERO || h.version[1] != ZERO then Error("invalid ustar version")
    else match ParseFrom(h.chksum, 0, 0)
      case None => Error("corrupt chksum field")
      case Some(chksum) =>
        if chksum != Chksum(h) then Error("checksum mismatch")
        else if h.name[99] != 0 || h.prefix[0] != 0 then Error("file name too long")
        else if h.typeflag != REGULAR && h.typeflag != DIRECTORY then Error("unimplemented file type")
        else if h.typeflag == DIRECTORY then Entry(Strip(CString(h.name)), h.typeflag, 0)
        else match ParseFrom(h.size, 0, 0)
          case None => Error("corrupt file size field")
          case Some(size) => if size > INT_MAX then Error("file too large")
                             else Entry(Strip(CString(h.name)), h.typeflag, size)
  }

  lemma {:induction false} CStringOf(name: Bytes, pad: Bytes)
    requires 0 !in name && pad != [] && pad[0] == 0
    ensures CString(name + pad) == name
  {
    if name == [] {
      assert name + pad == pad;
    } else {
      CStringOf(name[1..], pad);
      assert (name + pad)[1..] == name[1..] + pad;
    }
  }

  lemma MagicShows(h: Header)
    requires Shaped(h) && h.magic == MAGIC
    ensures !AllZeros(Packed(h))
  {
    PackedLength(h);
    assert Packed(h)[257] == Back(h)[101];
    assert Back(h)[101] == h.magic[0];
  }

  lemma NameField(name: Bytes)
    requires 0 !in name && |name| <= 99
    ensures CString(Field(name, 100)) == name && Field(name, 100)[99] == 0
  {
    var pad := Repeated(0, 100 - |name|);
    assert pad[0] == 0;
    CStringOf(name, pad);
    ZeroAt(100 - |name|, 99 - |name|);
  }

  lemma {:induction false} ZeroAt(n: nat, k: nat)
    requires k < n
    ensures Repeated(0, n)[k] == 0
  {
    if k > 0 {
      ZeroAt(n - 1, k - 1);
    }
  }

  lemma SizeField(size: int)
    requires -0x8000_0000 <= size <= INT_MAX
    ensures ParseFrom(Field(FormatOctal(Unsigned(size), 11), 12), 0, 0) == Some(Unsigned(size))
  {
    assert Pow8(11) == 0x2_0000_0000 by { assert Pow8(4) == 4096 && Pow8(7) == 2097152 && Pow8(9) == 134217728; }
    OctalRoundTrip(Unsigned(size), 11);
  }

  /** A header with these fields is accepted. */
  lemma FieldsParse(h: Header, name: Bytes, size: nat)
    requires Shaped(h) && h.magic == MAGIC && h.version == [ZERO, ZERO]
             && (h.typeflag == REGULAR || h.typeflag == DIRECTORY)
    requires ParseFrom(h.chksum, 0, 0) == Some(Chksum(h)) && ParseFrom(h.size, 0, 0) == Some(size)
    requires h.name[99] == 0 && h.prefix[0] == 0 && CString(h.name) == name && Strip(name) == name
    ensures ParseHeader(h) == if h.typeflag == DIRECTORY then Entry(name, h.typeflag, 0)
                              else if size <= INT_MAX then Entry(name, h.typeflag, size)
                              else Error("file too large")
  {
    MagicShows(h);
  }

  lemma MadeChksum(blank: Header)
    requires Shaped(blank)
    ensures var c := Field(FormatOctal(Chksum(blank), 7), 8);
            Shaped(blank.(chksum := c)) && ParseFrom(c, 0, 0) == Some(Chksum(blank.(chksum := c)))
  {
    ChksumIsIndependent(blank, Field(FormatOctal(Chksum(blank), 7), 8));
    assert Pow8(7) == 2097152 by { assert Pow8(3) == 512 && Pow8(5) == 32768; }
    OctalRoundTrip(Chksum(blank), 7);
  }

  /** Parsing a header that was made gives back the stripped name, the type and the size (0 for a directory). It fails
      exactly for a regular file of negative size. */
  lemma RoundTrip(name: Bytes, typ: Byte, size: int)
    requires (typ == REGULAR || typ == DIRECTORY) && -0x8000_0000 <= size <= INT_MAX && 0 !in name
    ensures MakeHeader(name, typ, size).Some? <==> |Strip(name)| <= 99
    ensures MakeHeader(name, typ, size).Some? ==>
              var h := MakeHeader(name, typ, size).value;
              && Shaped(h)
              && ParseHeader(h) == if typ == DIRECTORY then Entry(Strip(name), typ, 0)
                                   else if size >= 0 then Entry(Strip(name), typ, size)
                                   else Error("file too large")
  {
    if |Strip(name)| <= 99 {
      var blank := Blank(Strip(name), typ, size);
      assert Shaped(blank);
      MadeChksum(blank);
      StripKeepsNulFree(name);
      NameField(Strip(name));
      ZeroAt(155, 0);
      SizeField(size);
      StripTwice(name);
      FieldsParse(MakeHeader(name, typ, size).value, Strip(name), Unsigned(size));
    }
  }

  lemma NumberField(v: nat)
    requires v < Pow8(7) && v <= ULONG_MAX
    ensures ParseFrom(Field(FormatOctal(v, 7), 8), 0, 0) == Some(v)
  {
    OctalRoundTrip(v, 7);
  }

  lemma ZeroField()
    ensures ParseFrom(Field(Repeated(ZERO, 7), 8), 0, 0) == Some(0)
  {
    Pow8Is();
    NumberField(0);
    FormatIsOctal(0, 7);
    ZerosAreOctal(7);
  }

  lemma RootField()
    ensures CString(Field(ROOT, 32)) == ROOT
  {
    assert Repeated(0, 28)[0] == 0;
    CStringOf(ROOT, Repeated(0, 28));
  }

  lemma Pow8Is()
    ensures Pow8(7) == 2097152
  {
    assert Pow8(3) == 512 && Pow8(5) == 32768;
  }

  /** The fields that the parser does not look at: permissions, owner and time are readable octal numbers, and the owner
      is root. */
  lemma OtherFields(name: Bytes, typ: Byte, size: int)
    requires (typ == REGULAR || typ == DIRECTORY) && -0x8000_0000 <= size <= INT_MAX && |Strip(name)| <= 99
    ensures var h := MakeHeader(name, typ, size).value;
            && ParseFrom(h.mode, 0, 0) == Some(if typ == REGULAR then 420 else 493)
            && ParseFrom(h.uid, 0, 0) == Some(0) && ParseFrom(h.gid, 0, 0) == Some(0)
            && ParseFrom(h.mtime, 0, 0) == Some(1136102400)
            && CString(h.uname) == CString(h.gname) == [114, 111, 111, 116]
  {
    Pow8Is();
    NumberField(if typ == REGULAR then 420 else 493);
    ZeroField();
    SizeField(1136102400);
    RootField();
  }

  /** The remaining fields are empty. */
  lemma EmptyFields(name: Bytes, typ: Byte, size: int)
    requires (typ == REGULAR || typ == DIRECTORY) && -0x8000_0000 <= size <= INT_MAX && |Strip(name)| <= 99
    ensures var h := MakeHeader(name, typ, size).value;
            AllZeros(h.linkname) && AllZeros(h.devmajor) && AllZeros(h.devminor) && AllZeros(h.prefix)
            && AllZeros(h.padding)
  {
    NullField(100);
    NullField(8);
    NullField(155);
    NullField(12);
  }

  lemma NullField(n: nat)
    ensures AllZeros(Repeated(0, n))
  {
    forall i | 0 <= i < n ensures Repeated(0, n)[i] == 0 { ZeroAt(n, i); }
  }

  lemma Second(a: Bytes, b: Bytes, i: nat, j: nat)
    requires |a| <= i <= j <= |a + b|
    ensures (a + b)[i..j] == b[i - |a|..j - |a|]
  {
  }

  lemma FirstPart(a: Bytes, b: Bytes, i: nat, j: nat)
    requires i <= j <= |a|
    ensures (a + b)[i..j] == a[i..j]
  {
  }

  /** Where the fields are among the 512 bytes. */
  lemma Layout(h: Header)
    requires Shaped(h)
    ensures var p := Packed(h);
            && |p| == 512 && p[0..100] == h.name && p[100..108] == h.mode && p[108..116] == h.uid
            && p[116..124] == h.gid && p[124..136] == h.size && p[136..148] == h.mtime && p[148..156] == h.chksum
            && p[156] == h.typeflag && p[157..257] == h.linkname && p[257..263] == h.magic && p[263..265] == h.version
            && p[265..297] == h.uname && p[297..329] == h.gname && p[329..337] == h.devmajor
            && p[337..345] == h.devminor && p[345..500] == h.prefix && p[500..512] == h.padding
  {
    PackedLength(h);
    FrontLayout(h);
    BackLayout(h);
    var p, a := Packed(h), Front(h) + h.chksum;
    assert p == Front(h) + (h.chksum + Back(h));
    forall i: nat, j: nat | i <= j <= 148 ensures p[i..j] == Front(h)[i..j] {
      FirstPart(Front(h), h.chksum + Back(h), i, j);
    }
    forall i: nat, j: nat | 156 <= i <= j <= 512 ensures p[i..j] == Back(h)[i - 156..j - 156] {
      Second(a, Back(h), i, j);
    }
    assert p[156..157] == [p[156]];
  }

  lemma FrontLayout(h: Header)
    requires Shaped(h)
    ensures var p := Front(h);
            && |p| == 148 && p[0..100] == h.name && p[100..108] == h.mode && p[108..116] == h.uid
            && p[116..124] == h.gid && p[124..136] == h.size && p[136..148] == h.mtime
  {
  }

  lemma BackLayout(h: Header)
    requires Shaped(h)
    ensures var p := Back(h);
            && |p| == 356 && p[0..1] == [h.typeflag] && p[1..101] == h.linkname && p[101..107] == h.magic
            && p[107..109] == h.version && p[109..141] == h.uname && p[141..173] == h.gname
            && p[173..181] == h.devmajor && p[181..189] == h.devminor && p[189..344] == h.prefix
            && p[344..356] == h.padding
  {
  }

  /* ---- Which headers are accepted ---- */

  /** The number in an octal field, if there is one. */
  lemma ParseFromIs(s: Bytes)
    ensures ParseFrom(s, 0, 0) == FieldValue(s)
  {
    assert s[..0] == [];
    ParseIs(s, 0);
  }

  /** A header is accepted exactly if it has the magic "ustar" and version "00", its checksum field is its checksum, the
      name ends within its field and has no prefix, and it is of a directory, or of a file with a size that fits; then
      name, type and size are what the fields say. */
  lemma AcceptedIff(h: Header)
    requires Shaped(h)
    ensures ParseHeader(h).Entry? <==>
              && h.magic == [117, 115, 116, 97, 114, 0] && h.version == [48, 48]
              && FieldValue(h.chksum) == Some(Chksum(h)) && h.name[99] == 0 && h.prefix[0] == 0
              && (h.typeflag == 53
                  || (h.typeflag == 48 && FieldValue(h.size).Some? && FieldValue(h.size).value <= 0x7FFF_FFFF))
    ensures ParseHeader(h).Entry? ==>
              && ParseHeader(h).name == Strip(CString(h.name)) && ParseHeader(h).typ == h.typeflag
              && (h.typeflag == 53 ==> ParseHeader(h).size == 0)
              && (h.typeflag == 48 ==> FieldValue(h.size) == Some(ParseHeader(h).size))
    ensures ParseHeader(h).Eof? <==> forall i :: 0 <= i < 512 ==> Packed(h)[i] == 0
  {
    ParseFromIs(h.chksum);
    ParseFromIs(h.size);
    PackedLength(h);
    assert h.version == [h.version[0], h.version[1]];
    if h.magic == MAGIC {
      MagicShows(h);
    }
  }

  /** The checksum of bytes that differ in one place outside the checksum field is different. */
  lemma {:induction false} ChksumDiffers(b: Bytes, c: Bytes, n: nat, i: nat)
    requires |b| == |c| && n <= |b| && i < |b| && !(148 <= i < 156) && b[i] != c[i]
    requires forall k :: 0 <= k < |b| && k != i ==> b[k] == c[k]
    ensures ChksumTo(c, n) - ChksumTo(b, n) == if i < n then c[i] as int - b[i] as int else 0
  {
    if n > 0 {
      ChksumDiffers(b, c, n - 1, i);
    }
  }

  /** Damage to one byte is noticed: if one of two headers is accepted and they differ in a single byte outside the
      checksum field, then the other is not. */
  lemma DamageIsNoticed(h: Header, g: Header, i: nat)
    requires Shaped(h) && Shaped(g) && ParseHeader(h).Entry? && i < 512 && !(148 <= i < 156)
    requires |Packed(h)| == |Packed(g)| == 512 && Packed(h)[i] != Packed(g)[i]
    requires forall k :: 0 <= k < 512 && k != i ==> Packed(h)[k] == Packed(g)[k]
    ensures !ParseHeader(g).Entry?
  {
    AcceptedIff(h);
    AcceptedIff(g);
    ChksumDiffers(Packed(h), Packed(g), 512, i);
    PackedLength(h);
    PackedLength(g);
    forall k | 0 <= k < 8 ensures h.chksum[k] == g.chksum[k] {
      assert Packed(h)[148 + k] == h.chksum[k] && Packed(g)[148 + k] == g.chksum[k];
    }
    assert h.chksum == g.chksum;
  }
}
