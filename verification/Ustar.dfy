/** Writing and parsing ustar archive headers (lib/ustar.c), the "ustar
    Interchange Format" of the pax utility in SUSv3. */
module Ustar {
  import opened Common
  import opened Printf

  const HEADER_SIZE: nat := 512
  const CHKSUM_START: nat := 148
  const CHKSUM_END: nat := 156
  const INT_MAX: nat := 0x7FFF_FFFF
  const ULONG_MAX: nat := 0xFFFF_FFFF

  datatype Type = Regular | Directory

  function TypeFlag(t: Type): (c: char) { if t.Regular? then '0' else '5' }

  datatype Parsed = EndOfArchive | Entry(name: string, typ: Type, size: int) | Error(message: string)

  ghost predicate NulFree(s: string) {
    forall i | 0 <= i < |s| :: s[i] != '\0'
  }

  // ----- stripping antisocial prefixes -----

  predicate StartsWith(s: string, p: string) {
    |p| <= |s| && s[..|p|] == p
  }

  predicate Antisocial(s: string) {
    StartsWith(s, "/") || StartsWith(s, "./") || StartsWith(s, "../")
  }

  /** What follows the first slash. */
  function AfterSlash(s: string): (t: string)
    ensures |t| <= |s| && (s != "" ==> |t| < |s|)
  {
    if s == "" then "" else if s[0] == '/' then s[1..] else AfterSlash(s[1..])
  }

  function StripLoop(s: string): (t: string)
    decreases |s|
  {
    if Antisocial(s) then StripLoop(AfterSlash(s)) else s
  }

  /** `strip_antisocial_prefixes`. */
  function Strip(s: string): (t: string)
  {
    var t := StripLoop(s);
    if t == "" || t == ".." then "." else t
  }

  /** A name that cannot lead out of the destination directory through a prefix. */
  predicate Sociable(s: string) {
    s != "" && s != ".." && !Antisocial(s)
  }

  lemma {:induction false} StripLoopStops(s: string)
    ensures !Antisocial(StripLoop(s))
    ensures NulFree(s) ==> NulFree(StripLoop(s))
    decreases |s|
  {
    if Antisocial(s) {
      AfterSlashNulFree(s);
      StripLoopStops(AfterSlash(s));
    }
  }

  lemma {:induction false} AfterSlashNulFree(s: string)
    ensures NulFree(s) ==> NulFree(AfterSlash(s))
  {
    if s != "" && s[0] != '/' { AfterSlashNulFree(s[1..]); }
  }

  /** Stripping yields a sociable name, and leaves exactly the sociable names alone. */
  lemma {:induction false} StripSociable(s: string)
    ensures Sociable(Strip(s))
    ensures Strip(s) == s <==> Sociable(s)
    ensures Strip(Strip(s)) == Strip(s)
    ensures NulFree(s) ==> NulFree(Strip(s))
  {
    StripLoopStops(s);
    StripLoopStops(Strip(s));
  }

  // ----- what stripping takes off -----

  ghost predicate Pieces(p: seq<string>) {
    forall i | 0 <= i < |p| :: p[i] in {"/", "./", "../"}
  }

  ghost function Joined(p: seq<string>): (s: string) {
    if p == [] then "" else p[0] + Joined(p[1..])
  }

  /** `s` is some of the pieces "/", "./" and "../", followed by `t`, which begins with none of them. */
  ghost predicate Splits(s: string, p: seq<string>, t: string) {
    && Pieces(p) && s == Joined(p) + t
    && !("/" <= t) && !("./" <= t) && !("../" <= t)
  }

  /** Every name splits. */
  lemma {:induction false} SplitExists(s: string) returns (p: seq<string>, t: string)
    ensures Splits(s, p, t)
    decreases |s|
  {
    hide Splits;
    if Antisocial(s) {
      var head := FirstPiece(s);
      var rest;
      rest, t := SplitExists(s[|head|..]);
      p := [head] + rest;
      SplitMore(s, head, rest, t);
    } else {
      p, t := [], s;
      SplitNone(s);
    }
  }

  lemma {:induction false} SplitNone(s: string)
    requires !Antisocial(s)
    ensures Splits(s, [], s)
  {
    assert Joined([]) + s == s;
  }

  lemma {:induction false} SplitMore(s: string, head: string, rest: seq<string>, t: string)
    requires head in {"/", "./", "../"} && head <= s && Splits(s[|head|..], rest, t)
    ensures Splits(s, [head] + rest, t)
  {
    hide Joined;
    JoinedMore(head, rest);
    assert s == head + s[|head|..];
    assert head + (Joined(rest) + t) == head + Joined(rest) + t;
  }

  lemma {:induction false} JoinedMore(head: string, rest: seq<string>)
    ensures Joined([head] + rest) == head + Joined(rest)
  {
    assert ([head] + rest)[1..] == rest;
  }

  lemma {:induction false} FirstPiece(s: string) returns (head: string)
    requires Antisocial(s)
    ensures head in {"/", "./", "../"} && head <= s && AfterSlash(s) == s[|head|..]
  {
    if s[0] == '/' {
      head := "/";
    } else if s[1] == '/' {
      head := "./";
      assert AfterSlash(s) == AfterSlash(s[1..]) == s[1..][1..];
    } else {
      head := "../";
      assert AfterSlash(s) == AfterSlash(s[1..]) == AfterSlash(s[1..][1..]) == s[1..][1..][1..];
    }
  }

  /** However a name splits, its last part is the stripped name, and "." stands for a last part that names no
      file of its own. */
  lemma {:induction false} StripTakesPieces(s: string, p: seq<string>, t: string)
    requires Splits(s, p, t)
    ensures Strip(s) == if t == "" || t == ".." then "." else t
  {
    StripLoopTakesPieces(s, p, t);
  }

  lemma {:induction false} StripLoopTakesPieces(s: string, p: seq<string>, t: string)
    requires Splits(s, p, t)
    ensures StripLoop(s) == t
    decreases |p|
  {
    if p == [] {
      assert s == t;
    } else {
      var rest := Joined(p[1..]) + t;
      assert s == p[0] + rest;
      StripPiece(p[0], rest);
      StripLoopTakesPieces(rest, p[1..], t);
    }
  }

  lemma {:induction false} StripPiece(head: string, rest: string)
    requires head in {"/", "./", "../"}
    ensures Antisocial(head + rest) && AfterSlash(head + rest) == rest
  {
    var s := head + rest;
    var other := FirstPiece(s);
    assert other == head by { PieceUnique(s, head, other); }
    assert s[|head|..] == rest;
  }

  /** No piece is the beginning of another. */
  lemma {:induction false} PieceUnique(s: string, a: string, b: string)
    requires a in {"/", "./", "../"} && b in {"/", "./", "../"} && a <= s && b <= s
    ensures a == b
  {
    assert a[0] == s[0] == b[0];
    assert |a| > 1 && |b| > 1 ==> a[1] == s[1] == b[1];
  }

  lemma {:induction false} SplitHead(s: string, p: seq<string>, t: string)
    requires Splits(s, p, t)
    ensures p == [] <==> !Antisocial(s)
    ensures if p == [] then s == t else p[0] <= s && Splits(s[|p[0]|..], p[1..], t)
  {
    if p == [] {
      assert s == t;
    } else {
      assert s == p[0] + (Joined(p[1..]) + t);
      assert s[|p[0]|..] == Joined(p[1..]) + t;
      StripPiece(p[0], Joined(p[1..]) + t);
    }
  }

  /** A name splits in one way only. */
  lemma {:induction false} SplitUnique(s: string, p: seq<string>, t: string, p': seq<string>, t': string)
    requires Splits(s, p, t) && Splits(s, p', t')
    ensures p == p' && t == t'
    decreases |p|
  {
    hide Splits, Antisocial, Joined;
    SplitHead(s, p, t);
    SplitHead(s, p', t');
    if p != [] {
      assert p[0] == p'[0] by { FirstIsPiece(s, p, t); FirstIsPiece(s, p', t'); PieceUnique(s, p[0], p'[0]); }
      SplitUnique(s[|p[0]|..], p[1..], t, p'[1..], t');
      assert p == [p[0]] + p[1..] && p' == [p'[0]] + p'[1..];
    }
  }

  lemma {:induction false} FirstIsPiece(s: string, p: seq<string>, t: string)
    requires Splits(s, p, t) && p != []
    ensures p[0] in {"/", "./", "../"}
  {
  }

  // ----- octal fields -----

  /** `parse_octal_field` from offset `ofs`, with `value` accumulated so far. */
  function ParseOctal(s: string, ofs: nat, value: nat): (r: Option<nat>)
    requires ofs <= |s|
    decreases |s| - ofs
  {
    if ofs == |s| then None
    else if '0' <= s[ofs] <= '7' then
      if value > ULONG_MAX / 8 then None
      else ParseOctal(s, ofs + 1, (s[ofs] as int - '0' as int) + value * 8)
    else if s[ofs] == ' ' || s[ofs] == '\0' then
      if ofs > 0 then Some(value) else None
    else None
  }

  lemma {:induction false} ReadOctalDigit(s: string, ofs: nat)
    requires ofs < |s| && '0' <= s[ofs] <= '7'
    ensures ReadNumber(BASE_O, s[..ofs + 1]) == ReadNumber(BASE_O, s[..ofs]) * 8 + (s[ofs] as int - '0' as int)
  {
    assert s[..ofs + 1] == s[..ofs] + [s[ofs]];
    ReadLast(BASE_O, s[..ofs], s[ofs]);
  }

  lemma {:induction false} ReadOctalGrows(s: string, k: nat, m: nat)
    requires k <= m <= |s| && OctalDigits(s[k..m])
    ensures ReadNumber(BASE_O, s[..k]) <= ReadNumber(BASE_O, s[..m])
    decreases m
  {
    if k < m {
      assert s[k..m - 1] == s[k..m][..m - 1 - k];
      ReadOctalGrows(s, k, m - 1);
      assert s[m - 1] == s[k..m][m - 1 - k];
      ReadOctalDigit(s, m - 1);
    }
  }

  /** A field is accepted exactly when it is a nonempty run of octal digits, ended
      by a space or null byte, whose value fits an unsigned long. */
  ghost predicate OctalFieldEndsAt(s: string, k: nat) {
    0 < k < |s| && OctalDigits(s[..k]) && (s[k] == ' ' || s[k] == '\0')
  }

  lemma {:induction false} ParseOctalMeaning(s: string, k: nat)
    requires OctalFieldEndsAt(s, k)
    ensures ParseOctal(s, 0, 0) ==
            var n := ReadNumber(BASE_O, s[..k]); if n <= ULONG_MAX then Some(n) else None
  {
    assert s[..0] == "";
    ParseOctalPrefix(s, k, 0);
  }

  lemma {:induction false} ParseOctalPrefix(s: string, k: nat, ofs: nat)
    requires OctalFieldEndsAt(s, k) && ofs <= k
    requires ReadNumber(BASE_O, s[..ofs]) <= ULONG_MAX
    ensures ParseOctal(s, ofs, ReadNumber(BASE_O, s[..ofs])) ==
            var n := ReadNumber(BASE_O, s[..k]); if n <= ULONG_MAX then Some(n) else None
    decreases k - ofs
  {
    hide ReadNumber;
    if ofs < k {
      assert s[..k][ofs] == s[ofs];
      ReadOctalDigit(s, ofs);
      if ReadNumber(BASE_O, s[..ofs]) <= ULONG_MAX / 8 {
        ParseOctalPrefix(s, k, ofs + 1);
      } else {
        assert s[ofs + 1..k] == s[..k][ofs + 1..];
        ReadOctalGrows(s, ofs + 1, k);
      }
    }
  }

  /** Fields of any other shape are refused. */
  lemma {:induction false} ParseOctalRefuses(s: string, ofs: nat, value: nat)
    requires ofs <= |s| && OctalDigits(s[..ofs]) && ParseOctal(s, ofs, value).Some?
    ensures exists k :: ofs <= k && OctalFieldEndsAt(s, k)
    decreases |s| - ofs
  {
    if '0' <= s[ofs] <= '7' {
      assert s[..ofs + 1] == s[..ofs] + [s[ofs]];
      ParseOctalRefuses(s, ofs + 1, (s[ofs] as int - '0' as int) + value * 8);
      var k :| ofs + 1 <= k && OctalFieldEndsAt(s, k);
    } else {
      assert OctalFieldEndsAt(s, ofs);
    }
  }

  // ----- headers -----

  /** `s` with the bytes at `off` overwritten by `b`. */
  function Put(s: string, off: nat, b: string): (t: string)
    requires off + |b| <= |s|
    ensures |t| == |s|
    ensures forall i {:trigger t[i]} | 0 <= i < |s| :: t[i] == if off <= i < off + |b| then b[i - off] else s[i]
  {
    s[..off] + b + s[off + |b|..]
  }

  function CStr(s: string): (t: string) { s + ['\0'] }

  /** The C string at the start of a field. */
  function CString(s: string): (t: string)
  {
    if s == "" || s[0] == '\0' then "" else [s[0]] + CString(s[1..])
  }

  lemma {:induction false} CStringOfCStr(s: string, rest: string)
    requires NulFree(s)
    ensures CString(CStr(s) + rest) == s
  {
    if s == "" {
      assert CStr(s) + rest == ['\0'] + rest;
    } else {
      CStringOfCStr(s[1..], rest);
      assert (CStr(s) + rest)[1..] == CStr(s[1..]) + rest;
    }
  }

  /** What byte `i` adds to the checksum: the checksum field counts as spaces. */
  function ChksumCell(h: string, i: nat): (n: nat)
    requires i < |h|
  {
    if CHKSUM_START <= i < CHKSUM_END then ' ' as int else h[i] as int
  }

  function ChksumTo(h: string, n: nat): (sum: nat)
    requires n <= |h|
  {
    if n == 0 then 0 else ChksumTo(h, n - 1) + ChksumCell(h, n - 1)
  }

  /** `calculate_chksum`. */
  function Chksum(h: string): (sum: nat) { ChksumTo(h, |h|) }

  lemma {:induction false} ChksumSame(g: string, h: string, n: nat)
    requires n <= |g| == |h|
    requires forall i | 0 <= i < n && !(CHKSUM_START <= i < CHKSUM_END) :: g[i] == h[i]
    ensures ChksumTo(g, n) == ChksumTo(h, n)
  {
    if n > 0 { ChksumSame(g, h, n - 1); }
  }

  /** Filling in the checksum does not change it. */
  lemma {:induction false} ChksumIgnoresItself(h: string, b: string)
    requires |h| == HEADER_SIZE && |b| == 8
    ensures Chksum(Put(h, CHKSUM_START, b)) == Chksum(h)
  {
    ChksumSame(h, Put(h, CHKSUM_START, b), HEADER_SIZE);
  }

  /** The sum of the bytes. */
  ghost function ByteSum(s: string): (n: nat) {
    if s == "" then 0 else (s[0] as int) + ByteSum(s[1..])
  }

  /** The checksum is the sum of the bytes of the header with blanks in the place of the checksum. */
  lemma {:induction false} ChksumMeaning(h: string)
    requires |h| == HEADER_SIZE
    ensures Chksum(h) == ByteSum(h[..148] + "        " + h[156..])
  {
    var g := h[..148] + "        " + h[156..];
    forall i: nat | i < HEADER_SIZE ensures ChksumCell(h, i) == g[i] as int {}
    SumOfCells(h, g, HEADER_SIZE);
    assert g[..HEADER_SIZE] == g;
  }

  lemma {:induction false} SumOfCells(h: string, g: string, n: nat)
    requires n <= |h| == |g| && forall i: nat | i < |h| :: ChksumCell(h, i) == g[i] as int
    ensures ChksumTo(h, n) == ByteSum(g[..n])
  {
    hide ChksumCell;
    if n > 0 {
      SumOfCells(h, g, n - 1);
      assert g[..n] == g[..n - 1] + [g[n - 1]];
      SumAppend(g[..n - 1], g[n - 1]);
    }
  }

  lemma {:induction false} SumAppend(s: string, c: char)
    ensures ByteSum(s + [c]) == ByteSum(s) + c as int
  {
    if s != "" {
      assert (s + [c])[1..] == s[1..] + [c];
      SumAppend(s[1..], c);
    }
  }

  ghost predicate Bytes(h: string) {
    forall i | 0 <= i < |h| :: h[i] as int < 256
  }

  lemma {:induction false} ChksumBound(h: string, n: nat)
    requires n <= |h| && Bytes(h)
    ensures ChksumTo(h, n) <= n * 255
  {
    if n > 0 { ChksumBound(h, n - 1); }
  }

  /** An `int` as the `unsigned` that `%o` prints. */
  function Unsigned(size: int): (u: nat)
    requires -0x8000_0000 <= size <= INT_MAX
  {
    if size >= 0 then size else size + 0x1_0000_0000
  }

  function Mode(t: Type): (m: nat) { if t.Regular? then 420 else 493 }

  lemma {:induction false} OctalWidths(size: int, t: Type)
    requires -0x8000_0000 <= size <= INT_MAX
    ensures |Octal(Unsigned(size), 11)| == 11 && OctalDigits(Octal(Unsigned(size), 11))
    ensures |Octal(Mode(t), 7)| == 7 && |Octal(1136102400, 11)| == 11
    ensures ReadNumber(BASE_O, Octal(Unsigned(size), 11)) == Unsigned(size)
  {
    hide Octal, ReadNumber;
    assert Pow8(7) == 0x20_0000;
    assert Pow8(11) == Pow8(7) * 4096;
    OctalShape(Unsigned(size), 11);
    OctalShape(Mode(t), 7);
    OctalShape(1136102400, 11);
  }

  /** The header before the checksum is filled in, field by field. */
  function Unsummed(name: string, t: Type, size: int): (h: string)
    requires |name| <= 99 && -0x8000_0000 <= size <= INT_MAX
    ensures |h| == HEADER_SIZE
  {
    OctalWidths(size, t);
    var h := Repeat('\0', HEADER_SIZE);
    var h := Put(h, 0, CStr(name));
    var h := Put(h, 100, CStr(Octal(Mode(t), 7)));
    var h := Put(h, 108, CStr("0000000"));
    var h := Put(h, 116, CStr("0000000"));
    var h := Put(h, 124, CStr(Octal(Unsigned(size), 11)));
    var h := Put(h, 136, CStr(Octal(1136102400, 11)));
    var h := Put(h, 156, [TypeFlag(t)]);
    var h := Put(h, 257, CStr("ustar"));
    var h := Put(h, 263, "00");
    var h := Put(h, 297, CStr("root"));
    Put(h, 265, CStr("root"))
  }

  /** The byte ranges that the parser looks at. */
  ghost predicate Fields(h: string, name: string, t: Type, size: int)
    requires |h| == HEADER_SIZE && |name| <= 99 && -0x8000_0000 <= size <= INT_MAX
  {
    && h[..|name| + 1] == CStr(name) && h[99] == '\0' && h[345] == '\0'
    && h[124..136] == CStr(Octal(Unsigned(size), 11))
    && h[156] == TypeFlag(t)
    && h[257..263] == CStr("ustar") && h[263] == '0' && h[264] == '0'
  }

  lemma {:induction false} UnsummedFields(name: string, t: Type, size: int)
    requires |name| <= 99 && -0x8000_0000 <= size <= INT_MAX
    ensures Fields(Unsummed(name, t, size), name, t, size)
  {
    hide Put, Octal;
    OctalWidths(size, t);
    var h := Unsummed(name, t, size);
    assert h[..|name| + 1] == CStr(name);
    assert h[124..136] == CStr(Octal(Unsigned(size), 11));
    assert h[257..263] == CStr("ustar");
  }

  /** `ustar_make_header` for a stripped name of at most 99 bytes. */
  function HeaderOf(name: string, t: Type, size: int): (h: string)
    requires |name| <= 99 && -0x8000_0000 <= size <= INT_MAX && Bytes(name)
    ensures |h| == HEADER_SIZE
  {
    var h := Unsummed(name, t, size);
    ChksumField(name, t, size);
    Put(h, CHKSUM_START, CStr(Octal(Chksum(h), 7)))
  }

  lemma {:induction false} PutBytes(s: string, off: nat, b: string)
    requires off + |b| <= |s| && Bytes(s) && Bytes(b)
    ensures Bytes(Put(s, off, b))
  {
  }

  lemma {:induction false} OctalBytes(value: nat, width: nat)
    requires width > 0 && value < Pow8(width)
    ensures Bytes(CStr(Octal(value, width))) && |Octal(value, width)| == width
  {
    OctalShape(value, width);
  }

  lemma {:induction false} UnsummedBytes(name: string, t: Type, size: int)
    requires |name| <= 99 && -0x8000_0000 <= size <= INT_MAX && Bytes(name)
    ensures Bytes(Unsummed(name, t, size))
  {
    hide Put, Octal, Repeat;
    assert Pow8(7) == 0x20_0000;
    assert Pow8(11) == Pow8(7) * 4096;
    OctalBytes(Unsigned(size), 11);
    OctalBytes(Mode(t), 7);
    OctalBytes(1136102400, 11);
    var h := Repeat('\0', HEADER_SIZE);
    h := PutBytesNext(h, 0, CStr(name));
    h := PutBytesNext(h, 100, CStr(Octal(Mode(t), 7)));
    h := PutBytesNext(h, 108, CStr("0000000"));
    h := PutBytesNext(h, 116, CStr("0000000"));
    h := PutBytesNext(h, 124, CStr(Octal(Unsigned(size), 11)));
    h := PutBytesNext(h, 136, CStr(Octal(1136102400, 11)));
    h := PutBytesNext(h, 156, [TypeFlag(t)]);
    h := PutBytesNext(h, 257, CStr("ustar"));
    h := PutBytesNext(h, 263, "00");
    h := PutBytesNext(h, 297, CStr("root"));
    h := PutBytesNext(h, 265, CStr("root"));
  }

  lemma {:induction false} PutBytesNext(s: string, off: nat, b: string) returns (t: string)
    requires off + |b| <= |s| && Bytes(s) && Bytes(b)
    ensures t == Put(s, off, b) && Bytes(t)
  {
    t := Put(s, off, b);
    PutBytes(s, off, b);
  }

  /** The checksum fills its 7 digits. */
  lemma {:induction false} ChksumField(name: string, t: Type, size: int)
    requires |name| <= 99 && -0x8000_0000 <= size <= INT_MAX && Bytes(name)
    ensures var n := Chksum(Unsummed(name, t, size));
            n <= 0x1_FE00 && |Octal(n, 7)| == 7 && OctalDigits(Octal(n, 7)) && ReadNumber(BASE_O, Octal(n, 7)) == n
  {
    hide Unsummed, Octal, ReadNumber;
    var h := Unsummed(name, t, size);
    UnsummedBytes(name, t, size);
    ChksumBound(h, |h|);
    assert Pow8(7) == 0x20_0000;
    OctalShape(Chksum(h), 7);
  }

  lemma {:induction false} HeaderFields(name: string, t: Type, size: int)
    requires |name| <= 99 && -0x8000_0000 <= size <= INT_MAX && Bytes(name)
    ensures var h := HeaderOf(name, t, size);
            && Fields(h, name, t, size)
            && h[CHKSUM_START..CHKSUM_END] == CStr(Octal(Chksum(h), 7))
            && ParseOctal(h[CHKSUM_START..CHKSUM_END], 0, 0) == Some(Chksum(h))
  {
    hide Put, Octal, Unsummed, Chksum, ReadNumber;
    var u := Unsummed(name, t, size);
    var h := HeaderOf(name, t, size);
    UnsummedFields(name, t, size);
    ChksumField(name, t, size);
    var sum := CStr(Octal(Chksum(u), 7));
    ChksumIgnoresItself(u, sum);
    assert h[..|name| + 1] == u[..|name| + 1];
    assert h[124..136] == u[124..136];
    assert h[257..263] == u[257..263];
    assert h[CHKSUM_START..CHKSUM_END] == sum;
    assert sum[..7] == Octal(Chksum(u), 7);
    ParseOctalMeaning(sum, 7);
  }

  // ----- the layout of a header -----

  /** The field of `len` bytes at `off` holds `s`, filled up with null bytes. */
  ghost predicate Holds(h: string, off: nat, len: nat, s: string) {
    off + len <= |h| && |s| <= len && h[off..off + len] == s + Repeat('\0', len - |s|)
  }

  /** `s` is a number in octal, of `width` digits. */
  ghost predicate IsOctal(s: string, width: nat, value: nat) {
    |s| == width && OctalDigits(s) && ReadNumber(BASE_O, s) == value
  }

  /** `struct ustar_header`, field by field, as the fields are to be filled. */
  ghost predicate Layout(h: string, name: string, t: Type, size: string, chksum: string) {
    && Holds(h, 0, 100, name) && Holds(h, 100, 8, if t.Regular? then "0000644" else "0000755")
    && Holds(h, 108, 8, "0000000") && Holds(h, 116, 8, "0000000")
    && Holds(h, 124, 12, size) && Holds(h, 136, 12, "10355706000") && Holds(h, 148, 8, chksum)
    && Holds(h, 156, 1, if t.Regular? then "0" else "5") && Holds(h, 157, 100, "")
    && Holds(h, 257, 6, "ustar") && Holds(h, 263, 2, "00")
    && Holds(h, 265, 32, "root") && Holds(h, 297, 32, "root") && Holds(h, 329, 183, "")
  }

  /** A made header has every field of the format in its place; the size is in octal, as an unsigned number, and
      the checksum is the sum of the bytes with blanks for itself. */
  lemma {:induction false} HeaderLayout(name: string, t: Type, size: int) returns (sizeField: string, sum: string)
    requires |name| <= 99 && -0x8000_0000 <= size <= INT_MAX && Bytes(name)
    ensures Layout(HeaderOf(name, t, size), name, t, sizeField, sum)
    ensures IsOctal(sizeField, 11, if size < 0 then size + 0x1_0000_0000 else size)
    ensures IsOctal(sum, 7, Chksum(HeaderOf(name, t, size)))
  {
    hide Put, Octal, Chksum, ReadNumber, Unsummed, Holds;
    OctalWidths(size, t);
    ChksumField(name, t, size);
    var u, h := Unsummed(name, t, size), HeaderOf(name, t, size);
    sizeField, sum := Octal(Unsigned(size), 11), Octal(Chksum(u), 7);
    ChksumIgnoresItself(u, CStr(sum));
    UnsummedHoldsNumbers(name, t, size);
    UnsummedHoldsNames(name, t, size);
    OctalConstants();
    StillHolds(u, CStr(sum));
    HoldsCStr(u, CStr(sum), 148, 8, sum);
  }

  lemma {:induction false} HoldsCStr(u: string, b: string, off: nat, len: nat, s: string)
    requires |s| <= |b| <= len && off + len <= |u| && b == s + Repeat('\0', |b| - |s|)
    requires forall i | off + |b| <= i < off + len :: u[i] == '\0'
    ensures Holds(Put(u, off, b), off, len, s)
  {
    var h := Put(u, off, b);
    assert h[off..off + len] == s + Repeat('\0', len - |s|);
  }

  /** Filling in the checksum leaves the other fields alone. */
  lemma {:induction false} StillHolds(u: string, b: string)
    requires |u| == HEADER_SIZE && |b| == 8
    ensures forall off: nat, len: nat, s: string | off + len <= 148 || 156 <= off ::
              Holds(u, off, len, s) ==> Holds(Put(u, CHKSUM_START, b), off, len, s)
  {
    var h := Put(u, CHKSUM_START, b);
    forall off: nat, len: nat, s: string | (off + len <= 148 || 156 <= off) && Holds(u, off, len, s)
      ensures Holds(h, off, len, s)
    {
      assert h[off..off + len] == u[off..off + len];
    }
  }

  lemma {:induction false} ReadThree(s: string, a: char, b: char, c: char)
    requires '0' <= a <= '7' && '0' <= b <= '7' && '0' <= c <= '7'
    ensures ReadNumber(BASE_O, s + [a, b, c]) ==
            ReadNumber(BASE_O, s) * 512 + (a as int - 48) * 64 + (b as int - 48) * 8 + (c as int - 48)
  {
    assert s + [a, b, c] == s + [a] + [b] + [c];
    ReadLast(BASE_O, s, a);
    ReadLast(BASE_O, s + [a], b);
    ReadLast(BASE_O, s + [a] + [b], c);
  }

  lemma {:induction false} ReadModes()
    ensures IsOctal("0000644", 7, 420) && IsOctal("0000755", 7, 493)
  {
    hide ReadNumber;
    assert ReadNumber(BASE_O, "0000") == 0 by { ReadFiller(BASE_O, "0000"); }
    ReadThree("0000", '6', '4', '4');
    ReadThree("0000", '7', '5', '5');
    assert "0000" + "644" == "0000644" && "0000" + "755" == "0000755";
  }

  lemma {:induction false} ReadTime()
    ensures IsOctal("10355706000", 11, 1136102400)
  {
    hide ReadNumber;
    assert ReadNumber(BASE_O, "0") == 0 by { ReadFiller(BASE_O, "0"); }
    ReadThree("0", '0', '1', '0');
    assert "0" + "010" == "00" + "10";
    assert ReadNumber(BASE_O, "00") == 0 by { ReadFiller(BASE_O, "00"); }
    ReadAfterZero(BASE_O, "00", "10");
    ReadThree("10", '3', '5', '5');
    ReadThree("10355", '7', '0', '6');
    ReadThree("10355706", '0', '0', '0');
    assert "10" + "355" == "10355" && "10355" + "706" == "10355706" && "10355706" + "000" == "10355706000";
  }

  /** Printing a number in octal gives the digits that read as the number. */
  lemma {:induction false} OctalIs(s: string, width: nat, value: nat)
    requires width > 0 && value < Pow8(width) && IsOctal(s, width, value)
    ensures Octal(value, width) == s
  {
    hide Octal, ReadNumber, Pow8;
    OctalShape(value, width);
    OctalUnique(Octal(value, width), s);
  }

  lemma {:induction false} OctalConstants()
    ensures Octal(420, 7) == "0000644" && Octal(493, 7) == "0000755" && Octal(1136102400, 11) == "10355706000"
  {
    hide Octal, IsOctal;
    assert Pow8(7) == 0x20_0000;
    assert Pow8(11) == Pow8(7) * 4096;
    ReadModes();
    ReadTime();
    OctalIs("0000644", 7, 420);
    OctalIs("0000755", 7, 493);
    OctalIs("10355706000", 11, 1136102400);
  }

  lemma {:induction false} UnsummedHoldsNumbers(name: string, t: Type, size: int)
    requires |name| <= 99 && -0x8000_0000 <= size <= INT_MAX
    ensures var h := Unsummed(name, t, size);
            && Holds(h, 100, 8, Octal(Mode(t), 7)) && Holds(h, 108, 8, "0000000") && Holds(h, 116, 8, "0000000")
            && Holds(h, 124, 12, Octal(Unsigned(size), 11)) && Holds(h, 136, 12, Octal(1136102400, 11))
            && Holds(h, 148, 8, "") && Holds(h, 156, 1, [TypeFlag(t)])
  {
    hide Put, Octal, Mode, Unsigned;
    OctalWidths(size, t);
    var h := Unsummed(name, t, size);
    assert h[100..108] == CStr(Octal(Mode(t), 7));
    assert h[108..116] == CStr("0000000") && h[116..124] == CStr("0000000");
    assert h[124..136] == CStr(Octal(Unsigned(size), 11));
    assert h[136..148] == CStr(Octal(1136102400, 11));
    assert h[148..156] == "" + Repeat('\0', 8);
    assert h[156..157] == [TypeFlag(t)];
  }

  lemma {:induction false} UnsummedHoldsNames(name: string, t: Type, size: int)
    requires |name| <= 99 && -0x8000_0000 <= size <= INT_MAX
    ensures var h := Unsummed(name, t, size);
            && Holds(h, 0, 100, name) && Holds(h, 157, 100, "") && Holds(h, 257, 6, "ustar") && Holds(h, 263, 2, "00")
            && Holds(h, 265, 32, "root") && Holds(h, 297, 32, "root") && Holds(h, 329, 183, "")
  {
    hide Put, Octal, Mode, Unsigned;
    OctalWidths(size, t);
    var h := Unsummed(name, t, size);
    assert h[0..100] == name + Repeat('\0', 100 - |name|);
    assert h[157..257] == "" + Repeat('\0', 100);
    assert h[257..263] == CStr("ustar") && h[263..265] == "00";
    assert h[265..297] == "root" + Repeat('\0', 28);
    assert h[297..329] == "root" + Repeat('\0', 28);
    assert h[329..512] == "" + Repeat('\0', 183);
  }

  // ----- parsing -----

  predicate AllZeros(h: string) {
    forall i | 0 <= i < |h| :: h[i] == '\0'
  }

  /** `ustar_parse_header`. */
  function Parse(h: string): (p: Parsed)
    requires |h| == HEADER_SIZE
  {
    var chksum := ParseOctal(h[CHKSUM_START..CHKSUM_END], 0, 0);
    var size := ParseOctal(h[124..136], 0, 0);
    if AllZeros(h) then EndOfArchive
    else if h[257..263] != CStr("ustar") then Error("not a ustar archive")
    else if h[263] != '0' || h[264] != '0' then Error("invalid ustar version")
    else if chksum.None? then Error("corrupt chksum field")
    else if chksum.value != Chksum(h) then Error("checksum mismatch")
    else if h[99] != '\0' || h[345] != '\0' then Error("file name too long")
    else if h[156] != '0' && h[156] != '5' then Error("unimplemented file type")
    else if h[156] == '5' then Entry(Strip(CString(h[..100])), Directory, 0)
    else if size.None? then Error("corrupt file size field")
    else if size.value > INT_MAX then Error("file too large")
    else Entry(Strip(CString(h[..100])), Regular, size.value)
  }

  /** An octal number that fits 32 bits and ends with a space or null byte inside the field. */
  ghost predicate NumberField(s: string, v: nat) {
    v <= 0xFFFF_FFFF && exists k: nat :: OctalFieldEndsAt(s, k) && ReadNumber(BASE_O, s[..k]) == v
  }

  lemma {:induction false} NumberFieldRead(s: string, v: nat)
    ensures ParseOctal(s, 0, 0) == Some(v) <==> NumberField(s, v)
  {
    hide ParseOctal, ReadNumber;
    if ParseOctal(s, 0, 0).Some? {
      assert s[..0] == "";
      ParseOctalRefuses(s, 0, 0);
      var k: nat :| OctalFieldEndsAt(s, k);
      ParseOctalMeaning(s, k);
    }
    forall k: nat | OctalFieldEndsAt(s, k) && NumberField(s, v) && ReadNumber(BASE_O, s[..k]) == v
      ensures ParseOctal(s, 0, 0) == Some(v)
    {
      ParseOctalMeaning(s, k);
    }
  }

  /** The header of an archived file: the magic string and version, the right checksum, a name of less than 100
      bytes, and a type with its size. */
  ghost predicate Archived(h: string, name: string, t: Type, size: nat)
    requires |h| == HEADER_SIZE
  {
    && h[257..263] == "ustar\0" && h[263..265] == "00"
    && NumberField(h[148..156], ByteSum(h[..148] + "        " + h[156..]))
    && h[99] == '\0' && h[345] == '\0' && name == Strip(CString(h[..100]))
    && match t
       case Regular => h[156] == '0' && NumberField(h[124..136], size) && size <= 0x7FFF_FFFF
       case Directory => h[156] == '5' && size == 0
  }

  /** Exactly the headers of archived files are accepted, and 512 null bytes end the archive. */
  lemma {:induction false} ParsedExactly(h: string, name: string, t: Type, size: nat)
    requires |h| == HEADER_SIZE
    ensures Parse(h) == Entry(name, t, size) <==> Archived(h, name, t, size)
    ensures Parse(h) == EndOfArchive <==> forall i | 0 <= i < HEADER_SIZE :: h[i] == '\0'
  {
    hide ParseOctal, Chksum, Strip, CString, ByteSum, NumberField;
    ChksumMeaning(h);
    NumberFieldRead(h[148..156], Chksum(h));
    NumberFieldRead(h[124..136], size);
    assert h[263..265] == [h[263], h[264]];
    assert h[257..263] == "ustar\0" ==> !AllZeros(h) by { assert h[257..263][0] == h[257]; }
    assert CStr("ustar") == "ustar\0";
  }

  /** What parsing a made header gives. */
  function Expected(name: string, t: Type, size: int): (p: Parsed)
  {
    if t.Directory? then Entry(Strip(name), Directory, 0)
    else if size < 0 then Error("file too large")
    else Entry(Strip(name), Regular, size)
  }

  /** Parsing undoes making: for every name whose stripped form has at most 99
      bytes the header yields that stripped name, the type, and the size (0 for
      directories).  A regular file of negative size is the one exception. */
  lemma {:induction false} RoundTrip(name: string, t: Type, size: int)
    requires NulFree(name) && Bytes(name) && |Strip(name)| <= 99
    requires -0x8000_0000 <= size <= INT_MAX
    ensures Bytes(Strip(name))
    ensures Parse(HeaderOf(Strip(name), t, size)) == Expected(name, t, size)
  {
    hide Strip, Octal, ReadNumber, HeaderOf, Chksum;
    StripBytes(name);
    StripSociable(name);
    var n := Strip(name);
    var h := HeaderOf(n, t, size);
    HeaderFields(n, t, size);
    OctalWidths(size, t);
    var field := CStr(Octal(Unsigned(size), 11));
    assert field[..11] == Octal(Unsigned(size), 11);
    ParseOctalMeaning(field, 11);
    CStringOfCStr(n, h[|n| + 1..100]);
    assert h[..100] == CStr(n) + h[|n| + 1..100];
    assert h[263] != '\0';
  }

  lemma {:induction false} StripLoopBytes(s: string)
    requires Bytes(s)
    ensures Bytes(StripLoop(s))
    decreases |s|
  {
    if Antisocial(s) {
      AfterSlashBytes(s);
      StripLoopBytes(AfterSlash(s));
    }
  }

  lemma {:induction false} AfterSlashBytes(s: string)
    requires Bytes(s)
    ensures Bytes(AfterSlash(s))
  {
    if s != "" && s[0] != '/' { AfterSlashBytes(s[1..]); }
  }

  lemma {:induction false} StripBytes(s: string)
    requires Bytes(s)
    ensures Bytes(Strip(s))
  {
    StripLoopBytes(s);
  }

  /** Whatever the 512 bytes, an accepted entry has a sociable name and a size
      that fits an `int`. */
  lemma {:induction false} ParsedEntryIsSafe(h: string)
    requires |h| == HEADER_SIZE && Parse(h).Entry?
    ensures Sociable(Parse(h).name) && 0 <= Parse(h).size <= INT_MAX
  {
    StripSociable(CString(h[..100]));
  }

  lemma {:induction false} ChksumChange(h: string, i: nat, c: char, n: nat)
    requires i < n <= |h| && !(CHKSUM_START <= i < CHKSUM_END)
    ensures ChksumTo(h[i := c], n) == ChksumTo(h, n) - h[i] as int + c as int
  {
    if i < n - 1 {
      ChksumChange(h, i, c, n - 1);
    } else {
      ChksumSame(h, h[i := c], n - 1);
    }
  }

  /** Changing any one byte outside the checksum field of an accepted header
      makes the parser refuse it. */
  lemma {:induction false} CorruptionDetected(h: string, i: nat, c: char)
    requires |h| == HEADER_SIZE && Parse(h).Entry?
    requires i < HEADER_SIZE && !(CHKSUM_START <= i < CHKSUM_END) && c != h[i]
    ensures Parse(h[i := c]).Error?
  {
    var g := h[i := c];
    ChksumChange(h, i, c, |h|);
    assert g[CHKSUM_START..CHKSUM_END] == h[CHKSUM_START..CHKSUM_END];
    assert h[257] == CStr("ustar")[0] && h[258] == CStr("ustar")[1] by {
      assert h[257..263][0] == h[257] && h[257..263][1] == h[258];
    }
    assert g[257] != '\0' || g[258] != '\0';
  }

  // ----- the code -----

  /** `strip_antisocial_prefixes`: `pos` is the moving pointer. */
  method StripAntisocialPrefixes(fileName: string) returns (r: string)
    ensures r == Strip(fileName)
  {
    var pos := 0;
    while Antisocial(fileName[pos..])
      invariant pos <= |fileName| && StripLoop(fileName[pos..]) == StripLoop(fileName)
      decreases |fileName| - pos
    {
      var slash := FindSlash(fileName, pos);
      pos := slash + 1;
    }
    r := if pos == |fileName| || fileName[pos..] == ".." then "." else fileName[pos..];
  }

  /** `strchr (file_name, '/')`, which succeeds on an antisocial name. */
  method FindSlash(s: string, pos: nat) returns (slash: nat)
    requires pos <= |s| && Antisocial(s[pos..])
    ensures pos <= slash < |s| && AfterSlash(s[pos..]) == s[slash + 1..]
  {
    ghost var j := SlashThere(s, pos);
    slash := pos;
    while s[slash] != '/'
      invariant pos <= slash <= j < |s| && s[j] == '/'
      invariant AfterSlash(s[pos..]) == AfterSlash(s[slash..])
      decreases |s| - slash
    {
      assert s[slash..][1..] == s[slash + 1..];
      slash := slash + 1;
    }
    assert s[slash..][1..] == s[slash + 1..];
  }

  lemma {:induction false} SlashThere(s: string, pos: nat) returns (j: nat)
    requires pos <= |s| && Antisocial(s[pos..])
    ensures pos <= j < |s| && s[j] == '/'
  {
    var rest := s[pos..];
    var head := FirstPiece(rest);
    j := pos + |head| - 1;
    assert rest[|head| - 1] == head[|head| - 1] == '/';
  }

  /** `parse_octal_field`. */
  method ParseOctalField(s: string) returns (r: Option<nat>)
    ensures r == ParseOctal(s, 0, 0)
  {
    var value: nat := 0;
    var ofs := 0;
    while ofs < |s|
      invariant ofs <= |s| && value <= ULONG_MAX
      invariant ParseOctal(s, ofs, value) == ParseOctal(s, 0, 0)
    {
      var c := s[ofs];
      if '0' <= c <= '7' {
        if value > ULONG_MAX / 8 { return None; }
        value := (c as int - '0' as int) + value * 8;
      } else if c == ' ' || c == '\0' {
        return if ofs > 0 then Some(value) else None;
      } else {
        return None;
      }
      ofs := ofs + 1;
    }
    return None;
  }

  /** `calculate_chksum`. */
  method CalculateChksum(header: array<char>) returns (chksum: nat)
    requires header.Length == HEADER_SIZE
    ensures chksum == Chksum(header[..])
  {
    chksum := 0;
    for i := 0 to HEADER_SIZE
      invariant chksum == ChksumTo(header[..], i)
    {
      var inChksumField := CHKSUM_START <= i < CHKSUM_END;
      chksum := chksum + if inChksumField then ' ' as int else header[i] as int;
    }
  }

  /** `strlcpy` of a string that fits, with its terminator. */
  method Strlcpy(header: array<char>, off: nat, s: string)
    requires off + |s| + 1 <= header.Length
    modifies header
    ensures header[..] == Put(old(header[..]), off, CStr(s))
  {
    for i := 0 to |s|
      invariant forall k {:trigger header[k]} | 0 <= k < header.Length ::
                  header[k] == if off <= k < off + i then s[k - off] else old(header[k])
    {
      header[off + i] := s[i];
    }
    header[off + |s|] := '\0';
  }

  /** `snprintf (header + off, width + 1, "%0<width>o", value)`. */
  method SnprintfOctal(header: array<char>, off: nat, width: nat, value: nat)
    requires off + width + 1 <= header.Length && value <= ULONG_MAX
    requires |Octal(value, width)| == width
    modifies header
    ensures header[..] == Put(old(header[..]), off, CStr(Octal(value, width)))
  {
    hide Formatted, ZeroPadded, Writer.Valid;
    ghost var was := header[..];
    var w := new Writer(header, off, width + 1);
    assert w.Outside() == (was[..off], was[off + width + 1..]);
    FormatInteger(value, false, false, BASE_O, ZeroPadded(width), w);
    assert w.sent == Octal(value, width);
    var _ := w.Terminate();
    assert w.sent[..width] == Octal(value, width);
    assert header[off..off + width + 1] == CStr(Octal(value, width));
    assert header[..] == header[..off] + header[off..off + width + 1] + header[off + width + 1..];
  }

  /** `ustar_make_header`. */
  method MakeHeader(fileName: string, t: Type, size: int, header: array<char>) returns (ok: bool)
    requires header.Length == HEADER_SIZE && Bytes(fileName) && -0x8000_0000 <= size <= INT_MAX
    modifies header
    ensures Bytes(Strip(fileName))
    ensures ok <==> |Strip(fileName)| <= 99
    ensures if ok then header[..] == HeaderOf(Strip(fileName), t, size) else header[..] == old(header[..])
  {
    hide Put, Octal, Strip, Repeat;
    StripBytes(fileName);
    var name := StripAntisocialPrefixes(fileName);
    if |name| > 99 { return false; }
    OctalWidths(size, t);
    Clear(header);
    Strlcpy(header, 0, name);
    SnprintfOctal(header, 100, 7, Mode(t));
    Strlcpy(header, 108, "0000000");
    Strlcpy(header, 116, "0000000");
    SnprintfOctal(header, 124, 11, Unsigned(size));
    SnprintfOctal(header, 136, 11, 1136102400);
    SetBytes(header, 156, [TypeFlag(t)]);
    Strlcpy(header, 257, "ustar");
    SetBytes(header, 263, "00");
    Strlcpy(header, 297, "root");
    Strlcpy(header, 265, "root");
    var chksum := CalculateChksum(header);
    ChksumField(name, t, size);
    SnprintfOctal(header, CHKSUM_START, 7, chksum);
    return true;
  }

  method Clear(header: array<char>)
    requires header.Length == HEADER_SIZE
    modifies header
    ensures header[..] == Repeat('\0', HEADER_SIZE)
  {
    for i := 0 to HEADER_SIZE
      invariant forall k | 0 <= k < i :: header[k] == '\0'
    {
      header[i] := '\0';
    }
  }

  method SetBytes(header: array<char>, off: nat, s: string)
    requires off + |s| <= header.Length
    modifies header
    ensures header[..] == Put(old(header[..]), off, s)
  {
    for i := 0 to |s|
      invariant forall k {:trigger header[k]} | 0 <= k < header.Length ::
                  header[k] == if off <= k < off + i then s[k - off] else old(header[k])
    {
      header[off + i] := s[i];
    }
  }

  /** `is_all_zeros`. */
  method IsAllZeros(header: array<char>) returns (r: bool)
    ensures r == AllZeros(header[..])
  {
    for i := 0 to header.Length
      invariant forall k | 0 <= k < i :: header[k] == '\0'
    {
      if header[i] != '\0' { return false; }
    }
    return true;
  }

  /** `ustar_parse_header`. */
  method ParseHeader(header: array<char>) returns (p: Parsed)
    requires header.Length == HEADER_SIZE
    ensures p == Parse(header[..])
  {
    hide ParseOctal, Chksum, Strip, CString, AllZeros;
    var zeros := IsAllZeros(header);
    if zeros { return EndOfArchive; }
    assert header[..][257..263] == header[257..263] && header[..][124..136] == header[124..136];
    assert header[..][CHKSUM_START..CHKSUM_END] == header[CHKSUM_START..CHKSUM_END];
    if header[257..263] != CStr("ustar") { return Error("not a ustar archive"); }
    if header[263] != '0' || header[264] != '0' { return Error("invalid ustar version"); }
    var chksum := ParseOctalField(header[CHKSUM_START..CHKSUM_END]);
    if chksum.None? { return Error("corrupt chksum field"); }
    var sum := CalculateChksum(header);
    if chksum.value != sum { return Error("checksum mismatch"); }
    if header[99] != '\0' || header[345] != '\0' { return Error("file name too long"); }
    if header[156] != '0' && header[156] != '5' { return Error("unimplemented file type"); }
    var size := Some(0);
    if header[156] == '0' {
      size := ParseOctalField(header[124..136]);
      if size.None? { return Error("corrupt file size field"); }
      if size.value > INT_MAX { return Error("file too large"); }
    }
    assert header[..][..100] == header[..100];
    var name := StripAntisocialPrefixes(CString(header[..100]));
    return Entry(name, if header[156] == '0' then Regular else Directory, size.value);
  }
}
