/**
 * The proof-of-work miner (level1/miner.cpp). It reads a git commit body
 * from standard input and a difficulty in hexadecimal. It then looks for a
 * ten-byte nonce which, appended to the commit, makes the SHA-1 of the git
 * object compare below the difficulty, byte by byte.
 *
 * SHA-1, `rand`, `atoi` and the timeout are parameters of the model.
 */
module Miner {
  import opened Wrappers
  import opened Strings

  /** The most commit bytes read from standard input. */
  const MAX_COMMIT: nat := 4096
  /** The most worker threads. */
  const MAX_THREADS: nat := 16
  const TILDE: byte := 126
  const SPACE: byte := 32
  const NEWLINE: byte := 10
  /** The tag of the first worker, `'A'`. */
  const FIRST_TAG: byte := 65

  /** A SHA-1 digest. */
  type Digest = d: seq<byte> | |d| == 20 witness seq(20, _ => 0)

  /** The thread count: `atoi`'s value, clamped to `1..MAX_THREADS`. */
  function ClampThreads(n: int): (r: nat)
    ensures 1 <= r <= MAX_THREADS
    ensures 1 <= n <= MAX_THREADS ==> r == n
    ensures n < 1 ==> r == 1
    ensures n > MAX_THREADS ==> r == MAX_THREADS
  {
    if n < 1 then 1 else if n > MAX_THREADS then MAX_THREADS else n
  }

  /** What `fread` leaves in the commit buffer: at most `MAX_COMMIT` bytes from the front of the input. */
  function Commit(input: seq<byte>): (c: seq<byte>)
    ensures |c| <= MAX_COMMIT && |c| <= |input| && c == input[..|c|]
    ensures |input| <= MAX_COMMIT ==> c == input
    ensures |input| > MAX_COMMIT ==> |c| == MAX_COMMIT
  {
    if |input| <= MAX_COMMIT then input else input[..MAX_COMMIT]
  }

  // ---------------------------------------------------------------------
  // The target digest
  // ---------------------------------------------------------------------

  /** The difficulty cut to 40 characters, or padded with `0` up to 40. */
  function Normalised(d: string): (r: string)
    ensures |r| == 40
    ensures forall i :: 0 <= i < 40 ==> r[i] == if i < |d| then d[i] else '0'
  {
    if |d| > 40 then d[..40] else d + seq(40 - |d|, _ => '0')
  }

  /** The `s`-th two-character piece of a normalised difficulty. */
  function Piece(d: string, s: nat): (p: string)
    requires |d| == 40 && s < 20
    ensures |p| == 2 && p[0] == d[2 * s] && p[1] == d[2 * s + 1]
  {
    d[2 * s..2 * s + 2]
  }

  /** The white-space characters `strtoul` skips in the C locale. */
  predicate IsSpace(c: char) {
    c == ' ' || c == '\t' || c == '\n' || c == '\r' || c as int == 11 || c as int == 12
  }

  /**
   * `stoul(xd, NULL, 16)` of a two-character piece, cast to `unsigned char`.
   * It skips leading white space, takes an optional sign and then as many
   * hexadecimal digits as follow. A negative value wraps modulo 2^64.
   * `None` stands for the `invalid_argument` thrown when no digit follows.
   */
  function ParsePiece(xd: string): (r: Option<byte>)
    requires |xd| == 2
    ensures r.Some? <==> IsHexDigit(xd[0]) || (IsHexDigit(xd[1]) && (IsSpace(xd[0]) || xd[0] == '+' || xd[0] == '-'))
    ensures IsHexDigit(xd[0]) && IsHexDigit(xd[1]) ==> r == Some(HexValue(xd))
    ensures IsHexDigit(xd[0]) && !IsHexDigit(xd[1]) ==> r == Some(HexDigitValue(xd[0]))
    ensures (IsSpace(xd[0]) || xd[0] == '+') && IsHexDigit(xd[1]) ==> r == Some(HexDigitValue(xd[1]))
    ensures xd[0] == '-' && IsHexDigit(xd[1]) ==> r == Some((256 - HexDigitValue(xd[1])) % 256)
  {
    if IsHexDigit(xd[0]) then
      HexPair(xd);
      Some(if IsHexDigit(xd[1]) then 16 * HexDigitValue(xd[0]) + HexDigitValue(xd[1]) else HexDigitValue(xd[0]))
    else if IsHexDigit(xd[1]) && (IsSpace(xd[0]) || xd[0] == '+') then Some(HexDigitValue(xd[1]))
    else if IsHexDigit(xd[1]) && xd[0] == '-' then Some((256 - HexDigitValue(xd[1])) % 256)
    else None
  }

  /** The target digest of a normalised difficulty, or `None` when a piece makes `stoul` throw. */
  function Target(d: string): (r: Option<seq<byte>>)
    requires |d| == 40
    ensures r.Some? <==> forall s :: 0 <= s < 20 ==> ParsePiece(Piece(d, s)).Some?
    ensures r.Some? ==> |r.value| == 20 && forall s :: 0 <= s < 20 ==> r.value[s] == ParsePiece(Piece(d, s)).value
  {
    if forall s :: 0 <= s < 20 ==> ParsePiece(Piece(d, s)).Some? then
      Some(seq(20, s requires 0 <= s < 20 => ParsePiece(Piece(d, s)).value))
    else None
  }

  /**
   * The target digest as `main` builds it: twenty zero bytes, then one byte
   * per two characters of the normalised difficulty. `ok` is false when
   * `stoul` throws, which ends the process.
   */
  method MakeTarget(difficulty: string) returns (ok: bool, target: array<byte>)
    ensures fresh(target) && target.Length == 20
    ensures ok <==> Target(Normalised(difficulty)).Some?
    ensures ok ==> target[..] == Target(Normalised(difficulty)).value
  {
    target := new byte[20](_ => 0);
    var d := difficulty;
    if |d| > 40 {
      d := d[..40];
    } else {
      d := d + seq(40 - |d|, _ => '0');
    }
    assert d == Normalised(difficulty);
    for s := 0 to 20
      invariant forall j :: 0 <= j < s ==> ParsePiece(Piece(d, j)).Some? && target[j] == ParsePiece(Piece(d, j)).value
    {
      var xd := Piece(d, s);
      var p := ParsePiece(xd);
      if p.None? {
        ok := false;
        return;
      }
      target[s] := p.value;
    }
    ok := true;
  }

  /** `%02x` of a byte: two lower-case digits. */
  function ByteHex(x: byte): (s: string)
    ensures |s| == 2 && IsLowerHexDigit(s[0]) && IsLowerHexDigit(s[1])
    ensures IsHexDigit(s[0]) && IsHexDigit(s[1])
    ensures 16 * HexDigitValue(s[0]) + HexDigitValue(s[1]) == x
  {
    LowerHexLength(x, 2);
    assert Power(16, 2) == 256 by {
      assert Power(16, 1) == 16;
    }
    var s := PaddedHex(x, 2);
    HexPair(s);
    s
  }

  /** The bytes as `log` prints them, two lower-case digits each. */
  function HexDump(b: seq<byte>): (s: string)
    ensures |s| == 2 * |b|
  {
    if b == [] then "" else ByteHex(b[0]) + HexDump(b[1..])
  }

  lemma {:induction false} HexDumpPiece(b: seq<byte>, s: nat)
    requires s < |b|
    ensures HexDump(b)[2 * s..2 * s + 2] == ByteHex(b[s])
  {
    if s > 0 {
      HexDumpPiece(b[1..], s - 1);
      assert HexDump(b)[2 * s..2 * s + 2] == HexDump(b[1..])[2 * (s - 1)..2 * (s - 1) + 2];
    }
  }

  /** Reading back the logged target gives the target: every digest is some difficulty's target. */
  lemma TargetOfHexDump(b: seq<byte>)
    requires |b| == 20
    ensures Target(HexDump(b)) == Some(b)
  {
    var d := HexDump(b);
    forall s | 0 <= s < 20
      ensures ParsePiece(Piece(d, s)) == Some(b[s])
    {
      HexDumpPiece(b, s);
      assert Piece(d, s) == ByteHex(b[s]);
      HexPair(Piece(d, s));
    }
    assert Target(d).value == b;
  }

  lemma LowerHexDigitUnique(c: char, e: char)
    requires IsLowerHexDigit(c) && IsLowerHexDigit(e)
    requires HexDigitValue(c) == HexDigitValue(e)
    ensures c == e
  {
  }

  lemma ByteHexOfPiece(p: string)
    requires |p| == 2 && IsLowerHexDigit(p[0]) && IsLowerHexDigit(p[1])
    ensures ParsePiece(p).Some? && ByteHex(ParsePiece(p).value) == p
  {
    var h := ByteHex(ParsePiece(p).value);
    LowerHexDigitUnique(h[0], p[0]);
    LowerHexDigitUnique(h[1], p[1]);
  }

  lemma PiecesDetermine(h: string, d: string)
    requires |h| == 40 && |d| == 40
    requires forall s :: 0 <= s < 20 ==> Piece(h, s) == Piece(d, s)
    ensures h == d
  {
    forall i | 0 <= i < 40
      ensures h[i] == d[i]
    {
      var s := i / 2;
      assert Piece(h, s) == Piece(d, s);
    }
  }

  /** A difficulty of 40 lower-case digits is logged unchanged as the target. */
  lemma HexDumpOfTarget(d: string)
    requires |d| == 40 && forall i :: 0 <= i < 40 ==> IsLowerHexDigit(d[i])
    ensures Target(d).Some? && HexDump(Target(d).value) == d
  {
    forall s | 0 <= s < 20
      ensures ParsePiece(Piece(d, s)).Some?
    {
      ByteHexOfPiece(Piece(d, s));
    }
    var t := Target(d).value;
    var h := HexDump(t);
    forall s | 0 <= s < 20
      ensures Piece(h, s) == Piece(d, s)
    {
      ByteHexOfPiece(Piece(d, s));
      HexDumpPiece(t, s);
    }
    PiecesDetermine(h, d);
  }

  // ---------------------------------------------------------------------
  // Comparing digests
  // ---------------------------------------------------------------------

  /** `memcmp(a, b, n) < 0`: at the first byte where they differ, `a`'s is smaller. */
  function Below(a: seq<byte>, b: seq<byte>): bool
    requires |a| == |b|
  {
    if a == [] then false
    else if a[0] != b[0] then a[0] < b[0]
    else Below(a[1..], b[1..])
  }

  /** The bytes read as one big-endian number. */
  function BigEndian(a: seq<byte>): (v: nat)
    ensures v < Power(256, |a|)
  {
    if a == [] then 0
    else
      var rest := BigEndian(a[1..]);
      var p := Power(256, |a| - 1);
      TopByte(a[0], p, rest);
      a[0] * p + rest
  }

  lemma TopByte(x: byte, p: nat, rest: nat)
    requires rest < p
    ensures x * p + rest < 256 * p
  {
    assert x * p <= 255 * p;
  }

  lemma {:induction false} StepUp(x: nat, y: nat, p: nat, r: nat, q: nat)
    requires x < y && r < p
    ensures x * p + r < y * p + q
  {
    assert (x + 1) * p <= y * p;
  }

  /** `memcmp` orders digests as the numbers they spell. */
  lemma {:induction false} BelowIsNumeric(a: seq<byte>, b: seq<byte>)
    requires |a| == |b|
    ensures Below(a, b) <==> BigEndian(a) < BigEndian(b)
  {
    if a != [] {
      var p := Power(256, |a| - 1);
      var x, y := BigEndian(a[1..]), BigEndian(b[1..]);
      if a[0] < b[0] {
        StepUp(a[0], b[0], p, x, y);
      } else if a[0] > b[0] {
        StepUp(b[0], a[0], p, y, x);
      } else {
        BelowIsNumeric(a[1..], b[1..]);
      }
    }
  }

  /** No digest is below the target of an all-zero difficulty. */
  lemma {:induction false} NothingBelowZero(a: seq<byte>)
    ensures !Below(a, seq(|a|, _ => 0))
  {
    if a != [] {
      assert seq(|a|, _ => 0)[1..] == seq(|a| - 1, _ => 0);
      NothingBelowZero(a[1..]);
    }
  }

  // ---------------------------------------------------------------------
  // The nonce
  // ---------------------------------------------------------------------

  /**
   * Where the increment lands: the last position of `1..dig` that does
   * not hold `~`, or 0 when all of them do.
   */
  function Landing(n: seq<byte>, dig: nat): (r: nat)
    requires dig < |n|
    ensures r <= dig
    ensures forall i :: r < i <= dig ==> n[i] == TILDE
    ensures r >= 1 ==> n[r] != TILDE
  {
    if dig >= 1 && n[dig] == TILDE then Landing(n, dig - 1) else dig
  }

  /** `char`'s `++`, wrapping at 256. */
  function Succ(b: byte): byte {
    (b + 1) % 256
  }

  function Spaces(k: nat): seq<byte> {
    seq(k, _ => SPACE)
  }

  function Tildes(k: nat): seq<byte> {
    seq(k, _ => TILDE)
  }

  /** The nonce after one step of the worker loop. */
  function Incremented(n: seq<byte>): (r: seq<byte>)
    requires |n| == 11
    ensures |r| == 11 && r[9..] == n[9..]
  {
    var p := Landing(n, 8);
    n[..p] + [Succ(n[p])] + Spaces(8 - p) + n[9..]
  }

  lemma SpaceAt(n: seq<byte>, m: seq<byte>, dig: nat)
    requires |n| == 11 && 1 <= dig <= 8
    requires m == n[..dig + 1] + Spaces(8 - dig) + n[9..]
    ensures m[dig := SPACE] == n[..dig] + Spaces(8 - (dig - 1)) + n[9..]
  {
  }

  /**
   * The inner loop of `find_digest`: trailing `~` of positions `1..8`
   * become spaces and the position before them is incremented.
   */
  method IncrementNonce(nbuf: array<byte>)
    requires nbuf.Length == 11
    modifies nbuf
    ensures nbuf[..] == Incremented(old(nbuf[..]))
  {
    ghost var n := nbuf[..];
    var dig := 8;
    while dig >= 1
      invariant 0 <= dig <= 8
      invariant Landing(n, 8) == Landing(n, dig)
      invariant nbuf[..] == n[..dig + 1] + Spaces(8 - dig) + n[9..]
    {
      if nbuf[dig] == TILDE {
        SpaceAt(n, nbuf[..], dig);
        nbuf[dig] := SPACE;
        dig := dig - 1;
      } else {
        break;
      }
    }
    assert nbuf[dig] == n[dig];
    nbuf[dig] := Succ(nbuf[dig]);
  }

  predicate Printable(s: seq<byte>) {
    forall i :: 0 <= i < |s| ==> SPACE <= s[i] <= TILDE
  }

  /** Positions `1..8` as a counter in base 95 over the printable characters. */
  function Value(s: seq<byte>): nat
    requires Printable(s)
  {
    if s == [] then 0 else Value(s[..|s| - 1]) * 95 + (s[|s| - 1] - SPACE)
  }

  lemma ValueSnoc(q: seq<byte>, x: byte)
    requires Printable(q) && SPACE <= x <= TILDE
    ensures Printable(q + [x]) && Value(q + [x]) == Value(q) * 95 + (x - SPACE)
  {
    assert (q + [x])[..|q|] == q;
  }

  lemma AppendOne(q: seq<byte>, k: nat, c: byte)
    requires k >= 1
    ensures q + seq(k, _ => c) == (q + seq(k - 1, _ => c)) + [c]
  {
  }

  lemma SpacesArith(vm: int, vq: int, scale: int, after: int)
    requires vm == vq * scale && after == vm * 95
    ensures after == vq * (95 * scale)
  {
  }

  lemma TildesArith(vm: int, vq: int, scale: int, after: int)
    requires vm + 1 == (vq + 1) * scale && after == vm * 95 + 94
    ensures after + 1 == (vq + 1) * (95 * scale)
  {
  }

  lemma {:induction false} ValueSpaces(q: seq<byte>, k: nat)
    requires Printable(q)
    ensures Printable(q + Spaces(k)) && Value(q + Spaces(k)) == Value(q) * Power(95, k)
  {
    if k == 0 {
      assert q + Spaces(k) == q;
    } else {
      var m := q + Spaces(k - 1);
      ValueSpaces(q, k - 1);
      AppendOne(q, k, SPACE);
      ValueSnoc(m, SPACE);
      SpacesArith(Value(m), Value(q), Power(95, k - 1), Value(q + Spaces(k)));
    }
  }

  lemma {:induction false} ValueTildes(q: seq<byte>, k: nat)
    requires Printable(q)
    ensures Printable(q + Tildes(k)) && Value(q + Tildes(k)) + 1 == (Value(q) + 1) * Power(95, k)
  {
    if k == 0 {
      assert q + Tildes(k) == q;
    } else {
      var m := q + Tildes(k - 1);
      ValueTildes(q, k - 1);
      AppendOne(q, k, TILDE);
      ValueSnoc(m, TILDE);
      TildesArith(Value(m), Value(q), Power(95, k - 1), Value(q + Tildes(k)));
    }
  }

  lemma ValueAllTildes(s: seq<byte>)
    requires forall i :: 0 <= i < |s| ==> s[i] == TILDE
    ensures Printable(s) && Value(s) + 1 == Power(95, |s|)
  {
    assert s == [] + Tildes(|s|);
    ValueTildes([], |s|);
  }

  lemma OdometerBefore(n: seq<byte>, p: nat)
    requires |n| == 11 && 1 <= p <= 8
    requires forall i :: p < i <= 8 ==> n[i] == TILDE
    ensures n[1..9] == n[1..p] + [n[p]] + Tildes(8 - p)
  {
  }

  lemma OdometerAfter(n: seq<byte>, p: nat)
    requires |n| == 11 && 1 <= p <= 8 && p == Landing(n, 8)
    ensures Incremented(n)[1..9] == n[1..p] + [Succ(n[p])] + Spaces(8 - p)
    ensures Incremented(n)[0] == n[0]
  {
  }

  lemma OdometerArith(vq: int, x: int, vx: int, vy: int, scale: int, before: int, after: int)
    requires vx == vq * 95 + (x - 32) && vy == vq * 95 + (x + 1 - 32)
    requires before + 1 == (vx + 1) * scale && after == vy * scale
    ensures after == before + 1
  {
  }

  lemma OdometerValue(q: seq<byte>, x: byte, y: byte, k: nat)
    requires Printable(q) && SPACE <= x < TILDE && y == x + 1
    ensures Printable(q + [x] + Tildes(k)) && Printable(q + [y] + Spaces(k))
    ensures Value(q + [y] + Spaces(k)) == Value(q + [x] + Tildes(k)) + 1
  {
    ValueSnoc(q, x);
    ValueTildes(q + [x], k);
    ValueSnoc(q, y);
    ValueSpaces(q + [y], k);
    OdometerArith(Value(q), x, Value(q + [x]), Value(q + [y]), Power(95, k),
      Value(q + [x] + Tildes(k)), Value(q + [y] + Spaces(k)));
  }

  /**
   * While some position of `1..8` is not `~`, a step counts positions
   * `1..8` up by one in base 95 and leaves the tag alone.
   */
  lemma {:induction false} Odometer(n: seq<byte>)
    requires |n| == 11 && Printable(n[1..9])
    requires exists i :: 1 <= i <= 8 && n[i] != TILDE
    ensures Incremented(n)[0] == n[0]
    ensures Printable(Incremented(n)[1..9]) && Value(Incremented(n)[1..9]) == Value(n[1..9]) + 1
  {
    var p := Landing(n, 8);
    var i :| 1 <= i <= 8 && n[i] != TILDE;
    assert p >= i;
    var q, x, k := n[1..p], n[p], 8 - p;
    var before, after := n[1..9], Incremented(n)[1..9];
    assert q == before[..p - 1] && x == before[p - 1];
    assert Printable(q) && SPACE <= x < TILDE;
    OdometerBefore(n, p);
    OdometerAfter(n, p);
    var y: byte := x + 1;
    assert before == q + [x] + Tildes(k);
    assert after == q + [y] + Spaces(k);
    OdometerValue(q, x, y, k);
  }

  /** When positions `1..8` are all `~`, they all become spaces and the tag is incremented. */
  lemma Wrap(n: seq<byte>)
    requires |n| == 11 && forall i :: 1 <= i <= 8 ==> n[i] == TILDE
    ensures Incremented(n)[1..9] == Spaces(8) && Incremented(n)[0] == Succ(n[0])
    ensures Value(Incremented(n)[1..9]) == 0
  {
    var p := Landing(n, 8);
    assert p == 0;
    assert Incremented(n) == [Succ(n[0])] + Spaces(8) + n[9..];
    ValueSpaces([], 8);
    assert [] + Spaces(8) == Spaces(8);
  }

  /** The nonce after `k` steps. */
  function Iterate(n: seq<byte>, k: nat): (r: seq<byte>)
    requires |n| == 11
    ensures |r| == 11
  {
    if k == 0 then n else Incremented(Iterate(n, k - 1))
  }

  /**
   * A worker's `k`-th candidate is its starting counter plus `k`, as long
   * as the counter does not wrap: so no candidate is tried twice.
   */
  lemma {:induction false} IterateCounts(n: seq<byte>, k: nat)
    requires |n| == 11 && Printable(n[1..9])
    requires Value(n[1..9]) + k < Power(95, 8)
    ensures Iterate(n, k)[0] == n[0] && Iterate(n, k)[9..] == n[9..]
    ensures Printable(Iterate(n, k)[1..9]) && Value(Iterate(n, k)[1..9]) == Value(n[1..9]) + k
  {
    if k > 0 {
      var m := Iterate(n, k - 1);
      IterateCounts(n, k - 1);
      if forall i :: 1 <= i <= 8 ==> m[i] == TILDE {
        ValueAllTildes(m[1..9]);
        assert false;
      }
      Odometer(m);
    }
  }

  // ---------------------------------------------------------------------
  // The starting nonce
  // ---------------------------------------------------------------------

  function AsciiBytes(s: string): (b: seq<byte>)
    requires forall i :: 0 <= i < |s| ==> s[i] as int < 256
    ensures |b| == |s| && forall i :: 0 <= i < |s| ==> b[i] == s[i] as int
  {
    seq(|s|, i requires 0 <= i < |s| => s[i] as int)
  }

  /**
   * What `sprintf(nbuf, "%c%04x%04x\n", tag, rand(), rand())` writes: the
   * tag, each value in at least four hexadecimal digits, a newline and the
   * terminating NUL.
   */
  function SprintfNonce(tag: byte, r1: nat, r2: nat): (b: seq<byte>)
    ensures |b| == 3 + |PaddedHex(r1, 4)| + |PaddedHex(r2, 4)|
  {
    var h1, h2 := PaddedHex(r1, 4), PaddedHex(r2, 4);
    [tag] + AsciiBytes(h1) + AsciiBytes(h2) + [NEWLINE, 0]
  }

  /** The formatted nonce fits the eleven bytes of `nbuf` exactly when both values are below 0x10000. */
  lemma SprintfFits(tag: byte, r1: nat, r2: nat)
    ensures |SprintfNonce(tag, r1, r2)| <= 11 <==> r1 < 0x10000 && r2 < 0x10000
    ensures |SprintfNonce(tag, r1, r2)| >= 11
  {
    assert Power(16, 4) == 0x10000 by {
      assert Power(16, 2) == 256 by {
        assert Power(16, 1) == 16;
      }
    }
    LowerHexLength(r1, 4);
    LowerHexLength(r2, 4);
  }

  /** `rand()` can return 0x10000 (RAND_MAX is at least 0x7fff and is 0x7fffffff with glibc): `sprintf` then writes twelve bytes into `nbuf[11]`. */
  lemma SprintfOverflows()
    ensures |SprintfNonce(FIRST_TAG, 0x10000, 0)| == 12
  {
    assert Power(16, 5) == 0x100000 && Power(16, 4) == 0x10000 by {
      assert Power(16, 2) == 256 by {
        assert Power(16, 1) == 16;
      }
    }
    LowerHexLength(0x10000, 5);
    LowerHexLength(0x10000, 4);
  }

  lemma SprintfLayout(tag: byte, r1: nat, r2: nat)
    requires r1 < 0x10000 && r2 < 0x10000
    ensures var b := SprintfNonce(tag, r1, r2);
      |PaddedHex(r1, 4)| == 4 && |PaddedHex(r2, 4)| == 4 && |b| == 11 &&
      b[0] == tag && b[9] == NEWLINE && b[10] == 0 &&
      b[1..9] == AsciiBytes(PaddedHex(r1, 4)) + AsciiBytes(PaddedHex(r2, 4))
  {
    SprintfFits(tag, r1, r2);
  }

  lemma HexBytesPrintable(h: string)
    requires forall i :: 0 <= i < |h| ==> IsHexDigit(h[i])
    ensures (forall i :: 0 <= i < |h| ==> h[i] as int < 128) && Printable(AsciiBytes(h))
  {
  }

  lemma PrintableConcat(a: seq<byte>, b: seq<byte>)
    requires Printable(a) && Printable(b)
    ensures Printable(a + b)
  {
  }

  /**
   * The starting nonce as evidently intended: each value taken modulo
   * 0x10000, so that the tag, eight hexadecimal digits, the newline and the
   * NUL fill `nbuf` exactly.
   */
  function StartNonce(tag: byte, r1: nat, r2: nat): (n: seq<byte>)
    ensures |n| == 11 && n[0] == tag && n[9] == NEWLINE && n[10] == 0
    ensures Printable(n[1..9])
    ensures n == SprintfNonce(tag, r1 % 0x10000, r2 % 0x10000)
  {
    var h1, h2 := PaddedHex(r1 % 0x10000, 4), PaddedHex(r2 % 0x10000, 4);
    SprintfLayout(tag, r1 % 0x10000, r2 % 0x10000);
    HexBytesPrintable(h1);
    HexBytesPrintable(h2);
    PrintableConcat(AsciiBytes(h1), AsciiBytes(h2));
    SprintfNonce(tag, r1 % 0x10000, r2 % 0x10000)
  }

  lemma CharsOfAscii(h: string)
    requires forall i :: 0 <= i < |h| ==> h[i] as int < 256
    ensures Chars(AsciiBytes(h)) == h
  {
  }

  /** The four digits after the tag spell the first value, modulo 0x10000, and the next four the second. */
  lemma StartNonceValue(tag: byte, r1: nat, r2: nat)
    ensures var n := StartNonce(tag, r1, r2);
      HexValue(Chars(n[1..5])) == r1 % 0x10000 && HexValue(Chars(n[5..9])) == r2 % 0x10000
  {
    var n := StartNonce(tag, r1, r2);
    var h1, h2 := PaddedHex(r1 % 0x10000, 4), PaddedHex(r2 % 0x10000, 4);
    SprintfLayout(tag, r1 % 0x10000, r2 % 0x10000);
    assert n[1..5] == n[1..9][..4] == AsciiBytes(h1);
    assert n[5..9] == n[1..9][4..] == AsciiBytes(h2);
    CharsOfAscii(h1);
    CharsOfAscii(h2);
  }

  function Chars(b: seq<byte>): (s: string)
    ensures |s| == |b| && forall i :: 0 <= i < |b| ==> s[i] as int == b[i]
  {
    seq(|b|, i requires 0 <= i < |b| => b[i] as char)
  }

  // ---------------------------------------------------------------------
  // The git object
  // ---------------------------------------------------------------------

  /** `snprintf(size_line, 100, "commit %lu", sz + 10)`: the header counts the ten nonce bytes. */
  function SizeLine(sz: nat): seq<byte> {
    AsciiBytes("commit " + NatToString(sz + 10))
  }

  /** `size_line` never needs more than its 100 bytes, terminating NUL included. */
  lemma SizeLineFits(sz: nat)
    requires sz <= MAX_COMMIT
    ensures |SizeLine(sz)| + 1 <= 100
  {
    DecimalLength(sz + 10, 4);
    assert Power(10, 4) == 10000 by {
      assert Power(10, 2) == 100 by {
        assert Power(10, 1) == 10;
      }
    }
  }

  /** What the partial hash has absorbed: the size line with its NUL, then the commit. */
  function HashedPrefix(commit: seq<byte>): seq<byte> {
    SizeLine(|commit|) + [0] + commit
  }

  /** A git object of type commit: `commit <size>`, a NUL, then the content. */
  function GitObject(content: seq<byte>): seq<byte> {
    AsciiBytes("commit " + NatToString(|content|)) + [0] + content
  }

  /** The bytes hashed for a candidate are exactly the git object of the commit followed by the nonce. */
  lemma HashesGitObject(commit: seq<byte>, nonce: seq<byte>)
    requires |nonce| == 10
    ensures HashedPrefix(commit) + nonce == GitObject(commit + nonce)
  {
    assert |commit + nonce| == |commit| + 10;
    assert HashedPrefix(commit) + nonce == SizeLine(|commit|) + [0] + (commit + nonce);
  }

  // ---------------------------------------------------------------------
  // The workers
  // ---------------------------------------------------------------------

  /** A nonce is accepted when the digest of the prefix and its first ten bytes is below the target. */
  predicate Accepted(sha1: seq<byte> -> Digest, prefix: seq<byte>, target: seq<byte>, n: seq<byte>)
    requires |target| == 20 && |n| == 11
  {
    Below(sha1(prefix + n[..10]), target)
  }

  /** None of the first `rounds` candidates after `start` is accepted. */
  predicate Exhausted(sha1: seq<byte> -> Digest, prefix: seq<byte>, target: seq<byte>, start: seq<byte>, rounds: nat)
    requires |target| == 20 && |start| == 11
  {
    forall k :: 1 <= k <= rounds ==> !Accepted(sha1, prefix, target, Iterate(start, k))
  }

  /**
   * `find_digest`: step the nonce and test it until a candidate is accepted
   * or the worker is stopped. `budget` is the number of rounds before the
   * stop flag is seen. The last candidate tried is the first accepted one.
   */
  method FindDigest(sha1: seq<byte> -> Digest, prefix: seq<byte>, target: seq<byte>, nbuf: array<byte>, budget: nat)
    returns (found: bool, rounds: nat)
    requires nbuf.Length == 11 && |target| == 20
    modifies nbuf
    ensures rounds <= budget && (!found ==> rounds == budget)
    ensures nbuf[..] == Iterate(old(nbuf[..]), rounds)
    ensures found ==> rounds >= 1 && Accepted(sha1, prefix, target, nbuf[..])
    ensures Exhausted(sha1, prefix, target, old(nbuf[..]), if found then rounds - 1 else rounds)
  {
    ghost var start := nbuf[..];
    found, rounds := false, 0;
    while rounds < budget
      invariant rounds <= budget && nbuf[..] == Iterate(start, rounds)
      invariant Exhausted(sha1, prefix, target, start, rounds)
    {
      IncrementNonce(nbuf);
      rounds := rounds + 1;
      var digest := sha1(prefix + nbuf[..10]);
      if Below(digest, target) {
        found := true;
        return;
      }
    }
  }

  /** The starting nonce of the `i`-th worker, whose two `rand` values are `draws(2i)` and `draws(2i + 1)`. */
  function WorkerStart(i: nat, draws: nat -> nat): (n: seq<byte>)
    requires i < MAX_THREADS
    ensures |n| == 11 && n[0] == FIRST_TAG + i
  {
    StartNonce(FIRST_TAG + i, draws(2 * i), draws(2 * i + 1))
  }

  /** Each of the first `n` workers ran out of rounds without an accepted candidate. */
  ghost predicate NoneFound(sha1: seq<byte> -> Digest, prefix: seq<byte>, target: seq<byte>,
                            draws: nat -> nat, budget: nat -> nat, n: nat)
    requires |target| == 20 && n <= MAX_THREADS
  {
    forall w :: 0 <= w < n ==> Exhausted(sha1, prefix, target, WorkerStart(w, draws), budget(w))
  }

  /** `solution` is a candidate one of the first `n` workers tried. */
  ghost predicate Explored(draws: nat -> nat, budget: nat -> nat, n: nat, solution: seq<byte>)
    requires n <= MAX_THREADS
  {
    exists w, k :: 0 <= w < n && 1 <= k <= budget(w) && solution == Iterate(WorkerStart(w, draws), k)
  }

  lemma NoneFoundStep(sha1: seq<byte> -> Digest, prefix: seq<byte>, target: seq<byte>,
                      draws: nat -> nat, budget: nat -> nat, n: nat)
    requires |target| == 20 && n < MAX_THREADS
    requires NoneFound(sha1, prefix, target, draws, budget, n)
    requires Exhausted(sha1, prefix, target, WorkerStart(n, draws), budget(n))
    ensures NoneFound(sha1, prefix, target, draws, budget, n + 1)
  {
  }

  /** One worker: `find_digest` from the `i`-th starting nonce, in its own buffer. */
  method Worker(sha1: seq<byte> -> Digest, prefix: seq<byte>, target: seq<byte>, i: nat, draws: nat -> nat, budget: nat)
    returns (found: bool, nonce: seq<byte>, rounds: nat)
    requires |target| == 20 && i < MAX_THREADS
    ensures rounds <= budget && nonce == Iterate(WorkerStart(i, draws), rounds)
    ensures found ==> rounds >= 1 && Accepted(sha1, prefix, target, nonce)
    ensures !found ==> rounds == budget
    ensures Exhausted(sha1, prefix, target, WorkerStart(i, draws), if found then rounds - 1 else rounds)
  {
    var start := WorkerStart(i, draws);
    var nbuf := new byte[11](j requires 0 <= j < 11 => start[j]);
    assert nbuf[..] == start;
    found, rounds := FindDigest(sha1, prefix, target, nbuf, budget);
    nonce := nbuf[..];
  }

  /**
   * The workers in tag order. Once one has recorded a solution the stop
   * flag is up and the rest try nothing.
   */
  method Workers(sha1: seq<byte> -> Digest, prefix: seq<byte>, target: seq<byte>, threads: nat,
                 draws: nat -> nat, budget: nat -> nat) returns (solved: bool, solution: seq<byte>)
    requires |target| == 20 && threads <= MAX_THREADS
    ensures solved ==> |solution| == 11 && Accepted(sha1, prefix, target, solution)
    ensures solved ==> Explored(draws, budget, threads, solution)
    ensures !solved ==> NoneFound(sha1, prefix, target, draws, budget, threads)
  {
    solved, solution := false, [];
    for i := 0 to threads
      invariant solved ==> |solution| == 11 && Accepted(sha1, prefix, target, solution)
      invariant solved ==> Explored(draws, budget, i, solution)
      invariant !solved ==> NoneFound(sha1, prefix, target, draws, budget, i)
    {
      if !solved {
        var found, nonce, rounds := Worker(sha1, prefix, target, i, draws, budget(i));
        if found {
          solved, solution := true, nonce;
        } else {
          NoneFoundStep(sha1, prefix, target, draws, budget, i);
        }
      }
    }
  }

  /** How the process ends: an exit code and what went to standard output, or an abort from `stoul`. */
  datatype Outcome = Exit(code: int, stdout: seq<byte>) | Abort

  /**
   * `main`, with the workers run one after another. `args` is `argv`
   * without the program name. A worker that finds a solution stops the
   * others, and its nonce follows the commit on standard output.
   */
  method Run(args: seq<string>, input: seq<byte>, atoi: string -> int, sha1: seq<byte> -> Digest,
             draws: nat -> nat, budget: nat -> nat) returns (o: Outcome)
    ensures |args| < 3 ==> o == Exit(1, [])
    ensures |args| >= 3 ==> (o.Abort? <==> Target(Normalised(args[0])).None?)
    ensures o.Exit? ==> (o.code == 0 || o.code == 1) && (o.code == 1 ==> o.stdout == [])
    ensures o.Exit? && o.code == 0 ==>
      |args| >= 3 && Target(Normalised(args[0])).Some? &&
      |o.stdout| == |Commit(input)| + 10 && o.stdout[..|Commit(input)|] == Commit(input) &&
      Below(sha1(GitObject(o.stdout)), Target(Normalised(args[0])).value)
    ensures o.Exit? && o.code == 1 && |args| >= 3 ==>
      NoneFound(sha1, HashedPrefix(Commit(input)), Target(Normalised(args[0])).value, draws, budget, ClampThreads(atoi(args[1])))
  {
    if |args| < 3 {
      return Exit(1, []);
    }
    var threads := ClampThreads(atoi(args[1]));
    var commit := Commit(input);
    var ok, target := MakeTarget(args[0]);
    if !ok {
      return Abort;
    }
    var prefix := HashedPrefix(commit);
    var solved, solution := Workers(sha1, prefix, target[..], threads, draws, budget);
    if solved {
      HashesGitObject(commit, solution[..10]);
      o := Exit(0, commit + solution[..10]);
    } else {
      o := Exit(1, []);
    }
  }
}
