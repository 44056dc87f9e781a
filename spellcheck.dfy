/**
 * The spell checker (level0/level0.cpp): the dictionary is loaded into one
 * buffer whose line ends become NULs, the lower-case lines are kept in
 * file order, and every word of the input is echoed either as it is, when
 * its lower-cased form is a dictionary word, or between `<` and `>`.
 * Output goes through a fixed-size buffer flushed when it fills.
 *
 * Bytes are integers in 0..255; a C string is a byte sequence read up to
 * its first NUL.
 */
module SpellCheck {
  import opened Wrappers

  const NUL: byte := 0
  const LF: byte := 10
  const SPACE: byte := 32

  // ------------------------------------------------------------ C strings

  /** The position of the first NUL. */
  function FirstZero(a: seq<byte>): (z: nat)
    requires NUL in a
    ensures z < |a| && a[z] == NUL && NUL !in a[..z]
  {
    if a[0] == NUL then 0
    else
      assert NUL in a[1..] by { var i :| 0 <= i < |a| && a[i] == NUL; assert a[1..][i - 1] == NUL; }
      var z := 1 + FirstZero(a[1..]);
      assert a[..z] == [a[0]] + a[1..][..z - 1];
      z
  }

  /** The C string a pointer designates: the bytes before the first NUL. */
  function CStr(a: seq<byte>): (s: seq<byte>)
    requires NUL in a
    ensures |s| < |a| && NUL !in s && a == s + a[|s|..] && a[|s|] == NUL
  {
    var z := FirstZero(a);
    assert a == a[..z] + a[z..];
    a[..z]
  }

  /** Lexicographic order on bytes read as unsigned: a proper prefix comes first. */
  function LexLess(x: seq<byte>, y: seq<byte>): bool {
    if x == [] then y != []
    else if y == [] then false
    else if x[0] != y[0] then x[0] < y[0]
    else LexLess(x[1..], y[1..])
  }

  lemma {:induction false} LexIrreflexive(x: seq<byte>)
    ensures !LexLess(x, x)
  {
    if x != [] {
      LexIrreflexive(x[1..]);
    }
  }

  lemma {:induction false} LexTransitive(x: seq<byte>, y: seq<byte>, z: seq<byte>)
    requires LexLess(x, y) && LexLess(y, z)
    ensures LexLess(x, z)
  {
    if x != [] && y != [] && z != [] && x[0] == y[0] && y[0] == z[0] {
      LexTransitive(x[1..], y[1..], z[1..]);
    }
  }

  lemma {:induction false} LexTrichotomy(x: seq<byte>, y: seq<byte>)
    ensures LexLess(x, y) || LexLess(y, x) || x == y
  {
    if x != [] && y != [] && x[0] == y[0] {
      LexTrichotomy(x[1..], y[1..]);
      assert x == [x[0]] + x[1..] && y == [y[0]] + y[1..];
    }
  }

  lemma LexStep(x: seq<byte>, y: seq<byte>, i: nat)
    requires i < |x| && i < |y| && x[i] == y[i]
    ensures LexLess(x[i..], y[i..]) == LexLess(x[i + 1..], y[i + 1..])
  {
    assert x[i..][1..] == x[i + 1..] && y[i..][1..] == y[i + 1..];
  }

  /**
   * `teh_less`: advance while the bytes agree and are not NUL, then compare
   * the unsigned bytes there. It orders C strings lexicographically.
   */
  method TehLess(a: seq<byte>, b: seq<byte>) returns (less: bool)
    requires NUL in a && NUL in b
    ensures less == LexLess(CStr(a), CStr(b))
  {
    var x, y := CStr(a), CStr(b);
    var i := 0;
    while a[i] != NUL && a[i] == b[i]
      invariant i <= |x| && i <= |y| && x[..i] == y[..i]
      invariant LexLess(x, y) == LexLess(x[i..], y[i..])
      decreases |x| - i
    {
      LexStep(x, y, i);
      i := i + 1;
    }
    less := a[i] as int - b[i] as int < 0;
  }

  // ------------------------------------------------------------ dictionary

  predicate IsUpper(b: byte) {
    'A' as int <= b <= 'Z' as int
  }

  predicate NoUpper(s: seq<byte>) {
    forall i :: 0 <= i < |s| ==> !IsUpper(s[i])
  }

  /** A dictionary file the loader can read: empty, or ending in a line feed. */
  predicate LinesTerminated(s: seq<byte>) {
    |s| == 0 || s[|s| - 1] == LF
  }

  /** The line feed that ends the line holding position `p`. */
  function LineEnd(s: seq<byte>, p: nat): (e: nat)
    requires LinesTerminated(s) && p < |s|
    ensures p <= e < |s| && s[e] == LF && LF !in s[p..e]
    decreases |s| - p
  {
    if s[p] == LF then p
    else
      var e := LineEnd(s, p + 1);
      assert s[p..e] == [s[p]] + s[p + 1..e];
      e
  }

  /** The starts of the kept lines from position `p` on: those with no upper-case letter. */
  function KeptLines(s: seq<byte>, p: nat): seq<nat>
    requires LinesTerminated(s) && p <= |s|
    decreases |s| - p
  {
    if p == |s| then []
    else
      var e := LineEnd(s, p);
      (if NoUpper(s[p..e]) then [p] else []) + KeptLines(s, e + 1)
  }

  /** The dictionary buffer after loading: each line feed overwritten by a NUL. */
  function Nulled(s: seq<byte>): (t: seq<byte>)
    ensures |t| == |s|
  {
    seq(|s|, i requires 0 <= i < |s| => if s[i] == LF then NUL else s[i])
  }

  /** `p` starts a line: it is the first position or follows a line feed. */
  predicate LineStart(s: seq<byte>, p: nat) {
    p == 0 || (p <= |s| && s[p - 1] == LF)
  }

  /** `o` starts a line of `s` that has no upper-case letter. */
  ghost predicate LowerLine(s: seq<byte>, o: nat)
    requires LinesTerminated(s)
  {
    o < |s| && LineStart(s, o) && NoUpper(s[o..LineEnd(s, o)])
  }

  /** Every kept start begins a line that has no upper-case letter. */
  lemma {:induction false} KeptLinesAreLowerLines(s: seq<byte>, p: nat, k: nat)
    requires LinesTerminated(s) && p <= |s| && LineStart(s, p)
    requires k < |KeptLines(s, p)|
    ensures p <= KeptLines(s, p)[k] && LowerLine(s, KeptLines(s, p)[k])
    decreases |s| - p
  {
    var e := LineEnd(s, p);
    var head := if NoUpper(s[p..e]) then [p] else [];
    assert KeptLines(s, p) == head + KeptLines(s, e + 1);
    if k >= |head| {
      assert KeptLines(s, p)[k] == KeptLines(s, e + 1)[k - |head|];
      KeptLinesAreLowerLines(s, e + 1, k - |head|);
    }
  }

  /** A C string ends at the first NUL, wherever that is shown to be. */
  lemma CStrAt(t: seq<byte>, z: nat)
    requires z < |t| && t[z] == NUL && NUL !in t[..z]
    ensures CStr(t) == t[..z]
  {
  }

  /**
   * In the loaded buffer of a file with no NUL byte, the C string at the
   * start of a line is that line without its line feed.
   */
  lemma NulledLine(s: seq<byte>, o: nat)
    requires LinesTerminated(s) && NUL !in s && o < |s|
    ensures NUL in Nulled(s)[o..] && CStr(Nulled(s)[o..]) == s[o..LineEnd(s, o)]
  {
    var e := LineEnd(s, o);
    var t := Nulled(s)[o..];
    assert t[e - o] == NUL;
    forall j | 0 <= j < e - o ensures t[j] == s[o..e][j] {
      assert s[o..e][j] == s[o + j];
    }
    assert t[..e - o] == s[o..e];
    assert NUL !in s[o..e] by {
      forall j | 0 <= j < e - o ensures s[o..e][j] != NUL {
        assert s[o..e][j] == s[o + j];
      }
    }
    CStrAt(t, e - o);
  }

  /** Kept starts come in file order. */
  lemma {:induction false} KeptLinesIncreasing(s: seq<byte>, p: nat)
    requires LinesTerminated(s) && p <= |s|
    ensures forall k :: 0 <= k < |KeptLines(s, p)| ==> p <= KeptLines(s, p)[k]
    ensures forall k, l :: 0 <= k < l < |KeptLines(s, p)| ==> KeptLines(s, p)[k] < KeptLines(s, p)[l]
    decreases |s| - p
  {
    if p < |s| {
      var e := LineEnd(s, p);
      KeptLinesIncreasing(s, e + 1);
    }
  }

  /** Every line from `p` on with no upper-case letter is kept. */
  lemma {:induction false} KeptLinesComplete(s: seq<byte>, p: nat, o: nat)
    requires LinesTerminated(s) && p <= o < |s| && LineStart(s, p) && LineStart(s, o)
    requires NoUpper(s[o..LineEnd(s, o)])
    ensures o in KeptLines(s, p)
    decreases |s| - p
  {
    var e := LineEnd(s, p);
    if o != p {
      assert o > e;
      KeptLinesComplete(s, e + 1, o);
    }
  }

  /** The buffer `a` once the lines before position `p` are loaded. */
  ghost predicate LoadedUpTo(a: seq<byte>, s: seq<byte>, p: nat) {
    |a| == |s| && forall i :: 0 <= i < |s| ==> a[i] == (if i < p && s[i] == LF then NUL else s[i])
  }

  lemma LoadedLine(a: seq<byte>, s: seq<byte>, word: nat)
    requires LinesTerminated(s) && word < |s| && LoadedUpTo(a, s, word)
    ensures LoadedUpTo(a[LineEnd(s, word) := NUL], s, LineEnd(s, word) + 1)
  {
    var e := LineEnd(s, word);
    forall i | word <= i < e ensures s[i] != LF {
      assert s[word..e][i - word] == s[i];
    }
  }

  lemma LoadedAll(a: seq<byte>, s: seq<byte>)
    requires LoadedUpTo(a, s, |s|)
    ensures a == Nulled(s)
  {
  }

  lemma NoUpperSnoc(s: seq<byte>, word: nat, p: nat)
    requires word <= p < |s|
    ensures NoUpper(s[word..p + 1]) == (NoUpper(s[word..p]) && !IsUpper(s[p]))
  {
    var a, b := s[word..p], s[word..p + 1];
    assert forall i :: 0 <= i < |a| ==> b[i] == a[i];
    assert b[|a|] == s[p];
  }

  /** The first line feed reached from a line's start is its end. */
  lemma LineEndFirst(s: seq<byte>, word: nat, p: nat)
    requires LinesTerminated(s) && word <= p < |s| && p <= LineEnd(s, word) && s[p] == LF
    ensures p == LineEnd(s, word)
  {
  }

  lemma KeptLinesStep(s: seq<byte>, word: nat)
    requires LinesTerminated(s) && word < |s|
    ensures KeptLines(s, word) ==
      (if NoUpper(s[word..LineEnd(s, word)]) then [word] else []) + KeptLines(s, LineEnd(s, word) + 1)
  {
  }

  /**
   * The inner loop of `load_dict`: walks from a line's start to its line
   * feed, noting whether an upper-case letter was passed on the way.
   */
  method ScanLine(storage: array<byte>, ghost s: seq<byte>, word: nat) returns (p: nat, lc: bool)
    requires LinesTerminated(s) && word < |s| && LoadedUpTo(storage[..], s, word)
    ensures p == LineEnd(s, word) && lc == NoUpper(s[word..p])
  {
    p := word;
    lc := true;
    while storage[p] != LF
      invariant word <= p <= LineEnd(s, word)
      invariant lc == NoUpper(s[word..p])
      decreases LineEnd(s, word) - p
    {
      NoUpperSnoc(s, word, p);
      if lc && 'A' as int <= storage[p] <= 'Z' as int {
        lc := false;
      }
      p := p + 1;
    }
    LineEndFirst(s, word, p);
  }

  /** The kept starts collected before line start `p` are those of the whole file up to there. */
  ghost predicate CollectedUpTo(dict: seq<nat>, s: seq<byte>, p: nat)
    requires LinesTerminated(s) && p <= |s|
  {
    dict + KeptLines(s, p) == KeptLines(s, 0)
  }

  lemma CollectedLine(dict: seq<nat>, s: seq<byte>, word: nat, lc: bool)
    requires LinesTerminated(s) && word < |s| && CollectedUpTo(dict, s, word)
    requires lc == NoUpper(s[word..LineEnd(s, word)])
    ensures lc ==> CollectedUpTo(dict + [word], s, LineEnd(s, word) + 1)
    ensures !lc ==> CollectedUpTo(dict, s, LineEnd(s, word) + 1)
  {
    var rest := KeptLines(s, LineEnd(s, word) + 1);
    if lc {
      assert KeptLines(s, word) == [word] + rest;
      assert dict + [word] + rest == dict + KeptLines(s, word);
    } else {
      assert KeptLines(s, word) == [] + rest;
    }
  }

  /**
   * `load_dict` over the file's bytes: overwrites every line feed with a
   * NUL and collects the start of each line that has no upper-case letter.
   * The loader runs past the end of a file whose last line is not
   * terminated, so that is required.
   */
  method LoadDict(storage: array<byte>) returns (dict: seq<nat>)
    requires LinesTerminated(storage[..])
    modifies storage
    ensures storage[..] == Nulled(old(storage[..]))
    ensures dict == KeptLines(old(storage[..]), 0)
  {
    ghost var s := storage[..];
    var n := storage.Length;
    var p := 0;
    dict := [];
    while p < n
      invariant p <= n && LineStart(s, p)
      invariant LoadedUpTo(storage[..], s, p)
      invariant CollectedUpTo(dict, s, p)
      decreases n - p
    {
      var word := p;
      var lc;
      p, lc := ScanLine(storage, s, word);
      CollectedLine(dict, s, word, lc);
      ghost var before := storage[..];
      LoadedLine(before, s, word);
      storage[p] := NUL;
      assert storage[..] == before[p := NUL];
      p := p + 1;
      if lc {
        dict := dict + [word];
      }
    }
    LoadedAll(storage[..], s);
    assert dict + [] == dict;
  }

  /** The entries of the loaded dictionary: C strings starting at the kept offsets. */
  function Entries(buffer: seq<byte>, offsets: seq<nat>): seq<seq<byte>>
    requires forall k :: 0 <= k < |offsets| ==> offsets[k] <= |buffer|
  {
    seq(|offsets|, k requires 0 <= k < |offsets| => buffer[offsets[k]..])
  }

  /** Sorted as `binary_search` requires: no entry is less than one before it. */
  predicate Sorted(dict: seq<seq<byte>>)
    requires forall k :: 0 <= k < |dict| ==> NUL in dict[k]
  {
    forall i, j :: 0 <= i < j < |dict| ==> !LexLess(CStr(dict[j]), CStr(dict[i]))
  }

  /** An entry less than the key: so is every entry before it. */
  lemma BelowKey(dict: seq<seq<byte>>, key: seq<byte>, mid: nat)
    requires forall k :: 0 <= k < |dict| ==> NUL in dict[k]
    requires NUL in key && Sorted(dict) && mid < |dict| && LexLess(CStr(dict[mid]), CStr(key))
    ensures forall i :: 0 <= i <= mid ==> LexLess(CStr(dict[i]), CStr(key))
  {
    forall i | 0 <= i < mid ensures LexLess(CStr(dict[i]), CStr(key)) {
      LexTrichotomy(CStr(dict[i]), CStr(dict[mid]));
      if LexLess(CStr(dict[i]), CStr(dict[mid])) {
        LexTransitive(CStr(dict[i]), CStr(dict[mid]), CStr(key));
      }
    }
  }

  /** An entry not less than the key: neither is any entry after it. */
  lemma NotBelowKey(dict: seq<seq<byte>>, key: seq<byte>, mid: nat)
    requires forall k :: 0 <= k < |dict| ==> NUL in dict[k]
    requires NUL in key && Sorted(dict) && mid < |dict| && !LexLess(CStr(dict[mid]), CStr(key))
    ensures forall i :: mid <= i < |dict| ==> !LexLess(CStr(dict[i]), CStr(key))
  {
    forall i | mid < i < |dict| ensures !LexLess(CStr(dict[i]), CStr(key)) {
      if LexLess(CStr(dict[i]), CStr(key)) {
        LexTrichotomy(CStr(dict[mid]), CStr(dict[i]));
        if LexLess(CStr(dict[mid]), CStr(dict[i])) {
          LexTransitive(CStr(dict[mid]), CStr(dict[i]), CStr(key));
        }
      }
    }
  }

  /** The key less than an entry: it is less than every entry after it too, so equal to none from there. */
  lemma AboveKey(dict: seq<seq<byte>>, key: seq<byte>, lo: nat)
    requires forall k :: 0 <= k < |dict| ==> NUL in dict[k]
    requires NUL in key && Sorted(dict) && lo < |dict| && LexLess(CStr(key), CStr(dict[lo]))
    ensures forall i :: lo <= i < |dict| ==> CStr(dict[i]) != CStr(key)
  {
    forall i | lo <= i < |dict| ensures CStr(dict[i]) != CStr(key) {
      if i > lo {
        LexTrichotomy(CStr(dict[lo]), CStr(dict[i]));
        if LexLess(CStr(dict[lo]), CStr(dict[i])) {
          LexTransitive(CStr(key), CStr(dict[lo]), CStr(dict[i]));
        }
      }
      LexIrreflexive(CStr(key));
    }
  }

  /** Entries less than the key are not equal to it. */
  lemma BelowNotEqual(dict: seq<seq<byte>>, key: seq<byte>, lo: nat)
    requires forall k :: 0 <= k < |dict| ==> NUL in dict[k]
    requires NUL in key && lo <= |dict|
    requires forall i :: 0 <= i < lo ==> LexLess(CStr(dict[i]), CStr(key))
    ensures forall i :: 0 <= i < lo ==> CStr(dict[i]) != CStr(key)
  {
    LexIrreflexive(CStr(key));
  }

  /**
   * `binary_search(dict, key, teh_less)`: whether an entry compares equal to
   * the key. Written as a lower bound followed by one comparison.
   */
  method BinarySearch(dict: seq<seq<byte>>, key: seq<byte>) returns (found: bool)
    requires forall k :: 0 <= k < |dict| ==> NUL in dict[k]
    requires NUL in key && Sorted(dict)
    ensures found <==> exists i :: 0 <= i < |dict| && CStr(dict[i]) == CStr(key)
  {
    var lo, hi := 0, |dict|;
    while lo < hi
      invariant 0 <= lo <= hi <= |dict|
      invariant forall i :: 0 <= i < lo ==> LexLess(CStr(dict[i]), CStr(key))
      invariant forall i :: hi <= i < |dict| ==> !LexLess(CStr(dict[i]), CStr(key))
    {
      var mid := lo + (hi - lo) / 2;
      var less := TehLess(dict[mid], key);
      if less {
        BelowKey(dict, key, mid);
        lo := mid + 1;
      } else {
        NotBelowKey(dict, key, mid);
        hi := mid;
      }
    }
    BelowNotEqual(dict, key, lo);
    found := false;
    if lo < |dict| {
      var greater := TehLess(key, dict[lo]);
      found := !greater;
      if found {
        LexTrichotomy(CStr(dict[lo]), CStr(key));
      } else {
        AboveKey(dict, key, lo);
      }
    }
  }

  /** In the loaded buffer the line at `o` ends in a NUL, so it can be read as a C string. */
  lemma NulledLineEnds(s: seq<byte>, o: nat)
    requires LinesTerminated(s) && o < |s|
    ensures NUL in Nulled(s)[o..]
  {
    var e := LineEnd(s, o);
    assert Nulled(s)[o..][e - o] == NUL;
  }

  lemma LoadedEntriesHaveNul(s: seq<byte>)
    requires LinesTerminated(s)
    ensures forall k :: 0 <= k < |KeptLines(s, 0)| ==> KeptLines(s, 0)[k] < |s| && NUL in Nulled(s)[KeptLines(s, 0)[k]..]
  {
    forall k | 0 <= k < |KeptLines(s, 0)|
      ensures KeptLines(s, 0)[k] < |s| && NUL in Nulled(s)[KeptLines(s, 0)[k]..]
    {
      KeptLinesAreLowerLines(s, 0, k);
      NulledLineEnds(s, KeptLines(s, 0)[k]);
    }
  }

  /** `g_dict` after `load_dict` of the file `s`: the C strings at the kept line starts. */
  ghost function Loaded(s: seq<byte>): (d: seq<seq<byte>>)
    requires LinesTerminated(s)
    ensures |d| == |KeptLines(s, 0)| && forall k :: 0 <= k < |d| ==> NUL in d[k]
  {
    LoadedEntriesHaveNul(s);
    Entries(Nulled(s), KeptLines(s, 0))
  }

  // ------------------------------------------------------------ output

  const BUFSIZE: nat := 65536

  /**
   * `Writer`: bytes collect in `buffer` up to `p`; `flush` hands them to
   * standard output, here the sequence `out`.
   */
  class Writer {
    const buffer: array<byte>
    var p: nat
    var out: seq<byte>

    ghost predicate Valid()
      reads this
    {
      buffer.Length == BUFSIZE && p <= BUFSIZE
    }

    /** Everything written so far: what was flushed, then what is buffered. */
    function Contents(): seq<byte>
      reads this, buffer
      requires Valid()
    {
      out + buffer[..p]
    }

    constructor()
      ensures Valid() && fresh(buffer) && p == 0 && out == []
    {
      buffer := new byte[BUFSIZE];
      p := 0;
      out := [];
    }

    method Flush()
      requires Valid()
      modifies this
      ensures Valid() && p == 0 && out == old(Contents())
    {
      out := out + buffer[..p];
      p := 0;
    }

    /** `putchar`: flushes only when the buffer is full, then appends. */
    method PutChar(c: byte)
      requires Valid()
      modifies this, buffer
      ensures Valid() && Contents() == old(Contents()) + [c]
      ensures old(p) == BUFSIZE ==> out == old(Contents()) && p == 1
      ensures old(p) < BUFSIZE ==> out == old(out) && p == old(p) + 1
    {
      if p == BUFSIZE {
        Flush();
      }
      buffer[p] := c;
      p := p + 1;
      assert buffer[..p] == old(buffer[..p]) + [c] || out == old(Contents());
    }

    /**
     * `puts(s, n)`: flushes first when fewer than `n` bytes are free, then
     * copies. The copy would overrun the buffer if `n` exceeded its size.
     */
    method Puts(s: seq<byte>)
      requires Valid() && |s| <= BUFSIZE
      modifies this, buffer
      ensures Valid() && Contents() == old(Contents()) + s
      ensures BUFSIZE - old(p) < |s| ==> out == old(Contents()) && p == |s|
      ensures |s| <= BUFSIZE - old(p) ==> out == old(out) && p == old(p) + |s|
    {
      if BUFSIZE - p < |s| {
        Flush();
      }
      ghost var kept := buffer[..p];
      for i := 0 to |s|
        modifies buffer
        invariant p + |s| <= BUFSIZE && buffer[..p + i] == kept + s[..i]
      {
        buffer[p + i] := s[i];
        assert buffer[..p + i + 1] == buffer[..p + i] + [s[i]];
        assert s[..i + 1] == s[..i] + [s[i]];
      }
      assert s[..|s|] == s;
      p := p + |s|;
    }

    /** The destructor: whatever is still buffered is flushed. */
    method Close()
      requires Valid()
      modifies this
      ensures Valid() && p == 0 && out == old(Contents())
    {
      Flush();
    }
  }

  // ------------------------------------------------------------ words

  /** The longest word `dump_word` looks up is `MAX - 2` bytes long. */
  const MAX: nat := 2048

  const LT: byte := 60
  const GT: byte := 62

  /** `tolower` in the C locale: only ASCII letters change. */
  function ToLower(b: byte): (l: byte)
    ensures !IsUpper(l) && (l == NUL <==> b == NUL)
  {
    if IsUpper(b) then b + 32 else b
  }

  function Lower(w: seq<byte>): (l: seq<byte>)
    ensures |l| == |w| && NoUpper(l)
    ensures NUL !in w ==> NUL !in l
  {
    seq(|w|, i requires 0 <= i < |w| => ToLower(w[i]))
  }

  /** The entries `binary_search` can be given: C strings in `teh_less` order. */
  predicate DictReady(dict: seq<seq<byte>>) {
    (forall k :: 0 <= k < |dict| ==> NUL in dict[k]) && Sorted(dict)
  }

  /** A word is found when it is short enough and its lower-cased form is an entry. */
  ghost predicate InDict(dict: seq<seq<byte>>, word: seq<byte>)
    requires forall k :: 0 <= k < |dict| ==> NUL in dict[k]
  {
    |word| < MAX - 1 && exists i :: 0 <= i < |dict| && CStr(dict[i]) == CStr(Lower(word) + [NUL])
  }

  /** What `dump_word` writes: the word, between `<` and `>` when it is not found. */
  ghost function DumpText(dict: seq<seq<byte>>, word: seq<byte>): seq<byte>
    requires forall k :: 0 <= k < |dict| ==> NUL in dict[k]
  {
    if InDict(dict, word) then word else [LT] + word + [GT]
  }

  /** Bytes after the first NUL do not change a C string. */
  lemma CStrPrefix(a: seq<byte>, b: seq<byte>)
    requires NUL in a
    ensures NUL in a + b && CStr(a + b) == CStr(a)
  {
    var z := |CStr(a)|;
    assert (a + b)[..z] == a[..z];
    CStrAt(a + b, z);
  }

  lemma LookupKey(dict: seq<seq<byte>>, word: seq<byte>, key: seq<byte>)
    requires forall k :: 0 <= k < |dict| ==> NUL in dict[k]
    requires |word| < MAX - 1 && NUL in key && CStr(key) == CStr(Lower(word) + [NUL])
    ensures InDict(dict, word) <==> exists i :: 0 <= i < |dict| && CStr(dict[i]) == CStr(key)
  {
  }

  /**
   * The look-up half of `dump_word`: a word short enough for `lword` is
   * lower-cased into it, NUL-terminated and searched for.
   */
  method Lookup(word: seq<byte>, dict: seq<seq<byte>>) returns (found: bool)
    requires DictReady(dict)
    ensures found == InDict(dict, word)
  {
    found := false;
    if |word| < MAX - 1 {
      var lword := new byte[MAX];
      var i := 0;
      while i < |word|
        invariant i <= |word|
        invariant forall k :: 0 <= k < i ==> lword[k] == ToLower(word[k])
      {
        lword[i] := ToLower(word[i]);
        i := i + 1;
      }
      lword[i] := NUL;
      ghost var key := Lower(word) + [NUL];
      assert lword[..] == key + lword[i + 1..];
      CStrPrefix(key, lword[i + 1..]);
      found := BinarySearch(dict, lword[..]);
      LookupKey(dict, word, lword[..]);
    }
  }

  /** `dump_word`: writes the word, between `<` and `>` when it was not found. */
  method DumpWord(word: seq<byte>, dict: seq<seq<byte>>, writer: Writer)
    requires DictReady(dict) && writer.Valid() && |word| <= BUFSIZE
    modifies writer, writer.buffer
    ensures writer.Valid() && writer.Contents() == old(writer.Contents()) + DumpText(dict, word)
  {
    ghost var before := writer.Contents();
    var found := Lookup(word, dict);
    if !found {
      writer.PutChar(LT);
      writer.Puts(word);
      writer.PutChar(GT);
      assert writer.Contents() == before + ([LT] + word + [GT]);
    } else {
      writer.Puts(word);
    }
  }

  // ------------------------------------------------------------ the text

  /** The bytes that separate words: line feed and space. */
  predicate IsSep(b: byte) {
    b == LF || b == SPACE
  }

  predicate NoSep(s: seq<byte>) {
    forall i :: 0 <= i < |s| ==> !IsSep(s[i])
  }

  /** The input read as separators and maximal words. */
  datatype Token = Space(b: byte) | Word(bytes: seq<byte>)

  /** The length of the word at the front of `s`. */
  function WordLen(s: seq<byte>): (n: nat)
    ensures n <= |s| && NoSep(s[..n]) && (n == |s| || IsSep(s[n]))
  {
    if s == [] || IsSep(s[0]) then 0
    else
      var n := 1 + WordLen(s[1..]);
      assert s[..n] == [s[0]] + s[1..][..n - 1];
      n
  }

  lemma WordLenUnique(s: seq<byte>, m: nat)
    requires m <= |s| && NoSep(s[..m]) && (m == |s| || IsSep(s[m]))
    ensures WordLen(s) == m
  {
  }

  function Tokens(s: seq<byte>): seq<Token>
    decreases |s|
  {
    if s == [] then []
    else if IsSep(s[0]) then [Space(s[0])] + Tokens(s[1..])
    else
      var n := WordLen(s);
      [Word(s[..n])] + Tokens(s[n..])
  }

  /** The bytes the tokens stand for. */
  function Flatten(ts: seq<Token>): seq<byte> {
    if ts == [] then []
    else (match ts[0] case Space(b) => [b] case Word(w) => w) + Flatten(ts[1..])
  }

  /** Reading the tokens back gives the input. */
  lemma {:induction false} FlattenTokens(s: seq<byte>)
    ensures Flatten(Tokens(s)) == s
    decreases |s|
  {
    if s != [] {
      if IsSep(s[0]) {
        FlattenTokens(s[1..]);
        assert [s[0]] + s[1..] == s;
      } else {
        var n := WordLen(s);
        FlattenTokens(s[n..]);
        assert s[..n] + s[n..] == s;
      }
    }
  }

  /** Every word is non-empty and has no separator, and no two words are adjacent. */
  lemma {:induction false} TokensMaximal(s: seq<byte>)
    ensures forall k :: 0 <= k < |Tokens(s)| && Tokens(s)[k].Word? ==>
      Tokens(s)[k].bytes != [] && NoSep(Tokens(s)[k].bytes)
    ensures forall k :: 0 <= k < |Tokens(s)| - 1 ==> Tokens(s)[k].Space? || Tokens(s)[k + 1].Space?
    decreases |s|
  {
    if s != [] {
      if IsSep(s[0]) {
        TokensMaximal(s[1..]);
      } else {
        var n := WordLen(s);
        TokensMaximal(s[n..]);
        if n < |s| {
          assert Tokens(s[n..])[0] == Space(s[n]);
        }
      }
    }
  }

  /** A word-free separator-ended prefix splits off: tokens never straddle it. */
  predicate Boundary(s: seq<byte>, i: nat) {
    i == 0 || (i <= |s| && IsSep(s[i - 1]))
  }

  lemma WordLenAppend(a: seq<byte>, b: seq<byte>)
    requires a != [] && IsSep(a[|a| - 1])
    ensures WordLen(a + b) == WordLen(a) && WordLen(a) < |a|
  {
    var n := WordLen(a);
    assert n < |a|;
    assert (a + b)[..n] == a[..n];
    WordLenUnique(a + b, n);
  }

  lemma {:induction false} TokensAppend(a: seq<byte>, b: seq<byte>)
    requires Boundary(a, |a|)
    ensures Tokens(a + b) == Tokens(a) + Tokens(b)
    decreases |a|
  {
    if a == [] {
      assert a + b == b;
    } else if IsSep(a[0]) {
      TokensAppendSpace(a, b);
      TokensAppend(a[1..], b);
      ConsAssoc(Space(a[0]), Tokens(a[1..]), Tokens(b));
    } else {
      var n := WordLen(a);
      TokensAppendWord(a, b);
      TokensAppend(a[n..], b);
      ConsAssoc(Word(a[..n]), Tokens(a[n..]), Tokens(b));
    }
  }

  lemma ConsAssoc(x: Token, p: seq<Token>, q: seq<Token>)
    ensures [x] + (p + q) == [x] + p + q
  {
  }

  lemma TokensAppendSpace(a: seq<byte>, b: seq<byte>)
    requires a != [] && IsSep(a[0]) && Boundary(a, |a|)
    ensures Boundary(a[1..], |a| - 1)
    ensures Tokens(a + b) == [Space(a[0])] + Tokens(a[1..] + b)
    ensures Tokens(a) == [Space(a[0])] + Tokens(a[1..])
  {
    assert (a + b)[1..] == a[1..] + b;
    if |a| > 1 {
      assert a[1..][|a| - 2] == a[|a| - 1];
    }
  }

  lemma TokensAppendWord(a: seq<byte>, b: seq<byte>)
    requires a != [] && !IsSep(a[0]) && Boundary(a, |a|)
    ensures WordLen(a) < |a| && Boundary(a[WordLen(a)..], |a| - WordLen(a))
    ensures Tokens(a + b) == [Word(a[..WordLen(a)])] + Tokens(a[WordLen(a)..] + b)
    ensures Tokens(a) == [Word(a[..WordLen(a)])] + Tokens(a[WordLen(a)..])
  {
    var n := WordLen(a);
    WordLenAppend(a, b);
    assert (a + b)[..n] == a[..n];
    assert (a + b)[n..] == a[n..] + b;
    assert a[n..][|a| - n - 1] == a[|a| - 1];
  }

  lemma TokensWordFirst(r: seq<byte>, m: nat)
    requires 0 < m <= |r| && NoSep(r[..m]) && (m == |r| || IsSep(r[m]))
    ensures Tokens(r) == [Word(r[..m])] + Tokens(r[m..])
  {
    WordLenUnique(r, m);
    assert r[..m][0] == r[0];
  }

  lemma TokensSpaceFirst(r: seq<byte>)
    requires r != [] && IsSep(r[0])
    ensures Tokens(r) == [Space(r[0])] + Tokens(r[1..])
  {
  }

  lemma TokensOfSpace(c: byte)
    requires IsSep(c)
    ensures Tokens([c]) == [Space(c)]
  {
    TokensSpaceFirst([c]);
    assert [c][1..] == [];
  }

  lemma WordTokens(w: seq<byte>)
    requires w != [] && NoSep(w)
    ensures Tokens(w) == [Word(w)]
  {
    TokensWordFirst(w, |w|);
    assert w[..|w|] == w && w[|w|..] == [];
  }

  lemma WordThenSpace(w: seq<byte>, c: byte)
    requires w != [] && NoSep(w) && IsSep(c)
    ensures Tokens(w + [c]) == [Word(w), Space(c)]
  {
    var s := w + [c];
    assert s[..|w|] == w;
    TokensWordFirst(s, |w|);
    assert s[|w|..] == [c];
    TokensOfSpace(c);
  }

  /** The tokens of a prefix that ends on a boundary are the leading tokens. */
  lemma TokensSplit(s: seq<byte>, st: nat)
    requires st <= |s| && Boundary(s, st)
    ensures Tokens(s) == Tokens(s[..st]) + Tokens(s[st..])
  {
    assert s == s[..st] + s[st..];
    if st > 0 {
      assert s[..st][st - 1] == s[st - 1];
    }
    TokensAppend(s[..st], s[st..]);
  }

  /** The word between boundary `st` and the next separator (or the end) is one of the tokens. */
  lemma WordAt(s: seq<byte>, st: nat, p: nat)
    requires Boundary(s, st) && st < p <= |s| && NoSep(s[st..p]) && (p == |s| || IsSep(s[p]))
    ensures Word(s[st..p]) in Tokens(s)
  {
    var r, m := s[st..], p - st;
    assert r[..m] == s[st..p];
    if p < |s| {
      assert r[m] == s[p];
    }
    TokensSplit(s, st);
    TokensWordFirst(r, m);
    TokenInMiddle(Tokens(s[..st]), Word(s[st..p]), Tokens(r[m..]));
  }

  lemma TokenInMiddle(a: seq<Token>, x: Token, b: seq<Token>)
    ensures x in a + ([x] + b)
  {
    assert (a + ([x] + b))[|a|] == x;
  }

  /** The output for a token sequence. */
  ghost function Render(dict: seq<seq<byte>>, ts: seq<Token>): seq<byte>
    requires forall k :: 0 <= k < |dict| ==> NUL in dict[k]
  {
    if ts == [] then []
    else (match ts[0] case Space(b) => [b] case Word(w) => DumpText(dict, w)) + Render(dict, ts[1..])
  }

  lemma {:induction false} RenderAppend(dict: seq<seq<byte>>, ts: seq<Token>, us: seq<Token>)
    requires forall k :: 0 <= k < |dict| ==> NUL in dict[k]
    ensures Render(dict, ts + us) == Render(dict, ts) + Render(dict, us)
  {
    if ts == [] {
      assert ts + us == us;
    } else {
      assert (ts + us)[1..] == ts[1..] + us;
      RenderAppend(dict, ts[1..], us);
    }
  }

  /** A text whose every word is found is echoed unchanged. */
  lemma {:induction false} RenderKnown(dict: seq<seq<byte>>, ts: seq<Token>)
    requires forall k :: 0 <= k < |dict| ==> NUL in dict[k]
    requires forall k :: 0 <= k < |ts| && ts[k].Word? ==> InDict(dict, ts[k].bytes)
    ensures Render(dict, ts) == Flatten(ts)
  {
    if ts != [] {
      RenderKnown(dict, ts[1..]);
    }
  }

  /** Marking only adds bytes: the output is at least as long as the text. */
  lemma {:induction false} RenderLength(dict: seq<seq<byte>>, ts: seq<Token>)
    requires forall k :: 0 <= k < |dict| ==> NUL in dict[k]
    ensures |Render(dict, ts)| >= |Flatten(ts)|
  {
    if ts != [] {
      RenderLength(dict, ts[1..]);
    }
  }

  /** The words of the text fit the read buffer, as `main` relies on. */
  predicate WordsFit(ts: seq<Token>) {
    forall k :: 0 <= k < |ts| && ts[k].Word? ==> |ts[k].bytes| <= BUFSIZE
  }

  /** A separator on a boundary is copied. */
  lemma TokensSpaceStep(input: seq<byte>, p: nat)
    requires p < |input| && IsSep(input[p]) && Boundary(input, p)
    ensures Tokens(input[..p + 1]) == Tokens(input[..p]) + [Space(input[p])]
  {
    TokensSplit(input[..p + 1], p);
    assert input[..p + 1][..p] == input[..p] && input[..p + 1][p..] == [input[p]];
    TokensOfSpace(input[p]);
  }

  lemma SpaceStep(start: seq<byte>, dict: seq<seq<byte>>, input: seq<byte>, p: nat)
    requires forall k :: 0 <= k < |dict| ==> NUL in dict[k]
    requires p < |input| && IsSep(input[p]) && Boundary(input, p)
    ensures Boundary(input, p + 1)
    ensures start + Render(dict, Tokens(input[..p + 1])) == start + Render(dict, Tokens(input[..p])) + [input[p]]
  {
    TokensSpaceStep(input, p);
    RenderAppend(dict, Tokens(input[..p]), [Space(input[p])]);
    RenderSpace(dict, input[p]);
  }

  lemma TokensWordStep(input: seq<byte>, st: nat, p: nat)
    requires st < p < |input| && Boundary(input, st) && NoSep(input[st..p]) && IsSep(input[p])
    ensures Tokens(input[..p + 1]) == Tokens(input[..st]) + [Word(input[st..p]), Space(input[p])]
  {
    var w, c := input[st..p], input[p];
    var s := input[..p + 1];
    TokensSplit(s, st);
    assert s[..st] == input[..st] && s[st..] == w + [c];
    WordThenSpace(w, c);
  }

  lemma RenderSpace(dict: seq<seq<byte>>, c: byte)
    requires forall k :: 0 <= k < |dict| ==> NUL in dict[k]
    ensures Render(dict, [Space(c)]) == [c]
  {
    assert [Space(c)][1..] == [];
  }

  lemma RenderWordSpace(dict: seq<seq<byte>>, w: seq<byte>, c: byte)
    requires forall k :: 0 <= k < |dict| ==> NUL in dict[k]
    ensures Render(dict, [Word(w), Space(c)]) == DumpText(dict, w) + [c]
  {
    var ts := [Word(w), Space(c)];
    assert ts[0] == Word(w) && ts[1..] == [Space(c)];
    RenderSpace(dict, c);
  }

  lemma Regroup(a: seq<byte>, b: seq<byte>, c: seq<byte>, d: seq<byte>)
    ensures a + (b + (c + d)) == a + b + c + d
  {
  }

  /** A word ended by a separator is dumped, then the separator is copied. */
  lemma WordStep(start: seq<byte>, dict: seq<seq<byte>>, input: seq<byte>, st: nat, p: nat)
    requires forall k :: 0 <= k < |dict| ==> NUL in dict[k]
    requires st < p < |input| && Boundary(input, st) && NoSep(input[st..p]) && IsSep(input[p])
    ensures Boundary(input, p + 1)
    ensures start + Render(dict, Tokens(input[..p + 1])) ==
      start + Render(dict, Tokens(input[..st])) + DumpText(dict, input[st..p]) + [input[p]]
  {
    var w, c := input[st..p], input[p];
    TokensWordStep(input, st, p);
    RenderAppend(dict, Tokens(input[..st]), [Word(w), Space(c)]);
    RenderWordSpace(dict, w, c);
    Regroup(start, Render(dict, Tokens(input[..st])), DumpText(dict, w), [c]);
  }

  /** A word at the end of the input is dumped. */
  lemma LastWord(start: seq<byte>, dict: seq<seq<byte>>, input: seq<byte>, st: nat)
    requires forall k :: 0 <= k < |dict| ==> NUL in dict[k]
    requires st < |input| && Boundary(input, st) && NoSep(input[st..])
    ensures start + Render(dict, Tokens(input)) == start + Render(dict, Tokens(input[..st])) + DumpText(dict, input[st..])
  {
    var w := input[st..];
    TokensSplit(input, st);
    WordTokens(w);
    RenderAppend(dict, Tokens(input[..st]), [Word(w)]);
    RenderWord(dict, w);
    Regroup3(start, Render(dict, Tokens(input[..st])), DumpText(dict, w));
  }

  lemma RenderWord(dict: seq<seq<byte>>, w: seq<byte>)
    requires forall k :: 0 <= k < |dict| ==> NUL in dict[k]
    ensures Render(dict, [Word(w)]) == DumpText(dict, w)
  {
    assert [Word(w)][1..] == [];
  }

  lemma Regroup3(a: seq<byte>, b: seq<byte>, c: seq<byte>)
    ensures a + (b + c) == a + b + c
  {
  }

  lemma WordFits(ts: seq<Token>, w: seq<byte>)
    requires WordsFit(ts) && Word(w) in ts
    ensures |w| <= BUFSIZE
  {
    var k :| 0 <= k < |ts| && ts[k] == Word(w);
  }

  /**
   * The state of the scanning loop after `p` bytes: everything before
   * `done` has been written, and when a word is open it runs from `done`
   * to `p`.
   */
  ghost predicate Scanned(dict: seq<seq<byte>>, input: seq<byte>, start: seq<byte>, contents: seq<byte>, done: nat, p: nat, inWord: bool)
    requires forall k :: 0 <= k < |dict| ==> NUL in dict[k]
  {
    done <= p <= |input| && Boundary(input, done) &&
    (if inWord then done < p && NoSep(input[done..p]) else done == p) &&
    contents == start + Render(dict, Tokens(input[..done]))
  }

  /** A byte that is not a separator opens a word or extends the open one. */
  lemma ScanLetter(dict: seq<seq<byte>>, input: seq<byte>, start: seq<byte>, contents: seq<byte>, done: nat, p: nat, inWord: bool)
    requires forall k :: 0 <= k < |dict| ==> NUL in dict[k]
    requires Scanned(dict, input, start, contents, done, p, inWord) && p < |input| && !IsSep(input[p])
    ensures Scanned(dict, input, start, contents, if inWord then done else p, p + 1, true)
  {
    if inWord {
      assert input[done..p + 1] == input[done..p] + [input[p]];
    } else {
      assert input[p..p + 1] == [input[p]];
    }
  }

  /** A separator outside a word is copied. */
  lemma ScanSpace(dict: seq<seq<byte>>, input: seq<byte>, start: seq<byte>, contents: seq<byte>, p: nat)
    requires forall k :: 0 <= k < |dict| ==> NUL in dict[k]
    requires Scanned(dict, input, start, contents, p, p, false) && p < |input| && IsSep(input[p])
    ensures Scanned(dict, input, start, contents + [input[p]], p + 1, p + 1, false)
  {
    SpaceStep(start, dict, input, p);
  }

  /** A separator after a word: the word is dumped, then the separator copied. */
  lemma ScanWordEnd(dict: seq<seq<byte>>, input: seq<byte>, start: seq<byte>, contents: seq<byte>, done: nat, p: nat)
    requires forall k :: 0 <= k < |dict| ==> NUL in dict[k]
    requires Scanned(dict, input, start, contents, done, p, true) && p < |input| && IsSep(input[p])
    requires WordsFit(Tokens(input))
    ensures |input[done..p]| <= BUFSIZE
    ensures Scanned(dict, input, start, contents + DumpText(dict, input[done..p]) + [input[p]], p + 1, p + 1, false)
  {
    WordAt(input, done, p);
    WordFits(Tokens(input), input[done..p]);
    WordStep(start, dict, input, done, p);
  }

  /** At the end of the input, an open word is dumped and nothing else is left. */
  lemma ScanEnd(dict: seq<seq<byte>>, input: seq<byte>, start: seq<byte>, contents: seq<byte>, done: nat, inWord: bool)
    requires forall k :: 0 <= k < |dict| ==> NUL in dict[k]
    requires Scanned(dict, input, start, contents, done, |input|, inWord) && WordsFit(Tokens(input))
    ensures inWord ==> |input[done..]| <= BUFSIZE
    ensures inWord ==> contents + DumpText(dict, input[done..]) == start + Render(dict, Tokens(input))
    ensures !inWord ==> contents == start + Render(dict, Tokens(input))
  {
    if inWord {
      WordAt(input, done, |input|);
      assert input[done..|input|] == input[done..];
      WordFits(Tokens(input), input[done..]);
      LastWord(start, dict, input, done);
    } else {
      assert input[..|input|] == input;
    }
  }

  /** The separator that closes a word: the word is dumped, then the separator written. */
  method EndWord(input: seq<byte>, dict: seq<seq<byte>>, writer: Writer, ghost start: seq<byte>, st: nat, p: nat)
    requires DictReady(dict) && writer.Valid() && WordsFit(Tokens(input))
    requires Scanned(dict, input, start, writer.Contents(), st, p, true) && p < |input| && IsSep(input[p])
    modifies writer, writer.buffer
    ensures writer.Valid() && Scanned(dict, input, start, writer.Contents(), p + 1, p + 1, false)
  {
    ghost var before := writer.Contents();
    ScanWordEnd(dict, input, start, before, st, p);
    DumpWord(input[st..p], dict, writer);
    writer.PutChar(input[p]);
  }

  /**
   * The scanning loop of `main`, over the whole input at once: each word
   * goes to `dump_word` when the separator after it or the end of the
   * input is reached, and each separator is copied.
   */
  method SpellCheck(input: seq<byte>, dict: seq<seq<byte>>, writer: Writer)
    requires DictReady(dict) && writer.Valid() && WordsFit(Tokens(input))
    modifies writer, writer.buffer
    ensures writer.Valid() && writer.Contents() == old(writer.Contents()) + Render(dict, Tokens(input))
  {
    ghost var start := writer.Contents();
    var w: Option<nat> := None;
    ghost var done: nat := 0;
    for p := 0 to |input|
      invariant writer.Valid() && (w.Some? ==> w.value == done)
      invariant Scanned(dict, input, start, writer.Contents(), done, p, w.Some?)
    {
      if IsSep(input[p]) {
        if w.Some? {
          EndWord(input, dict, writer, start, w.value, p);
          w := None;
        } else {
          ghost var before := writer.Contents();
          ScanSpace(dict, input, start, before, p);
          writer.PutChar(input[p]);
        }
        done := p + 1;
      } else {
        ScanLetter(dict, input, start, writer.Contents(), done, p, w.Some?);
        if w.None? {
          w := Some(p);
          done := p;
        }
      }
    }
    ScanEnd(dict, input, start, writer.Contents(), done, w.Some?);
    if w.Some? {
      DumpWord(input[w.value..], dict, writer);
    }
  }

  /**
   * The program: loads the dictionary file, checks the input against it and
   * flushes the writer at exit. The dictionary must be sorted as
   * `binary_search` requires.
   */
  method Run(dictFile: array<byte>, input: seq<byte>) returns (stdout: seq<byte>)
    requires LinesTerminated(dictFile[..]) && Sorted(Loaded(dictFile[..]))
    requires WordsFit(Tokens(input))
    modifies dictFile
    ensures stdout == Render(Loaded(old(dictFile[..])), Tokens(input))
  {
    ghost var s := dictFile[..];
    var offsets := LoadDict(dictFile);
    LoadedEntriesHaveNul(s);
    var dict := Entries(dictFile[..], offsets);
    var writer := new Writer();
    assert writer.Contents() == [];
    SpellCheck(input, dict, writer);
    writer.Close();
    stdout := writer.out;
  }

  /**
   * With a dictionary file and a word free of NUL bytes, the word is found
   * exactly when it is short enough and its lower-cased form is a line of
   * the file that has no upper-case letter.
   */
  lemma DictionaryAccepts(s: seq<byte>, word: seq<byte>)
    requires LinesTerminated(s) && NUL !in s && NUL !in word
    ensures InDict(Loaded(s), word) <==>
      |word| < MAX - 1 && exists o: nat :: LowerLine(s, o) && s[o..LineEnd(s, o)] == Lower(word)
  {
    var d := Loaded(s);
    var key := Lower(word) + [NUL];
    CStrAt(key, |word|);
    assert key[..|word|] == Lower(word);
    if InDict(d, word) {
      var i :| 0 <= i < |d| && CStr(d[i]) == CStr(key);
      var o := KeptLines(s, 0)[i];
      KeptLinesAreLowerLines(s, 0, i);
      NulledLine(s, o);
    }
    if |word| < MAX - 1 && exists o: nat :: LowerLine(s, o) && s[o..LineEnd(s, o)] == Lower(word) {
      var o: nat :| LowerLine(s, o) && s[o..LineEnd(s, o)] == Lower(word);
      KeptLinesComplete(s, 0, o);
      var i :| 0 <= i < |KeptLines(s, 0)| && KeptLines(s, 0)[i] == o;
      NulledLine(s, o);
      assert CStr(d[i]) == CStr(key);
    }
  }
}
