/**
 * The code search servers (level3/main.go). Each of four searchers indexes
 * the files of one shard of a directory tree; a query reports, for every
 * indexed file, the lines holding a match as `"name:line"` entries. The
 * three workers send their entries to the master, one per line, and the
 * master answers with all of them in a JSON object.
 *
 * File contents are byte sequences; paths, names and replies are Go strings
 * (one character per byte). The suffix array stands for its own text: a
 * look-up gives every offset where the query occurs, in increasing order.
 */
module Search {
  import opened Wrappers
  import opened Strings

  const LF: byte := 10

  // ------------------------------------------------------------ lines

  function Newlines(s: seq<byte>): nat {
    if s == [] then 0
    else Newlines(s[..|s| - 1]) + (if s[|s| - 1] == LF then 1 else 0)
  }

  lemma {:induction false} NewlinesAppend(a: seq<byte>, b: seq<byte>)
    ensures Newlines(a + b) == Newlines(a) + Newlines(b)
    decreases |b|
  {
    if b == [] {
      assert a + b == a;
    } else {
      assert (a + b)[..|a + b| - 1] == a + b[..|b| - 1];
      NewlinesAppend(a, b[..|b| - 1]);
    }
  }

  lemma {:induction false} NoNewlines(s: seq<byte>)
    requires LF !in s
    ensures Newlines(s) == 0
  {
    if s != [] {
      NoNewlines(s[..|s| - 1]);
    }
  }

  /** The 1-based line holding offset `pos`. */
  function LineOf(data: seq<byte>, pos: nat): (line: nat)
    requires pos <= |data|
    ensures line >= 1
  {
    1 + Newlines(data[..pos])
  }

  /** Later offsets are on the same line or a later one. */
  lemma LineMonotone(data: seq<byte>, a: nat, b: nat)
    requires a <= b <= |data|
    ensures LineOf(data, a) <= LineOf(data, b)
  {
    assert data[..b] == data[..a] + data[a..b];
    NewlinesAppend(data[..a], data[a..b]);
  }

  /** `bytes.IndexByte`: the first position of `c`, or -1. */
  function IndexByte(s: seq<byte>, c: byte): (i: int)
    ensures -1 <= i < |s|
    ensures i >= 0 ==> s[i] == c && c !in s[..i]
    ensures i == -1 ==> c !in s
  {
    if s == [] then -1
    else if s[0] == c then 0
    else
      var j := IndexByte(s[1..], c);
      if j < 0 then -1
      else
        assert s[..j + 1] == [s[0]] + s[1..][..j];
        j + 1
  }

  lemma NewlineStep(data: seq<byte>, bx: nat, pos: nat, ll: nat)
    requires bx <= pos <= |data| && ll < pos - bx
    requires data[bx..pos][ll] == LF && LF !in data[bx..pos][..ll]
    ensures LineOf(data, bx + ll + 1) == LineOf(data, bx) + 1
  {
    var gap := data[bx..pos][..ll];
    assert data[..bx + ll + 1] == data[..bx] + (gap + [LF]);
    NewlinesAppend(data[..bx], gap + [LF]);
    assert (gap + [LF])[..|gap|] == gap;
    NoNewlines(gap);
  }

  lemma NoNewlineStep(data: seq<byte>, bx: nat, pos: nat)
    requires bx <= pos <= |data| && LF !in data[bx..pos]
    ensures LineOf(data, pos) == LineOf(data, bx)
  {
    assert data[..pos] == data[..bx] + data[bx..pos];
    NewlinesAppend(data[..bx], data[bx..pos]);
    NoNewlines(data[bx..pos]);
  }

  // ------------------------------------------------------------ look-up

  predicate MatchAt(data: seq<byte>, query: seq<byte>, i: nat) {
    i + |query| <= |data| && data[i..i + |query|] == query
  }

  function MatchesFrom(data: seq<byte>, query: seq<byte>, i: nat): (r: seq<nat>)
    requires i <= |data|
    ensures forall k :: 0 <= k < |r| ==> i <= r[k] < |data| && MatchAt(data, query, r[k])
    ensures forall j, k :: 0 <= j < k < |r| ==> r[j] < r[k]
    decreases |data| - i
  {
    if i == |data| then []
    else (if MatchAt(data, query, i) then [i] else []) + MatchesFrom(data, query, i + 1)
  }

  /**
   * `index.Lookup(query, -1)` followed by `sort.Ints`: the offsets where a
   * non-empty query occurs, in increasing order. An empty query finds nothing.
   */
  function Lookup(data: seq<byte>, query: seq<byte>): (hits: seq<nat>)
    ensures forall k :: 0 <= k < |hits| ==> hits[k] < |data| && MatchAt(data, query, hits[k])
    ensures forall j, k :: 0 <= j < k < |hits| ==> hits[j] < hits[k]
    ensures query == [] ==> hits == []
  {
    if query == [] then [] else MatchesFrom(data, query, 0)
  }

  lemma {:induction false} MatchesFromComplete(data: seq<byte>, query: seq<byte>, i: nat, pos: nat)
    requires i <= pos < |data| && MatchAt(data, query, pos)
    ensures pos in MatchesFrom(data, query, i)
    decreases |data| - i
  {
    if i < pos {
      MatchesFromComplete(data, query, i + 1, pos);
    }
  }

  /** Every occurrence of a non-empty query is found. */
  lemma LookupComplete(data: seq<byte>, query: seq<byte>, pos: nat)
    requires query != [] && MatchAt(data, query, pos)
    ensures pos in Lookup(data, query)
  {
    MatchesFromComplete(data, query, 0, pos);
  }

  // ------------------------------------------------------------ one file

  /** The lines reported for sorted hits: each hit's line, a repeat of the previous one dropped. */
  function ReportedLines(data: seq<byte>, hits: seq<nat>): (r: seq<nat>)
    requires forall k :: 0 <= k < |hits| ==> hits[k] <= |data|
    ensures (r == []) == (hits == [])
    ensures hits != [] ==> r[|r| - 1] == LineOf(data, hits[|hits| - 1])
  {
    if hits == [] then []
    else
      var r := ReportedLines(data, hits[..|hits| - 1]);
      var l := LineOf(data, hits[|hits| - 1]);
      if r != [] && r[|r| - 1] == l then r else r + [l]
  }

  /** Within a file the reported lines are strictly increasing. */
  lemma {:induction false} ReportedIncreasing(data: seq<byte>, hits: seq<nat>)
    requires forall k :: 0 <= k < |hits| ==> hits[k] <= |data|
    requires forall j, k :: 0 <= j < k < |hits| ==> hits[j] <= hits[k]
    ensures forall j, k :: 0 <= j < k < |ReportedLines(data, hits)| ==>
      ReportedLines(data, hits)[j] < ReportedLines(data, hits)[k]
  {
    if |hits| > 1 {
      var n := |hits|;
      ReportedIncreasing(data, hits[..n - 1]);
      LineMonotone(data, hits[n - 2], hits[n - 1]);
    }
  }

  /** A line is reported exactly when some hit lies on it. */
  lemma {:induction false} ReportedCovers(data: seq<byte>, hits: seq<nat>, l: nat)
    requires forall k :: 0 <= k < |hits| ==> hits[k] <= |data|
    ensures l in ReportedLines(data, hits) <==> exists k :: 0 <= k < |hits| && LineOf(data, hits[k]) == l
  {
    if hits != [] {
      var n := |hits|;
      var front := hits[..n - 1];
      ReportedCovers(data, front, l);
      if exists k :: 0 <= k < n - 1 && LineOf(data, front[k]) == l {
        var k :| 0 <= k < n - 1 && LineOf(data, front[k]) == l;
        assert hits[k] == front[k];
      }
      if exists k :: 0 <= k < n && LineOf(data, hits[k]) == l {
        var k :| 0 <= k < n && LineOf(data, hits[k]) == l;
        if k < n - 1 {
          assert front[k] == hits[k];
        }
      }
    }
  }

  lemma ReportedStep(data: seq<byte>, hits: seq<nat>, i: nat)
    requires forall k :: 0 <= k < |hits| ==> hits[k] <= |data|
    requires i < |hits|
    ensures var r := ReportedLines(data, hits[..i]);
      var l := LineOf(data, hits[i]);
      ReportedLines(data, hits[..i + 1]) == if i > 0 && LineOf(data, hits[i - 1]) == l then r else r + [l]
  {
    assert hits[..i + 1][..i] == hits[..i];
  }

  /** One entry of a reply: `"name:line"`, quotes included. */
  function Format(filename: string, line: nat): string {
    "\"" + filename + ":" + NatToString(line) + "\""
  }

  /** Distinct lines of one file give distinct entries. */
  lemma FormatInjective(filename: string, a: nat, b: nat)
    requires Format(filename, a) == Format(filename, b)
    ensures a == b
  {
    var k := |filename| + 2;
    var sa, sb := Format(filename, a), Format(filename, b);
    assert NatToString(a) == sa[k..|sa| - 1];
    assert NatToString(b) == sb[k..|sb| - 1];
    DecimalRoundTrip(a);
    DecimalRoundTrip(b);
  }

  function Formatted(filename: string, lines: seq<nat>): (r: seq<string>)
    ensures |r| == |lines|
  {
    seq(|lines|, k requires 0 <= k < |lines| => Format(filename, lines[k]))
  }

  lemma FormattedSnoc(filename: string, lines: seq<nat>, l: nat)
    ensures Formatted(filename, lines + [l]) == Formatted(filename, lines) + [Format(filename, l)]
  {
  }

  /**
   * The per-file loop of `Query`: walks `bx` forward to each sorted hit,
   * counting the line feeds passed, and appends an entry whenever the
   * hit's line differs from the previous hit's.
   */
  method FileHits(filename: string, data: seq<byte>, hits: seq<nat>) returns (results: seq<string>)
    requires forall k :: 0 <= k < |hits| ==> hits[k] <= |data|
    requires forall j, k :: 0 <= j < k < |hits| ==> hits[j] <= hits[k]
    ensures results == Formatted(filename, ReportedLines(data, hits))
  {
    var line := 1;
    var lastline := 0;
    var bx := 0;
    results := [];
    for i := 0 to |hits|
      invariant bx <= |data| && line == LineOf(data, bx)
      invariant i == 0 ==> bx == 0 && lastline == 0
      invariant i > 0 ==> bx == hits[i - 1] && lastline == line
      invariant results == Formatted(filename, ReportedLines(data, hits[..i]))
    {
      var pos := hits[i];
      while bx < pos
        invariant bx <= pos && line == LineOf(data, bx)
        decreases pos - bx
      {
        var ll := IndexByte(data[bx..pos], LF);
        if ll >= 0 {
          NewlineStep(data, bx, pos, ll);
          bx := bx + ll + 1;
          line := line + 1;
        } else {
          NoNewlineStep(data, bx, pos);
          bx := pos;
          break;
        }
      }
      ReportedStep(data, hits, i);
      if line != lastline {
        FormattedSnoc(filename, ReportedLines(data, hits[..i]), line);
        results := results + [Format(filename, line)];
      }
      lastline := line;
    }
    assert hits[..|hits|] == hits;
  }

  /** The entries for one file. */
  function FileResults(name: string, data: seq<byte>, query: seq<byte>): seq<string> {
    Formatted(name, ReportedLines(data, Lookup(data, query)))
  }

  /** `s` names file `name` and the line of one of the matches in its contents. */
  ghost predicate ReportsMatch(name: string, data: seq<byte>, query: seq<byte>, s: string) {
    exists pos: nat :: MatchAt(data, query, pos) && s == Format(name, LineOf(data, pos))
  }

  lemma FileResultsSound(name: string, data: seq<byte>, query: seq<byte>, j: nat)
    requires j < |FileResults(name, data, query)|
    ensures ReportsMatch(name, data, query, FileResults(name, data, query)[j])
  {
    var hits := Lookup(data, query);
    var lines := ReportedLines(data, hits);
    ReportedCovers(data, hits, lines[j]);
    var k :| 0 <= k < |hits| && LineOf(data, hits[k]) == lines[j];
    assert MatchAt(data, query, hits[k]);
    assert FileResults(name, data, query)[j] == Format(name, LineOf(data, hits[k]));
  }

  lemma FileResultsComplete(name: string, data: seq<byte>, query: seq<byte>, pos: nat)
    requires query != [] && MatchAt(data, query, pos)
    ensures Format(name, LineOf(data, pos)) in FileResults(name, data, query)
  {
    var hits := Lookup(data, query);
    var lines := ReportedLines(data, hits);
    LookupComplete(data, query, pos);
    ReportedCovers(data, hits, LineOf(data, pos));
    var j :| 0 <= j < |lines| && lines[j] == LineOf(data, pos);
    assert FileResults(name, data, query)[j] == Format(name, LineOf(data, pos));
  }

  /** The entries for one file are exactly its name with the lines of its matches. */
  lemma FileResultsMembers(name: string, data: seq<byte>, query: seq<byte>, s: string)
    requires query != []
    ensures s in FileResults(name, data, query) <==> ReportsMatch(name, data, query, s)
  {
    if s in FileResults(name, data, query) {
      var j :| 0 <= j < |FileResults(name, data, query)| && FileResults(name, data, query)[j] == s;
      FileResultsSound(name, data, query, j);
    }
    if ReportsMatch(name, data, query, s) {
      var pos: nat :| MatchAt(data, query, pos) && s == Format(name, LineOf(data, pos));
      FileResultsComplete(name, data, query, pos);
    }
  }

  // ------------------------------------------------------------ the searcher

  /** Files of this size or more are not indexed. */
  const MaxFileSize: int := 0x10_0000

  /** The searcher a path belongs to: its last byte modulo 4. */
  function Shard(path: string): (id: int)
    requires |path| > 0
    ensures 0 <= id < 4
  {
    (path[|path| - 1] as int) % 4
  }

  /** Whether searcher `id` indexes a walked path. */
  predicate Takes(id: int, path: string, regular: bool, size: int)
    requires |path| > 0
  {
    Shard(path) == id && regular && size < MaxFileSize
  }

  /** Each regular, small enough file is indexed by exactly one of the four searchers. */
  lemma OneSearcherPerFile(path: string, regular: bool, size: int, a: int, b: int)
    requires |path| > 0
    ensures regular && size < MaxFileSize ==> Takes(Shard(path), path, regular, size)
    ensures Takes(a, path, regular, size) && Takes(b, path, regular, size) ==> a == b && 0 <= a < 4
  {
  }

  /** The root as `Index` stores it: with a trailing slash. */
  function BasePath(path: string): (b: string)
    ensures HasSuffix(b, "/") && HasPrefix(b, path) && |b| <= |path| + 1
    ensures HasSuffix(path, "/") ==> b == path
  {
    if HasSuffix(path, "/") then path else path + "/"
  }

  lemma BasePathIdempotent(path: string)
    ensures BasePath(BasePath(path)) == BasePath(path)
  {
  }

  /** A file under the root is indexed under its path relative to the root. */
  lemma IndexedName(root: string, rest: string)
    ensures TrimPrefix(BasePath(root) + rest, BasePath(root)) == rest
  {
    var b := BasePath(root);
    assert (b + rest)[..|b|] == b;
  }

  /** A file `filepath.Walk` visits: its path, whether it is regular, its size and contents. */
  datatype WalkEntry = WalkEntry(path: string, regular: bool, size: int, data: seq<byte>)

  /** The index after visiting `walk` in order. */
  function IndexedFiles(files: map<string, seq<byte>>, id: int, base: string, walk: seq<WalkEntry>): map<string, seq<byte>>
    requires forall k :: 0 <= k < |walk| ==> |walk[k].path| > 0
  {
    if walk == [] then files
    else
      var m := IndexedFiles(files, id, base, walk[..|walk| - 1]);
      var e := walk[|walk| - 1];
      if Takes(id, e.path, e.regular, e.size) then m[TrimPrefix(e.path, base) := e.data] else m
  }

  /** Every indexed name was there before or names a walked file this searcher takes. */
  lemma {:induction false} IndexedFilesFrom(files: map<string, seq<byte>>, id: int, base: string, walk: seq<WalkEntry>, name: string)
    requires forall k :: 0 <= k < |walk| ==> |walk[k].path| > 0
    requires name in IndexedFiles(files, id, base, walk)
    ensures name in files || exists k ::
      0 <= k < |walk| && Takes(id, walk[k].path, walk[k].regular, walk[k].size) && TrimPrefix(walk[k].path, base) == name
  {
    if walk != [] {
      var n := |walk|;
      var front := walk[..n - 1];
      var e := walk[n - 1];
      if !(Takes(id, e.path, e.regular, e.size) && TrimPrefix(e.path, base) == name) {
        IndexedFilesFrom(files, id, base, front, name);
        if !(name in files) {
          var k :| 0 <= k < n - 1 && Takes(id, front[k].path, front[k].regular, front[k].size) &&
            TrimPrefix(front[k].path, base) == name;
          assert walk[k] == front[k];
        }
      }
    }
  }

  /** The entries of the files taken in `order`, one file after another. */
  function AllResults(files: map<string, seq<byte>>, order: seq<string>, query: seq<byte>): seq<string>
    requires forall k :: 0 <= k < |order| ==> order[k] in files
  {
    if order == [] then []
    else
      var name := order[|order| - 1];
      AllResults(files, order[..|order| - 1], query) + FileResults(name, files[name], query)
  }

  lemma {:induction false} AllResultsSound(files: map<string, seq<byte>>, order: seq<string>, query: seq<byte>, s: string)
    requires forall k :: 0 <= k < |order| ==> order[k] in files
    requires query != [] && s in AllResults(files, order, query)
    ensures exists k :: 0 <= k < |order| && ReportsMatch(order[k], files[order[k]], query, s)
  {
    var n := |order|;
    var front := order[..n - 1];
    var name := order[n - 1];
    if s in AllResults(files, front, query) {
      AllResultsSound(files, front, query, s);
      var k :| 0 <= k < n - 1 && ReportsMatch(front[k], files[front[k]], query, s);
      assert order[k] == front[k];
    } else {
      FileResultsMembers(name, files[name], query, s);
      assert ReportsMatch(order[n - 1], files[order[n - 1]], query, s);
    }
  }

  /** The last file's entries follow those of the files before it. */
  lemma AllResultsLast(files: map<string, seq<byte>>, order: seq<string>, query: seq<byte>)
    requires forall k :: 0 <= k < |order| ==> order[k] in files
    requires order != []
    ensures AllResults(files, order, query) ==
      AllResults(files, order[..|order| - 1], query) + FileResults(order[|order| - 1], files[order[|order| - 1]], query)
  {
  }

  lemma InConcat(a: seq<string>, b: seq<string>, s: string)
    requires s in a || s in b
    ensures s in a + b
  {
  }

  lemma AllResultsCompleteLast(files: map<string, seq<byte>>, order: seq<string>, query: seq<byte>, s: string)
    requires forall k :: 0 <= k < |order| ==> order[k] in files
    requires query != [] && order != []
    requires ReportsMatch(order[|order| - 1], files[order[|order| - 1]], query, s)
    ensures s in AllResults(files, order, query)
  {
    var name := order[|order| - 1];
    FileResultsMembers(name, files[name], query, s);
    InConcat(AllResults(files, order[..|order| - 1], query), FileResults(name, files[name], query), s);
    AllResultsLast(files, order, query);
  }

  lemma {:induction false} AllResultsComplete(files: map<string, seq<byte>>, order: seq<string>, query: seq<byte>, s: string, k: nat)
    requires forall k :: 0 <= k < |order| ==> order[k] in files
    requires query != [] && k < |order| && ReportsMatch(order[k], files[order[k]], query, s)
    ensures s in AllResults(files, order, query)
    decreases |order|
  {
    var n := |order|;
    if k == n - 1 {
      AllResultsCompleteLast(files, order, query, s);
    } else {
      var front := order[..n - 1];
      var name := order[n - 1];
      assert front[k] == order[k];
      AllResultsComplete(files, front, query, s, k);
      InConcat(AllResults(files, front, query), FileResults(name, files[name], query), s);
      AllResultsLast(files, order, query);
    }
  }

  /**
   * Whatever order the files are taken in, an entry is reported exactly when
   * it names one of them and the line of one of its matches.
   */
  lemma AllResultsMembers(files: map<string, seq<byte>>, order: seq<string>, query: seq<byte>, s: string)
    requires forall k :: 0 <= k < |order| ==> order[k] in files
    requires query != []
    ensures s in AllResults(files, order, query) <==>
      exists k :: 0 <= k < |order| && ReportsMatch(order[k], files[order[k]], query, s)
  {
    if s in AllResults(files, order, query) {
      AllResultsSound(files, order, query, s);
    }
    if exists k :: 0 <= k < |order| && ReportsMatch(order[k], files[order[k]], query, s) {
      var k :| 0 <= k < |order| && ReportsMatch(order[k], files[order[k]], query, s);
      AllResultsComplete(files, order, query, s, k);
    }
  }

  /** `order` visits every indexed file exactly once, as `range` over a Go map does. */
  predicate Enumerates(files: map<string, seq<byte>>, order: seq<string>) {
    (forall k :: 0 <= k < |order| ==> order[k] in files) &&
    (forall name :: name in files ==> name in order) &&
    (forall i, j :: 0 <= i < j < |order| ==> order[i] != order[j])
  }

  /**
   * Over an order that visits every file once, an entry is reported exactly
   * when it names some indexed file and the line of one of its matches.
   */
  lemma AllResultsOfFiles(files: map<string, seq<byte>>, order: seq<string>, query: seq<byte>, s: string)
    requires Enumerates(files, order) && query != []
    ensures s in AllResults(files, order, query) <==>
      exists name :: name in files && ReportsMatch(name, files[name], query, s)
  {
    AllResultsMembers(files, order, query, s);
    if exists name :: name in files && ReportsMatch(name, files[name], query, s) {
      var name :| name in files && ReportsMatch(name, files[name], query, s);
      var k :| 0 <= k < |order| && order[k] == name;
    }
  }

  /** A worker's reply body: its entries, one per line. */
  function WorkerBody(results: seq<string>): string {
    Join(results, "\n")
  }

  /** The master's entries: its own, then each non-empty worker body split at line feeds. */
  function Merged(local: seq<string>, bodies: seq<string>): seq<string> {
    if bodies == [] then local
    else
      var m := Merged(local, bodies[..|bodies| - 1]);
      var b := bodies[|bodies| - 1];
      if |b| > 0 then m + Split(b, '\n') else m
  }

  /** The master's reply. */
  function MasterBody(results: seq<string>): string {
    "{\"success\":true,\"results\":[" + Join(results, ",") + "]}"
  }

  function Concat(ws: seq<seq<string>>): seq<string> {
    if ws == [] then [] else Concat(ws[..|ws| - 1]) + ws[|ws| - 1]
  }

  /** Entries with no line feed that are not empty survive the trip through a worker body. */
  predicate Transmissible(results: seq<string>) {
    forall i :: 0 <= i < |results| ==> results[i] != "" && '\n' !in results[i]
  }

  /** A worker with entries sends a non-empty body, and the master splits it back into them. */
  lemma WorkerBodyRecovered(results: seq<string>)
    requires results != [] && Transmissible(results)
    ensures |WorkerBody(results)| > 0 && Split(WorkerBody(results), '\n') == results
  {
    SplitJoin(results, '\n');
    if |results| > 1 {
      assert WorkerBody(results) == results[0] + "\n" + Join(results[1..], "\n");
    }
  }

  /**
   * When each body is a worker's entries joined by line feeds, the master
   * ends with its own entries followed by every worker's, in arrival order.
   */
  lemma MergedLast(local: seq<string>, bodies: seq<string>)
    requires bodies != []
    ensures Merged(local, bodies) == Merged(local, bodies[..|bodies| - 1]) +
      (if |bodies[|bodies| - 1]| > 0 then Split(bodies[|bodies| - 1], '\n') else [])
  {
  }

  lemma ConcatLast(ws: seq<seq<string>>)
    requires ws != []
    ensures Concat(ws) == Concat(ws[..|ws| - 1]) + ws[|ws| - 1]
  {
  }

  /** A worker's body, once split by the master, gives back its entries. */
  lemma BodyRecovered(w: seq<string>, body: string)
    requires Transmissible(w) && body == WorkerBody(w)
    ensures (if |body| > 0 then Split(body, '\n') else []) == w
  {
    if w != [] {
      WorkerBodyRecovered(w);
    }
  }

  /**
   * When each body is a worker's entries joined by line feeds, the master
   * ends with its own entries followed by every worker's, in arrival order.
   */
  lemma {:induction false} MergedRecovers(local: seq<string>, ws: seq<seq<string>>, bodies: seq<string>)
    requires |bodies| == |ws|
    requires forall i :: 0 <= i < |ws| ==> Transmissible(ws[i]) && bodies[i] == WorkerBody(ws[i])
    ensures Merged(local, bodies) == local + Concat(ws)
    decreases |ws|
  {
    if ws == [] {
      assert local + [] == local;
    } else {
      var n := |ws|;
      MergedRecovers(local, ws[..n - 1], bodies[..n - 1]);
      BodyRecovered(ws[n - 1], bodies[n - 1]);
      MergedLast(local, bodies);
      ConcatLast(ws);
      Regroup3(local, Concat(ws[..n - 1]), ws[n - 1]);
    }
  }

  lemma Regroup3(a: seq<string>, b: seq<string>, c: seq<string>)
    ensures a + b + c == a + (b + c)
  {
  }

  /** Format entries never hold a line feed when the name does not. */
  lemma FormatTransmissible(name: string, lines: seq<nat>)
    requires '\n' !in name
    ensures Transmissible(Formatted(name, lines))
  {
    forall i | 0 <= i < |lines| ensures '\n' !in Formatted(name, lines)[i] {
      var s := NatToString(lines[i]);
      assert Formatted(name, lines)[i] == "\"" + name + ":" + s + "\"";
    }
  }

  /**
   * `Searcher`: its shard number, whether indexing has finished, the root
   * of the tree and the indexed files by name.
   */
  class Searcher {
    const id: int
    var isIndexed: bool
    var basePath: string
    var files: map<string, seq<byte>>

    constructor(id: int)
      ensures this.id == id && !isIndexed && basePath == "" && files == map[]
    {
      this.id := id;
      isIndexed := false;
      basePath := "";
      files := map[];
    }

    /**
     * `Index`: `isDir` says whether `os.Stat` found a directory at `path`.
     * The status answered is that flag; a directory becomes the root.
     */
    method Index(path: string, isDir: bool) returns (ok: bool)
      modifies this
      ensures ok == isDir
      ensures basePath == (if isDir then BasePath(path) else old(basePath))
      ensures files == old(files) && isIndexed == old(isIndexed)
    {
      if isDir {
        if HasSuffix(path, "/") {
          basePath := path;
        } else {
          basePath := path + "/";
        }
        ok := true;
      } else {
        ok := false;
      }
    }

    /** `indexFile`: a file of this searcher's shard that is regular and small enough is stored. */
    method IndexFile(e: WalkEntry)
      requires |e.path| > 0
      modifies this
      ensures files == if Takes(id, e.path, e.regular, e.size) then old(files)[TrimPrefix(e.path, basePath) := e.data] else old(files)
      ensures basePath == old(basePath) && isIndexed == old(isIndexed)
    {
      if (e.path[|e.path| - 1] as int) % 4 != id {
        return;
      }
      if e.regular && e.size < MaxFileSize {
        var name := TrimPrefix(e.path, basePath);
        files := files[name := e.data];
      }
    }

    /** `doIndex`: the walk visits `walk` in order; `walkOk` is whether it reported no error. */
    method DoIndex(walk: seq<WalkEntry>, walkOk: bool)
      requires forall k :: 0 <= k < |walk| ==> |walk[k].path| > 0
      modifies this
      ensures files == IndexedFiles(old(files), id, basePath, walk)
      ensures isIndexed == walkOk && basePath == old(basePath)
    {
      for i := 0 to |walk|
        invariant basePath == old(basePath)
        invariant files == IndexedFiles(old(files), id, basePath, walk[..i])
      {
        IndexFile(walk[i]);
        assert walk[..i + 1][..i] == walk[..i];
      }
      assert walk[..|walk|] == walk;
      isIndexed := walkOk;
    }

    /**
     * The local part of `Query`: the entries of every indexed file, taken in
     * the map order `order`. An entry is reported exactly when it names an
     * indexed file and a line on which the query occurs.
     */
    method LocalResults(query: seq<byte>, order: seq<string>) returns (results: seq<string>)
      requires Enumerates(files, order)
      ensures results == AllResults(files, order, query)
      ensures query != [] ==> forall s :: s in results <==>
        exists name :: name in files && ReportsMatch(name, files[name], query, s)
    {
      results := [];
      for i := 0 to |order|
        invariant results == AllResults(files, order[..i], query)
      {
        var name := order[i];
        var data := files[name];
        var hits := Lookup(data, query);
        var r := FileHits(name, data, hits);
        assert order[..i + 1][..i] == order[..i];
        results := results + r;
      }
      assert order[..|order|] == order;
      if query != [] {
        forall s ensures s in results <==> exists name :: name in files && ReportsMatch(name, files[name], query, s) {
          AllResultsOfFiles(files, order, query, s);
        }
      }
    }

    /**
     * `Query`: a worker answers its entries one per line; the master adds
     * the non-empty bodies of the workers, in the order they arrive, and
     * answers the JSON object.
     */
    method Query(query: seq<byte>, order: seq<string>, bodies: seq<string>) returns (reply: string)
      requires Enumerates(files, order)
      ensures id == 0 ==> reply == MasterBody(Merged(AllResults(files, order, query), bodies))
      ensures id != 0 ==> reply == WorkerBody(AllResults(files, order, query))
    {
      var results := LocalResults(query, order);
      if id == 0 {
        for i := 0 to |bodies|
          invariant results == Merged(AllResults(files, order, query), bodies[..i])
        {
          var b := bodies[i];
          assert bodies[..i + 1][..i] == bodies[..i];
          if |b| > 0 {
            results := results + Split(b, '\n');
          }
        }
        assert bodies[..|bodies|] == bodies;
        reply := MasterBody(results);
      } else {
        reply := WorkerBody(results);
      }
    }
  }
}
