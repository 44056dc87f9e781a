/**
 * The per-node execution engine of the SQL cluster (level4/sql/sql.go): a
 * batch is split on `;`, each non-empty statement is run against the
 * embedded SQLite engine, rows and errors are rendered as text, repeated
 * error codes are collapsed, and a per-node counter numbers the calls.
 *
 * SQLite itself is an oracle: the outcome of a statement is a function of
 * the statement and of the statements run before it on the same connection.
 */
module Sql {
  import opened Wrappers
  import opened Strings

  /** One result row, scanned as (string, integer, integer, string). */
  datatype Row = Row(s1: string, n1: int, n2: int, s2: string)

  /** What the embedded engine does with one statement. */
  datatype StmtOutcome =
    | PrepareFailed(message: string)
    | QueryFailed(message: string)
      /** The rows scanned until `Next` stopped; empty when `Query` reported end of data. */
    | Rows(rows: seq<Row>)

  /** The engine: a statement's outcome given every statement run before it. */
  type Engine = (seq<string>, string) -> StmtOutcome

  datatype Output = Output(stdout: string, stderr: string, sequenceNumber: int)

  // ---------------------------------------------------------------- errors

  function ErrorPrefix(line: int): string {
    "Error: near line " + IntToString(line) + ": "
  }

  /** The error line for statement `line`: the engine's message without its `sqlite3: ` tag. */
  function FinagleError(line: int, error: string): (r: string)
    ensures HasPrefix(r, ErrorPrefix(line)) && HasPrefix(r, "Error: ")
    ensures |r| > |ErrorPrefix(line)| && r[|r| - 1] == '\n'
    ensures HasPrefix(error, "sqlite3: ") ==> r[|ErrorPrefix(line)|..|r| - 1] == error[9..]
    ensures !HasPrefix(error, "sqlite3: ") ==> r[|ErrorPrefix(line)|..|r| - 1] == error
  {
    ErrorPrefix(line) + TrimPrefix(error, "sqlite3: ") + "\n"
  }

  // ------------------------------------------------- error deduplication

  /** A line split at its last space: the text before it and the code after it. */
  datatype Entry = Entry(text: string, code: string)

  function EntryOf(line: string): Option<Entry> {
    var i := LastIndexOf(line, ' ');
    if i < 0 then None else Some(Entry(line[..i], line[i + 1..]))
  }

  /** The entries of the lines that contain a space, in order. */
  function Entries(lines: seq<string>): seq<Entry> {
    if lines == [] then []
    else
      var prefix := Entries(lines[..|lines| - 1]);
      match EntryOf(lines[|lines| - 1])
      case None => prefix
      case Some(e) => prefix + [e]
  }

  /** The distinct codes of `es`, in the order of their first appearance. */
  function FirstSeen(es: seq<Entry>): seq<string> {
    if es == [] then []
    else
      var d := FirstSeen(es[..|es| - 1]);
      if es[|es| - 1].code in d then d else d + [es[|es| - 1].code]
  }

  /** The text of the last entry with the given code. */
  function LastText(es: seq<Entry>, code: string): string {
    if es == [] then ""
    else if es[|es| - 1].code == code then es[|es| - 1].text
    else LastText(es[..|es| - 1], code)
  }

  function NonEmpty(texts: seq<string>): seq<string> {
    if texts == [] then []
    else
      var prefix := NonEmpty(texts[..|texts| - 1]);
      if texts[|texts| - 1] == "" then prefix else prefix + [texts[|texts| - 1]]
  }

  /** Each text followed by a line feed. */
  function Terminated(texts: seq<string>): string {
    if texts == [] then ""
    else Terminated(texts[..|texts| - 1]) + texts[|texts| - 1] + "\n"
  }

  /** One text per distinct code, the latest text seen with it. */
  function DedupTexts(es: seq<Entry>): seq<string> {
    var d := FirstSeen(es);
    seq(|d|, j requires 0 <= j < |d| => LastText(es, d[j]))
  }

  /** What `filterErrors` makes of the combined output of a batch. */
  function Filtered(output: string): string {
    if HasPrefix(output, "Error: ") then Terminated(NonEmpty(DedupTexts(Entries(Split(output, '\n')))))
    else output
  }

  lemma {:induction false} FirstSeenCodes(es: seq<Entry>)
    ensures forall c :: c in FirstSeen(es) <==> exists k :: 0 <= k < |es| && es[k].code == c
  {
    if es != [] {
      var p := es[..|es| - 1];
      FirstSeenCodes(p);
      forall c ensures c in FirstSeen(es) <==> exists k :: 0 <= k < |es| && es[k].code == c {
        if c in FirstSeen(p) {
          var k :| 0 <= k < |p| && p[k].code == c;
          assert es[k].code == c;
        }
        if exists k :: 0 <= k < |es| && es[k].code == c {
          var k :| 0 <= k < |es| && es[k].code == c;
          if k < |p| { assert p[k].code == c; }
        }
      }
    }
  }

  /** No code is emitted twice. */
  lemma {:induction false} FirstSeenDistinct(es: seq<Entry>)
    ensures forall i, j :: 0 <= i < j < |FirstSeen(es)| ==> FirstSeen(es)[i] != FirstSeen(es)[j]
  {
    if es != [] {
      FirstSeenDistinct(es[..|es| - 1]);
    }
  }

  /**
   * Codes are emitted in the order of their first appearance: every
   * occurrence of a later code comes after some occurrence of each earlier one.
   */
  lemma {:induction false} FirstSeenOrder(es: seq<Entry>, i: nat, j: nat, k: nat)
    requires i < j < |FirstSeen(es)| && k < |es| && es[k].code == FirstSeen(es)[j]
    ensures exists k' :: 0 <= k' < k && es[k'].code == FirstSeen(es)[i]
  {
    var p := es[..|es| - 1];
    var d := FirstSeen(p);
    FirstSeenCodes(p);
    if k < |p| {
      assert p[k].code == es[k].code;
      assert es[k].code in d;
      assert j < |d|;
      FirstSeenOrder(p, i, j, k);
      var k' :| 0 <= k' < k && p[k'].code == d[i];
      assert es[k'].code == d[i];
    } else if es[k].code in d {
      var k0 :| 0 <= k0 < |p| && p[k0].code == es[k].code;
      var j0 :| 0 <= j0 < |d| && d[j0] == es[k].code;
      FirstSeenDistinct(es);
      assert FirstSeen(es) == d;
      assert j0 == j;
      FirstSeenOrder(p, i, j, k0);
      var k' :| 0 <= k' < k0 && p[k'].code == d[i];
      assert es[k'].code == d[i];
    } else {
      assert d[i] in d;
      var k' :| 0 <= k' < |p| && p[k'].code == d[i];
      assert es[k'].code == FirstSeen(es)[i];
    }
  }

  /** The text kept for a code is that of the latest entry with that code. */
  lemma {:induction false} LastTextIsLatest(es: seq<Entry>, code: string)
    requires exists k :: 0 <= k < |es| && es[k].code == code
    ensures exists k ::
      0 <= k < |es| && es[k].code == code && es[k].text == LastText(es, code) &&
      (forall k' :: k < k' < |es| ==> es[k'].code != code)
  {
    var n := |es| - 1;
    if es[n].code != code {
      var p := es[..n];
      var k0 :| 0 <= k0 < |es| && es[k0].code == code;
      assert p[k0].code == code;
      LastTextIsLatest(p, code);
      var k :| 0 <= k < |p| && p[k].code == code && p[k].text == LastText(p, code) &&
        forall k' :: k < k' < |p| ==> p[k'].code != code;
      assert es[k].code == code && es[k].text == LastText(es, code);
    }
  }

  lemma {:induction false} TerminatedPrepend(t: string, texts: seq<string>)
    ensures Terminated([t] + texts) == t + "\n" + Terminated(texts)
  {
    if texts != [] {
      var n := |texts| - 1;
      assert ([t] + texts)[..n + 1] == [t] + texts[..n];
      TerminatedPrepend(t, texts[..n]);
    } else {
      assert ([t] + texts)[..0] == [];
    }
  }

  /** Terminated texts split back into those texts and an empty last piece. */
  lemma {:induction false} SplitTerminated(texts: seq<string>)
    requires forall i :: 0 <= i < |texts| ==> '\n' !in texts[i]
    ensures Split(Terminated(texts), '\n') == texts + [""]
  {
    if texts != [] {
      SplitTerminated(texts[1..]);
      TerminatedPrepend(texts[0], texts[1..]);
      assert [texts[0]] + texts[1..] == texts;
      SplitAtSeparator(texts[0], '\n', Terminated(texts[1..]));
    }
  }

  lemma {:induction false} NonEmptyFacts(texts: seq<string>)
    ensures forall i :: 0 <= i < |NonEmpty(texts)| ==> NonEmpty(texts)[i] != "" && NonEmpty(texts)[i] in texts
    ensures |NonEmpty(texts)| <= |texts|
  {
    if texts != [] {
      NonEmptyFacts(texts[..|texts| - 1]);
    }
  }

  lemma {:induction false} NonEmptyPadded(a: seq<string>, b: seq<string>)
    requires forall i :: 0 <= i < |b| ==> b[i] == ""
    ensures NonEmpty(a + b) == NonEmpty(a)
  {
    if b != [] {
      var n := |b| - 1;
      assert (a + b)[..|a| + n] == a + b[..n];
      assert (a + b)[|a| + n] == b[n] == "";
      assert NonEmpty(a + b) == NonEmpty(a + b[..n]);
      NonEmptyPadded(a, b[..n]);
    } else {
      assert a + b == a;
    }
  }

  lemma {:induction false} EntriesHaveNoBreak(lines: seq<string>)
    requires forall i :: 0 <= i < |lines| ==> '\n' !in lines[i]
    ensures forall k :: 0 <= k < |Entries(lines)| ==> '\n' !in Entries(lines)[k].text
  {
    if lines != [] {
      EntriesHaveNoBreak(lines[..|lines| - 1]);
    }
  }

  /**
   * When the combined output starts with an error, its lines after
   * filtering are the kept texts that are not empty, one per line.
   */
  lemma FilteredLines(output: string)
    requires HasPrefix(output, "Error: ")
    ensures Split(Filtered(output), '\n') == NonEmpty(DedupTexts(Entries(Split(output, '\n')))) + [""]
    ensures |NonEmpty(DedupTexts(Entries(Split(output, '\n'))))| <= |FirstSeen(Entries(Split(output, '\n')))|
  {
    var es := Entries(Split(output, '\n'));
    var ts := DedupTexts(es);
    EntriesHaveNoBreak(Split(output, '\n'));
    forall j | 0 <= j < |ts| ensures '\n' !in ts[j] {
      var c := FirstSeen(es)[j];
      FirstSeenCodes(es);
      assert c in FirstSeen(es);
      LastTextIsLatest(es, c);
      var k :| 0 <= k < |es| && es[k].code == c && es[k].text == LastText(es, c) &&
        (forall k' :: k < k' < |es| ==> es[k'].code != c);
      assert ts[j] == es[k].text;
    }
    NonEmptyFacts(ts);
    SplitTerminated(NonEmpty(ts));
  }

  lemma {:induction false} EntriesStep(lines: seq<string>, line: string)
    ensures Entries(lines + [line]) ==
      match EntryOf(line) case None => Entries(lines) case Some(e) => Entries(lines) + [e]
  {
    assert (lines + [line])[..|lines|] == lines;
  }

  lemma {:induction false} FirstSeenStep(es: seq<Entry>, e: Entry)
    ensures FirstSeen(es + [e]) == if e.code in FirstSeen(es) then FirstSeen(es) else FirstSeen(es) + [e.code]
  {
    assert (es + [e])[..|es|] == es;
  }

  lemma {:induction false} LastTextStep(es: seq<Entry>, e: Entry, code: string)
    ensures LastText(es + [e], code) == if e.code == code then e.text else LastText(es, code)
  {
    assert (es + [e])[..|es|] == es;
  }

  lemma ExampleLines(a: string, b: string, c: string)
    requires '\n' !in a && '\n' !in b && '\n' !in c
    ensures Split(a + "\n" + b + "\n" + c + "\n", '\n') == [a, b, c, ""]
  {
    assert a + "\n" + b + "\n" + c + "\n" == a + ['\n'] + (b + ['\n'] + (c + ['\n'] + ""));
    SplitAtSeparator(c, '\n', "");
    SplitAtSeparator(b, '\n', c + ['\n'] + "");
    SplitAtSeparator(a, '\n', b + ['\n'] + (c + ['\n'] + ""));
  }

  lemma ExampleEntry(text: string, code: char)
    requires ' ' !in text && code != ' '
    ensures '\n' !in text && code != '\n' ==> '\n' !in "Error: " + text + " " + [code]
    ensures EntryOf("Error: " + text + " " + [code]) == Some(Entry("Error: " + text, [code]))
  {
    var line := "Error: " + text + " " + [code];
    var n := |line|;
    assert line[..n - 1] == "Error: " + text + " ";
    assert LastIndexOf(line, ' ') == n - 2;
    assert line[..n - 2] == "Error: " + text;
    assert line[n - 1..] == [code];
  }

  lemma EntriesOfThree(l0: string, l1: string, l2: string, e0: Entry, e1: Entry, e2: Entry)
    requires EntryOf(l0) == Some(e0) && EntryOf(l1) == Some(e1) && EntryOf(l2) == Some(e2)
    ensures Entries([l0, l1, l2, ""]) == [e0, e1, e2]
  {
    assert EntryOf("") == None;
    EntriesStep([], l0);
    assert [l0] == [] + [l0];
    EntriesStep([l0], l1);
    assert [l0, l1] == [l0] + [l1];
    EntriesStep([l0, l1], l2);
    assert [l0, l1, l2] == [l0, l1] + [l2];
    EntriesStep([l0, l1, l2], "");
    assert [l0, l1, l2, ""] == [l0, l1, l2] + [""];
  }

  lemma ExampleDedup(e0: Entry, e1: Entry, e2: Entry)
    requires e0.code == e2.code != e1.code
    ensures DedupTexts([e0, e1, e2]) == [e2.text, e1.text]
  {
    var es := [e0, e1, e2];
    FirstSeenStep([], e0);
    FirstSeenStep([e0], e1);
    FirstSeenStep([e0, e1], e2);
    assert [e0] == [] + [e0] && [e0, e1] == [e0] + [e1] && es == [e0, e1] + [e2];
    assert FirstSeen(es) == [e0.code, e1.code];
    LastTextStep([e0, e1], e2, e0.code);
    LastTextStep([e0, e1], e2, e1.code);
    LastTextStep([e0], e1, e1.code);
  }

  lemma RenderTwo(a: string, b: string)
    requires a != "" && b != ""
    ensures Terminated(NonEmpty([a, b])) == a + "\n" + b + "\n"
  {
    var ts := [a, b];
    assert ts[..1] == [a] && ts[..1][..0] == [];
    assert NonEmpty(ts[..1]) == [a];
    assert NonEmpty(ts) == ts;
    assert Terminated(ts) == Terminated(ts[..1]) + b + "\n";
  }

  function ExampleOutput(x: string, y: string, z: string, c: char, c': char): string {
    "Error: " + x + " " + [c] + "\n" + "Error: " + y + " " + [c'] + "\n" + "Error: " + z + " " + [c] + "\n"
  }

  lemma ExampleOutputEntries(x: string, y: string, z: string, c: char, c': char)
    requires ' ' !in x && ' ' !in y && ' ' !in z && '\n' !in x && '\n' !in y && '\n' !in z
    requires c != ' ' && c' != ' ' && c != '\n' && c' != '\n'
    ensures HasPrefix(ExampleOutput(x, y, z, c, c'), "Error: ")
    ensures Entries(Split(ExampleOutput(x, y, z, c, c'), '\n')) ==
      [Entry("Error: " + x, [c]), Entry("Error: " + y, [c']), Entry("Error: " + z, [c])]
  {
    var l0, l1, l2 := "Error: " + x + " " + [c], "Error: " + y + " " + [c'], "Error: " + z + " " + [c];
    var output := ExampleOutput(x, y, z, c, c');
    assert output == l0 + "\n" + l1 + "\n" + l2 + "\n";
    assert output[..7] == l0[..7];
    ExampleEntry(x, c);
    ExampleEntry(y, c');
    ExampleEntry(z, c);
    ExampleLines(l0, l1, l2);
    EntriesOfThree(l0, l1, l2, Entry("Error: " + x, [c]), Entry("Error: " + y, [c']), Entry("Error: " + z, [c]));
  }

  /**
   * A worked example, for any texts and codes: of three
   * errors where the third repeats the first one's code, the output keeps
   * the first code's position with the third's text, then the second.
   */
  lemma DedupExample(x: string, y: string, z: string, c: char, c': char)
    requires ' ' !in x && ' ' !in y && ' ' !in z && '\n' !in x && '\n' !in y && '\n' !in z
    requires c != c' && c != ' ' && c' != ' ' && c != '\n' && c' != '\n'
    ensures Filtered(ExampleOutput(x, y, z, c, c')) == "Error: " + z + "\n" + "Error: " + y + "\n"
  {
    ExampleOutputEntries(x, y, z, c, c');
    var e0, e1, e2 := Entry("Error: " + x, [c]), Entry("Error: " + y, [c']), Entry("Error: " + z, [c]);
    ExampleDedup(e0, e1, e2);
    RenderTwo(e2.text, e1.text);
  }

  /**
   * The state of `filterErrors` after reading the entries `es`: `codes`
   * maps each code seen to its slot, and slot `j` holds the latest text of
   * the `j`-th distinct code; the slots past `count` are still empty.
   */
  ghost predicate Tracks(es: seq<Entry>, d: seq<string>, codes: map<string, nat>, slots: seq<string>, count: nat) {
    d == FirstSeen(es) && count == |d| <= |slots| &&
    (forall c :: c in codes <==> c in d) &&
    (forall c :: c in codes ==> codes[c] < count && d[codes[c]] == c) &&
    (forall j :: 0 <= j < count ==> slots[j] == LastText(es, d[j])) &&
    (forall j :: count <= j < |slots| ==> slots[j] == "")
  }

  lemma TracksSeenCode(es: seq<Entry>, d: seq<string>, codes: map<string, nat>, slots: seq<string>, count: nat, e: Entry)
    requires Tracks(es, d, codes, slots, count) && e.code in codes
    ensures Tracks(es + [e], d, codes, slots[codes[e.code] := e.text], count)
  {
    FirstSeenStep(es, e);
    FirstSeenDistinct(es);
    forall c ensures LastText(es + [e], c) == if e.code == c then e.text else LastText(es, c) {
      LastTextStep(es, e, c);
    }
  }

  lemma TracksNewCode(es: seq<Entry>, d: seq<string>, codes: map<string, nat>, slots: seq<string>, count: nat, e: Entry)
    requires Tracks(es, d, codes, slots, count) && e.code !in codes && count < |slots|
    ensures Tracks(es + [e], d + [e.code], codes[e.code := count], slots[count := e.text], count + 1)
  {
    FirstSeenStep(es, e);
    forall c ensures LastText(es + [e], c) == if e.code == c then e.text else LastText(es, c) {
      LastTextStep(es, e, c);
    }
  }

  lemma TracksAll(es: seq<Entry>, d: seq<string>, codes: map<string, nat>, slots: seq<string>, count: nat)
    requires Tracks(es, d, codes, slots, count)
    ensures NonEmpty(slots) == NonEmpty(DedupTexts(es))
  {
    assert slots == DedupTexts(es) + slots[count..];
    NonEmptyPadded(DedupTexts(es), slots[count..]);
  }

  /** `filterErrors`: error output is folded by code, anything else passes through. */
  method FilterErrors(output: string) returns (result: string)
    ensures result == Filtered(output)
    ensures !HasPrefix(output, "Error: ") ==> result == output
  {
    if !HasPrefix(output, "Error: ") {
      return output;
    }
    var filtered := CollectErrors(Split(output, '\n'));
    result := JoinNonEmpty(filtered);
  }

  /**
   * The first loop of `filterErrors`, as the Go code fills its `codes` map
   * and `filtered_errors` slice: the non-empty slots are the texts kept for
   * each distinct code, in the order the codes first occur.
   */
  method CollectErrors(errors: seq<string>) returns (filtered: array<string>)
    ensures NonEmpty(filtered[..]) == NonEmpty(DedupTexts(Entries(errors)))
  {
    var codes: map<string, nat> := map[];
    filtered := new string[|errors|](_ => "");
    var count: nat := 0;
    ghost var es: seq<Entry> := [];
    ghost var d: seq<string> := [];
    for k := 0 to |errors|
      invariant es == Entries(errors[..k]) && count <= k && filtered.Length == |errors|
      invariant Tracks(es, d, codes, filtered[..], count)
    {
      assert errors[..k + 1] == errors[..k] + [errors[k]];
      EntriesStep(errors[..k], errors[k]);
      codes, count, es, d := AddError(errors[k], filtered, codes, count, es, d);
    }
    assert errors[..|errors|] == errors;
    TracksAll(es, d, codes, filtered[..], count);
  }

  /** One pass of that loop: a line with a space overwrites its code's slot or takes the next one. */
  method AddError(e: string, filtered: array<string>, codes: map<string, nat>, count: nat, ghost es: seq<Entry>, ghost d: seq<string>)
    returns (codes': map<string, nat>, count': nat, ghost es': seq<Entry>, ghost d': seq<string>)
    requires Tracks(es, d, codes, filtered[..], count) && count < filtered.Length
    modifies filtered
    ensures es' == match EntryOf(e) case None => es case Some(x) => es + [x]
    ensures count' <= count + 1
    ensures Tracks(es', d', codes', filtered[..], count')
  {
    codes', count', es', d' := codes, count, es, d;
    var isep := LastIndexOf(e, ' ');
    if isep < 0 {
      return;
    }
    var newError := e[..isep];
    var code := e[isep + 1..];
    ghost var entry := Entry(newError, code);
    if code in codes {
      TracksSeenCode(es, d, codes, filtered[..], count, entry);
      filtered[codes[code]] := newError;
    } else {
      TracksNewCode(es, d, codes, filtered[..], count, entry);
      filtered[count] := newError;
      codes' := codes[code := count];
      count' := count + 1;
      d' := d + [code];
    }
    es' := es + [entry];
  }

  /** The final loop of `filterErrors`: each non-empty slot followed by a line feed. */
  method JoinNonEmpty(slots: array<string>) returns (result: string)
    ensures result == Terminated(NonEmpty(slots[..]))
  {
    result := "";
    for k := 0 to slots.Length
      invariant result == Terminated(NonEmpty(slots[..k]))
    {
      assert slots[..k + 1][..k] == slots[..k];
      if |slots[k]| > 0 {
        result := result + slots[k] + "\n";
      }
    }
    assert slots[..slots.Length] == slots[..];
  }

  // ------------------------------------------------------ statements

  /** `%s|%d|%d|%s` of a row, without the line feed. */
  function RowText(r: Row): string {
    Join([r.s1, IntToString(r.n1), IntToString(r.n2), r.s2], "|")
  }

  /** The four columns of a row can be read back when its strings hold no `|`. */
  lemma RowTextFields(r: Row)
    requires '|' !in r.s1 && '|' !in r.s2
    ensures Split(RowText(r), '|') == [r.s1, IntToString(r.n1), IntToString(r.n2), r.s2]
  {
    var fields := [r.s1, IntToString(r.n1), IntToString(r.n2), r.s2];
    assert '|' !in IntToString(r.n1) && '|' !in IntToString(r.n2);
    SplitJoin(fields, '|');
  }

  function RowTexts(rows: seq<Row>): seq<string> {
    if rows == [] then [] else RowTexts(rows[..|rows| - 1]) + [RowText(rows[|rows| - 1])]
  }

  /** The text `doSql` appends for a statement numbered `line` with the given outcome. */
  function StatementOutput(line: int, outcome: StmtOutcome): string {
    match outcome
    case PrepareFailed(m) => FinagleError(line, m)
    case QueryFailed(m) => FinagleError(line, m)
    case Rows(rows) => Terminated(RowTexts(rows))
  }

  /**
   * A statement yields either one error line, or one line per row whose
   * columns read back (and nothing for no rows).
   */
  lemma StatementOutputShape(line: int, outcome: StmtOutcome)
    requires outcome.Rows? ==> forall i :: 0 <= i < |outcome.rows| ==>
      '\n' !in outcome.rows[i].s1 && '\n' !in outcome.rows[i].s2
    ensures outcome.PrepareFailed? || outcome.QueryFailed? ==>
      HasPrefix(StatementOutput(line, outcome), ErrorPrefix(line))
    ensures outcome.Rows? ==>
      Split(StatementOutput(line, outcome), '\n') == RowTexts(outcome.rows) + [""] &&
      |RowTexts(outcome.rows)| == |outcome.rows|
    ensures outcome == Rows([]) ==> StatementOutput(line, outcome) == ""
  {
    if outcome.Rows? {
      RowTextsShape(outcome.rows);
      SplitTerminated(RowTexts(outcome.rows));
    }
  }

  lemma {:induction false} RowTextsShape(rows: seq<Row>)
    requires forall i :: 0 <= i < |rows| ==> '\n' !in rows[i].s1 && '\n' !in rows[i].s2
    ensures |RowTexts(rows)| == |rows|
    ensures forall i :: 0 <= i < |rows| ==> RowTexts(rows)[i] == RowText(rows[i]) && '\n' !in RowTexts(rows)[i]
  {
    if rows != [] {
      var n := |rows| - 1;
      var front := rows[..n];
      assert forall i :: 0 <= i < n ==> front[i] == rows[i];
      RowTextsShape(front);
      RowTextNoNewline(rows[n]);
      var texts := RowTexts(rows);
      assert texts == RowTexts(front) + [RowText(rows[n])];
      forall i | 0 <= i < |rows|
        ensures texts[i] == RowText(rows[i]) && '\n' !in texts[i]
      {
        if i < n {
          assert texts[i] == RowTexts(front)[i];
        }
      }
    }
  }

  lemma RowTextNoNewline(r: Row)
    requires '\n' !in r.s1 && '\n' !in r.s2
    ensures '\n' !in RowText(r)
  {
    assert '\n' !in IntToString(r.n1) && '\n' !in IntToString(r.n2);
    JoinAvoids([r.s1, IntToString(r.n1), IntToString(r.n2), r.s2], "|", '\n');
  }

  /** A non-empty piece of the batch and its 1-based position in the split. */
  datatype Statement = Statement(line: nat, text: string)

  function Statements(pieces: seq<string>): seq<Statement> {
    if pieces == [] then []
    else
      var prefix := Statements(pieces[..|pieces| - 1]);
      if pieces[|pieces| - 1] == "" then prefix else prefix + [Statement(|pieces|, pieces[|pieces| - 1])]
  }

  lemma {:induction false} StatementsStep(pieces: seq<string>, piece: string)
    ensures Statements(pieces + [piece]) ==
      if piece == "" then Statements(pieces) else Statements(pieces) + [Statement(|pieces| + 1, piece)]
  {
    assert (pieces + [piece])[..|pieces|] == pieces;
  }

  /** Each statement is a non-empty piece, numbered by its 1-based position in the split. */
  lemma {:induction false} StatementsAreNumberedPieces(pieces: seq<string>)
    ensures forall s :: s in Statements(pieces) ==>
      1 <= s.line <= |pieces| && s.text == pieces[s.line - 1] != ""
  {
    if pieces != [] {
      var n := |pieces| - 1;
      var p := pieces[..n];
      assert pieces == p + [pieces[n]];
      StatementsAreNumberedPieces(p);
      StatementsStep(p, pieces[n]);
      forall s | s in Statements(p) ensures s.text == pieces[s.line - 1] {
        assert pieces[s.line - 1] == p[s.line - 1];
      }
    }
  }

  /** Statements run in order: their numbers strictly increase. */
  lemma {:induction false} StatementsIncreasing(pieces: seq<string>)
    ensures forall k, l :: 0 <= k < l < |Statements(pieces)| ==> Statements(pieces)[k].line < Statements(pieces)[l].line
  {
    if pieces != [] {
      var n := |pieces| - 1;
      var p := pieces[..n];
      assert pieces == p + [pieces[n]];
      StatementsIncreasing(p);
      StatementsAreNumberedPieces(p);
      StatementsStep(p, pieces[n]);
      var sp, st := Statements(p), Statements(pieces);
      if pieces[n] != "" {
        forall k, l | 0 <= k < l < |st| ensures st[k].line < st[l].line {
          assert st[k] == sp[k] && sp[k] in sp;
          if l < |sp| {
            assert st[l] == sp[l];
          }
        }
      }
    }
  }

  /** Every non-empty piece is run. */
  lemma {:induction false} StatementsComplete(pieces: seq<string>, i: nat)
    requires i < |pieces| && pieces[i] != ""
    ensures Statement(i + 1, pieces[i]) in Statements(pieces)
  {
    var n := |pieces| - 1;
    var p := pieces[..n];
    assert pieces == p + [pieces[n]];
    StatementsStep(p, pieces[n]);
    if i < n {
      assert p[i] == pieces[i];
      StatementsComplete(p, i);
    }
  }

  function Texts(sts: seq<Statement>): seq<string> {
    if sts == [] then [] else Texts(sts[..|sts| - 1]) + [sts[|sts| - 1].text]
  }

  /** The text the statements produce, each run after those before it. */
  function RunOutput(engine: Engine, history: seq<string>, sts: seq<Statement>): string {
    if sts == [] then ""
    else
      var prefix := sts[..|sts| - 1];
      var s := sts[|sts| - 1];
      RunOutput(engine, history, prefix) + StatementOutput(s.line, engine(history + Texts(prefix), s.text))
  }

  lemma {:induction false} TextsStep(sts: seq<Statement>, s: Statement)
    ensures Texts(sts + [s]) == Texts(sts) + [s.text]
  {
    assert (sts + [s])[..|sts|] == sts;
  }

  lemma {:induction false} RunOutputStep(engine: Engine, history: seq<string>, sts: seq<Statement>, s: Statement)
    ensures RunOutput(engine, history, sts + [s]) ==
      RunOutput(engine, history, sts) + StatementOutput(s.line, engine(history + Texts(sts), s.text))
  {
    assert (sts + [s])[..|sts|] == sts;
  }

  /** One more piece of the batch: an empty one runs nothing, another runs after the earlier ones. */
  lemma BatchStep(engine: Engine, history: seq<string>, queries: seq<string>, line: nat)
    requires line < |queries|
    ensures queries[line] == "" ==> Statements(queries[..line + 1]) == Statements(queries[..line])
    ensures queries[line] != "" ==>
      Texts(Statements(queries[..line + 1])) == Texts(Statements(queries[..line])) + [queries[line]] &&
      RunOutput(engine, history, Statements(queries[..line + 1])) ==
        RunOutput(engine, history, Statements(queries[..line])) +
        StatementOutput(line + 1, engine(history + Texts(Statements(queries[..line])), queries[line]))
  {
    assert queries[..line + 1] == queries[..line] + [queries[line]];
    StatementsStep(queries[..line], queries[line]);
    var s := Statement(line + 1, queries[line]);
    TextsStep(Statements(queries[..line]), s);
    RunOutputStep(engine, history, Statements(queries[..line]), s);
  }

  /** After the first `line` pieces of a batch: the statements run and the output collected. */
  ghost predicate RanUpTo(engine: Engine, start: seq<string>, queries: seq<string>, line: nat, history: seq<string>, output: string)
    requires line <= |queries|
  {
    history == start + Texts(Statements(queries[..line])) &&
    output == RunOutput(engine, start, Statements(queries[..line]))
  }

  /** An empty piece runs nothing. */
  lemma RanSkip(engine: Engine, start: seq<string>, queries: seq<string>, line: nat, history: seq<string>, output: string)
    requires line < |queries| && queries[line] == "" && RanUpTo(engine, start, queries, line, history, output)
    ensures RanUpTo(engine, start, queries, line + 1, history, output)
  {
    assert queries[..line + 1] == queries[..line] + [queries[line]];
    StatementsStep(queries[..line], queries[line]);
  }

  /** A non-empty piece runs after everything before it and appends its output. */
  lemma RanPiece(engine: Engine, start: seq<string>, queries: seq<string>, line: nat, history: seq<string>, output: string, o: string)
    requires line < |queries| && queries[line] != "" && RanUpTo(engine, start, queries, line, history, output)
    requires o == StatementOutput(line + 1, engine(history, queries[line]))
    ensures RanUpTo(engine, start, queries, line + 1, history + [queries[line]], output + o)
  {
    BatchStep(engine, start, queries, line);
    var done := Texts(Statements(queries[..line]));
    assert start + (done + [queries[line]]) == start + done + [queries[line]];
  }

  /** What `Execute` puts on standard output for a batch. */
  function BatchOutput(engine: Engine, history: seq<string>, command: string): string {
    Filtered(RunOutput(engine, history, Statements(Split(command, ';'))))
  }

  /** The state of a node's engine: its connection and the call counter. */
  class SQL {
    var sequenceNumber: int
    /** The statements run on the connection so far; the connection's state is a function of them. */
    var history: seq<string>
    const engine: Engine

    constructor (engine: Engine)
      ensures sequenceNumber == 0 && history == [] && this.engine == engine
    {
      sequenceNumber := 0;
      history := [];
      this.engine := engine;
    }

    method DoSql(lineno: int, command: string) returns (output: string)
      modifies this`history
      ensures history == old(history) + [command]
      ensures output == StatementOutput(lineno, engine(old(history), command))
    {
      var outcome := engine(history, command);
      history := history + [command];
      output := "";
      match outcome {
        case PrepareFailed(m) =>
          output := FinagleError(lineno, m);
        case QueryFailed(m) =>
          output := FinagleError(lineno, m);
        case Rows(rows) =>
          for i := 0 to |rows|
            invariant output == Terminated(RowTexts(rows[..i]))
          {
            assert rows[..i + 1][..i] == rows[..i];
            output := output + RowText(rows[i]) + "\n";
          }
          assert rows[..|rows|] == rows;
      }
    }

    /** Runs each non-empty piece of a batch in turn, numbering them from one, and collects their output. */
    method RunPieces(queries: seq<string>) returns (output: string)
      modifies this`history
      ensures history == old(history) + Texts(Statements(queries))
      ensures output == RunOutput(engine, old(history), Statements(queries))
    {
      output := "";
      ghost var start := history;
      for line := 0 to |queries|
        invariant RanUpTo(engine, start, queries, line, history, output)
      {
        if |queries[line]| > 0 {
          ghost var before := history;
          var o := DoSql(line + 1, queries[line]);
          RanPiece(engine, start, queries, line, before, output, o);
          output := output + o;
        } else {
          RanSkip(engine, start, queries, line, history, output);
        }
      }
      assert queries[..|queries|] == queries;
    }

    /**
     * Runs a batch. The result carries the number of earlier calls; the
     * counter goes up by one afterwards. No error is ever returned.
     */
    method Execute(tag: string, command: string) returns (out: Output, err: Option<string>)
      modifies this
      ensures err == None
      ensures out.sequenceNumber == old(sequenceNumber) && sequenceNumber == old(sequenceNumber) + 1
      ensures out.stderr == ""
      ensures out.stdout == BatchOutput(engine, old(history), command)
      ensures history == old(history) + Texts(Statements(Split(command, ';')))
    {
      var queries := Split(command, ';');
      var output := RunPieces(queries);
      output := FilterErrors(output);
      out := Output(output, "", sequenceNumber);
      err := None;
      sequenceNumber := sequenceNumber + 1;
    }
  }
}
