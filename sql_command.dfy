/**
 * The replicated log entry of the SQL cluster
 * (level4/server/sql_command.go): a batch travels through the log in
 * compressed form and, when applied, runs on the node's engine and answers
 * with a `SequenceNumber:` header followed by the batch's output.
 */
module SqlCommands {
  import opened Wrappers
  import opened Strings
  import opened Zlib
  import Sql

  /** A log entry: the compressed text of one batch. */
  datatype SqlCommand = SqlCommand(query: seq<byte>)

  /** `NewSqlCommand`: the entry stores the `deflate`d batch. */
  function NewSqlCommand(codec: Codec, q: string): (c: SqlCommand)
    ensures Lossless(codec) ==> codec.decompress(c.query) == Some(q)
  {
    SqlCommand(codec.compress(q))
  }

  /** The name under which entries are registered with the log. */
  function CommandName(c: SqlCommand): (name: string)
    ensures name == "sql"
  {
    "sql"
  }

  /** The header that precedes a successful entry's output. */
  function Header(sequenceNumber: int): string {
    "SequenceNumber: " + IntToString(sequenceNumber) + "\n"
  }

  lemma HeaderFirstLine(n: int, s: string)
    ensures Split(Header(n) + s, '\n')[0] == "SequenceNumber: " + IntToString(n)
  {
    var p := "SequenceNumber: " + IntToString(n);
    assert '\n' !in IntToString(n);
    assert Header(n) + s == p + ['\n'] + s;
    SplitAtSeparator(p, '\n', s);
  }

  /** The header can be read back: it fixes the sequence number and where the output starts. */
  lemma HeaderDetermines(a: int, b: int, s: string, t: string)
    requires Header(a) + s == Header(b) + t
    ensures a == b && s == t
  {
    HeaderFirstLine(a, s);
    HeaderFirstLine(b, t);
    var pa, pb := "SequenceNumber: " + IntToString(a), "SequenceNumber: " + IntToString(b);
    assert IntToString(a) == pa[16..] && IntToString(b) == pb[16..];
    IntToStringInjective(a, b);
    assert s == (Header(a) + s)[|Header(a)|..];
  }

  /** `0x..` in lower-case hexadecimal without leading zeros, as `%#v` prints a byte. */
  function HexLiteral(b: byte): string {
    "0x" + LowerHex(b)
  }

  /** `%#v` of a byte slice: `[]byte{0x78, 0x9c}`. */
  function GoSyntax(b: seq<byte>): string {
    "[]byte{" + Join(seq(|b|, i requires 0 <= i < |b| => HexLiteral(b[i])), ", ") + "}"
  }

  /**
   * What `Apply` answers for the result of `Execute`: the header and the
   * output on success; on an error the engine's message wrapped with the
   * payload and the formatted standard error when there is one, or else the
   * bare message. `fmtOutput` stands for the helper that formats it.
   */
  function ApplyResult(out: Sql.Output, err: Option<string>, query: seq<byte>, fmtOutput: string -> string): (r: Result<string, string>)
    ensures r.Success? <==> err.None?
    ensures err.None? ==>
      HasPrefix(r.value, Header(out.sequenceNumber)) && r.value[|Header(out.sequenceNumber)|..] == out.stdout
    ensures err.Some? && out.stderr != "" ==>
      HasSuffix(r.error, "\n\nSQLite error: " + fmtOutput(out.stderr)) &&
      HasPrefix(r.error, "Error executing " + GoSyntax(query) + " (" + err.value + ")")
    ensures err.Some? && out.stderr == "" ==> r.error == err.value
  {
    match err
    case None => Success(Header(out.sequenceNumber) + out.stdout)
    case Some(e) =>
      if |out.stderr| > 0 then
        Failure("Error executing " + GoSyntax(query) + " (" + e + ")" + "\n\nSQLite error: " + fmtOutput(out.stderr))
      else Failure(e)
  }

  /**
   * `Apply`: runs the inflated batch on the node's engine. Since `Execute`
   * never fails, the answer is always the header with the batch's output.
   * The payload must inflate; what `inflate` does with a malformed one is
   * not part of this model.
   */
  method Apply(c: SqlCommand, codec: Codec, db: Sql.SQL, fmtOutput: string -> string) returns (r: Result<string, string>)
    requires codec.decompress(c.query).Some?
    modifies db
    ensures r == Success(Header(old(db.sequenceNumber)) +
      Sql.BatchOutput(db.engine, old(db.history), codec.decompress(c.query).value))
    ensures db.sequenceNumber == old(db.sequenceNumber) + 1
    ensures db.history == old(db.history) + Sql.Texts(Sql.Statements(Split(codec.decompress(c.query).value, ';')))
  {
    var out, err := db.Execute("tehrafts", codec.decompress(c.query).value);
    r := ApplyResult(out, err, c.query, fmtOutput);
  }

  /** The statements a fresh engine has run after the given batches. */
  function HistoryAfter(batches: seq<string>): seq<string> {
    if batches == [] then []
    else HistoryAfter(batches[..|batches| - 1]) + Sql.Texts(Sql.Statements(Split(batches[|batches| - 1], ';')))
  }

  lemma HistoryAfterStep(batches: seq<string>, i: nat)
    requires i < |batches|
    ensures HistoryAfter(batches[..i + 1]) ==
      HistoryAfter(batches[..i]) + Sql.Texts(Sql.Statements(Split(batches[i], ';')))
  {
    assert batches[..i + 1][..i] == batches[..i];
  }

  /** The answer to the `i`-th of `batches` when all of them are applied to a fresh engine. */
  function ReplayAnswer(engine: Sql.Engine, batches: seq<string>, i: nat): Result<string, string>
    requires i < |batches|
  {
    Success(Header(i) + Sql.BatchOutput(engine, HistoryAfter(batches[..i]), batches[i]))
  }

  lemma AnsweredStep(engine: Sql.Engine, batches: seq<string>, results: seq<Result<string, string>>, r: Result<string, string>)
    requires |results| < |batches|
    requires forall j :: 0 <= j < |results| ==> results[j] == ReplayAnswer(engine, batches, j)
    requires r == ReplayAnswer(engine, batches, |results|)
    ensures forall j :: 0 <= j < |results| + 1 ==> (results + [r])[j] == ReplayAnswer(engine, batches, j)
  {
  }

  /**
   * Applying the entries for `batches`, in order, to a fresh engine: the
   * `i`-th answer carries sequence number `i` and runs its batch exactly,
   * after the statements of the batches before it.
   */
  method ReplayFresh(engine: Sql.Engine, codec: Codec, batches: seq<string>, fmtOutput: string -> string)
    returns (results: seq<Result<string, string>>)
    requires Lossless(codec)
    ensures |results| == |batches|
    ensures forall i :: 0 <= i < |batches| ==> results[i] == ReplayAnswer(engine, batches, i)
  {
    var db := new Sql.SQL(engine);
    results := [];
    for i := 0 to |batches|
      invariant |results| == i && db.engine == engine
      invariant db.sequenceNumber == i && db.history == HistoryAfter(batches[..i])
      invariant forall j :: 0 <= j < i ==> results[j] == ReplayAnswer(engine, batches, j)
    {
      var c := NewSqlCommand(codec, batches[i]);
      var r := Apply(c, codec, db, fmtOutput);
      assert r == ReplayAnswer(engine, batches, i);
      HistoryAfterStep(batches, i);
      AnsweredStep(engine, batches, results, r);
      results := results + [r];
    }
  }
}
