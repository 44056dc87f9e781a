# Stripe CTF 3 solutions, modelled in Dafny

This project models the core of four programs from a solution set for
Stripe's third Capture-the-Flag contest, and proves properties of each model.

- **The replicated SQL cluster (level 4).** Each node runs an SQL execution
  engine over an embedded database (`level4/sql/sql.go`):
  - A batch is split on `;` into numbered statements.
  - Each statement's rows are printed as `a|b|c|d` lines, and its failures as
    `Error: near line N: …` lines.
  - Repeated error codes are folded together, and a sequence counter
    advances once per batch.

  A batch travels through the consensus log as a compressed command
  (`level4/server/sql_command.go`). When applied, the command answers with a
  `SequenceNumber:` header and the batch's output. The HTTP front
  (`level4/server/server.go`) works as follows:
  - It names the node after its socket.
  - It decides at start-up whether to join, found or recover a cluster.
  - It retries joining ten times.
  - It sends a batch to the leader, or redirects it there with the
    compressed, base64-encoded batch in the URL.
  - It decodes such a forwarded batch again.
- **The spell checker (level 0, `level0/level0.cpp`).**
  - It loads a dictionary file in place, keeping only the lines that have no
    upper-case letter and ending each line with NUL.
  - It looks up each lower-cased word of the input by binary search.
  - It copies the input to a buffered writer, with unknown words wrapped in
    `<` `>`.
- **The code search servers (level 3, `level3/main.go`).**
  - Four searchers each index a shard of the files under a base path, chosen
    by a hash of the path.
  - Each reports `file:line` for every line on which the query occurs.
  - The master searcher merges the other searchers' newline-separated
    answers after its own.
- **The proof-of-work miner (level 1, `level1/miner.cpp`).**
  - It reads at most 4096 bytes of commit text.
  - It parses a difficulty into a 20-byte target the way `stoul` parses each
    pair of hexadecimal digits.
  - It hashes the git object header and the commit.
  - Each worker counts a nonce of eight printable characters upward like an
    odometer from a random start, until the SHA-1 of the object is below the
    target.
  - On success it prints the commit followed by the ten-byte nonce.

**Engine contract.** The embedded SQLite engine is a function from the
statements run so far and the next statement to that statement's outcome.

**Parameters.** The following are parameters of the model:
- zlib, as a codec whose losslessness is a hypothesis. A witness codec
  (`Zlib.Witness`, three bytes per character, not zlib's format) shows with
  `Zlib.WitnessIsLossless` that the hypothesis can be met.
- the consensus library's leader polls and its `Do`;
- the file system walk and file reads;
- SHA-1, `rand`, `atoi`;
- the time budget each worker gets before the stop flag rises.

**Notes on what the code does.** The model follows the code in both cases:
- **Join retry.** The loop that retries joining a cluster is followed by
  `if err != nil { log.Fatal(err) }` (`level4/server/server.go:94-96`), so
  ten failed joins were meant to be fatal. However, the loop declares its own
  `err` (line 87), and the `err` checked afterwards is the outer one, which
  is nil at that point. Ten failed joins therefore do not stop the start-up.
  This is listed under "## Findings".
- **Failing `Next()`.** A failing `Next()` ends the statement's rows like the
  end of the results, with no error line (`level4/sql/sql.go:80-89`). The
  model's `QueryFailed` outcome stands for a failure reported by `Query`
  itself.

The modules follow the source files, one Dafny file each:
- `sql.dfy`: `Sql`
- `sql_command.dfy`: `SqlCommands`
- `server.dfy`: `Server`
- `base64.dfy`: `Base64`, the URL and filename safe encoding of section 5 of
  RFC 4648 as Go's `base64.URLEncoding` uses it
- `zlib.dfy`: `Zlib`
- `spellcheck.dfy`: `SpellCheck`
- `search.dfy`: `Search`
- `miner.dfy`: `Miner`
- `strings.dfy`: `Strings`, the library functions they share
- `wrappers.dfy`: `Wrappers`, Option and Result

## Model

| member | source | states |
|---|---|---|
| Sql.FinagleError | level4/sql/sql.go:32-34 | the message starts with `Error: near line N: `, ends in a newline, and carries the engine's text with one leading `sqlite3: ` removed |
| Sql.FirstSeenCodes | level4/sql/sql.go:42-56 | a code is among the recorded codes exactly when some error line carries it |
| Sql.FirstSeenDistinct | level4/sql/sql.go:42-56 | no code is recorded twice |
| Sql.FirstSeenOrder | level4/sql/sql.go:42-56 | recorded codes are in the order of their first occurrence |
| Sql.LastTextIsLatest | level4/sql/sql.go:47-50 | the text kept for a code is the text of the last line that carries that code |
| Sql.SplitTerminated | level4/sql/sql.go:57-62 | newline-terminated texts without newlines split back into those texts |
| Sql.FilteredLines | level4/sql/sql.go:57-62 | the deduplicated output's lines are the non-empty kept texts, one per distinct code at most |
| Sql.DedupExample | level4/sql/sql.go:36-67 | for three errors where the third repeats the first one's code, the output is the third's text followed by the second's |
| Sql.TracksSeenCode | level4/sql/sql.go:49-50 | overwriting the slot of a known code keeps the loop's invariant with respect to the deduplication function |
| Sql.TracksNewCode | level4/sql/sql.go:51-55 | giving a new code the next slot keeps the loop's invariant |
| Sql.TracksAll | level4/sql/sql.go:57-62 | at the end, the non-empty slots are exactly the deduplicated texts |
| Sql.FilterErrors | level4/sql/sql.go:36-67 | error output is folded by the deduplication function; output not starting with `Error: ` passes through unchanged |
| Sql.CollectErrors | level4/sql/sql.go:38-56 | the loop that fills the code map and the slots leaves exactly the deduplicated texts in the non-empty slots |
| Sql.AddError | level4/sql/sql.go:43-55 | one line: no space skips it; a known code overwrites its slot with the line's text; a new code takes the next slot |
| Sql.JoinNonEmpty | level4/sql/sql.go:57-62 | the loop over the slots prints each non-empty slot followed by a newline |
| Sql.RowTextFields | level4/sql/sql.go:84 | a row line splits on `\|` into its four columns, with the integers in decimal |
| Sql.StatementOutputShape | level4/sql/sql.go:69-95 | a failing statement yields one error line; a successful one yields one line per row; no rows yield nothing |
| Sql.RowTextsShape | level4/sql/sql.go:80-89 | there is one line per row, in order, and none of them contains a newline |
| Sql.StatementsAreNumberedPieces | level4/sql/sql.go:100-107 | every statement run is a non-empty piece of the split, numbered with its 1-based position |
| Sql.StatementsIncreasing | level4/sql/sql.go:100-107 | statements run in increasing line order |
| Sql.StatementsComplete | level4/sql/sql.go:100-107 | every non-empty piece is run |
| Sql.SQL.constructor | level4/sql/sql.go:24-30 | a new engine has sequence number 0 and has run nothing |
| Sql.SQL.DoSql | level4/sql/sql.go:69-95 | runs one statement on the engine, appends it to the history, and returns its formatted output |
| Sql.SQL.RunPieces | level4/sql/sql.go:100-107 | the loop runs exactly the numbered non-empty pieces, in order, and concatenates their outputs |
| Sql.SQL.Execute | level4/sql/sql.go:97-117 | never fails; returns the deduplicated output of the batch with the sequence number before the call, and advances the counter by exactly one |
| SqlCommands.NewSqlCommand | level4/server/sql_command.go:35-39 | with a lossless codec, the stored payload inflates back to the batch |
| SqlCommands.CommandName | level4/server/sql_command.go:42-44 | the command is registered as `sql` |
| SqlCommands.HeaderFirstLine | level4/server/sql_command.go:65-66 | the answer's first line is `SequenceNumber: N` |
| SqlCommands.HeaderDetermines | level4/server/sql_command.go:65-66 | the header can be read back: equal answers have equal sequence numbers and equal outputs |
| SqlCommands.ApplyResult | level4/server/sql_command.go:51-67 | success exactly when the engine reports no error; then the header followed by the output; otherwise the error wrapped with the payload in Go syntax and the formatted standard error, or the bare error |
| SqlCommands.Apply | level4/server/sql_command.go:47-68 | applying a command runs its inflated batch and answers with the header and the batch's output; the counter advances by one |
| SqlCommands.ReplayFresh | level4/server/sql_command.go:47-68 | applying the commands of several batches in order to a fresh engine answers the i-th with sequence number i and with the output of its batch after all earlier batches |
| Server.NodeName | level4/server/server.go:46 | the node name is the listen address with every `/` replaced by `-`, position by position |
| Server.NodeNameIdempotent | level4/server/server.go:61 | naming an already named node changes nothing |
| Server.PartialName | level4/server/server.go:188-189 | the partial name is what remains after removing a leading `.-` and a trailing `.sock`, each when present |
| Server.PartialNameOfSocket | level4/server/server.go:188-189 | `.-p.sock` gives back `p` |
| Server.RedirectUrl | level4/server/server.go:190 | the redirect is `http://`, then the host with the node's partial name replaced by the leader's, then the forward path |
| Server.RedirectCarriesBatch | level4/server/server.go:190 | the batch decoded from the redirect URL's query is the original batch |
| Server.RedirectKeepsForeignHost | level4/server/server.go:190 | a host that does not contain the node's partial name is kept as it is |
| Server.EncodeQuery | level4/server/server.go:206-212 | the encoded batch has a length that is a multiple of 4 and uses only base64 characters and `=` |
| Server.DecodeQuery | level4/server/server.go:214-229 | illegal base64 is rejected as such; otherwise the batch is inflated, or the inflation error is returned |
| Server.DecodeEncodeQuery | level4/server/server.go:206-229 | decoding an encoded batch gives back the batch |
| Server.DecodeQueryRejectsForeign | level4/server/server.go:215-218 | any character outside the alphabet, `=`, CR and LF makes decoding fail |
| Server.SubmitAtLeader | level4/server/server.go:196-203 | the leader submits exactly one command for the batch, and answers with its result or its error |
| Server.ForwardHandler | level4/server/server.go:231-247 | a forwarded batch that does not decode is refused with nothing submitted; otherwise it is handled as at the leader |
| Server.ForwardedLikeDirect | level4/server/server.go:231-247 | forwarding a batch has the same effect as submitting it at the leader |
| Server.AwaitLeader | level4/server/server.go:182-186 | the loop returns the first non-empty leader poll, after the empty ones |
| Server.SqlHandler | level4/server/server.go:171-204 | a node that is leader submits the batch; any other node redirects it to the first leader it sees |
| Server.StartupPlan | level4/server/server.go:77-113 | join when given a leader and the log is empty; refuse when given a leader and the log is not empty; found a cluster on an empty log without a leader; otherwise recover |
| Server.AttemptsNeeded | level4/server/server.go:86-93 | the number of join attempts stops at the first success, and at ten |
| Server.JoinRetry | level4/server/server.go:86-96 | as written: makes the attempts up to the first success, joins exactly when one succeeds, and is never fatal |
| Server.JoinFailureIgnored | level4/server/server.go:86-96 | as written: when the first ten attempts all fail, all ten are made and none joins |
| Server.JoinRetryIntended | level4/server/server.go:86-96 | corrected: the same attempts, and it is fatal exactly when no attempt succeeded |
| Base64.EncodeShape | level4/server/server.go:211 | the encoding has four characters per three bytes, rounded up, drawn from the alphabet and `=` |
| Base64.EncodeLength | level4/server/server.go:211 | the encoding's length is 4 · ⌈n/3⌉ |
| Base64.EncodeAlphabet | level4/server/server.go:211 | the encoding is made of quanta of four characters, padded with `=` only at the end |
| Base64.SextetRoundTrip | level4/server/server.go:211 | the character for each 6-bit value decodes to that value |
| Base64.QuantumRoundTrip | level4/server/server.go:211 | each four-character quantum decodes to the three bytes it encodes |
| Base64.DecodeEncode | level4/server/server.go:215 | decoding an encoding gives back the bytes |
| Base64.RejectsForeignCharacter | level4/server/server.go:215 | a character outside the alphabet, `=`, CR and LF makes decoding fail |
| Base64.RejectsPartialQuantum | level4/server/server.go:215 | input whose length without newlines is not a multiple of 4 is rejected |
| Base64.DecodedQuantaShape | level4/server/server.go:215 | whatever decodes is made of whole quanta, as the encoder writes them |
| SpellCheck.LexIrreflexive | level0/level0.cpp:22-28 | no word is less than itself |
| SpellCheck.LexTransitive | level0/level0.cpp:22-28 | the byte order is transitive |
| SpellCheck.LexTrichotomy | level0/level0.cpp:22-28 | the byte order is total |
| SpellCheck.TehLess | level0/level0.cpp:22-28 | the comparison loop decides the byte order of the two C strings |
| SpellCheck.KeptLinesAreLowerLines | level0/level0.cpp:36-49 | every kept offset starts a line without upper-case letters |
| SpellCheck.KeptLinesIncreasing | level0/level0.cpp:36-49 | the kept offsets increase |
| SpellCheck.KeptLinesComplete | level0/level0.cpp:36-49 | every line without upper-case letters is kept |
| SpellCheck.NulledLine | level0/level0.cpp:46 | after loading, the C string at a line's offset is exactly that line |
| SpellCheck.LoadDict | level0/level0.cpp:32-50 | the in-place loop ends every line with NUL and keeps the offsets of the lines without upper-case letters, in order |
| SpellCheck.BinarySearch | level0/level0.cpp:105 | on a sorted dictionary, the search finds a word exactly when some entry equals it |
| SpellCheck.DictionaryAccepts | level0/level0.cpp:32-50 | a word is in the loaded dictionary exactly when its lower-cased form is a line of the file that has no upper-case letters |
| SpellCheck.Writer.constructor | level0/level0.cpp:65-68 | a new writer has an empty buffer and has written nothing |
| SpellCheck.Writer.Flush | level0/level0.cpp:58-62 | after a flush the buffer is empty and everything is written, nothing else changes |
| SpellCheck.Writer.PutChar | level0/level0.cpp:70-75 | appends one byte, flushing first when the buffer is full |
| SpellCheck.Writer.Puts | level0/level0.cpp:77-83 | appends a string, flushing first when it does not fit |
| SpellCheck.Writer.Close | level0/level0.cpp:85-88 | closing writes out what is buffered |
| SpellCheck.ToLower | level0/level0.cpp:101 | the result is never upper case, and it is NUL exactly when the input is |
| SpellCheck.Lower | level0/level0.cpp:101 | the lower-cased word has the same length and no upper-case letters |
| SpellCheck.Lookup | level0/level0.cpp:96-106 | a word is found exactly when its lower-cased form is in the dictionary |
| SpellCheck.DumpWord | level0/level0.cpp:91-110 | a known word is written as it is, an unknown one between `<` and `>` |
| SpellCheck.FlattenTokens | level0/level0.cpp:128-145 | the words and separators of the input, put back together, are the input |
| SpellCheck.TokensMaximal | level0/level0.cpp:128-145 | words are non-empty, contain no separator, and two words are never adjacent |
| SpellCheck.TokensAppend | level0/level0.cpp:128-145 | input cut after a separator tokenises as its two halves |
| SpellCheck.RenderKnown | level0/level0.cpp:107-109 | when every word is known, the output is the input |
| SpellCheck.RenderLength | level0/level0.cpp:107-109 | the output is never shorter than the input |
| SpellCheck.SpellCheck | level0/level0.cpp:122-169 | the scanning loop writes every separator as it is and every word through the dictionary, in order |
| SpellCheck.Run | level0/level0.cpp:112-169 | the program's output is the input with each unknown word marked |
| Search.LineOf | level3/main.go:151-166 | line numbers start at 1 |
| Search.LineMonotone | level3/main.go:151-166 | a later offset is never on an earlier line |
| Search.IndexByte | level3/main.go:158 | finds the first occurrence of the byte, or reports that there is none |
| Search.NewlineStep | level3/main.go:151-166 | passing a newline advances the line count by one |
| Search.NoNewlineStep | level3/main.go:151-166 | a stretch without newline keeps the line |
| Search.Lookup | level3/main.go:149-155 | the offsets found are matches, in increasing order; an empty query finds nothing |
| Search.LookupComplete | level3/main.go:149-155 | every match of a non-empty query is found |
| Search.ReportedLines | level3/main.go:168-173 | a line is reported when the matches are not empty, and the last reported line is that of the last match |
| Search.ReportedIncreasing | level3/main.go:168-173 | lines are reported strictly increasing, so none twice |
| Search.ReportedCovers | level3/main.go:168-173 | the reported lines are exactly the lines of the matches |
| Search.FormatInjective | level3/main.go:169 | `file:line` determines the line |
| Search.FileHits | level3/main.go:150-174 | the loop reports `file:line` once for each line with a match, in order |
| Search.FileResultsSound | level3/main.go:147-175 | every result names a line on which the query occurs |
| Search.FileResultsComplete | level3/main.go:147-175 | every line on which the query occurs is reported |
| Search.FileResultsMembers | level3/main.go:147-175 | a result is reported exactly when it names a line with a match |
| Search.Shard | level3/main.go:196-199 | the shard of a path is one of the four searchers |
| Search.OneSearcherPerFile | level3/main.go:196-199 | every small regular file is taken by exactly one searcher |
| Search.BasePath | level3/main.go:69-73 | the base path is the path with one `/` added when it does not already end in one |
| Search.BasePathIdempotent | level3/main.go:69-73 | normalising twice changes nothing |
| Search.IndexedName | level3/main.go:200 | a file under the base path is indexed under its path relative to the base |
| Search.IndexedFilesFrom | level3/main.go:194-205 | every indexed file was already there or comes from the walk, taken by this searcher under its relative name |
| Search.AllResultsSound | level3/main.go:147-175 | every result of a searcher names a line with a match in one of its files |
| Search.AllResultsComplete | level3/main.go:147-175 | every matching line of every file of a searcher is reported |
| Search.AllResultsMembers | level3/main.go:147-175 | a result is reported exactly when it names a matching line in some file |
| Search.WorkerBodyRecovered | level3/main.go:189 | a searcher's newline-joined answer splits back into its results |
| Search.MergedRecovers | level3/main.go:179-184 | the master's merge gives its own results followed by each searcher's, in order |
| Search.FormatTransmissible | level3/main.go:169 | results for a file whose name has no newline can be sent that way |
| Search.Searcher.constructor | level3/main.go:226-230 | a new searcher has its id, no files, and is not indexed |
| Search.Searcher.Index | level3/main.go:52-79 | only a directory is accepted, and it sets the base path |
| Search.Searcher.IndexFile | level3/main.go:194-205 | a file this searcher takes is stored under its relative name, and nothing else changes |
| Search.Searcher.DoIndex | level3/main.go:207-210 | the walk adds the files the searcher takes, and the indexed flag reports whether the walk succeeded |
| Search.AllResultsOfFiles | level3/main.go:147-175 | over an order that visits every indexed file once, an entry is reported exactly when it names an indexed file and a line where the query occurs |
| Search.Searcher.LocalResults | level3/main.go:147-175 | the loop visits every indexed file once, in map order, and reports an entry exactly when it names an indexed file and a line where the query occurs |
| Search.Searcher.Query | level3/main.go:122-192 | the master answers with its results merged with the others'; any other searcher answers with its results joined by newlines |
| Strings.TrimPrefix | level4/sql/sql.go:33 | the prefix is removed when present, and the text is kept otherwise |
| Strings.TrimSuffix | level4/server/server.go:188 | the suffix is removed when present, and the text is kept otherwise |
| Strings.LastIndexOf | level4/sql/sql.go:43 | the last occurrence, or -1 when there is none |
| Strings.Split | level3/main.go:182 | the pieces contain no separator, and there is at least one |
| Strings.JoinSplit | level3/main.go:182 | joining the pieces of a split gives back the text |
| Strings.SplitJoin | level3/main.go:189 | splitting a join of pieces without separators gives back the pieces |
| Strings.ReplaceAllAbsent | level4/server/server.go:190 | replacing a pattern that does not occur changes nothing |
| Strings.ReplaceAllSame | level4/server/server.go:190 | replacing a pattern by itself changes nothing |
| Strings.ReplaceCharPointwise | level4/server/server.go:46 | replacing one character by another keeps the length and works position by position |
| Strings.IntToString | level4/server/sql_command.go:65 | decimal with a minus sign exactly for negative numbers |
| Strings.DecimalRoundTrip | level4/server/sql_command.go:65 | the decimal text reads back as the number |
| Strings.IntToStringInjective | level4/server/sql_command.go:65 | distinct numbers print differently |
| Strings.DecimalLength | level1/miner.cpp:140 | the decimal text has at most w digits exactly when the number is below 10^w |
| Strings.LowerHex | level4/server/sql_command.go:57 | lower-case hexadecimal digits, without a leading zero |
| Strings.HexRoundTrip | level4/server/sql_command.go:57 | the hexadecimal text reads back as the number |
| Strings.LowerHexLength | level1/miner.cpp:69 | the hexadecimal text has at most w digits exactly when the number is below 16^w |
| Strings.PaddedHex | level1/miner.cpp:69 | `%0Nx`: at least N lower-case digits, never truncated, reading back as the number |
| Miner.ClampThreads | level1/miner.cpp:112-114 | the thread count is clamped to 1..16 and kept when already in range |
| Miner.Commit | level1/miner.cpp:119-120 | the commit is the input up to its first 4096 bytes |
| Miner.Normalised | level1/miner.cpp:126-130 | the difficulty is cut to 40 characters or padded with `0` to 40 |
| Miner.ParsePiece | level1/miner.cpp:133-134 | `stoul` base 16 on two characters: two digits give their value; a digit then a non-digit gives the first digit's value; white space or `+` before a digit gives that digit's value; `-` before a digit gives its negation modulo 256; anything else throws |
| Miner.Target | level1/miner.cpp:131-135 | the target exists exactly when all twenty pieces parse, and holds their values |
| Miner.MakeTarget | level1/miner.cpp:124-135 | the loop fills the 20-byte target, failing exactly when some piece does not parse |
| Miner.ByteHex | level1/miner.cpp:34 | `%02x` gives two lower-case digits worth the byte |
| Miner.HexDump | level1/miner.cpp:29-37 | the logged rendering has two characters per byte |
| Miner.TargetOfHexDump | level1/miner.cpp:131-136 | the logged target parses back to the target |
| Miner.HexDumpOfTarget | level1/miner.cpp:131-136 | a difficulty of forty lower-case digits is logged exactly as given |
| Miner.BelowIsNumeric | level1/miner.cpp:84 | `memcmp < 0` on digests is the numeric order of the big-endian numbers |
| Miner.NothingBelowZero | level1/miner.cpp:84 | no digest beats the all-zero target |
| Miner.Landing | level1/miner.cpp:73-78 | the carry stops at the last non-`~` position at or before the digit, or at the tag |
| Miner.Incremented | level1/miner.cpp:73-79 | the step keeps the length and the newline and NUL at the end |
| Miner.IncrementNonce | level1/miner.cpp:73-79 | the loop carries over trailing `~` as spaces and bumps the position where the carry stops |
| Miner.Odometer | level1/miner.cpp:73-79 | unless all eight positions are `~`, a step keeps the tag and adds one to the base-95 value of the nonce |
| Miner.Wrap | level1/miner.cpp:73-79 | from all `~` a step resets the nonce to spaces and moves the tag to the next character |
| Miner.IterateCounts | level1/miner.cpp:71-79 | k steps without a wrap add k to the nonce's value and keep the tag and the terminator |
| Miner.SprintfNonce | level1/miner.cpp:69 | as written: the formatted nonce is 3 bytes longer than its two hexadecimal numbers |
| Miner.SprintfFits | level1/miner.cpp:69 | as written: the text fits the 11-byte buffer exactly when both random numbers are below 0x10000 |
| Miner.SprintfOverflows | level1/miner.cpp:69 | as written: a random number of 0x10000 makes it 12 bytes |
| Miner.StartNonce | level1/miner.cpp:69 | corrected: 11 bytes of tag, 8 printable digits, newline and NUL, as formatted from the two numbers modulo 0x10000 |
| Miner.StartNonceValue | level1/miner.cpp:69 | the two halves of the start nonce read back as the random numbers modulo 0x10000 |
| Miner.SizeLineFits | level1/miner.cpp:139-140 | the size line of a commit of at most 4096 bytes fits its 100-byte buffer with its NUL |
| Miner.HashesGitObject | level1/miner.cpp:139-145 | what is hashed is the git object of the commit followed by the ten-byte nonce, with its correct size |
| Miner.FindDigest | level1/miner.cpp:60-103 | the search stops at the first accepted nonce or when the budget runs out, and every candidate it passed was rejected |
| Miner.WorkerStart | level1/miner.cpp:148-153 | worker i starts from an 11-byte nonce tagged `A` + i |
| Miner.Worker | level1/miner.cpp:60-103 | one worker from its random start: an accepted nonce or a budget of rejected ones |
| Miner.Workers | level1/miner.cpp:148-162 | a solution found is accepted and is some worker's candidate; otherwise every worker's candidates were rejected |
| Miner.Run | level1/miner.cpp:105-176 | fewer than three arguments exit 1; an unparsable difficulty throws; exit 0 prints the commit and ten nonce bytes whose git object hashes below the target; exit 1 means every worker's candidates were rejected |

## Left out

- Reading the dictionary file and the whole input in level 0 is left out: both are parameters.
- The `fread` chunking of level 0's `main` (`level0/level0.cpp:122-168`) is left out: the model tokenises the whole input at once, which differs from the source only in the two cases on the next lines.
- A word still open when a full buffer ends is moved to the front and carried into the next read (`level0/level0.cpp:155-161`), so it is not split; but a word that fills the whole 65536-byte buffer from its start, or is open at the end of a short read, is written out there (lines 147-153), so a short read from a pipe splits a word in two.
- A word still open when end of input follows a full buffer is never written out: after the `memmove` the next `fread` returns 0, so `p == q` and the loop stops (lines 124-127). With exactly 65536 input bytes ending in `yz` and no final separator, the source drops `yz`, while SpellCheck.Run renders it.
- `setvbuf` and `fwrite` in level 0 are left out: the writer's output is a sequence of bytes.
- Reading files in level 3 is left out: their contents are a parameter.
- Standard input and output in level 1 are left out: the input is a parameter and the output a result.
- The consensus library (raft) is not modelled. Its leader, its `Do` and its log state are parameters. Transport, HTTP muxing, listening, logging and sleeping are left out too.
- The panic on a missing `query` parameter (`level4/server/server.go:233`) is left out.
- zlib's compression format and its behaviour on malformed input are left out. zlib is a codec parameter.
- `util.FmtOutput` is left out. It is a parameter of `SqlCommands.ApplyResult`.
- The mutex in the SQL engine and all concurrency are left out. Calls are sequential.
- The embedded SQLite engine is left out. It is a function from the statements run so far and the next statement to its outcome: failure to prepare, failure to query, or rows.
- `tolower` is modelled for ASCII only.
- Level 3's goroutines, channels and the HTTP fan-out to the other searchers are left out. The other searchers' answer bodies are parameters of `Search.Searcher.Query`.
- `os.Stat`, `filepath.Walk` and `ReadFile` are left out. Their results are parameters.
- `HealthCheck`, `IsIndexed`, `collectSuccess` and level 3's argument parsing are left out.
- The suffix array is modelled by the list of all occurrences it yields, in increasing order.
- Go's map iteration order is left out. The order in which a searcher visits its files is a parameter, required to list every indexed file exactly once (`Search.Enumerates`).
- pthreads, `g_stop`, `g_solved`, the mutex and its `trylock` in level 1 are left out. The workers are run one after another, and each worker's share of the time before the stop flag rises is a budget parameter. A second worker that also finds a solution loses the `trylock`, so only one solution is printed. The model returns the first worker's solution.
- The timeout thread and its floating-point clock are left out, and so is `atof` of the timeout.
- SHA-1, `srand`/`rand` and `atoi` are left out. They are parameters.
- The log lines on standard error and the usage message are left out.
- SpellCheck.LoadDict requires that the dictionary's last line ends with a newline. If it does not, the source reads past the end of the loaded file.
- SpellCheck.SpellCheck requires every word to fit the writer's buffer (at most `BUFSIZE` bytes) and a dictionary sorted in byte order. The source's binary search presumes the sort, and its `puts` presumes the fit.
- SpellCheck.Run requires the same as SpellCheck.SpellCheck.
- SpellCheck.Writer.Puts requires `|s| <= BUFSIZE`. A longer string overflows the source's buffer.
- Server.AwaitLeader requires that some leader poll is non-empty. The source waits forever for one.
- Server.SqlHandler requires that some leader poll is non-empty, for the same reason.
- Search.FileHits requires the hits in increasing order, as the suffix array lookup is sorted first.
- SqlCommands.Apply requires that the payload inflates. What happens otherwise depends on zlib.
- Miner.Run runs the workers sequentially and does not model the race between solving workers.

## Findings

| source | as written | input that shows it | evidently intended | confidence | as-written member | corrected member |
|---|---|---|---|---|---|---|
| level4/server/server.go:94 | after the join loop, `err` is the outer variable, nil at that point, because the loop's `err :=` shadows it; ten failed joins are not fatal | ten join attempts that all fail | stop with a fatal error when no attempt succeeds | not executed | Server.JoinRetry | Server.JoinRetryIntended |
| level1/miner.cpp:69 | `sprintf("%c%04x%04x\n", tag, rand(), rand())` into `char nbuf[11]`; `%04x` is a minimum width, so a value of 0x10000 or more prints five or more digits | `rand()` returning 0x10000 (glibc's `RAND_MAX` is 0x7fffffff) writes 12 bytes | exactly four hexadecimal digits per number, filling the 11 bytes | not executed | Miner.SprintfOverflows | Miner.StartNonce |
