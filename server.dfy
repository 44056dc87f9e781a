/**
 * The HTTP front of a node of the SQL cluster (level4/server/server.go):
 * node names, the redirect a follower sends to the leader with the batch
 * packed into the URL, the leader's `/forward` endpoint that unpacks it, the
 * wait for a leader and the start-up choice with its join retries.
 *
 * Consensus is an oracle: `Leader()` is the sequence of answers successive
 * polls would see, and `Do` is a function from a log entry to its answer.
 */
module Server {
  import opened Wrappers
  import opened Strings
  import opened Zlib
  import Base64
  import opened SqlCommands

  // ---------------------------------------------------------------- names

  /** A node's name: its listen address with every `/` turned into `-`; leader names are normalised alike. */
  function NodeName(listen: string): (name: string)
    ensures |name| == |listen|
    ensures forall i :: 0 <= i < |listen| ==> name[i] == (if listen[i] == '/' then '-' else listen[i])
    ensures '/' !in name
  {
    ReplaceCharPointwise(listen, '/', '-');
    ReplaceAll(listen, "/", "-")
  }

  /** Naming a name again changes nothing. */
  lemma NodeNameIdempotent(listen: string)
    ensures NodeName(NodeName(listen)) == NodeName(listen)
  {
    var n := NodeName(listen);
    assert forall i :: 0 <= i < |n| ==> NodeName(n)[i] == n[i];
  }

  /** A name with one leading `.-` and one trailing `.sock` removed. */
  function PartialName(name: string): (p: string)
    ensures HasPrefix(name, ".-") ==> HasSuffix(name[2..], ".sock") ==> name == ".-" + p + ".sock"
    ensures HasPrefix(name, ".-") ==> !HasSuffix(name[2..], ".sock") ==> name == ".-" + p
    ensures !HasPrefix(name, ".-") ==> HasSuffix(name, ".sock") ==> name == p + ".sock"
    ensures !HasPrefix(name, ".-") ==> !HasSuffix(name, ".sock") ==> name == p
  {
    TrimSuffix(TrimPrefix(name, ".-"), ".sock")
  }

  /** The name of a node listening on `./<p>.sock` gives back `p`. */
  lemma PartialNameOfSocket(p: string)
    ensures PartialName(".-" + p + ".sock") == p
  {
    var name := ".-" + p + ".sock";
    assert name[..2] == ".-" && name[2..] == p + ".sock";
    assert (p + ".sock")[|p|..] == ".sock";
  }

  // ---------------------------------------------------------- query packing

  /** `encodeQuery`: the compressed batch in base 64 with the URL-safe alphabet. */
  function EncodeQuery(codec: Codec, query: string): (s: string)
    ensures |s| % 4 == 0
    ensures forall i :: 0 <= i < |s| ==> Base64.IsAlphabet(s[i]) || s[i] == '='
  {
    Base64.EncodeShape(codec.compress(query));
    Base64.Encode(codec.compress(query))
  }

  /** Why a packed query could not be unpacked. */
  datatype QueryError = IllegalBase64 | InvalidStream

  /** `decodeQuery`: base 64 first, then decompression; either step may fail. */
  function DecodeQuery(codec: Codec, encoded: string): (r: Result<string, QueryError>)
    ensures Base64.Decode(encoded).Failure? ==> r == Failure(IllegalBase64)
    ensures Base64.Decode(encoded).Success? ==>
      match codec.decompress(Base64.Decode(encoded).value)
      case None => r == Failure(InvalidStream)
      case Some(q) => r == Success(q)
  {
    match Base64.Decode(encoded)
    case Failure(_) => Failure(IllegalBase64)
    case Success(compressed) =>
      match codec.decompress(compressed)
      case None => Failure(InvalidStream)
      case Some(q) => Success(q)
  }

  /** Unpacking a packed batch gives the batch back. */
  lemma DecodeEncodeQuery(codec: Codec, query: string)
    requires Lossless(codec)
    ensures DecodeQuery(codec, EncodeQuery(codec, query)) == Success(query)
  {
    Base64.DecodeEncode(codec.compress(query));
  }

  /** A character outside the alphabet, `=` and line breaks makes unpacking fail. */
  lemma DecodeQueryRejectsForeign(codec: Codec, encoded: string, i: nat)
    requires i < |encoded|
    requires !Base64.IsAlphabet(encoded[i]) && encoded[i] != '=' && encoded[i] != '\r' && encoded[i] != '\n'
    ensures DecodeQuery(codec, encoded) == Failure(IllegalBase64)
  {
    Base64.RejectsForeignCharacter(encoded, i);
  }

  // ------------------------------------------------------------ handlers

  /** What a handler sends back. */
  datatype Reply =
    | Ok(body: string)
    | Found(location: string)
    | BadRequest(cause: Cause)

  datatype Cause = Undecodable(error: QueryError) | Rejected(message: string)

  /** A reply and the log entries the handler submitted on the way. */
  datatype Handled = Handled(reply: Reply, submitted: seq<SqlCommand>)

  /** The path and query of a redirect: the `/forward` endpoint with the packed batch. */
  function ForwardPath(codec: Codec, query: string): string {
    "/forward?query=" + EncodeQuery(codec, query)
  }

  /** The address a follower redirects a batch to, on the host the client used with the leader's name in it. */
  function RedirectUrl(host: string, name: string, leader: string, codec: Codec, query: string): (url: string)
    ensures HasPrefix(url, "http://" + ReplaceAll(host, PartialName(name), PartialName(leader)))
    ensures HasSuffix(url, ForwardPath(codec, query))
    ensures |url| == 7 + |ReplaceAll(host, PartialName(name), PartialName(leader))| + |ForwardPath(codec, query)|
  {
    "http://" + ReplaceAll(host, PartialName(name), PartialName(leader)) + ForwardPath(codec, query)
  }

  /** The redirect's query parameter unpacks to the batch the follower received. */
  lemma RedirectCarriesBatch(host: string, name: string, leader: string, codec: Codec, query: string)
    requires Lossless(codec)
    ensures var url := RedirectUrl(host, name, leader, codec, query);
      DecodeQuery(codec, url[|url| - |EncodeQuery(codec, query)|..]) == Success(query)
  {
    var url := RedirectUrl(host, name, leader, codec, query);
    var e := EncodeQuery(codec, query);
    var f := ForwardPath(codec, query);
    assert f == "/forward?query=" + e;
    assert HasSuffix(f, e);
    SuffixTransitive(url, f, e);
    DecodeEncodeQuery(codec, query);
  }

  /** A host that does not mention this node's name is redirected unchanged. */
  lemma RedirectKeepsForeignHost(host: string, name: string, leader: string, codec: Codec, query: string)
    requires PartialName(name) != "" && !Occurs(host, PartialName(name))
    ensures RedirectUrl(host, name, leader, codec, query) == "http://" + host + ForwardPath(codec, query)
  {
    ReplaceAllAbsent(host, PartialName(name), PartialName(leader));
  }

  /** The leader's part of `sqlHandler`: submit the batch, answer with the log's reply or a 400. */
  function SubmitAtLeader(codec: Codec, query: string, raftDo: SqlCommand -> Result<string, string>): (h: Handled)
    ensures h.submitted == [NewSqlCommand(codec, query)]
    ensures raftDo(NewSqlCommand(codec, query)).Success? ==> h.reply == Ok(raftDo(NewSqlCommand(codec, query)).value)
    ensures raftDo(NewSqlCommand(codec, query)).Failure? ==>
      h.reply == BadRequest(Rejected(raftDo(NewSqlCommand(codec, query)).error))
  {
    var c := NewSqlCommand(codec, query);
    match raftDo(c)
    case Success(resp) => Handled(Ok(resp), [c])
    case Failure(e) => Handled(BadRequest(Rejected(e)), [c])
  }

  /** `forwardHandler`: unpack the batch and submit it, or answer 400 and submit nothing. */
  function ForwardHandler(codec: Codec, encoded: string, raftDo: SqlCommand -> Result<string, string>): (h: Handled)
    ensures DecodeQuery(codec, encoded).Failure? ==>
      h == Handled(BadRequest(Undecodable(DecodeQuery(codec, encoded).error)), [])
    ensures DecodeQuery(codec, encoded).Success? ==> h == SubmitAtLeader(codec, DecodeQuery(codec, encoded).value, raftDo)
  {
    match DecodeQuery(codec, encoded)
    case Failure(e) => Handled(BadRequest(Undecodable(e)), [])
    case Success(q) => SubmitAtLeader(codec, q, raftDo)
  }

  /** A batch redirected to the leader is handled there exactly as if it had been sent to the leader. */
  lemma ForwardedLikeDirect(codec: Codec, query: string, raftDo: SqlCommand -> Result<string, string>)
    requires Lossless(codec)
    ensures ForwardHandler(codec, EncodeQuery(codec, query), raftDo) == SubmitAtLeader(codec, query, raftDo)
  {
    DecodeEncodeQuery(codec, query);
  }

  /**
   * The `for leader == ""` loop: `polls` are the answers successive calls to
   * `Leader()` give. The loop ends at the first non-empty one; the source
   * waits forever when there is none.
   */
  method AwaitLeader(polls: seq<string>) returns (leader: string, waited: nat)
    requires exists i :: 0 <= i < |polls| && polls[i] != ""
    ensures waited < |polls| && leader == polls[waited] && leader != ""
    ensures forall i :: 0 <= i < waited ==> polls[i] == ""
  {
    waited := 0;
    leader := polls[0];
    while leader == ""
      invariant waited < |polls| && leader == polls[waited]
      invariant forall i :: 0 <= i < waited ==> polls[i] == ""
      invariant exists i :: waited <= i < |polls| && polls[i] != ""
      decreases |polls| - waited
    {
      waited := waited + 1;
      leader := polls[waited];
    }
  }

  /**
   * `sqlHandler` once the body is read: a follower redirects the client and
   * submits nothing; the leader submits the batch itself.
   */
  method SqlHandler(name: string, host: string, query: string, polls: seq<string>, codec: Codec,
                    raftDo: SqlCommand -> Result<string, string>)
    returns (h: Handled)
    requires exists i :: 0 <= i < |polls| && polls[i] != ""
    ensures exists k ::
      0 <= k < |polls| && polls[k] != "" && (forall i :: 0 <= i < k ==> polls[i] == "") &&
      (name != polls[k] ==> h == Handled(Found(RedirectUrl(host, name, polls[k], codec, query)), [])) &&
      (name == polls[k] ==> h == SubmitAtLeader(codec, query, raftDo))
  {
    var leader, waited := AwaitLeader(polls);
    if name != leader {
      var url := RedirectUrl(host, name, leader, codec, query);
      return Handled(Found(url), []);
    }
    h := SubmitAtLeader(codec, query, raftDo);
  }

  // ------------------------------------------------------------- start-up

  /** What `ListenAndServe` does after starting consensus. */
  datatype Startup =
    | JoinCluster(leader: string)
    | RefuseJoin
    | FoundCluster
    | Recover

  /** The branch taken on the `leader` argument and whether the log is empty. */
  function StartupPlan(leader: string, logEmpty: bool): (s: Startup)
    ensures s.JoinCluster? <==> leader != "" && logEmpty
    ensures s.JoinCluster? ==> s.leader == NodeName(leader)
    ensures s == RefuseJoin <==> leader != "" && !logEmpty
    ensures s == FoundCluster <==> leader == "" && logEmpty
    ensures s == Recover <==> leader == "" && !logEmpty
  {
    var l := NodeName(leader);
    if l != "" then (if logEmpty then JoinCluster(l) else RefuseJoin)
    else if logEmpty then FoundCluster
    else Recover
  }

  datatype JoinOutcome = JoinOutcome(attempts: nat, joined: bool, fatal: bool)

  /** The number of join attempts made when attempt `i` succeeds iff `ok[i]`: up to the first success, at most 10. */
  function AttemptsNeeded(ok: seq<bool>, from: nat): (n: nat)
    requires from <= 10 <= |ok|
    ensures from < n <= 10 || n == from == 10
    ensures forall i :: from <= i < n - 1 ==> !ok[i]
    ensures n < 10 ==> ok[n - 1]
    ensures n == 10 ==> ok[9] || forall i :: from <= i < 10 ==> !ok[i]
    decreases 10 - from
  {
    if from == 10 then 10
    else if ok[from] then from + 1
    else AttemptsNeeded(ok, from + 1)
  }

  ghost predicate AnySuccess(ok: seq<bool>)
    requires |ok| >= 10
  {
    exists i :: 0 <= i < 10 && ok[i]
  }

  /**
   * The join loop of `ListenAndServe` as written: the error checked after
   * the loop is the outer one, which is nil, so failing every attempt is
   * not fatal.
   */
  method JoinRetry(ok: seq<bool>) returns (out: JoinOutcome)
    requires |ok| >= 10
    ensures out.attempts == AttemptsNeeded(ok, 0)
    ensures out.joined <==> AnySuccess(ok)
    ensures !out.fatal
  {
    var outerErr := false;
    var tries := 0;
    var joined := false;
    while tries < 10
      invariant 0 <= tries <= 10 && !joined
      invariant AttemptsNeeded(ok, 0) == AttemptsNeeded(ok, tries) && forall i :: 0 <= i < tries ==> !ok[i]
    {
      var err := !ok[tries];
      if !err {
        joined := true;
        break;
      }
      tries := tries + 1;
    }
    out := JoinOutcome(if joined then tries + 1 else tries, joined, outerErr);
  }

  /** Failing all ten attempts leaves the node running, unjoined. */
  lemma JoinFailureIgnored(ok: seq<bool>)
    requires |ok| >= 10 && forall i :: 0 <= i < 10 ==> !ok[i]
    ensures AttemptsNeeded(ok, 0) == 10 && !AnySuccess(ok)
  {
  }

  /** The intended join loop: the last attempt's error is checked, so ten failures are fatal. */
  method JoinRetryIntended(ok: seq<bool>) returns (out: JoinOutcome)
    requires |ok| >= 10
    ensures out.attempts == AttemptsNeeded(ok, 0)
    ensures out.joined <==> AnySuccess(ok)
    ensures out.fatal <==> !out.joined
  {
    var err := true;
    var tries := 0;
    while tries < 10
      invariant 0 <= tries <= 10 && err
      invariant AttemptsNeeded(ok, 0) == AttemptsNeeded(ok, tries) && forall i :: 0 <= i < tries ==> !ok[i]
    {
      err := !ok[tries];
      if !err {
        break;
      }
      tries := tries + 1;
    }
    out := JoinOutcome(if err then tries else tries + 1, !err, err);
  }
}
