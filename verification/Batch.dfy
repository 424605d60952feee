/** Batch requests of the TOP client: parts joined and split by a separator that overlaps itself. */
module Batch {
  import opened Signing
  import opened Wrappers

  const SEPARATOR := "\r\n-S-\r\n"

  /** Where sep first occurs in s, -1 when it does not. */
  function IndexOf(s: string, sep: string): (i: int)
    ensures -1 <= i && i + |sep| <= |s| + |sep|
  {
    if |s| < |sep| then -1
    else if sep <= s then 0
    else if s == "" then -1
    else
      var i := IndexOf(s[1..], sep);
      if i < 0 then -1 else i + 1
  }

  lemma IndexOfTurn(s: string, sep: string)
    ensures IndexOf(s, sep) ==
            if sep <= s then 0
            else if |s| <= |sep| then -1
            else if IndexOf(s[1..], sep) < 0 then -1
            else IndexOf(s[1..], sep) + 1
  {}

  /** The separator occurs at k. */
  predicate OccursAt(s: string, sep: string, k: int) { 0 <= k <= |s| && sep <= s[k..] }

  lemma OccursInRest(s: string, sep: string, k: int)
    requires k > 0 && s != ""
    ensures OccursAt(s, sep, k) <==> OccursAt(s[1..], sep, k - 1)
  {
    if k <= |s| {
      assert s[1..][k - 1..] == s[k..];
    }
  }

  /** The first occurrence is found, or there is none. */
  lemma {:induction false} IndexOfFinds(s: string, sep: string)
    ensures var i := IndexOf(s, sep);
            if i < 0 then forall k :: !OccursAt(s, sep, k)
            else i + |sep| <= |s| && OccursAt(s, sep, i) && forall k :: k < i ==> !OccursAt(s, sep, k)
  {
    hide IndexOf;
    IndexOfTurn(s, sep);
    assert s[0..] == s;
    if !(sep <= s) && |s| > |sep| {
      IndexOfFinds(s[1..], sep);
      forall k | k > 0 ensures OccursAt(s, sep, k) <==> OccursAt(s[1..], sep, k - 1) {
        OccursInRest(s, sep, k);
      }
    }
  }

  /** strings.Split: the text between occurrences, found left to right. */
  function Split(s: string, sep: string): (parts: seq<string>)
    requires sep != ""
    ensures parts != []
    decreases |s|
  {
    var i := IndexOf(s, sep);
    IndexOfFinds(s, sep);
    if i < 0 then [s] else [s[..i]] + Split(s[i + |sep|..], sep)
  }

  function Join(parts: seq<string>, sep: string): string {
    if parts == [] then ""
    else if |parts| == 1 then parts[0]
    else parts[0] + sep + Join(parts[1..], sep)
  }

  lemma {:induction false} IndexOfGrows(s: string, t: string, sep: string)
    requires IndexOf(s, sep) >= 0
    ensures IndexOf(s + t, sep) == IndexOf(s, sep)
  {
    if !(sep <= s) {
      assert (s + t)[1..] == s[1..] + t;
      assert (s + t)[..|sep|] == s[..|sep|];
      IndexOfGrows(s[1..], t, sep);
    } else {
      assert sep <= s + t;
    }
  }

  lemma {:induction false} SeparatorIsFound(p: string, sep: string)
    ensures 0 <= IndexOf(p + sep, sep) <= |p|
  {
    if p == "" {
      assert p + sep == sep;
    } else if !(sep <= p + sep) {
      assert (p + sep)[1..] == p[1..] + sep;
      SeparatorIsFound(p[1..], sep);
    }
  }

  /** A part that, followed by the separator, does not show the separator too early. */
  predicate EndsCleanly(p: string, sep: string) {
    IndexOf(p + sep, sep) == |p|
  }

  /** Splitting undoes joining exactly when every part but the last ends cleanly and the last one holds
      no separator: a test on each part alone. */
  lemma {:induction false} SplitUndoesJoinIff(parts: seq<string>, sep: string)
    requires parts != [] && sep != ""
    ensures Split(Join(parts, sep), sep) == parts <==>
            (forall i :: 0 <= i < |parts| - 1 ==> EndsCleanly(parts[i], sep)) && IndexOf(parts[|parts| - 1], sep) < 0
    decreases parts
  {
    hide Split, IndexOf;
    var p := parts[0];
    if |parts| > 1 {
      var rest := parts[1..];
      var tail := Join(rest, sep);
      SplitUndoesJoinIff(rest, sep);
      assert forall i :: 0 <= i < |rest| ==> rest[i] == parts[i + 1];
      assert (forall i :: 0 <= i < |parts| - 1 ==> EndsCleanly(parts[i], sep)) <==>
             EndsCleanly(p, sep) && forall i :: 0 <= i < |rest| - 1 ==> EndsCleanly(rest[i], sep);
      FirstPart(p, tail, sep);
      assert parts == [p] + rest;
    } else {
      SplitTurn(p, sep);
    }
  }

  lemma SplitTurn(s: string, sep: string)
    requires sep != ""
    ensures var i := IndexOf(s, sep);
            if i < 0 then Split(s, sep) == [s]
            else i + |sep| <= |s| && Split(s, sep) == [s[..i]] + Split(s[i + |sep|..], sep)
                 && |Split(s, sep)| >= 2
  {
    hide IndexOf;
    IndexOfFinds(s, sep);
  }

  /** A first part comes back exactly when it ends cleanly, and then splitting goes on behind the separator. */
  lemma FirstPart(p: string, tail: string, sep: string)
    requires sep != ""
    ensures var parts := Split(p + sep + tail, sep);
            if EndsCleanly(p, sep) then parts == [p] + Split(tail, sep) else parts[0] != p
  {
    hide Split, IndexOf;
    var s := p + sep + tail;
    SeparatorIsFound(p, sep);
    IndexOfGrows(p + sep, tail, sep);
    SplitTurn(s, sep);
    var i := IndexOf(s, sep);
    if EndsCleanly(p, sep) {
      assert s[..i] == p && s[i + |sep|..] == tail;
    } else {
      assert |s[..i]| != |p|;
    }
  }

  /** Splitting any text gives parts that join to it, each but the last ending cleanly and the last one without a
      separator: by SplitUndoesJoinIff there is only one such list. */
  lemma {:induction false} SplitSpelledOut(s: string, sep: string)
    requires sep != ""
    ensures var parts := Split(s, sep);
            && parts != [] && Join(parts, sep) == s
            && (forall i :: 0 <= i < |parts| - 1 ==> EndsCleanly(parts[i], sep))
            && IndexOf(parts[|parts| - 1], sep) < 0
    decreases |s|
  {
    hide Split, IndexOf;
    SplitTurn(s, sep);
    var i := IndexOf(s, sep);
    if i >= 0 {
      IndexOfFinds(s, sep);
      var p, tail := s[..i], s[i + |sep|..];
      SplitSpelledOut(tail, sep);
      assert s[i..] == sep + tail;
      assert s == p + sep + tail;
      SeparatorIsFound(p, sep);
      IndexOfGrows(p + sep, tail, sep);
    }
  }

  /** Parts without the separator's first character always come back. */
  lemma SplitUndoesJoin(parts: seq<string>, sep: string)
    requires parts != [] && sep != ""
    requires forall i :: 0 <= i < |parts| ==> sep[0] !in parts[i]
    ensures Split(Join(parts, sep), sep) == parts
  {
    forall i | 0 <= i < |parts| ensures EndsCleanly(parts[i], sep) && IndexOf(parts[i], sep) < 0 {
      NoFirstCharacter(parts[i], sep);
    }
    SplitUndoesJoinIff(parts, sep);
  }

  lemma NoFirstCharacter(p: string, sep: string)
    requires sep != "" && sep[0] !in p
    ensures EndsCleanly(p, sep) && IndexOf(p, sep) < 0
  {
    hide IndexOf;
    IndexOfFinds(p, sep);
    SeparatorIsFound(p, sep);
    IndexOfFinds(p + sep, sep);
    forall k | 0 <= k < |p| ensures !OccursAt(p, sep, k) && !OccursAt(p + sep, sep, k) {
      assert p[k..][0] == p[k] && (p + sep)[k..][0] == p[k];
    }
    assert !OccursAt(p, sep, |p|);
  }

  /** The overlap at work: a part without any separator in it that still does not come back. */
  lemma OverlapBreaksASplit()
    ensures var parts := ["a\r\n-S-", "b"];
            IndexOf(parts[0], SEPARATOR) < 0 && Split(Join(parts, SEPARATOR), SEPARATOR) != parts
  {
    var parts := ["a\r\n-S-", "b"];
    var p := parts[0];
    SeparatorIsFound(p, SEPARATOR);
    IndexOfFinds(p + SEPARATOR, SEPARATOR);
    assert OccursAt(p + SEPARATOR, SEPARATOR, 1) by {
      assert (p + SEPARATOR)[1..] == SEPARATOR + "-S-\r\n";
    }
    SplitUndoesJoinIff(parts, SEPARATOR);
  }

  // ---------------------------------------------------------------- the two loops

  method JoinRequests(params: seq<string>) returns (body: string)
    ensures body == Join(params, SEPARATOR)
  {
    body := "";
    for i := 0 to |params|
      invariant body == if i == 0 then "" else if i == |params| then Join(params, SEPARATOR)
                        else Join(params[..i], SEPARATOR) + SEPARATOR
    {
      JoinSnoc(params, i, SEPARATOR);
      body := body + params[i];
      if i != |params| - 1 {
        body := body + SEPARATOR;
      }
    }
  }

  lemma JoinTurn(parts: seq<string>, sep: string)
    requires parts != []
    ensures Join(parts, sep) == if |parts| == 1 then parts[0] else parts[0] + sep + Join(parts[1..], sep)
  {}

  lemma {:induction false} JoinSnoc(parts: seq<string>, i: nat, sep: string)
    requires i < |parts|
    ensures Join(parts[..i + 1], sep) == if i == 0 then parts[0] else Join(parts[..i], sep) + sep + parts[i]
    ensures parts[..|parts|] == parts
    decreases parts
  {
    hide Join;
    JoinTurn(parts[..i + 1], sep);
    if i > 0 {
      var rest := parts[1..];
      JoinTurn(parts[..i], sep);
      JoinSnoc(rest, i - 1, sep);
      assert parts[..i + 1][1..] == rest[..i] && parts[..i][1..] == rest[..i - 1];
      if i > 1 {
        var init := Join(rest[..i - 1], sep);
        assert parts[0] + sep + (init + sep + parts[i]) == (parts[0] + sep + init) + sep + parts[i];
      }
    }
  }

  /** What decoding one part gives: a document or a decoding error. */
  datatype Parsed<J> = Parsed(js: J) | Unparsable(error: string)

  datatype BatchResult<J> = BatchResult(js: Option<J>, err: Option<string>)

  function ResultOf<J>(part: string, parse: string -> Parsed<J>, checkErrorResp: J -> Option<string>): BatchResult<J> {
    match parse(part)
    case Unparsable(e) => BatchResult(None, Some(e))
    case Parsed(js) => BatchResult(Some(js), checkErrorResp(js))
  }

  lemma ResultSpelledOut<J>(part: string, parse: string -> Parsed<J>, checkErrorResp: J -> Option<string>)
    ensures match parse(part)
            case Unparsable(e) => ResultOf(part, parse, checkErrorResp) == BatchResult(None, Some(e))
            case Parsed(js) => ResultOf(part, parse, checkErrorResp) == BatchResult(Some(js), checkErrorResp(js))
  {}

  /** r is what text answers to reqSize requests: one result per part; a lone error answering any other number of
      requests than one is the error of the whole batch. */
  ghost predicate Answered<J>(text: string, reqSize: nat, parse: string -> Parsed<J>,
                              checkErrorResp: J -> Option<string>, r: Result<seq<BatchResult<J>>>) {
    var ss := Split(text, "\r\n-S-\r\n");
    var first := ResultOf(ss[0], parse, checkErrorResp);
    if |ss| == 1 != reqSize && first.err.Some? then r == Err(first.err.value)
    else r.Ok? && |r.value| == |ss|
         && forall i :: 0 <= i < |ss| ==> r.value[i] == ResultOf(ss[i], parse, checkErrorResp)
  }

  method BytesToResultBatch<J>(text: string, reqSize: nat,
                               parse: string -> Parsed<J>, checkErrorResp: J -> Option<string>)
    returns (r: Result<seq<BatchResult<J>>>)
    ensures Answered(text, reqSize, parse, checkErrorResp, r)
  {
    hide Split;
    var ss := Split(text, SEPARATOR);
    var size := |ss|;
    var res: seq<BatchResult<J>> := [];
    for i := 0 to size
      invariant |res| == i
      invariant forall k :: 0 <= k < i ==> res[k] == ResultOf(ss[k], parse, checkErrorResp)
    {
      var js := parse(ss[i]);
      if js.Unparsable? {
        res := res + [BatchResult(None, Some(js.error))];
        continue;
      }
      res := res + [BatchResult(Some(js.js), checkErrorResp(js.js))];
    }
    if size != reqSize && size == 1 && res[0].err != None {
      return Err(res[0].err.value);
    }
    r := Ok(res);
  }

  /** Answers a body sent with signed parameters. */
  type BatchServer = (Params, string) -> Result<string>

  /** The common parameters, signed over the body. */
  ghost predicate SignsBody(c: Client, timestamp: string, body: string, request: Params) {
    var common := Common(map[], c.appKey, c.session, timestamp);
    && "sign" in request && request == common["sign" := request["sign"]]
    && IsSignature(request["sign"], common, body, c.appSecret, c.digest)
  }

  /** The requests go out as one body under one signature; the reply is taken apart again. */
  method DoJsonBatch<J>(c: Client, timestamp: string, params: seq<string>, server: BatchServer,
                        parse: string -> Parsed<J>, checkErrorResp: J -> Option<string>)
    returns (r: Result<seq<BatchResult<J>>>, ghost request: Params)
    ensures SignsBody(c, timestamp, Join(params, "\r\n-S-\r\n"), request)
    ensures match server(request, Join(params, "\r\n-S-\r\n"))
            case Err(e) => r == Err(e)
            case Ok(text) => Answered(text, |params|, parse, checkErrorResp, r)
  {
    hide SignsBody, Join, Answered, IsSignature, Common;
    var p := new Parameters(map[]);
    p.SetCommonParams(c.appKey, c.session, timestamp);
    var body := JoinRequests(params);
    ghost var common := p.m;
    p.Sign(c.appSecret, body, c.digest);
    SignedBody(c, timestamp, body, p.m);
    request := p.m;
    var reply := server(p.m, body);
    if reply.Err? {
      r := Err(reply.error);
      return;
    }
    r := BytesToResultBatch(reply.value, |params|, parse, checkErrorResp);
  }

  lemma SignedBody(c: Client, timestamp: string, body: string, request: Params)
    requires var common := Common(map[], c.appKey, c.session, timestamp);
             && "sign" in request && request == common["sign" := request["sign"]]
             && IsSignature(request["sign"], common, body, c.appSecret, c.digest)
    ensures SignsBody(c, timestamp, body, request)
  {}

  /** When the server answers each request with one part, in order, result i belongs to request i. */
  lemma AnsweredEach<J>(text: string, params: seq<string>, answer: string -> string, parse: string -> Parsed<J>,
                        checkErrorResp: J -> Option<string>, r: Result<seq<BatchResult<J>>>)
    requires AnswersEach(text, params, answer) && Answered(text, |params|, parse, checkErrorResp, r)
    ensures r.Ok? && |r.value| == |params|
    ensures forall i :: 0 <= i < |params| ==> r.value[i] == ResultOf(answer(params[i]), parse, checkErrorResp)
  {
    SplitUndoesJoin(Answers(params, answer), SEPARATOR);
  }

  /** An error that answers any other number of requests than one all by itself is the error of the batch; one that
      answers a single request is the result of that request. */
  lemma LoneError<J>(text: string, reqSize: nat, parse: string -> Parsed<J>, checkErrorResp: J -> Option<string>,
                     e: string, r: Result<seq<BatchResult<J>>>)
    requires '\r' !in text && ResultOf(text, parse, checkErrorResp).err == Some(e)
    requires Answered(text, reqSize, parse, checkErrorResp, r)
    ensures if reqSize == 1 then r == Ok([ResultOf(text, parse, checkErrorResp)]) else r == Err(e)
  {
    hide Split;
    NoFirstCharacter(text, SEPARATOR);
    SplitTurn(text, SEPARATOR);
    if reqSize == 1 {
      assert r.value == [r.value[0]];
    }
  }

  function Answers(params: seq<string>, answer: string -> string): seq<string> {
    seq(|params|, i requires 0 <= i < |params| => answer(params[i]))
  }

  /** The text answers a non-empty batch with one part per request, in order, none with a carriage return. */
  ghost predicate AnswersEach(text: string, params: seq<string>, answer: string -> string) {
    && params != []
    && (forall i :: 0 <= i < |params| ==> '\r' !in answer(params[i]))
    && text == Join(Answers(params, answer), SEPARATOR)
  }
}
