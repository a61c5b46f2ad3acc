/** A request from its printed form to what a handler is given. */
module WholeRequest {
  import opened Wrappers
  import opened CText
  import opened Quote
  import opened Query
  import opened RequestParser
  import RequestReader

  /** The head of a request for `path` with the query `pairs`. */
  function PrintRequest(verb: nat, path: string, pairs: seq<Pair>, headers: seq<Header>): string
    requires verb < |METHODS|
  {
    Print(verb, Target(path, pairs), headers)
  }

  ghost predicate Printable(verb: nat, path: string, pairs: seq<Pair>, headers: seq<Header>) {
    && verb < |METHODS| && Bytes(path) && |Target(path, pairs)| < LIMIT
    && (forall i :: 0 <= i < |pairs| ==> Bytes(pairs[i].key) && Bytes(pairs[i].value))
    && (forall i :: 0 <= i < |headers| ==> GoodKey(headers[i].key) && GoodValue(headers[i].value))
  }

  /** Under any chunking, parsing, splitting and unquoting recover the method, the path, the pairs and the headers. */
  lemma PrintedRequestIsUnderstood(verb: nat, path: string, pairs: seq<Pair>, headers: seq<Header>, chunks: seq<string>)
    requires Printable(verb, path, pairs, headers) && Concat(chunks) == PrintRequest(verb, path, pairs, headers)
    ensures var r := WriteChunks(START, chunks);
      && Accepted(r) && r.verb == verb && r.http11 && r.headers == headers
      && r.target.Some? && TargetOk(r.target.value)
      && PathOf(r.target.value) == path && QueryOf(r.target.value) == pairs
  {
    hide Print, Target, TargetOk, PathOf, QueryOf, Bytes, GoodKey, GoodValue, WriteChunks, IsSpace, NextOf;
    TargetOfPrinted(path, pairs);
    ParsePrintedInChunks(verb, Target(path, pairs), headers, chunks);
  }

  /** The same through the code itself. */
  method Understand(ghost verb: nat, ghost path: string, ghost pairs: seq<Pair>, ghost headers: seq<Header>,
    chunks: seq<string>)
    returns (req: RequestReader.Request, text: array<char>, fields: seq<Field>)
    requires Printable(verb, path, pairs, headers) && Concat(chunks) == PrintRequest(verb, path, pairs, headers)
    ensures req.verb == verb && req.http11 && req.headers == headers
    ensures Holds(text[..], 0, path, text.Length) && AllHold(text[..], fields, pairs, text.Length)
  {
    hide Print, Target, TargetOk, PathOf, QueryOf, Bytes, GoodKey, GoodValue, WriteChunks, FeedAll, IsSpace,
      NextOf, Accepted,
         Holds, AllHold;
    TargetOfPrinted(path, pairs);
    ParsePrinted(verb, Target(path, pairs), headers);
    AcceptedPrinted(verb, Target(path, pairs), headers);
    req := RequestReader.Receive(chunks);
    ghost var t := Target(path, pairs);
    assert req.target == Some(t);
    var whole := req.target.value;
    text := new char[|whole| + 1](i => if 0 <= i < |whole| then whole[i] else NUL);
    assert text[..text.Length - 1] == whole;
    fields := ParseTarget(text);
  }

  lemma AcceptedPrinted(verb: nat, target: string, headers: seq<Header>)
    requires verb < |METHODS|
    requires FeedAll(START, Print(verb, target, headers)) ==
             Head(Stopped(Complete(NextOf(verb, headers))), [], [], verb, true, Some(target), headers, [])
    ensures Accepted(FeedAll(START, Print(verb, target, headers)))
  {
    hide Print, FeedAll, NextOf;
  }
}
