/** The request logic of the Flask server (rag/chromadb/edi_demo/app.py):
    input validation, the top-K rule, and the two routes `/context` and
    `/query` with the session state they share through the globals
    `last_context` and `last_query`.

    ChromaDB, the OpenAI embeddings, nltk and the similarity numbers are
    outside the model: the collection lookup and the tokenizer are function
    parameters, and whether the embedding and tokenizer calls succeed is a
    boolean per request. */
module Server {
  import opened Wrappers
  import opened PyStr
  import opened HtmlEscape
  import opened Tokens
  import opened CodePattern

  // ---------------------------------------------------------------------
  // validate_input

  const MaxInputLength: nat := 1000

  datatype InputError = InputTooLong | InvalidCharacters {
    /** The `ValueError` message. */
    function Message(): string {
      match this
      case InputTooLong => "Input too long."
      case InvalidCharacters => "Invalid characters detected."
    }
  }

  /** `validate_input(user_input)`: the length bound is checked before the
      character check, and accepted input comes back HTML-escaped. The
      escaped text is ASCII, carries no markup character, and unescapes to
      the input. */
  function ValidateInput(s: string): (r: Result<string, InputError>)
    ensures |s| > MaxInputLength ==> r == Failure(InputTooLong)
    ensures |s| <= MaxInputLength && !IsAscii(s) ==> r == Failure(InvalidCharacters)
    ensures r.Success? <==> |s| <= MaxInputLength && IsAscii(s)
    ensures r.Success? ==> r.value == Escape(s)
    ensures r.Success? ==> IsAscii(r.value) && Unescape(r.value) == s
    ensures r.Success? ==> forall k | 0 <= k < |r.value| ::
      r.value[k] != '<' && r.value[k] != '>' && r.value[k] != '"' && r.value[k] != '\''
    ensures r.Success? ==> (r.value == s <==> !HasSpecial(s))
  {
    if |s| > MaxInputLength then Failure(InputTooLong)
    else if !IsAscii(s) then Failure(InvalidCharacters)
    else
      EscapeKeepsAscii(s);
      UnescapeEscape(s);
      EscapeHasNoMarkup(s);
      EscapeIdentity(s);
      Success(Escape(s))
  }

  // ---------------------------------------------------------------------
  // Top-K

  /** The number of best contexts averaged into `top_k_similarity`
      (app.py:179-183): three, lowered to two for at most five contexts and
      to one for at most three. */
  function TopK(n: nat): (k: nat)
    ensures 1 <= k <= 3
    ensures n >= 1 ==> k <= n
    ensures n <= 3 ==> k == 1
    ensures 4 <= n <= 5 ==> k == 2
    ensures n > 5 ==> k == 3
  {
    if n <= 3 then 1 else if n <= 5 then 2 else 3
  }

  // ---------------------------------------------------------------------
  // Session state and the two routes

  /** The globals `last_context` and `last_query`; `None` before the first
      successful `/context`. */
  datatype Session = Session(lastContext: Option<string>, lastQuery: Option<string>)

  const Initial: Session := Session(None, None)

  /** Python truthiness of an optional string. */
  predicate Truthy(o: Option<string>) {
    o.Some? && o.value != ""
  }

  /** The `query` member of the request body: missing (then `""`), a string,
      or anything on which `.strip()` raises (no JSON object, not a string). */
  datatype QueryField = Absent | Text(text: string) | NotText

  function RawQuery(f: QueryField): string {
    match f
    case Text(t) => t
    case _ => ""
  }

  /** The collaborators of `/context`: Python's `\w`, the collection lookup
      `collection.query(query_texts=[q], n_results, where=filter)` giving the
      document groups or `None` when it raises, and nltk's tokenizer with the
      stop words already filtered out. */
  datatype Env = Env(
    word: char -> bool,
    collection: (string, nat, Option<string>) -> Option<seq<seq<string>>>,
    tokenize: string -> seq<string>)

  const NResults: nat := 10

  /** The documents of all groups, in order. */
  function Flatten(groups: seq<seq<string>>): (r: seq<string>)
    ensures r == [] <==> forall g | 0 <= g < |groups| :: groups[g] == []
    decreases |groups|
  {
    if groups == [] then [] else groups[0] + Flatten(groups[1..])
  }

  datatype ContextReply =
    | QueryRequired                       // 400 "Query is required"
    | CollectionFailed                    // 500 "Error querying collection"
    | InternalError                       // 500 "Internal server error"
    | NoDocuments                         // 200, no similarities, top_k_similarity None
    | Similar(contexts: seq<string>, topK: nat)   // highlighted contexts; scores left out

  /** The set of query words the contexts are highlighted with
      (app.py:166-168). */
  function QueryWords(env: Env, escapedQuery: string): set<string> {
    var words := NormalizeText(env.word, Join(" ", env.tokenize(escapedQuery)));
    set k | 0 <= k < |words| :: words[k]
  }

  /** Every document with the query words marked. */
  function Highlighted(word: char -> bool, docs: seq<string>, words: set<string>): (r: seq<string>)
    ensures |r| == |docs|
  {
    seq(|docs|, i requires 0 <= i < |docs| => HighlightContext(word, docs[i], words))
  }

  /** `contexts` are the documents `docs` with the query words marked:
      one per document, each rendering its pieces, and each erasing back to
      its document. */
  predicate MarkedContexts(word: char -> bool, docs: seq<string>, words: set<string>, contexts: seq<string>) {
    && |contexts| == |docs|
    && forall i | 0 <= i < |docs| ::
      && Erase(HighlightPieces(word, docs[i], words)) == docs[i]
      && contexts[i] == Render(HighlightPieces(word, docs[i], words))
  }

  /** Each highlighted document is its document with marks added. */
  lemma HighlightedMarks(word: char -> bool, docs: seq<string>, words: set<string>)
    ensures MarkedContexts(word, docs, words, Highlighted(word, docs, words))
  {
    forall i | 0 <= i < |docs|
      ensures Erase(HighlightPieces(word, docs[i], words)) == docs[i]
    {
      HighlightErasesToContext(word, docs[i], words);
    }
  }

  /** `get_context()` (app.py:118-200) as a step of the session state.
      `laterCallsOk` says whether the embedding and tokenizer calls after
      the state update succeed. */
  function ContextStep(s: Session, field: QueryField, env: Env, laterCallsOk: bool): (r: (Session, ContextReply))
    ensures r.0 == s || r.0.lastQuery == Some(Escape(Strip(RawQuery(field))))
    ensures r.1.QueryRequired? || r.1.CollectionFailed? || r.1.NoDocuments? ==> r.0 == s
    ensures r.1.QueryRequired? <==> !field.NotText? && Strip(RawQuery(field)) == []
    ensures r.1.Similar? ==>
      && r.0.lastQuery == Some(Escape(Strip(RawQuery(field)))) && r.0.lastContext.Some?
      && 1 <= r.1.topK <= |r.1.contexts|
  {
    if field.NotText? then (s, InternalError)
    else
      var q := Strip(RawQuery(field));
      if q == [] then (s, QueryRequired)
      else
        match ValidateInput(q)
        case Failure(_) => (s, InternalError)
        case Success(eq) => Retrieve(s, eq, env, laterCallsOk)
  }

  /** The rest of `get_context()` once the query `eq` is validated
      (app.py:130-200): the lookup, the state update, and the reply. */
  function Retrieve(s: Session, eq: string, env: Env, laterCallsOk: bool): (r: (Session, ContextReply))
    ensures r.0 == s || r.0.lastQuery == Some(eq)
    ensures !r.1.QueryRequired?
    ensures r.1.CollectionFailed? || r.1.NoDocuments? ==> r.0 == s
    ensures r.1.Similar? ==> r.0.lastQuery == Some(eq) && r.0.lastContext.Some? && 1 <= r.1.topK <= |r.1.contexts|
  {
    match env.collection(eq, NResults, CodeFilter(eq))
    case None => (s, CollectionFailed)
    case Some(groups) =>
      var docs := Flatten(groups);
      if docs == [] then (s, NoDocuments)
      else
        var s' := Session(Some(Join(" ", docs)), Some(eq));
        if !laterCallsOk then (s', InternalError)
        else
          (s', Similar(Highlighted(env.word, docs, QueryWords(env, eq)), TopK(|docs|)))
  }

  datatype QueryReply =
    | GetContextFirst                     // 400 "Please get context first"
    | QueryInternalError                  // 500 "Internal server error"
    | Stream(context: string, query: string)   // text/event-stream of generate_response(context, query)

  /** `query_collection()` (app.py:208-233). It reads the session and never
      writes it. */
  function QueryStep(s: Session, field: QueryField): (r: QueryReply)
    ensures r.GetContextFirst? ==> !field.NotText?
    ensures r.Stream? ==>
      && Truthy(s.lastContext) && Some(r.context) == s.lastContext
      && s.lastQuery == Some(Strip(RawQuery(field)))
      && r.query == Escape(Strip(RawQuery(field)))
  {
    if field.NotText? then QueryInternalError
    else
      var q := Strip(RawQuery(field));
      if q == [] || !Truthy(s.lastContext) || Some(q) != s.lastQuery then GetContextFirst
      else
        match ValidateInput(q)
        case Failure(_) => QueryInternalError
        case Success(eq) => Stream(s.lastContext.value, eq)
  }

  // ---------------------------------------------------------------------
  // Properties of the guard

  /** The `/context` side of the guard: a missing or blank query, a query
      that fails validation, a failing collection lookup or an empty result
      leave the session as it was; otherwise the session holds the
      space-joined documents and the escaped query, whether or not a later
      call fails. */
  lemma ContextGuard(s: Session, field: QueryField, env: Env, laterCallsOk: bool)
    ensures var q := Strip(RawQuery(field));
      var valid := !field.NotText? && q != [] && |q| <= MaxInputLength && IsAscii(q);
      var found := if valid then env.collection(Escape(q), NResults, CodeFilter(Escape(q))) else None;
      ContextStep(s, field, env, laterCallsOk).0 ==
        if found.Some? && Flatten(found.value) != []
        then Session(Some(Join(" ", Flatten(found.value))), Some(Escape(q)))
        else s
  {
  }

  /** A `/context` request whose query passes validation and whose lookup
      returns documents: the requests that reach the state update. */
  predicate Stores(field: QueryField, env: Env) {
    var q := Strip(RawQuery(field));
    && !field.NotText? && q != [] && |q| <= MaxInputLength && IsAscii(q)
    && var found := env.collection(Escape(q), NResults, CodeFilter(Escape(q)));
    found.Some? && Flatten(found.value) != []
  }

  /** A request that reaches the state update stores the joined documents
      and the escaped query, and answers `Similar` exactly when the later
      calls succeed. */
  lemma StoresStep(s: Session, field: QueryField, env: Env, laterCallsOk: bool)
    requires Stores(field, env)
    ensures var eq := Escape(Strip(RawQuery(field)));
      var docs := Flatten(env.collection(eq, NResults, CodeFilter(eq)).value);
      && ValidateInput(Strip(RawQuery(field))) == Success(eq)
      && ContextStep(s, field, env, laterCallsOk) ==
          (Session(Some(Join(" ", docs)), Some(eq)),
           if laterCallsOk then Similar(Highlighted(env.word, docs, QueryWords(env, eq)), TopK(|docs|))
           else InternalError)
  {
    var q := Strip(RawQuery(field));
    assert ValidateInput(q).Success?;
  }

  /** A `Similar` reply needs documents and successful later calls. */
  lemma RetrieveSimilar(s: Session, eq: string, env: Env, laterCallsOk: bool)
    requires Retrieve(s, eq, env, laterCallsOk).1.Similar?
    ensures var found := env.collection(eq, NResults, CodeFilter(eq));
      found.Some? && Flatten(found.value) != [] && laterCallsOk
  {
  }

  /** Only a request that reaches the state update, with the later calls
      succeeding, gets a `Similar` reply. */
  lemma SimilarStores(s: Session, field: QueryField, env: Env, laterCallsOk: bool)
    requires ContextStep(s, field, env, laterCallsOk).1.Similar?
    ensures Stores(field, env) && laterCallsOk
  {
    SimilarValidated(s, field, env, laterCallsOk);
    RetrieveSimilar(s, Escape(Strip(RawQuery(field))), env, laterCallsOk);
  }

  /** A `Similar` reply means the query passed validation and the rest of
      the step is the lookup on its escaped form. */
  lemma SimilarValidated(s: Session, field: QueryField, env: Env, laterCallsOk: bool)
    requires ContextStep(s, field, env, laterCallsOk).1.Similar?
    ensures var q := Strip(RawQuery(field));
      && !field.NotText? && q != [] && |q| <= MaxInputLength && IsAscii(q)
      && ContextStep(s, field, env, laterCallsOk) == Retrieve(s, Escape(q), env, laterCallsOk)
  {
    var q := Strip(RawQuery(field));
    var v := ValidateInput(q);
    assert !field.NotText? && q != [] && v.Success?;
  }

  /** What a `Similar` reply is made of: the escaped query passed the
      checks and the lookup returned documents. */
  lemma SimilarShape(s: Session, field: QueryField, env: Env, laterCallsOk: bool)
    requires ContextStep(s, field, env, laterCallsOk).1.Similar?
    ensures var q := Strip(RawQuery(field));
      var eq := Escape(q);
      var found := env.collection(eq, NResults, CodeFilter(eq));
      && !field.NotText? && laterCallsOk && ValidateInput(q) == Success(eq)
      && found.Some? && Flatten(found.value) != []
      && var docs := Flatten(found.value);
      && ContextStep(s, field, env, laterCallsOk) ==
          (Session(Some(Join(" ", docs)), Some(eq)),
           Similar(Highlighted(env.word, docs, QueryWords(env, eq)), TopK(|docs|)))
  {
    SimilarStores(s, field, env, laterCallsOk);
    StoresStep(s, field, env, laterCallsOk);
  }

  /** A successful `/context` answers with one highlighted context per
      retrieved document, each of which gives back its document once the
      highlighting is dropped, and selects between one and as many top-K
      contexts as there are documents. */
  lemma ContextSimilar(s: Session, field: QueryField, env: Env, laterCallsOk: bool)
    requires ContextStep(s, field, env, laterCallsOk).1.Similar?
    ensures var (s', reply) := ContextStep(s, field, env, laterCallsOk);
      var q := Strip(RawQuery(field));
      && laterCallsOk
      && s'.lastQuery == Some(Escape(q))
      && exists docs: seq<string> ::
           && |docs| >= 1
           && s'.lastContext == Some(Join(" ", docs))
           && 1 <= reply.topK <= |docs|
           && MarkedContexts(env.word, docs, QueryWords(env, Escape(q)), reply.contexts)
  {
    SimilarShape(s, field, env, laterCallsOk);
    var eq := Escape(Strip(RawQuery(field)));
    var docs := Flatten(env.collection(eq, NResults, CodeFilter(eq)).value);
    var words := QueryWords(env, eq);
    var reply := ContextStep(s, field, env, laterCallsOk).1;
    assert reply == Similar(Highlighted(env.word, docs, words), TopK(|docs|));
    HighlightedMarks(env.word, docs, words);
    assert 1 <= reply.topK <= |docs|;
    var s' := ContextStep(s, field, env, laterCallsOk).0;
    assert s'.lastContext == Some(Join(" ", docs)) && s'.lastQuery == Some(eq);
  }

  /** The `/query` side of the guard: the request gets past the guard
      exactly when its stripped query is non-empty, the stored context is
      non-empty, and the stripped query equals the stored (escaped) query.
      Past the guard it streams over the stored context. */
  lemma QueryGuard(s: Session, field: QueryField)
    ensures var q := Strip(RawQuery(field));
      var reply := QueryStep(s, field);
      && (!field.NotText? ==>
            (reply.GetContextFirst? <==> q == [] || !Truthy(s.lastContext) || s.lastQuery != Some(q)))
      && (!field.NotText? && !reply.GetContextFirst? ==> (reply.Stream? <==> ValidateInput(q).Success?))
      && (reply.Stream? ==> Some(reply.context) == s.lastContext && reply.query == Escape(q)
                            && Unescape(reply.query) == q && s.lastQuery == Some(q))
  {
    if !field.NotText? {
      var q := Strip(RawQuery(field));
      if !(q == [] || !Truthy(s.lastContext) || Some(q) != s.lastQuery) {
        var v := ValidateInput(q);
        assert v.Success? ==> Unescape(v.value) == q;
      }
    }
  }

  /** The session invariant: context and query are stored together, and the
      stored query is a non-empty escaped ASCII text without markup. */
  ghost predicate SessionInv(s: Session) {
    && (s.lastContext.Some? <==> s.lastQuery.Some?)
    && (s.lastQuery.Some? ==>
          var lq := s.lastQuery.value;
          && lq != [] && IsAscii(lq) && IsEscaped(lq)
          && forall k | 0 <= k < |lq| :: lq[k] != '<' && lq[k] != '>' && lq[k] != '"' && lq[k] != '\'')
  }

  lemma ContextStepKeepsInv(s: Session, field: QueryField, env: Env, laterCallsOk: bool)
    requires SessionInv(s)
    ensures SessionInv(ContextStep(s, field, env, laterCallsOk).0)
  {
    ContextGuard(s, field, env, laterCallsOk);
    var s' := ContextStep(s, field, env, laterCallsOk).0;
    if s' != s {
      var q := Strip(RawQuery(field));
      assert q != [] && IsAscii(q) && s' == Session(s'.lastContext, Some(Escape(q))) && s'.lastContext.Some?;
      StoredQueryInv(s'.lastContext.value, q);
    }
  }

  /** What `/context` stores keeps the invariant. */
  lemma StoredQueryInv(context: string, q: string)
    requires q != [] && IsAscii(q)
    ensures SessionInv(Session(Some(context), Some(Escape(q))))
  {
    EscapedIsEscaped(q);
    EscapeHasNoMarkup(q);
    EscapeKeepsAscii(q);
    EscapeCons(q[0], q[1..]);
    assert q == [q[0]] + q[1..];
  }

  /** One HTTP request to the server. */
  datatype Request =
    | ContextRequest(field: QueryField, laterCallsOk: bool)
    | QueryRequest(field: QueryField)

  datatype Reply = ContextReplied(c: ContextReply) | QueryReplied(q: QueryReply)

  /** One request on the session: `/context` may write it, `/query` only
      reads it. */
  function Step(s: Session, request: Request, env: Env): (r: (Session, Reply))
    ensures request.QueryRequest? ==> r.0 == s
    ensures request.ContextRequest? <==> r.1.ContextReplied?
  {
    match request
    case ContextRequest(f, ok) =>
      var (s1, c) := ContextStep(s, f, env, ok);
      (s1, ContextReplied(c))
    case QueryRequest(f) => (s, QueryReplied(QueryStep(s, f)))
  }

  /** The server handling requests one after another, threading the session. */
  function Serve(s: Session, requests: seq<Request>, env: Env): (r: (Session, seq<Reply>))
    ensures |r.1| == |requests|
    decreases |requests|
  {
    if requests == [] then (s, [])
    else
      var (s1, reply) := Step(s, requests[0], env);
      var (s2, replies) := Serve(s1, requests[1..], env);
      (s2, [reply] + replies)
  }

  /** Reply `i` is the reply to request `i` on the session the first `i`
      requests left behind. */
  lemma {:induction false} ServeReplyAt(s: Session, requests: seq<Request>, env: Env, i: nat)
    requires i < |requests|
    ensures Serve(s, requests, env).1[i] == Step(Serve(s, requests[..i], env).0, requests[i], env).1
    decreases i
  {
    if i > 0 {
      var s1 := Step(s, requests[0], env).0;
      ServeReplyAt(s1, requests[1..], env, i - 1);
      assert requests[..i][0] == requests[0] && requests[..i][1..] == requests[1..][..i - 1];
      assert requests[1..][i - 1] == requests[i];
    }
  }

  /** Every sequence of requests keeps the session invariant. */
  lemma {:induction false} ServeKeepsInv(s: Session, requests: seq<Request>, env: Env)
    requires SessionInv(s)
    ensures SessionInv(Serve(s, requests, env).0)
    decreases |requests|
  {
    if requests != [] {
      match requests[0]
      case ContextRequest(f, ok) =>
        ContextStepKeepsInv(s, f, env, ok);
        ServeKeepsInv(Step(s, requests[0], env).0, requests[1..], env);
      case QueryRequest(f) =>
        ServeKeepsInv(s, requests[1..], env);
    }
  }

  /** `/query` requests never change the session. */
  lemma {:induction false} QueriesKeepSession(s: Session, requests: seq<Request>, env: Env)
    requires forall i | 0 <= i < |requests| :: requests[i].QueryRequest?
    ensures Serve(s, requests, env).0 == s
    decreases |requests|
  {
    if requests != [] {
      QueriesKeepSession(s, requests[1..], env);
    }
  }

  lemma EscapeKeepsStripped(q: string)
    requires IsStripped(q)
    ensures IsStripped(Escape(q))
  {
    if q != [] {
      var c0 := EscapeChar(q[0]);
      assert Escape(q)[0] == c0[0] by {
        EscapeCons(q[0], q[1..]);
        assert q == [q[0]] + q[1..];
      }
      EscapeLast(q);
      EscapeCharEnds(q[0]);
      EscapeCharEnds(q[|q| - 1]);
    }
  }

  /** An escaped character starts and ends with a space only when it is one. */
  lemma EscapeCharEnds(c: char)
    ensures var r := EscapeChar(c);
      (IsSpace(r[0]) || IsSpace(r[|r| - 1])) ==> IsSpace(c)
  {
  }

  lemma {:induction false} EscapeLast(q: string)
    requires q != []
    ensures Escape(q)[|Escape(q)| - 1] == EscapeChar(q[|q| - 1])[|EscapeChar(q[|q| - 1])| - 1]
    decreases |q|
  {
    var e := EscapeChar(q[0]);
    var rest := Escape(q[1..]);
    assert Escape(q) == e + rest;
    if |q| > 1 {
      EscapeLast(q[1..]);
      assert q[1..][|q[1..]| - 1] == q[|q| - 1];
      assert (e + rest)[|e + rest| - 1] == rest[|rest| - 1];
    }
  }

  /** With a context and a query stored, `/query` gets past the guard
      exactly when its stripped text is non-empty and equals the stored
      query. */
  lemma GuardPasses(t: Session, x: string)
    requires Truthy(t.lastContext) && t.lastQuery.Some?
    ensures !QueryStep(t, Text(x)).GetContextFirst? <==> Strip(x) != [] && Strip(x) == t.lastQuery.value
  {
    QueryGuard(t, Text(x));
  }

  /** `/query` against a session that stores the escaped query `q`: the
      same raw text passes the guard exactly when escaping left it alone,
      and the escaped text always passes. */
  lemma QueryAfterStore(context: string, raw: string)
    requires context != "" && Strip(raw) != []
    ensures var q := Strip(raw);
      var s' := Session(Some(context), Some(Escape(q)));
      && (!QueryStep(s', Text(raw)).GetContextFirst? <==> !HasSpecial(q))
      && !QueryStep(s', Text(Escape(q))).GetContextFirst?
  {
    var q := Strip(raw);
    var e := Escape(q);
    var s' := Session(Some(context), Some(e));
    GuardPasses(s', raw);
    EscapeIdentity(q);
    assert !QueryStep(s', Text(raw)).GetContextFirst? <==> q == e;
    assert !QueryStep(s', Text(raw)).GetContextFirst? <==> !HasSpecial(q);
    EscapeKeepsStripped(q);
    StripStripped(e);
    GuardPasses(s', e);
  }

  /** Sending back the stored, escaped query passes the guard, and
      `query_collection` validates it a second time: it streams, escaped once
      more, while it is within the length bound, and fails with an internal
      error once escaping has pushed it past 1000 characters. */
  lemma {:induction false} StoredQueryRevalidated(context: string, q: string)
    requires context != "" && q != [] && IsStripped(q) && IsAscii(q)
    ensures var e := Escape(q);
      QueryStep(Session(Some(context), Some(e)), Text(e)) ==
        if |e| <= MaxInputLength then Stream(context, Escape(e)) else QueryInternalError
  {
    var e := Escape(q);
    assert Strip(e) == e by {
      EscapedStripped(q);
    }
    assert IsAscii(e) by {
      EscapeKeepsAscii(q);
    }
    Revalidate(context, e);
  }

  /** The escaped form of a stripped text is stripped. */
  lemma {:induction false} EscapedStripped(q: string)
    requires IsStripped(q)
    ensures Strip(Escape(q)) == Escape(q)
  {
    EscapeKeepsStripped(q);
    StripStripped(Escape(q));
  }

  /** A stripped ASCII query equal to the stored one passes the guard and is
      validated again. */
  lemma {:induction false} Revalidate(context: string, e: string)
    requires context != "" && e != [] && Strip(e) == e && IsAscii(e)
    ensures QueryStep(Session(Some(context), Some(e)), Text(e)) ==
      if |e| <= MaxInputLength then Stream(context, Escape(e)) else QueryInternalError
  {
    PastGuard(context, e);
    if |e| <= MaxInputLength {
      assert ValidateInput(e) == Success(Escape(e));
    } else {
      assert ValidateInput(e) == Failure(InputTooLong);
    }
  }

  /** A non-blank stripped query equal to the stored one, with a stored
      context, gets past the guard to validation. */
  lemma {:induction false} PastGuard(context: string, e: string)
    requires context != "" && e != [] && Strip(e) == e
    ensures QueryStep(Session(Some(context), Some(e)), Text(e)) ==
      match ValidateInput(e)
      case Failure(_) => QueryInternalError
      case Success(eq) => Stream(context, eq)
  {
    var t := Session(Some(context), Some(e));
    var q := Strip(RawQuery(Text(e)));
    assert q == e;
    assert !(q == [] || !Truthy(t.lastContext) || Some(q) != t.lastQuery);
  }

  /** A run of `n` ampersands. */
  function Ampersands(n: nat): (r: string)
    ensures |r| == n && forall k | 0 <= k < n :: r[k] == '&'
  {
    seq(n, _ => '&')
  }

  /** A run of ampersands is a stripped ASCII text, and `html.escape` turns
      each of its characters into five. */
  lemma {:induction false} AmpersandsEscape(n: nat)
    ensures IsStripped(Ampersands(n)) && IsAscii(Ampersands(n))
    ensures |Escape(Ampersands(n))| == 5 * n
  {
    if n > 0 {
      var x := Ampersands(n);
      assert x[0] == '&' && x[n - 1] == '&';
      assert x[1..] == Ampersands(n - 1);
      AmpersandsEscape(n - 1);
    }
  }

  /** Between 201 and 1000 ampersands are a valid `/context` query, but the
      query stored for them is over 1000 characters long: sending that
      stored text to `/query` passes the guard and then fails validation. */
  lemma {:induction false} AmpersandsRevalidationFails(n: nat)
    requires 200 < n <= MaxInputLength
    ensures ValidateInput(Ampersands(n)).Success?
    ensures var e := Escape(Ampersands(n));
      QueryStep(Session(Some("ctx"), Some(e)), Text(e)) == QueryInternalError
  {
    AmpersandsEscape(n);
    StoredQueryRevalidated("ctx", Ampersands(n));
  }

  /** The guard compares the raw query of `/query` with the escaped query
      `/context` stored. After a `/context` whose lookup returned documents
      that join to a non-empty context, sending the same text to `/query`
      passes the guard exactly when the text has none of the five characters
      `html.escape` rewrites; sending the escaped text instead always
      passes. */
  lemma SameQueryPassesIffNothingEscaped(s: Session, raw: string, env: Env, laterCallsOk: bool)
    requires Stores(Text(raw), env)
    requires Truthy(ContextStep(s, Text(raw), env, laterCallsOk).0.lastContext)
    ensures var s' := ContextStep(s, Text(raw), env, laterCallsOk).0;
      var q := Strip(raw);
      && (!QueryStep(s', Text(raw)).GetContextFirst? <==> !HasSpecial(q))
      && !QueryStep(s', Text(Escape(q))).GetContextFirst?
  {
    var q := Strip(raw);
    var s' := ContextStep(s, Text(raw), env, laterCallsOk).0;
    ContextGuard(s, Text(raw), env, laterCallsOk);
    assert s' == Session(Some(s'.lastContext.value), Some(Escape(q))) && q != [];
    QueryAfterStore(s'.lastContext.value, raw);
  }
}
