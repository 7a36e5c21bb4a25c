/** The query service: it turns the language model's reply into the Cypher
    text it hands back (surrounding whitespace and one Markdown code fence
    removed), maps each failure of the model call to a fixed "[ERROR] ..."
    message, and answers `POST /generate-query` with `{"query": ...,
    "parameters": {}}`. The model call itself is a parameter. */
module Nl2CypherMcp {
  import opened Basics

  // ------------------------------------------------------------ str.strip()

  /** The characters Python's `str.isspace()` accepts, the ones `strip()`
      with no argument removes: tab to carriage return, the information
      separators U+001C to U+001F, space, U+0085, U+00A0, U+1680, U+2000 to
      U+200A, U+2028, U+2029, U+202F, U+205F and U+3000. */
  predicate IsSpace(c: char) {
    var n := c as int;
    (9 <= n <= 13) || (0x1C <= n <= 0x20) || n == 0x85 || n == 0xA0 || n == 0x1680 ||
    (0x2000 <= n <= 0x200A) || n == 0x2028 || n == 0x2029 || n == 0x202F || n == 0x205F ||
    n == 0x3000
  }

  predicate AllSpace(s: string) {
    forall i :: 0 <= i < |s| ==> IsSpace(s[i])
  }

  /** `s.lstrip()`: the suffix of `s` left after its leading whitespace. */
  function TrimStart(s: string): (r: string)
    ensures |r| <= |s| && r == s[|s| - |r|..]
    ensures forall i :: 0 <= i < |s| - |r| ==> IsSpace(s[i])
    ensures r == [] || !IsSpace(r[0])
  {
    if s != [] && IsSpace(s[0]) then TrimStart(s[1..]) else s
  }

  /** `s.rstrip()`: the prefix of `s` left before its trailing whitespace. */
  function TrimEnd(s: string): (r: string)
    ensures |r| <= |s| && r == s[..|r|]
    ensures forall i :: |r| <= i < |s| ==> IsSpace(s[i])
    ensures r == [] || !IsSpace(r[|r| - 1])
  {
    if s != [] && IsSpace(s[|s| - 1]) then TrimEnd(s[..|s| - 1]) else s
  }

  /** `s.strip()`: neither end of the result is whitespace. */
  function Strip(s: string): (r: string)
    ensures |r| <= |s|
    ensures r == [] || (!IsSpace(r[0]) && !IsSpace(r[|r| - 1]))
  {
    TrimEnd(TrimStart(s))
  }

  lemma {:induction false} TrimStartSpaces(a: string, rest: string)
    requires AllSpace(a) && (rest == [] || !IsSpace(rest[0]))
    ensures TrimStart(a + rest) == rest
    decreases |a|
  {
    if a == [] {
      assert a + rest == rest;
    } else {
      assert (a + rest)[1..] == a[1..] + rest;
      TrimStartSpaces(a[1..], rest);
    }
  }

  lemma {:induction false} TrimEndSpaces(rest: string, b: string)
    requires AllSpace(b) && (rest == [] || !IsSpace(rest[|rest| - 1]))
    ensures TrimEnd(rest + b) == rest
    decreases |b|
  {
    if b == [] {
      assert rest + b == rest;
    } else {
      assert (rest + b)[..|rest + b| - 1] == rest + b[..|b| - 1];
      TrimEndSpaces(rest, b[..|b| - 1]);
    }
  }

  /** `strip()` is characterised by its result: whenever `s` is whitespace,
      then `r`, then whitespace, and `r` neither starts nor ends with
      whitespace, `s.strip()` is `r`. */
  lemma StripUnique(a: string, r: string, b: string)
    requires AllSpace(a) && AllSpace(b)
    requires r == [] || (!IsSpace(r[0]) && !IsSpace(r[|r| - 1]))
    ensures Strip(a + r + b) == r
  {
    if r == [] {
      assert a + r + b == a + b;
      assert AllSpace(a + b);
      TrimStartSpaces(a + b, []);
      assert a + b + [] == a + b;
    } else {
      assert a + r + b == a + (r + b);
      TrimStartSpaces(a, r + b);
      TrimEndSpaces(r, b);
    }
  }

  /** A text with no whitespace at either end is its own strip. */
  lemma StripFixed(r: string)
    requires r == [] || (!IsSpace(r[0]) && !IsSpace(r[|r| - 1]))
    ensures Strip(r) == r
  {
    assert [] + r == r && r + [] == r;
    TrimStartSpaces([], r);
    TrimEndSpaces(r, []);
  }

  lemma StripIdempotent(s: string)
    ensures Strip(Strip(s)) == Strip(s)
  {
    StripFixed(Strip(s));
  }

  // ---------------------------------------------------------- code fences

  /** `q.startswith(p)`. */
  predicate StartsWith(q: string, p: string) {
    |p| <= |q| && q[..|p|] == p
  }

  /** `q.endswith(p)`. */
  predicate EndsWith(q: string, p: string) {
    |p| <= |q| && q[|q| - |p|..] == p
  }

  const CypherFence := "```cypher\n"
  const PlainFence := "```\n"
  const Fence := "```"

  /** `re.sub(r'^```(?:cypher)?\n', '', q)`: the pattern is anchored at the
      start, so at most one opening fence goes; the optional `cypher` is
      tried first. */
  function SubFenceStart(q: string): string {
    if StartsWith(q, CypherFence) then q[|CypherFence|..]
    else if StartsWith(q, PlainFence) then q[|PlainFence|..]
    else q
  }

  /** `re.sub(r'```$', '', q)`: without MULTILINE, `$` matches at the very end
      or just before a final newline, so "```" is removed either at the end or
      before a final "\n" (which stays). At most one of the two can apply. */
  function SubFenceEnd(q: string): string {
    if EndsWith(q, Fence) then q[..|q| - |Fence|]
    else if |Fence| + 1 <= |q| && q[|q| - |Fence| - 1..|q| - 1] == Fence && q[|q| - 1] == '\n' then
      q[..|q| - |Fence| - 1] + "\n"
    else q
  }

  /** The query text taken from the reply's content. */
  function QueryText(content: string): string {
    Strip(SubFenceEnd(SubFenceStart(Strip(content))))
  }

  /** The query text never starts or ends with whitespace. */
  lemma QueryTextTrimmed(content: string)
    ensures var q := QueryText(content);
      q == [] || (!IsSpace(q[0]) && !IsSpace(q[|q| - 1]))
  {
    var x := SubFenceEnd(SubFenceStart(Strip(content)));
    assert QueryText(content) == Strip(x);
  }

  /** One opening fence, tagged `cypher` or not, is removed. */
  lemma FenceStartRemoved(tag: string, rest: string)
    requires tag == CypherFence || tag == PlainFence
    ensures SubFenceStart(tag + rest) == rest
  {
    var q := tag + rest;
    assert q[..|tag|] == tag && q[|tag|..] == rest;
    if tag == PlainFence {
      assert |CypherFence| <= |q| ==> q[..|CypherFence|][3] == '\n';
    }
  }

  /** One closing fence at the very end is removed. */
  lemma FenceEndRemoved(body: string)
    ensures SubFenceEnd(body + Fence) == body
  {
    var q := body + Fence;
    assert q[|q| - |Fence|..] == Fence && q[..|q| - |Fence|] == body;
  }

  /** A reply that is a fenced block, with or without the `cypher` tag and
      with any whitespace around it, yields the block's body stripped; the
      body is taken as it is, so a second fence inside it stays. */
  lemma FencedReply(before: string, tag: string, body: string, after: string)
    requires AllSpace(before) && AllSpace(after)
    requires tag == CypherFence || tag == PlainFence
    ensures QueryText(before + tag + body + Fence + after) == Strip(body)
  {
    var rest := body + Fence;
    var block := tag + rest;
    assert before + tag + body + Fence + after == before + block + after;
    assert block[0] == '`' && block[|block| - 1] == '`';
    StripUnique(before, block, after);
    FenceStartRemoved(tag, rest);
    FenceEndRemoved(body);
    assert QueryText(before + block + after) == Strip(SubFenceEnd(SubFenceStart(block)));
  }

  /** A reply with no fence at either end is only stripped. */
  lemma UnfencedReply(content: string)
    requires !StartsWith(Strip(content), Fence) && !EndsWith(Strip(content), Fence)
    ensures QueryText(content) == Strip(content)
  {
    var q := Strip(content);
    assert SubFenceEnd(SubFenceStart(q)) == q by {
      StripNoFinalNewline(content);
      FenceFree(q);
    }
    assert Strip(q) == q by {
      StripIdempotent(content);
    }
  }

  /** A stripped text never ends with a newline. */
  lemma StripNoFinalNewline(s: string)
    ensures var q := Strip(s);
      q == [] || q[|q| - 1] != '\n'
  {
  }

  /** Neither substitution touches a text with no fence at either end and no
      newline at its end. */
  lemma FenceFree(q: string)
    requires !StartsWith(q, Fence) && !EndsWith(q, Fence)
    requires q == [] || q[|q| - 1] != '\n'
    ensures SubFenceEnd(SubFenceStart(q)) == q
  {
    NoOpeningFence(q);
    NoClosingFence(q);
  }

  lemma NoOpeningFence(q: string)
    requires !StartsWith(q, Fence)
    ensures SubFenceStart(q) == q
  {
    assert |CypherFence| <= |q| ==> q[..|CypherFence|][..|Fence|] == q[..|Fence|];
    assert |PlainFence| <= |q| ==> q[..|PlainFence|][..|Fence|] == q[..|Fence|];
  }

  lemma NoClosingFence(q: string)
    requires !EndsWith(q, Fence)
    requires q == [] || q[|q| - 1] != '\n'
    ensures SubFenceEnd(q) == q
  {
  }

  lemma NoFinalNewlineAfterStart(content: string)
    ensures var q := SubFenceStart(Strip(content));
      q == [] || q[|q| - 1] != '\n'
  {
    LastCharKept(Strip(content));
  }

  /** Removing an opening fence keeps the last character when that is not
      whitespace. */
  lemma LastCharKept(q: string)
    requires q == [] || !IsSpace(q[|q| - 1])
    ensures var x := SubFenceStart(q);
      x == [] || x[|x| - 1] != '\n'
  {
    if StartsWith(q, CypherFence) {
      assert q[|CypherFence| - 1] == '\n';
    } else if StartsWith(q, PlainFence) {
      assert q[|PlainFence| - 1] == '\n';
    }
  }

  // ------------------------------------------------------ the model call

  /** How the chat completion call ends: a reply whose first choice's message
      content is present or `None`, one of the four error classes the
      service names (a timeout is a connection error), or any other
      exception. `detail` is the exception's `str()`. */
  datatype Outcome =
    | Reply(content: Option<string>)
    | AuthenticationFailed
    | RateLimited
    | ConnectionFailed
    | ApiError(detail: string)
    | Unexpected(detail: string)

  const ErrorTag := "[ERROR]"
  const AuthMessage := ErrorTag + " OpenAI API 인증에 실패했습니다. API 키를 확인하세요."
  const RateLimitMessage := ErrorTag + " OpenAI API 사용량 한도를 초과했습니다. 잠시 후 다시 시도하세요."
  const ConnectionMessage := ErrorTag + " OpenAI 서버에 연결할 수 없습니다. 네트워크 상태를 확인하세요."
  const ApiErrorPrefix := ErrorTag + " OpenAI API가 에러를 반환했습니다: "
  const UnexpectedPrefix := ErrorTag + " 쿼리 생성 중 예상치 못한 에러가 발생했습니다: "
  /** What `str()` of the AttributeError says when `content` is `None`. */
  const NoneStripDetail := "'NoneType' object has no attribute 'strip'"

  predicate Failed(o: Outcome) {
    !(o.Reply? && o.content.Some?)
  }

  /** `natural_language_to_cypher` given how its model call ended: the query
      text of a reply, or the "[ERROR]" message of its `except` clause. */
  function NaturalLanguageToCypher(o: Outcome): (r: string)
    ensures !Failed(o) ==> r == QueryText(o.content.value)
    ensures Failed(o) ==> |ErrorTag| <= |r| && r[..|ErrorTag|] == ErrorTag
  {
    match o
    case Reply(content) =>
      if content.Some? then QueryText(content.value) else UnexpectedPrefix + NoneStripDetail
    case AuthenticationFailed => AuthMessage
    case RateLimited => RateLimitMessage
    case ConnectionFailed => ConnectionMessage
    case ApiError(detail) => ApiErrorPrefix + detail
    case Unexpected(detail) => UnexpectedPrefix + detail
  }

  /** Which `except` clause reports a failure: a missing content raises from
      `.strip()` and falls to the last, catch-all clause. */
  function ErrorClause(o: Outcome): nat
    requires Failed(o)
  {
    match o
    case AuthenticationFailed => 0
    case RateLimited => 1
    case ConnectionFailed => 2
    case ApiError(_) => 3
    case _ => 4
  }

  /** Four characters of the message that tell the clauses apart. After the
      common `[ERROR] ` (positions 0-7), position 8 is where the unexpected-
      error message leaves `OpenAI`, 15 where the connection message leaves
      `OpenAI API`, 18 where the API-error message does (`API가`), and 19
      where the authentication and rate-limit messages part. */
  function Signature(clause: nat): (char, char, char, char) {
    if clause == 0 then ('O', 'A', ' ', '인')
    else if clause == 1 then ('O', 'A', ' ', '사')
    else if clause == 2 then ('O', '서', ' ', '연')
    else if clause == 3 then ('O', 'A', '가', ' ')
    else ('쿼', ' ', '치', ' ')
  }

  lemma FixedMessageSignatures()
    ensures 20 <= |AuthMessage| && (AuthMessage[8], AuthMessage[15], AuthMessage[18], AuthMessage[19]) == Signature(0)
    ensures 20 <= |RateLimitMessage| &&
      (RateLimitMessage[8], RateLimitMessage[15], RateLimitMessage[18], RateLimitMessage[19]) == Signature(1)
    ensures 20 <= |ConnectionMessage| &&
      (ConnectionMessage[8], ConnectionMessage[15], ConnectionMessage[18], ConnectionMessage[19]) == Signature(2)
    ensures 20 <= |ApiErrorPrefix| &&
      (ApiErrorPrefix[8], ApiErrorPrefix[15], ApiErrorPrefix[18], ApiErrorPrefix[19]) == Signature(3)
    ensures 20 <= |UnexpectedPrefix| &&
      (UnexpectedPrefix[8], UnexpectedPrefix[15], UnexpectedPrefix[18], UnexpectedPrefix[19]) == Signature(4)
  {
  }

  lemma MessageSignature(o: Outcome)
    requires Failed(o)
    ensures var r := NaturalLanguageToCypher(o);
      20 <= |r| && (r[8], r[15], r[18], r[19]) == Signature(ErrorClause(o))
  {
    FixedMessageSignatures();
    var r := NaturalLanguageToCypher(o);
    var prefix :=
      match o
      case AuthenticationFailed => AuthMessage
      case RateLimited => RateLimitMessage
      case ConnectionFailed => ConnectionMessage
      case ApiError(_) => ApiErrorPrefix
      case _ => UnexpectedPrefix;
    assert r[..|prefix|] == prefix;
    assert r[8] == prefix[8] && r[15] == prefix[15] && r[18] == prefix[18] && r[19] == prefix[19];
  }

  /** The five clauses give five different messages, so the message tells
      which clause handled the failure. */
  lemma FailureMessagesDistinct(o: Outcome, p: Outcome)
    requires Failed(o) && Failed(p) && ErrorClause(o) != ErrorClause(p)
    ensures NaturalLanguageToCypher(o) != NaturalLanguageToCypher(p)
  {
    MessageSignature(o);
    MessageSignature(p);
  }

  /** The messages that carry the exception text keep it whole after their
      fixed prefix. */
  lemma FailureDetailKept(o: Outcome)
    requires o.ApiError? || o.Unexpected?
    ensures var prefix := if o.ApiError? then ApiErrorPrefix else UnexpectedPrefix;
      var r := NaturalLanguageToCypher(o);
      |prefix| <= |r| && r[..|prefix|] == prefix && r[|prefix|..] == o.detail
  {
  }

  // ------------------------------------------------------------ endpoint

  /** The body of `POST /generate-query`. */
  datatype QueryRequest = QueryRequest(message: string)

  /** `{"query": query, "parameters": {}}`. */
  datatype QueryResponse = QueryResponse(query: string, parameters: map<string, string>)

  /** `generate_query`: `llm` stands for the chat completion call made with
      the fixed system prompt and a user prompt built from the message. The
      endpoint always answers; a failure travels as an "[ERROR]" string in
      `query`, and `parameters` is always empty. */
  function GenerateQuery(request: QueryRequest, llm: string -> Outcome): (r: QueryResponse)
    ensures r.parameters == map[]
    ensures var o := llm(request.message);
      (!Failed(o) ==> r.query == QueryText(o.content.value)) &&
      (Failed(o) ==> |ErrorTag| <= |r.query| && r.query[..|ErrorTag|] == ErrorTag)
  {
    QueryResponse(NaturalLanguageToCypher(llm(request.message)), map[])
  }
}
