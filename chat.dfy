/**
 * `get_chat_completion`: role-tagged messages are flattened into one prompt
 * and an optional `system_instruction` configuration, and the backend is
 * called up to `max_retries` times, with a delay of
 * `initial_retry_delay * 2^attempt` seconds between attempts, until it returns
 * a non-empty text.
 *
 * The backend is a sequence of outcomes, one for each call it receives:
 * consumed in order, and recorded together with the request it was given.
 * Every sleep is recorded as its delay in seconds.
 */
module Chat {
  import opened Wrappers
  import opened Text
  import Ollama

  /** A message is a Python dict, read through its "role" and "content" keys. */
  type Message = map<string, string>

  const SystemInstructionKey: string := "system_instruction"

  predicate HasFields(m: Message) {
    "role" in m && "content" in m
  }

  /** No message lacks a key that the conversion reads (none raises KeyError). */
  predicate WellFormed(ms: seq<Message>) {
    forall i | 0 <= i < |ms| :: HasFields(ms[i])
  }

  predicate IsSystem(m: Message) {
    "role" in m && m["role"] == "system"
  }

  /** True when the message adds a line to the prompt. */
  predicate IsTurn(m: Message) {
    "role" in m && (m["role"] == "user" || m["role"] == "assistant")
  }

  /** What one message adds to the prompt. */
  function Line(m: Message): string
    requires HasFields(m)
  {
    if m["role"] == "user" then "User: " + m["content"] + "\n"
    else if m["role"] == "assistant" then "Assistant: " + m["content"] + "\n"
    else ""
  }

  /** The prompt assembled from the messages, before it is stripped. */
  function Transcript(ms: seq<Message>): string
    requires WellFormed(ms)
  {
    if ms == [] then "" else Transcript(ms[..|ms| - 1]) + Line(ms[|ms| - 1])
  }

  /** The content of the last system message, if there is one. */
  function LastSystem(ms: seq<Message>): Option<string>
    requires WellFormed(ms)
  {
    if ms == [] then None
    else if IsSystem(ms[|ms| - 1]) then Some(ms[|ms| - 1]["content"])
    else LastSystem(ms[..|ms| - 1])
  }

  datatype Conversion = Conversion(prompt: string, systemInstruction: Option<string>)

  /** The prompt and the instruction after one more message. */
  lemma ConversionStep(ms: seq<Message>, i: int)
    requires 0 <= i < |ms| && WellFormed(ms[..i]) && HasFields(ms[i])
    ensures WellFormed(ms[..i + 1])
    ensures Transcript(ms[..i + 1]) == Transcript(ms[..i]) + Line(ms[i])
    ensures LastSystem(ms[..i + 1])
            == if IsSystem(ms[i]) then Some(ms[i]["content"]) else LastSystem(ms[..i])
  {
    assert ms[..i + 1][..i] == ms[..i];
    assert ms[..i + 1][i] == ms[i];
  }

  /**
   * The conversion loop: user and assistant contents are appended to the
   * prompt as lines, a system content replaces the instruction, and other
   * roles are skipped; a message without "role" or "content" raises, which
   * is `None` here.
   */
  method Flatten(ms: seq<Message>) returns (r: Option<Conversion>)
    ensures r.Some? <==> WellFormed(ms)
    ensures r.Some? ==> r.value == Conversion(Transcript(ms), LastSystem(ms))
  {
    var prompt := "";
    var systemInstruction: Option<string> := None;
    var i := 0;
    while i < |ms|
      invariant 0 <= i <= |ms| && WellFormed(ms[..i])
      invariant prompt == Transcript(ms[..i])
      invariant systemInstruction == LastSystem(ms[..i])
    {
      var message := ms[i];
      if "role" !in message || "content" !in message {
        assert !HasFields(ms[i]);
        return None;
      }
      var role, content := message["role"], message["content"];
      ConversionStep(ms, i);
      if role == "system" {
        systemInstruction := Some(content);
      } else if role == "user" {
        prompt := prompt + ("User: " + content + "\n");
      } else if role == "assistant" {
        prompt := prompt + ("Assistant: " + content + "\n");
      }
      i := i + 1;
    }
    assert ms[..i] == ms;
    r := Some(Conversion(prompt, systemInstruction));
  }

  /**
   * The configuration: the instruction under `system_instruction` when it is
   * truthy (present and non-empty), the empty mapping otherwise.
   */
  function ConfigFor(systemInstruction: Option<string>): (c: map<string, string>)
    ensures SystemInstructionKey in c <==> systemInstruction.Some? && systemInstruction.value != ""
    ensures c.Keys <= {SystemInstructionKey}
    ensures SystemInstructionKey in c ==> c[SystemInstructionKey] == systemInstruction.value
  {
    if systemInstruction.Some? && systemInstruction.value != "" then
      map[SystemInstructionKey := systemInstruction.value]
    else
      map[]
  }

  /** What the backend is called with. */
  datatype Request = Request(prompt: string, config: map<string, string>)

  /** The request every attempt makes, or `None` when the conversion raises. */
  function RequestFor(ms: seq<Message>): Option<Request> {
    if WellFormed(ms) then Some(Request(Strip(Transcript(ms)), ConfigFor(LastSystem(ms))))
    else None
  }

  /** What one call of `generate_content_with_retry` does: raise, or return a text. */
  datatype Outcome = Raised | Returned(text: string)

  /** The adapter sees a backend error as a raised exception. */
  function FromResult(r: Result<string, Ollama.ApiError>): (o: Outcome)
    ensures o.Returned? <==> r.Success?
    ensures o.Returned? ==> o.text == r.value
  {
    match r
    case Success(s) => Returned(s)
    case Failure(_) => Raised
  }

  /** An outcome the adapter retries: an exception or an empty (falsy) text. */
  predicate Failed(o: Outcome) {
    o.Raised? || o.text == ""
  }

  /**
   * The backoff decorator POSTs again within the same call after this reply:
   * its error message carries the "API limit" marker.
   */
  predicate DecoratorRetries(reply: Ollama.HttpOutcome) {
    var r := Ollama.Invoke(reply).result;
    r.Failure? && !Ollama.GiveUp(r.error)
  }

  /**
   * What the adapter sees of one reply of the endpoint, error handler included,
   * when that reply is the last one of its decorated call.
   */
  function Observed(reply: Ollama.HttpOutcome): Outcome {
    FromResult(Ollama.Invoke(reply).result)
  }

  /**
   * The adapter accepts a reply exactly when it has status 200, a parsed body
   * and a non-empty "response" field, and then takes that field verbatim: a
   * missing or empty field, any other status and any transport or parse
   * failure are all retried alike by the adapter.
   */
  lemma ReplyAcceptedIff(reply: Ollama.HttpOutcome)
    ensures !Failed(Observed(reply)) <==>
            reply.Reply? && reply.status == 200 && reply.payload.Parsed? &&
            "response" in reply.payload.fields && reply.payload.fields["response"] != ""
    ensures !Failed(Observed(reply)) ==> Observed(reply).text == reply.payload.fields["response"]
  {
  }

  /**
   * The backend outcomes the adapter sees for a sequence of endpoint replies,
   * one per adapter call, none of which the decorator retries.
   */
  function ObservedAll(replies: seq<Ollama.HttpOutcome>): (os: seq<Outcome>)
    requires forall i | 0 <= i < |replies| :: !DecoratorRetries(replies[i])
    ensures |os| == |replies|
    ensures forall i | 0 <= i < |replies| :: os[i] == Observed(replies[i])
  {
    if replies == [] then [] else [Observed(replies[0])] + ObservedAll(replies[1..])
  }

  function Pow2(k: nat): (p: nat)
    ensures p >= 1
  {
    if k == 0 then 1 else 2 * Pow2(k - 1)
  }

  /** The seconds slept after the failure of attempt number `attempt` (from 0). */
  function RetryDelay(initialDelay: int, attempt: nat): int {
    initialDelay * Pow2(attempt)
  }

  /** The delays of attempts `lo` up to, but not including, `hi`. */
  function Delays(initialDelay: int, lo: nat, hi: int): (r: seq<int>)
    ensures |r| == if lo < hi then hi - lo else 0
    ensures forall j | 0 <= j < |r| :: r[j] == RetryDelay(initialDelay, lo + j)
    decreases hi - lo
  {
    if lo >= hi then [] else [RetryDelay(initialDelay, lo)] + Delays(initialDelay, lo + 1, hi)
  }

  function Repeat<T>(x: T, n: nat): (r: seq<T>)
    ensures |r| == n && forall i | 0 <= i < n :: r[i] == x
  {
    if n == 0 then [] else [x] + Repeat(x, n - 1)
  }

  /** The observable effect of a call: the result, the backend calls in order, the sleeps in order. */
  datatype Trace = Trace(result: Option<string>, calls: seq<Request>, delays: seq<int>)

  /** `t` preceded by calls and delays that happened before it. */
  function Then(calls: seq<Request>, delays: seq<int>, t: Trace): Trace {
    Trace(t.result, calls + t.calls, delays + t.delays)
  }

  /**
   * The retry policy from attempt number `attempt` on. A conversion that
   * raises makes no call; a failed attempt that is not the last sleeps and
   * goes on, unless its delay is negative, where `time.sleep` raises and the
   * outer handler returns None.
   */
  function RunFrom(req: Option<Request>, outcomes: seq<Outcome>, maxRetries: int, initialDelay: int,
                   attempt: nat): Trace
    requires maxRetries <= |outcomes|
    decreases maxRetries - attempt
  {
    if attempt >= maxRetries then Trace(None, [], [])
    else
      var called := if req.Some? then [req.value] else [];
      var text := if req.Some? && outcomes[attempt].Returned? then outcomes[attempt].text else "";
      if text != "" then Trace(Some(text), called, [])
      else if attempt < maxRetries - 1 && RetryDelay(initialDelay, attempt) >= 0 then
        Then(called, [RetryDelay(initialDelay, attempt)],
             RunFrom(req, outcomes, maxRetries, initialDelay, attempt + 1))
      else Trace(None, called, [])
  }

  function Run(req: Option<Request>, outcomes: seq<Outcome>, maxRetries: int, initialDelay: int): Trace
    requires maxRetries <= |outcomes|
  {
    RunFrom(req, outcomes, maxRetries, initialDelay, 0)
  }

  /** One attempt of `RunFrom` whose call returns a non-empty text, unfolded. */
  lemma TextStep(req: Request, outcomes: seq<Outcome>, maxRetries: int, initialDelay: int,
                 attempt: nat, s: string)
    requires attempt < maxRetries <= |outcomes| && outcomes[attempt] == Returned(s) && s != ""
    ensures RunFrom(Some(req), outcomes, maxRetries, initialDelay, attempt) == Trace(Some(s), [req], [])
  {
  }

  /** The request of an attempt, built from a conversion that did not raise. */
  lemma RequestOfConversion(ms: seq<Message>, c: Conversion, config: map<string, string>)
    requires WellFormed(ms) && c == Conversion(Transcript(ms), LastSystem(ms))
    requires config == ConfigFor(c.systemInstruction)
    ensures RequestFor(ms) == Some(Request(Strip(c.prompt), config))
  {
  }

  /** One failed attempt of `RunFrom`, unfolded. */
  lemma FailedStep(req: Option<Request>, outcomes: seq<Outcome>, maxRetries: int, initialDelay: int,
                   attempt: nat)
    requires attempt < maxRetries <= |outcomes|
    requires req.None? || Failed(outcomes[attempt])
    ensures var called := if req.Some? then [req.value] else [];
            RunFrom(req, outcomes, maxRetries, initialDelay, attempt)
            == if attempt < maxRetries - 1 && RetryDelay(initialDelay, attempt) >= 0
               then Then(called, [RetryDelay(initialDelay, attempt)],
                         RunFrom(req, outcomes, maxRetries, initialDelay, attempt + 1))
               else Trace(None, called, [])
  {
  }

  lemma ThenNothing(calls: seq<Request>, delays: seq<int>, result: Option<string>)
    ensures Then(calls, delays, Trace(result, [], [])) == Trace(result, calls, delays)
  {
    assert calls + [] == calls && delays + [] == delays;
  }

  lemma ThenThen(c1: seq<Request>, d1: seq<int>, c2: seq<Request>, d2: seq<int>, t: Trace)
    ensures Then(c1, d1, Then(c2, d2, t)) == Then(c1 + c2, d1 + d2, t)
  {
    assert c1 + (c2 + t.calls) == (c1 + c2) + t.calls;
    assert d1 + (d2 + t.delays) == (d1 + d2) + t.delays;
  }

  /**
   * One iteration of the attempt loop of `get_chat_completion`: the
   * conversion, the call, and on a failure the handler's sleep. `stop` is set
   * when the loop returns `result`; `called` and `slept` are the call made and
   * the delay slept.
   */
  method Attempt(messages: seq<Message>, maxRetries: int, initialRetryDelay: int, outcomes: seq<Outcome>,
                 attempt: nat)
    returns (stop: bool, result: Option<string>, called: seq<Request>, slept: seq<int>)
    requires attempt < maxRetries <= |outcomes|
    ensures RunFrom(RequestFor(messages), outcomes, maxRetries, initialRetryDelay, attempt)
            == Then(called, slept,
                    if stop then Trace(result, [], [])
                    else RunFrom(RequestFor(messages), outcomes, maxRetries, initialRetryDelay, attempt + 1))
  {
    ghost var req := RequestFor(messages);
    stop, result, called, slept := false, None, [], [];
    var conversion := Flatten(messages);
    if conversion.None? {
      // the KeyError is caught by the handler of the attempt
      FailedStep(req, outcomes, maxRetries, initialRetryDelay, attempt);
      if attempt < maxRetries - 1 {
        var delay := RetryDelay(initialRetryDelay, attempt);
        if delay < 0 {
          // time.sleep raises ValueError; the outer handler returns None
          stop := true;
          return;
        }
        slept := [delay];
      } else {
        stop := true;
      }
      return;
    }
    var c := conversion.value;
    var config: map<string, string> := map[];
    if c.systemInstruction.Some? && c.systemInstruction.value != "" {
      config := config[SystemInstructionKey := c.systemInstruction.value];
    }
    assert config == ConfigFor(c.systemInstruction);
    var request := Request(Strip(c.prompt), config);
    RequestOfConversion(messages, c, config);
    called := [request];
    match outcomes[attempt]
    case Returned(text) =>
      if text == "" {
        FailedStep(req, outcomes, maxRetries, initialRetryDelay, attempt);
        if attempt < maxRetries - 1 {
          var delay := RetryDelay(initialRetryDelay, attempt);
          if delay < 0 {
            // time.sleep raises inside the attempt; its handler sleeps
            // again, raises again, and the outer handler returns None
            stop := true;
            return;
          }
          slept := [delay];
          return;  // continue
        }
        stop := true;
        return;
      }
      TextStep(request, outcomes, maxRetries, initialRetryDelay, attempt, text);
      stop, result := true, Some(text);
    case Raised =>
      FailedStep(req, outcomes, maxRetries, initialRetryDelay, attempt);
      if attempt < maxRetries - 1 {
        var delay := RetryDelay(initialRetryDelay, attempt);
        if delay < 0 {
          // time.sleep raises ValueError; the outer handler returns None
          stop := true;
          return;
        }
        slept := [delay];
      } else {
        stop := true;
      }
  }

  /**
   * `get_chat_completion(messages, max_retries, initial_retry_delay)` against a
   * backend whose k-th call has outcome `outcomes[k]`. Returns the result, the
   * requests the backend received and the delays slept.
   */
  method GetChatCompletion(messages: seq<Message>, maxRetries: int, initialRetryDelay: int,
                           outcomes: seq<Outcome>)
    returns (result: Option<string>, calls: seq<Request>, delays: seq<int>)
    requires maxRetries <= |outcomes|
    ensures Trace(result, calls, delays) == Run(RequestFor(messages), outcomes, maxRetries, initialRetryDelay)
    ensures maxRetries <= 0 ==> result == None && calls == [] && delays == []
  {
    ghost var req := RequestFor(messages);
    result, calls, delays := None, [], [];
    var attempt: nat := 0;
    while attempt < maxRetries
      invariant attempt == 0 || attempt <= maxRetries
      invariant Run(req, outcomes, maxRetries, initialRetryDelay)
                == Then(calls, delays, RunFrom(req, outcomes, maxRetries, initialRetryDelay, attempt))
      decreases maxRetries - attempt
    {
      var stop, r, called, slept := Attempt(messages, maxRetries, initialRetryDelay, outcomes, attempt);
      ThenThen(calls, delays, called, slept,
               if stop then Trace(r, [], []) else RunFrom(req, outcomes, maxRetries, initialRetryDelay, attempt + 1));
      calls, delays := calls + called, delays + slept;
      if stop {
        result := r;
        ThenNothing(calls, delays, result);
        return;
      }
      attempt := attempt + 1;
    }
    ThenNothing(calls, delays, result);
  }

  // ---------------------------------------------------------------------
  // The prompt and the system instruction

  /** The prompt of a concatenation is the concatenation of the prompts. */
  lemma {:induction false} TranscriptAppend(a: seq<Message>, b: seq<Message>)
    requires WellFormed(a) && WellFormed(b)
    ensures WellFormed(a + b) && Transcript(a + b) == Transcript(a) + Transcript(b)
    decreases |b|
  {
    assert WellFormed(a + b) by {
      forall i | 0 <= i < |a + b| ensures HasFields((a + b)[i]) {
        if i < |a| { assert (a + b)[i] == a[i]; } else { assert (a + b)[i] == b[i - |a|]; }
      }
    }
    if b == [] {
      assert a + b == a;
    } else {
      var b' := b[..|b| - 1];
      assert (a + b)[..|a + b| - 1] == a + b';
      assert (a + b)[|a + b| - 1] == b[|b| - 1];
      TranscriptAppend(a, b');
    }
  }

  /** A system message, or one whose role is unknown, adds nothing to the prompt. */
  lemma TranscriptSkips(a: seq<Message>, m: Message, b: seq<Message>)
    requires WellFormed(a) && HasFields(m) && WellFormed(b) && !IsTurn(m)
    ensures WellFormed(a + [m] + b) && Transcript(a + [m] + b) == Transcript(a + b)
  {
    assert [m][..0] == [];
    assert Transcript([m]) == "";
    TranscriptAppend(a, [m]);
    assert Transcript(a + [m]) == Transcript(a);
    TranscriptAppend(a + [m], b);
    TranscriptAppend(a, b);
  }

  /** Without user or assistant messages the prompt is empty. */
  lemma {:induction false} TranscriptWithoutTurns(ms: seq<Message>)
    requires WellFormed(ms)
    requires forall i | 0 <= i < |ms| :: !IsTurn(ms[i])
    ensures Transcript(ms) == ""
  {
    if ms != [] {
      TranscriptWithoutTurns(ms[..|ms| - 1]);
    }
  }

  /** The prompt of one more message. */
  lemma TranscriptSnoc(ms: seq<Message>, m: Message)
    requires WellFormed(ms) && HasFields(m)
    ensures WellFormed(ms + [m]) && Transcript(ms + [m]) == Transcript(ms) + Line(m)
  {
    assert (ms + [m])[..|ms|] == ms;
    assert (ms + [m])[|ms|] == m;
  }

  /** The prompt of three messages is their three lines in order. */
  lemma TranscriptOfThree(a: Message, b: Message, c: Message)
    requires HasFields(a) && HasFields(b) && HasFields(c)
    ensures WellFormed([a, b, c]) && Transcript([a, b, c]) == Line(a) + Line(b) + Line(c)
  {
    TranscriptOfTwo(a, b);
    TranscriptSnoc([a, b], c);
    assert [a, b] + [c] == [a, b, c];
  }

  lemma TranscriptOfTwo(a: Message, b: Message)
    requires HasFields(a) && HasFields(b)
    ensures WellFormed([a, b]) && Transcript([a, b]) == Line(a) + Line(b)
  {
    TranscriptOfOne(a);
    TranscriptSnoc([a], b);
    assert [a] + [b] == [a, b];
  }

  lemma TranscriptOfOne(a: Message)
    requires HasFields(a)
    ensures WellFormed([a]) && Transcript([a]) == Line(a)
  {
    assert [a][..0] == [];
  }

  /** The order-preserving example: user "Hi", assistant "Hello", user "Bye". */
  lemma TranscriptExample()
    ensures WellFormed([UserSays("Hi"), AssistantSays("Hello"), UserSays("Bye")])
    ensures Transcript([UserSays("Hi"), AssistantSays("Hello"), UserSays("Bye")])
            == "User: Hi\n" + "Assistant: Hello\n" + "User: Bye\n"
  {
    TranscriptOfThree(UserSays("Hi"), AssistantSays("Hello"), UserSays("Bye"));
    UserLine("Hi");
    AssistantLine("Hello");
    UserLine("Bye");
    assert "User: " + "Hi" + "\n" == "User: Hi\n";
    assert "Assistant: " + "Hello" + "\n" == "Assistant: Hello\n";
    assert "User: " + "Bye" + "\n" == "User: Bye\n";
  }

  lemma UserLine(content: string)
    ensures HasFields(UserSays(content)) && Line(UserSays(content)) == "User: " + content + "\n"
  {
  }

  lemma AssistantLine(content: string)
    ensures HasFields(AssistantSays(content)) && Line(AssistantSays(content)) == "Assistant: " + content + "\n"
  {
  }

  function UserSays(content: string): Message {
    map["role" := "user", "content" := content]
  }

  function AssistantSays(content: string): Message {
    map["role" := "assistant", "content" := content]
  }

  function SystemSays(content: string): Message {
    map["role" := "system", "content" := content]
  }

  /** There is no instruction exactly when there is no system message. */
  lemma {:induction false} LastSystemNone(ms: seq<Message>)
    requires WellFormed(ms)
    ensures LastSystem(ms).None? <==> forall i | 0 <= i < |ms| :: !IsSystem(ms[i])
  {
    if ms != [] {
      var p := ms[..|ms| - 1];
      LastSystemNone(p);
      assert forall i | 0 <= i < |p| :: p[i] == ms[i];
    }
  }

  /**
   * A system message followed by no other system message gives the
   * instruction: every earlier one is overwritten.
   */
  lemma {:induction false} LastSystemIsLast(ms: seq<Message>, i: int)
    requires WellFormed(ms) && 0 <= i < |ms| && IsSystem(ms[i])
    requires forall j | i < j < |ms| :: !IsSystem(ms[j])
    ensures LastSystem(ms) == Some(ms[i]["content"])
    decreases |ms|
  {
    if i < |ms| - 1 {
      var p := ms[..|ms| - 1];
      assert p[i] == ms[i];
      assert forall j | i < j < |p| :: p[j] == ms[j];
      LastSystemIsLast(p, i);
    }
  }

  /** An instruction always comes from a system message with no system message after it. */
  lemma {:induction false} LastSystemSource(ms: seq<Message>) returns (i: int)
    requires WellFormed(ms) && LastSystem(ms).Some?
    ensures 0 <= i < |ms| && IsSystem(ms[i]) && ms[i]["content"] == LastSystem(ms).value
    ensures forall j | i < j < |ms| :: !IsSystem(ms[j])
  {
    if IsSystem(ms[|ms| - 1]) {
      i := |ms| - 1;
    } else {
      var p := ms[..|ms| - 1];
      i := LastSystemSource(p);
      assert forall j | i < j < |p| :: p[j] == ms[j];
    }
  }

  // ---------------------------------------------------------------------
  // The retry schedule

  /** Every call goes to the same request, the result is a text some call returned unchanged. */
  lemma {:induction false} RunFromShape(req: Option<Request>, outcomes: seq<Outcome>, maxRetries: int,
                                        initialDelay: int, attempt: nat)
    requires maxRetries <= |outcomes|
    ensures var t := RunFrom(req, outcomes, maxRetries, initialDelay, attempt);
            && (req.None? ==> t.calls == [])
            && (req.Some? ==> t.calls == Repeat(req.value, |t.calls|))
            && (attempt < maxRetries ==> |t.calls| <= maxRetries - attempt)
            && t.delays == Delays(initialDelay, attempt, attempt + |t.delays|)
            && (t.result.Some? ==>
                  req.Some? && t.result.value != ""
                  && exists k | attempt <= k < maxRetries :: outcomes[k] == Returned(t.result.value))
    decreases maxRetries - attempt
  {
    if attempt < maxRetries {
      RunFromShape(req, outcomes, maxRetries, initialDelay, attempt + 1);
      var rest := RunFrom(req, outcomes, maxRetries, initialDelay, attempt + 1);
      if req.Some? {
        assert [req.value] + Repeat(req.value, |rest.calls|) == Repeat(req.value, 1 + |rest.calls|);
      }
    }
  }

  /**
   * When the k-th call is the first to return a non-empty text, that text is
   * the result, after exactly k + 1 calls and the delays of attempts 0 .. k-1.
   */
  lemma FirstTextWins(req: Request, outcomes: seq<Outcome>, maxRetries: int, initialDelay: int,
                      k: nat, s: string)
    requires maxRetries <= |outcomes| && k < maxRetries
    requires outcomes[k] == Returned(s) && s != ""
    requires forall j | 0 <= j < k :: Failed(outcomes[j])
    requires 0 <= initialDelay || k == 0
    ensures Run(Some(req), outcomes, maxRetries, initialDelay)
            == Trace(Some(s), Repeat(req, k + 1), Delays(initialDelay, 0, k))
  {
    FirstTextWinsFrom(req, outcomes, maxRetries, initialDelay, k, s, 0);
  }

  lemma {:induction false} FirstTextWinsFrom(req: Request, outcomes: seq<Outcome>, maxRetries: int,
                                             initialDelay: int, k: nat, s: string, attempt: nat)
    requires maxRetries <= |outcomes| && attempt <= k < maxRetries
    requires outcomes[k] == Returned(s) && s != ""
    requires forall j | attempt <= j < k :: Failed(outcomes[j])
    requires 0 <= initialDelay || attempt == k
    ensures RunFrom(Some(req), outcomes, maxRetries, initialDelay, attempt)
            == Trace(Some(s), Repeat(req, k + 1 - attempt), Delays(initialDelay, attempt, k))
    decreases k - attempt
  {
    if attempt < k {
      NonNegativeDelay(initialDelay, attempt);
      FailedStep(Some(req), outcomes, maxRetries, initialDelay, attempt);
      FirstTextWinsFrom(req, outcomes, maxRetries, initialDelay, k, s, attempt + 1);
    }
  }

  lemma NonNegativeDelay(initialDelay: int, attempt: nat)
    requires 0 <= initialDelay
    ensures 0 <= RetryDelay(initialDelay, attempt)
  {
    var p := Pow2(attempt);
    assert initialDelay * p >= 0;
  }

  /**
   * When every call fails, there are exactly `maxRetries` calls (none when it
   * is not positive), the delays of attempts 0 .. maxRetries-2, none after
   * the last attempt, and no result.
   */
  lemma AllFailuresExhaust(req: Request, outcomes: seq<Outcome>, maxRetries: int, initialDelay: int)
    requires maxRetries <= |outcomes| && 0 <= initialDelay
    requires forall j | 0 <= j < maxRetries :: Failed(outcomes[j])
    ensures Run(Some(req), outcomes, maxRetries, initialDelay)
            == Trace(None, Repeat(req, if maxRetries > 0 then maxRetries else 0), Delays(initialDelay, 0, maxRetries - 1))
  {
    if maxRetries > 0 {
      ExhaustFrom(Some(req), outcomes, maxRetries, initialDelay, 0);
    }
  }

  lemma {:induction false} ExhaustFrom(req: Option<Request>, outcomes: seq<Outcome>, maxRetries: int,
                                       initialDelay: int, attempt: nat)
    requires maxRetries <= |outcomes| && attempt < maxRetries && 0 <= initialDelay
    requires req.None? || forall j | attempt <= j < maxRetries :: Failed(outcomes[j])
    ensures RunFrom(req, outcomes, maxRetries, initialDelay, attempt)
            == Trace(None, if req.Some? then Repeat(req.value, maxRetries - attempt) else [],
                     Delays(initialDelay, attempt, maxRetries - 1))
    decreases maxRetries - attempt
  {
    FailedStep(req, outcomes, maxRetries, initialDelay, attempt);
    NonNegativeDelay(initialDelay, attempt);
    if attempt < maxRetries - 1 {
      ExhaustFrom(req, outcomes, maxRetries, initialDelay, attempt + 1);
    } else if req.Some? {
      assert Repeat(req.value, 1) == [req.value];
    }
  }

  /**
   * Messages the conversion cannot read make every attempt fail before the
   * backend is called: no call, the full delay schedule, no result.
   */
  lemma MalformedMessagesNeverCall(outcomes: seq<Outcome>, maxRetries: int, initialDelay: int)
    requires maxRetries <= |outcomes| && 0 <= initialDelay
    ensures Run(None, outcomes, maxRetries, initialDelay)
            == Trace(None, [], Delays(initialDelay, 0, maxRetries - 1))
  {
    if maxRetries > 0 {
      ExhaustFrom(None, outcomes, maxRetries, initialDelay, 0);
    }
  }

  /** No attempt at all when `maxRetries` is not positive. */
  lemma NoAttempts(req: Option<Request>, outcomes: seq<Outcome>, maxRetries: int, initialDelay: int)
    requires maxRetries <= 0 && maxRetries <= |outcomes|
    ensures Run(req, outcomes, maxRetries, initialDelay) == Trace(None, [], [])
  {
  }

  /**
   * A negative delay ends the call at the first failure that is followed by
   * another attempt: `time.sleep` raises and the outer handler returns None.
   */
  lemma NegativeDelayGivesUp(req: Option<Request>, outcomes: seq<Outcome>, maxRetries: int, initialDelay: int)
    requires 2 <= maxRetries <= |outcomes| && initialDelay < 0
    requires req.None? || Failed(outcomes[0])
    ensures Run(req, outcomes, maxRetries, initialDelay)
            == Trace(None, if req.Some? then [req.value] else [], [])
  {
    FailedStep(req, outcomes, maxRetries, initialDelay, 0);
  }

  /**
   * An exception and an empty text are handled alike: the same delays, the
   * same calls and the same result whichever of the two the k-th call gives.
   */
  lemma RaisedLikeEmpty(req: Option<Request>, outcomes: seq<Outcome>, maxRetries: int, initialDelay: int,
                        k: nat)
    requires maxRetries <= |outcomes| && k < |outcomes|
    ensures Run(req, outcomes[k := Raised], maxRetries, initialDelay)
            == Run(req, outcomes[k := Returned("")], maxRetries, initialDelay)
  {
    RaisedLikeEmptyFrom(req, outcomes, maxRetries, initialDelay, k, 0);
  }

  lemma {:induction false} RaisedLikeEmptyFrom(req: Option<Request>, outcomes: seq<Outcome>, maxRetries: int,
                                               initialDelay: int, k: nat, attempt: nat)
    requires maxRetries <= |outcomes| && k < |outcomes|
    ensures RunFrom(req, outcomes[k := Raised], maxRetries, initialDelay, attempt)
            == RunFrom(req, outcomes[k := Returned("")], maxRetries, initialDelay, attempt)
    decreases maxRetries - attempt
  {
    if attempt < maxRetries {
      RaisedLikeEmptyFrom(req, outcomes, maxRetries, initialDelay, k, attempt + 1);
    }
  }

  // ---------------------------------------------------------------------
  // Scenarios

  /** Three attempts with an initial delay of 1 against a failing backend: delays 1 and 2, no result. */
  lemma ThreeFailedAttempts(req: Request, outcomes: seq<Outcome>)
    requires 3 <= |outcomes|
    requires Failed(outcomes[0]) && Failed(outcomes[1]) && Failed(outcomes[2])
    ensures var t := Run(Some(req), outcomes, 3, 1);
            t.result == None && t.calls == [req, req, req] && t.delays == [1, 2]
  {
    AllFailuresExhaust(req, outcomes, 3, 1);
    var d := Delays(1, 0, 2);
    assert d[0] == RetryDelay(1, 0) == 1;
    assert d[1] == RetryDelay(1, 1) == 2;
    assert d == [1, 2];
    var r := Repeat(req, 3);
    assert r == [r[0], r[1], r[2]];
  }

  /** A single attempt that fails: one call, no delay, no result. */
  lemma OneFailedAttempt(req: Option<Request>, outcomes: seq<Outcome>, initialDelay: int)
    requires 1 <= |outcomes| && (req.None? || Failed(outcomes[0]))
    ensures var t := Run(req, outcomes, 1, initialDelay);
            t.result == None && t.calls == (if req.Some? then [req.value] else []) && t.delays == []
  {
    FailedStep(req, outcomes, 1, initialDelay, 0);
  }

  /** The request of a terse system instruction and one user question. */
  lemma TerseRequest()
    ensures RequestFor([SystemSays("Be terse"), UserSays("2+2?")])
            == Some(Request("User: 2+2?", map[SystemInstructionKey := "Be terse"]))
  {
    TerseConversion();
    TerseStrip();
  }

  lemma TerseStrip()
    ensures Strip("User: 2+2?\n") == "User: 2+2?"
  {
    var s := "User: 2+2?\n";
    assert s[..0] == [] && s[10..] == "\n" && s[0..10] == "User: 2+2?";
    StripUnique(s, 0, 10);
  }

  lemma TerseConversion()
    ensures WellFormed([SystemSays("Be terse"), UserSays("2+2?")])
    ensures Transcript([SystemSays("Be terse"), UserSays("2+2?")]) == "User: 2+2?\n"
    ensures LastSystem([SystemSays("Be terse"), UserSays("2+2?")]) == Some("Be terse")
  {
    var ms := [SystemSays("Be terse"), UserSays("2+2?")];
    var first := ms[..1];
    assert first == [SystemSays("Be terse")] && first[..0] == [];
    assert IsSystem(ms[0]) && !IsSystem(ms[1]) && !IsTurn(ms[0]);
    assert Transcript(first) == "";
  }

  /** Answered "4" on the first call: the result is "4", after one call and no delay. */
  lemma TerseScenario(outcomes: seq<Outcome>)
    requires 3 <= |outcomes| && outcomes[0] == Returned("4")
    ensures Run(RequestFor([SystemSays("Be terse"), UserSays("2+2?")]), outcomes, 3, 1)
            == Trace(Some("4"), [Request("User: 2+2?", map[SystemInstructionKey := "Be terse"])], [])
  {
    TerseRequest();
    var req := Request("User: 2+2?", map[SystemInstructionKey := "Be terse"]);
    FirstTextWins(req, outcomes, 3, 1, 0, "4");
    assert Repeat(req, 1) == [req];
  }

  /**
   * The same conversation end to end: the endpoint's first reply is a 200 whose
   * body has "response": "4".
   */
  lemma TerseOverHttp(replies: seq<Ollama.HttpOutcome>, body: string)
    requires 3 <= |replies| && replies[0] == Ollama.Reply(200, body, Ollama.Parsed(map["response" := "4"]))
    requires forall i | 0 <= i < |replies| :: !DecoratorRetries(replies[i])
    ensures Run(RequestFor([SystemSays("Be terse"), UserSays("2+2?")]), ObservedAll(replies), 3, 1)
            == Trace(Some("4"), [Request("User: 2+2?", map[SystemInstructionKey := "Be terse"])], [])
  {
    assert Observed(replies[0]) == Returned("4");
    TerseScenario(ObservedAll(replies));
  }
}
