/** The plain-language description stage: the prompt built from an item's fields, the
    request with its retries and back-off, the clean-up of the reply, the usage counters of the
    generator, and the pass over (a leading subset of) the rows with periodic checkpoints. */
module Description {
  import opened Frame
  import opened Text
  import opened Completion

  /** What the generator is given for one item: a dict of fields, or something else. */
  datatype ItemData = Dict(fields: map<string, Cell>) | NotADict

  /** The service answers a prompt on a given attempt number (0, 1, 2), so that a retry may
      see a different outcome. */
  type Service = (string, nat) -> Reply

  const MaxRetries: nat := 3
  const InvalidItem: string := "Invalid item data"
  const NoDescription: string := "No description available"
  const ErrorPrefix: string := "Error generating description: "
  const FailedAfterRetries: string := "Failed to generate description after multiple attempts"
  /** The message of the error raised when a completion carries no message text. */
  const NullContentError: string := "'NoneType' object has no attribute 'strip'"
  /** The column the stage fills. */
  const SimpleColumn: string := "SIMPLE_DESCRIPTION"
  /** Rows between two checkpoints. */
  const CheckpointEvery: nat := 50

  /** The fixed instructions before the item: write one clear line a non-specialist can
      follow, using common abbreviations; they end with "Item: ". Their wording is not part
      of the model. */
  const PromptHeader: string
  /** The fixed instructions after the optional lines: be concise, abbreviate measurements,
      leave out brand names, answer with the one line only. Their wording is not part of the
      model. */
  const PromptTrailer: string

  /** `item_data.get(key, '')`. */
  function Get(fields: map<string, Cell>, key: string): Cell {
    if key in fields then fields[key] else Some("")
  }

  /** A cell formatted into an f-string: NaN prints as "nan". */
  function Format(c: Cell): string {
    if c.Some? then c.value else "nan"
  }

  /** The line for an optional field: present only when the field holds text. */
  function OptionalLine(title: string, c: Cell): (line: string)
    ensures Present(c) ==> line == title + c.value
    ensures !Present(c) ==> line == ""
  {
    if Present(c) then title + c.value else ""
  }

  /** `_create_prompt`: header and item, then the vendor, category and subcategory lines in
      that order (each only when present), then the trailer. */
  function CreatePrompt(fields: map<string, Cell>): (prompt: string)
    ensures |prompt| >= |PromptHeader| + |Format(Get(fields, "DESCRIPTION"))| + |PromptTrailer|
  {
    PromptHeader + Format(Get(fields, "DESCRIPTION"))
      + OptionalLine("\nVendor: ", Get(fields, "VENDOR_NAME"))
      + OptionalLine("\nCategory: ", Get(fields, "CATEGORY"))
      + OptionalLine("\nSubcategory: ", Get(fields, "SUBCATEGORY"))
      + PromptTrailer
  }

  /** Every prompt starts with the header followed by the item's description (NaN printed as
      "nan") and ends with the trailer. */
  lemma PromptFrame(fields: map<string, Cell>)
    ensures IsPrefix(PromptHeader + Format(Get(fields, "DESCRIPTION")), CreatePrompt(fields))
    ensures var prompt := CreatePrompt(fields);
      |PromptTrailer| <= |prompt| && prompt[|prompt| - |PromptTrailer|..] == PromptTrailer
  {
    var head := PromptHeader + Format(Get(fields, "DESCRIPTION"));
    var prompt := CreatePrompt(fields);
    IsPrefixIff(head, prompt);
    assert prompt[..|head|] == head;
  }

  /** With all three optional fields present, they appear in the fixed order vendor,
      category, subcategory between the item and the trailer. */
  lemma PromptFieldOrder(fields: map<string, Cell>, d: string, v: string, c: string, s: string)
    requires Get(fields, "DESCRIPTION") == Some(d)
    requires Get(fields, "VENDOR_NAME") == Some(v) && v != ""
    requires Get(fields, "CATEGORY") == Some(c) && c != ""
    requires Get(fields, "SUBCATEGORY") == Some(s) && s != ""
    ensures CreatePrompt(fields)
      == PromptHeader + d + "\nVendor: " + v + "\nCategory: " + c + "\nSubcategory: " + s + PromptTrailer
  {
  }

  /** Missing, null or empty optional fields add nothing: the prompt is the header, the item
      and the trailer. */
  lemma PromptWithoutOptionalFields(fields: map<string, Cell>)
    requires !Present(Get(fields, "VENDOR_NAME"))
    requires !Present(Get(fields, "CATEGORY"))
    requires !Present(Get(fields, "SUBCATEGORY"))
    ensures CreatePrompt(fields) == PromptHeader + Format(Get(fields, "DESCRIPTION")) + PromptTrailer
  {
  }

  /** `min(2 ** attempt, 60)`: seconds to wait after a failed attempt. */
  function Backoff(attempt: nat): (seconds: nat)
    ensures 1 <= seconds <= 60
  {
    var p := Pow2(attempt);
    if p < 60 then p else 60
  }

  function Pow2(n: nat): (p: nat)
    ensures p >= 1
  {
    if n == 0 then 1 else 2 * Pow2(n - 1)
  }

  /** The characters `strip('"\'')` removes. */
  predicate IsQuote(c: char) {
    c == '"' || c == '\''
  }

  /** `description.strip('"\'')`: removes runs of quotation marks from both ends. */
  function Unquote(s: string): (r: string)
    ensures |r| <= |s|
    ensures r != [] ==> !IsQuote(r[0]) && !IsQuote(r[|r| - 1])
  {
    StripWhereShape(s, IsQuote);
    StripWhere(s, IsQuote)
  }

  /** What one call of `generate_description` comes to: its answer, what it adds to the two
      counters, and the back-off waits it sleeps, in order. */
  datatype Outcome = Outcome(answer: Answer, tokens: nat, requests: nat, sleeps: seq<nat>)
  {
    /** The description string the call returns. */
    function Text(): string {
      answer.Text()
    }
  }

  /** The answer of one call: the content of an accepted reply, which is cleaned before it is
      returned, or a message that is returned as it is. */
  datatype Answer = Accepted(content: string) | Verbatim(message: string)
  {
    function Text(): (t: string)
      ensures Accepted? ==> |t| <= |content| && (t != [] ==> !IsQuote(t[0]) && !IsQuote(t[|t| - 1]))
      ensures Verbatim? ==> t == message
    {
      if Accepted? then
        StripWhereShape(content, IsSpace);
        Unquote(Strip(content))
      else message
    }
  }

  /** The reply counts as a response: the counters are bumped for it (even when its content
      turns out to be null). */
  predicate Counted(reply: Reply) {
    reply.Completion?
  }

  /** A reply the retry loop accepts. */
  predicate Succeeded(reply: Reply) {
    reply.Completion? && reply.content.Some?
  }

  /** The message of the exception a failed attempt raises. */
  function FailureMessage(reply: Reply): string {
    if reply.ServiceError? then reply.message else NullContentError
  }

  /** Attempts `attempt`, `attempt + 1`, ... of the retry loop. */
  function Attempts(prompt: string, service: Service, attempt: nat): (o: Outcome)
    ensures o.answer.Accepted? ==> o.requests >= 1
    decreases MaxRetries - attempt
  {
    if attempt >= MaxRetries then Outcome(Verbatim(FailedAfterRetries), 0, 0, [])
    else
      var reply := service(prompt, attempt);
      var tokens := if Counted(reply) then reply.usage else 0;
      var requests := if Counted(reply) then 1 else 0;
      if Succeeded(reply) then Outcome(Accepted(reply.content.value), tokens, requests, [])
      else if attempt < MaxRetries - 1 then
        var rest := Attempts(prompt, service, attempt + 1);
        Outcome(rest.answer, tokens + rest.tokens, requests + rest.requests, [Backoff(attempt)] + rest.sleeps)
      else Outcome(Verbatim(ErrorPrefix + FailureMessage(reply)), tokens, requests, [])
  }

  /** `generate_description` as a function of the item and the service. */
  function Generation(item: ItemData, service: Service): (o: Outcome)
    ensures o.requests <= MaxRetries && |o.sleeps| < MaxRetries
    ensures o.requests > 0 ==> item.Dict? && Present(Get(item.fields, "DESCRIPTION"))
  {
    if item.NotADict? || item.fields == map[] then Outcome(Verbatim(InvalidItem), 0, 0, [])
    else if !Present(Get(item.fields, "DESCRIPTION")) then Outcome(Verbatim(NoDescription), 0, 0, [])
    else
      AttemptsBounded(CreatePrompt(item.fields), service, 0);
      Attempts(CreatePrompt(item.fields), service, 0)
  }

  /** The retry loop makes at most three requests and sleeps at most twice. */
  lemma {:induction false} AttemptsBounded(prompt: string, service: Service, attempt: nat)
    requires attempt <= MaxRetries
    ensures Attempts(prompt, service, attempt).requests <= MaxRetries - attempt
    ensures |Attempts(prompt, service, attempt).sleeps| <= if attempt < MaxRetries then MaxRetries - 1 - attempt else 0
    decreases MaxRetries - attempt
  {
    if attempt < MaxRetries - 1 {
      AttemptsBounded(prompt, service, attempt + 1);
    }
  }

  /** When attempt `k` is the first that succeeds, its cleaned reply is the answer and the
      loop slept 1 s and then 2 s for the failures before it; the successful request and
      every completion among the failures are counted, with their usage, so when the earlier
      failures were errors from the service only the successful request is. */
  lemma FirstSuccessWins(prompt: string, service: Service, k: nat)
    requires k < MaxRetries
    requires forall j :: 0 <= j < k ==> !Succeeded(service(prompt, j))
    requires Succeeded(service(prompt, k))
    ensures Attempts(prompt, service, 0).answer == Accepted(service(prompt, k).content.value)
    ensures Attempts(prompt, service, 0).sleeps == [1, 2][..k]
    ensures Attempts(prompt, service, 0).requests == 1 + CountedReplies(prompt, service, 0, k)
    ensures Attempts(prompt, service, 0).tokens == service(prompt, k).usage + CountedUsage(prompt, service, 0, k)
    ensures (forall j :: 0 <= j < k ==> !Counted(service(prompt, j))) ==>
      Attempts(prompt, service, 0).requests == 1 && Attempts(prompt, service, 0).tokens == service(prompt, k).usage
  {
    SuccessCountsFrom(prompt, service, 0, k);
    SuccessAnswerFrom(prompt, service, 0, k);
    SuccessSleepsFrom(prompt, service, 0, k);
    if forall j :: 0 <= j < k ==> !Counted(service(prompt, j)) {
      SuccessUsageFrom(prompt, service, 0, k);
    }
    var sleeps := Attempts(prompt, service, 0).sleeps;
    assert Backoff(0) == 1 && Backoff(1) == 2;
    assert sleeps == [1, 2][..k];
  }

  lemma {:induction false} SuccessAnswerFrom(prompt: string, service: Service, a: nat, k: nat)
    requires a <= k < MaxRetries
    requires forall j :: a <= j < k ==> !Succeeded(service(prompt, j))
    requires Succeeded(service(prompt, k))
    ensures Attempts(prompt, service, a).answer == Accepted(service(prompt, k).content.value)
    decreases k - a
  {
    if a < k {
      SuccessAnswerFrom(prompt, service, a + 1, k);
    }
  }

  lemma {:induction false} SuccessSleepsFrom(prompt: string, service: Service, a: nat, k: nat)
    requires a <= k < MaxRetries
    requires forall j :: a <= j < k ==> !Succeeded(service(prompt, j))
    requires Succeeded(service(prompt, k))
    ensures |Attempts(prompt, service, a).sleeps| == k - a
    ensures forall i :: 0 <= i < k - a ==> Attempts(prompt, service, a).sleeps[i] == Backoff(a + i)
    decreases k - a
  {
    if a < k {
      SuccessSleepsFrom(prompt, service, a + 1, k);
    }
  }

  lemma {:induction false} SuccessUsageFrom(prompt: string, service: Service, a: nat, k: nat)
    requires a <= k < MaxRetries
    requires forall j :: a <= j < k ==> !Counted(service(prompt, j))
    requires Succeeded(service(prompt, k))
    ensures Attempts(prompt, service, a).requests == 1
    ensures Attempts(prompt, service, a).tokens == service(prompt, k).usage
    decreases k - a
  {
    if a < k {
      SuccessUsageFrom(prompt, service, a + 1, k);
    }
  }

  /** Where the loop started at attempt `a` stops: just after the first success, or after
      the last attempt. */
  function AttemptsMade(prompt: string, service: Service, a: nat): (end: nat)
    ensures a < MaxRetries ==> a < end <= MaxRetries
    ensures a < end < MaxRetries ==> Succeeded(service(prompt, end - 1))
    decreases MaxRetries - a
  {
    if a >= MaxRetries then a
    else if Succeeded(service(prompt, a)) then a + 1
    else AttemptsMade(prompt, service, a + 1)
  }

  /** How many of attempts `a` .. `k - 1` were answered with a completion. */
  function CountedReplies(prompt: string, service: Service, a: nat, k: nat): (n: nat)
    ensures n <= if a <= k then k - a else 0
    decreases k - a
  {
    if a >= k then 0
    else (if Counted(service(prompt, a)) then 1 else 0) + CountedReplies(prompt, service, a + 1, k)
  }

  /** The tokens those completions reported. */
  function CountedUsage(prompt: string, service: Service, a: nat, k: nat): nat
    decreases k - a
  {
    if a >= k then 0
    else (if Counted(service(prompt, a)) then service(prompt, a).usage else 0) + CountedUsage(prompt, service, a + 1, k)
  }

  /** Whatever the replies, the loop counts exactly the completions among the attempts it
      makes, with their usage. */
  lemma {:induction false} AttemptsCounted(prompt: string, service: Service, a: nat)
    ensures Attempts(prompt, service, a).requests == CountedReplies(prompt, service, a, AttemptsMade(prompt, service, a))
    ensures Attempts(prompt, service, a).tokens == CountedUsage(prompt, service, a, AttemptsMade(prompt, service, a))
    decreases MaxRetries - a
  {
    if a < MaxRetries - 1 && !Succeeded(service(prompt, a)) {
      AttemptsCounted(prompt, service, a + 1);
    }
  }

  /** The counters are bumped before the reply is read, so every completion among the
      failures before the first success is counted too, with its usage. */
  lemma {:induction false} SuccessCountsFrom(prompt: string, service: Service, a: nat, k: nat)
    requires a <= k < MaxRetries
    requires forall j :: a <= j < k ==> !Succeeded(service(prompt, j))
    requires Succeeded(service(prompt, k))
    ensures Attempts(prompt, service, a).requests == 1 + CountedReplies(prompt, service, a, k)
    ensures Attempts(prompt, service, a).tokens == service(prompt, k).usage + CountedUsage(prompt, service, a, k)
    decreases k - a
  {
    if a < k {
      SuccessCountsFrom(prompt, service, a + 1, k);
    }
  }

  /** When every attempt fails, each completion among the three is counted with its usage. */
  lemma {:induction false} FailureCountsFrom(prompt: string, service: Service, a: nat)
    requires a <= MaxRetries
    requires forall j :: a <= j < MaxRetries ==> !Succeeded(service(prompt, j))
    ensures Attempts(prompt, service, a).requests == CountedReplies(prompt, service, a, MaxRetries)
    ensures Attempts(prompt, service, a).tokens == CountedUsage(prompt, service, a, MaxRetries)
    decreases MaxRetries - a
  {
    if a < MaxRetries {
      FailureCountsFrom(prompt, service, a + 1);
    }
  }

  /** A null message followed by a good one costs two requests and both usages. */
  lemma NullThenSuccess(prompt: string, service: Service, first: nat, second: nat, text: string)
    requires service(prompt, 0) == Completion(None, first)
    requires service(prompt, 1) == Completion(Some(text), second)
    ensures Attempts(prompt, service, 0).answer == Accepted(text)
    ensures Attempts(prompt, service, 0).requests == 2
    ensures Attempts(prompt, service, 0).tokens == first + second
  {
    SuccessCountsFrom(prompt, service, 0, 1);
    SuccessAnswerFrom(prompt, service, 0, 1);
  }

  /** When all three attempts fail, the answer reports the last failure, after sleeping 1 s
      and then 2 s. */
  lemma ThirdFailureReported(prompt: string, service: Service)
    requires forall j :: 0 <= j < MaxRetries ==> !Succeeded(service(prompt, j))
    ensures Attempts(prompt, service, 0).answer == Verbatim(ErrorPrefix + FailureMessage(service(prompt, 2)))
    ensures Attempts(prompt, service, 0).sleeps == [1, 2]
    ensures Attempts(prompt, service, 0).requests == CountedReplies(prompt, service, 0, MaxRetries)
    ensures Attempts(prompt, service, 0).tokens == CountedUsage(prompt, service, 0, MaxRetries)
  {
    FailureCountsFrom(prompt, service, 0);
    FailuresFrom(prompt, service, 0);
    assert Backoff(0) == 1 && Backoff(1) == 2;
  }

  lemma {:induction false} FailuresFrom(prompt: string, service: Service, a: nat)
    requires a < MaxRetries
    requires forall j :: a <= j < MaxRetries ==> !Succeeded(service(prompt, j))
    ensures Attempts(prompt, service, a).answer == Verbatim(ErrorPrefix + FailureMessage(service(prompt, 2)))
    ensures |Attempts(prompt, service, a).sleeps| == MaxRetries - 1 - a
    ensures forall i :: 0 <= i < MaxRetries - 1 - a ==> Attempts(prompt, service, a).sleeps[i] == Backoff(a + i)
    decreases MaxRetries - a
  {
    if a < MaxRetries - 1 {
      FailuresFrom(prompt, service, a + 1);
    }
  }

  /** The loop always returns from inside: the answer is a cleaned reply of some attempt or
      the report of the third failure, never the message after the loop. */
  lemma ExhaustionUnreachable(prompt: string, service: Service)
    ensures (exists k :: 0 <= k < MaxRetries && Succeeded(service(prompt, k))
               && Attempts(prompt, service, 0).answer == Accepted(service(prompt, k).content.value))
      || Attempts(prompt, service, 0).answer == Verbatim(ErrorPrefix + FailureMessage(service(prompt, 2)))
  {
    if Succeeded(service(prompt, 0)) {
      FirstSuccessWins(prompt, service, 0);
    } else if Succeeded(service(prompt, 1)) {
      FirstSuccessWins(prompt, service, 1);
    } else if Succeeded(service(prompt, 2)) {
      FirstSuccessWins(prompt, service, 2);
    } else {
      ThirdFailureReported(prompt, service);
    }
  }

  /** A completion whose content is null still counts as a request with its usage, although
      the attempt then fails. */
  lemma NullContentStillCounted(prompt: string, service: Service, usage: nat)
    requires service(prompt, 0) == Completion(None, usage)
    ensures Attempts(prompt, service, 0).requests >= 1
    ensures Attempts(prompt, service, 0).tokens >= usage
  {
  }

  /** The reply is trimmed of white space first and of quotation marks second, so white
      space inside the quotes survives. */
  lemma QuotesRemovedSpacesKept(inner: string)
    requires inner != [] ==> !IsQuote(inner[0]) && !IsQuote(inner[|inner| - 1])
    ensures Accepted("\"" + inner + "\"").Text() == inner
  {
    StripWhereKeeps("\"" + inner + "\"", IsSpace);
    StripWrapped(inner, '"', IsQuote);
  }

  /** An item that is not a dict, or an empty dict, is rejected before anything else. */
  lemma InvalidItemRejected(item: ItemData, service: Service)
    requires item.NotADict? || item.fields == map[]
    ensures Generation(item, service) == Outcome(Verbatim(InvalidItem), 0, 0, [])
  {
  }

  /** A missing, null or empty description is answered without a request: no counter
      changes and no sleep. */
  lemma BlankDescriptionNoRequest(fields: map<string, Cell>, service: Service)
    requires fields != map[] && !Present(Get(fields, "DESCRIPTION"))
    ensures Generation(Dict(fields), service) == Outcome(Verbatim(NoDescription), 0, 0, [])
  {
  }

  // ---------------------------------------------------------------------------------------
  // The pass over the rows

  /** `row.to_dict()` for a row of a table with header `header`. */
  function ItemFields(header: seq<string>, row: Row): (fields: map<string, Cell>)
    ensures forall c :: c in fields <==> c in header
    ensures forall c :: c in fields ==> fields[c] == CellOf(row, c)
  {
    map c | c in header :: CellOf(row, c)
  }

  /** How many leading rows get a generated description: `batch_size` when it is given, is
      non-zero and is smaller than the row count, otherwise all of them. */
  function Processed(n: nat, batchSize: Option<nat>): (m: nat)
    ensures m <= n
    ensures m < n <==> batchSize.Some? && 0 < batchSize.value < n
    ensures m < n ==> m == batchSize.value
  {
    if batchSize.Some? && 0 < batchSize.value < n then batchSize.value else n
  }

  /** The outcome of generating the description of one row, read after the column reset. */
  function RowOutcome(header: seq<string>, row: Row, service: Service): Outcome {
    Generation(Dict(ItemFields(header, row[SimpleColumn := Some("")])), service)
  }

  /** One processed row: its description column holds the generated text. */
  function WithDescription(header: seq<string>, row: Row, service: Service): (updated: Row)
    ensures SimpleColumn in updated && updated[SimpleColumn] == Some(RowOutcome(header, row, service).Text())
    ensures forall col :: col != SimpleColumn ==> CellOf(updated, col) == CellOf(row, col)
  {
    row[SimpleColumn := Some(RowOutcome(header, row, service).Text())]
  }

  /** The given rows, each described. */
  function Described(header: seq<string>, rows: seq<Row>, service: Service): (result: seq<Row>)
    ensures |result| == |rows|
  {
    if rows == [] then []
    else Described(header, rows[..|rows| - 1], service) + [WithDescription(header, rows[|rows| - 1], service)]
  }

  /** Row `k` of the described rows is row `k` described. */
  lemma {:induction false} DescribedAt(header: seq<string>, rows: seq<Row>, service: Service, k: nat)
    requires k < |rows|
    ensures Described(header, rows, service)[k] == WithDescription(header, rows[k], service)
  {
    if k < |rows| - 1 {
      DescribedAt(header, rows[..|rows| - 1], service, k);
    }
  }

  /** All rows after the stage: the leading rows (as many as `Processed` says) described,
      the rest left as they were. */
  function DescriptionPass(columns: seq<string>, rows: seq<Row>, batchSize: Option<nat>, service: Service): (result: seq<Row>)
    ensures |result| == |rows|
  {
    var m := Processed(|rows|, batchSize);
    Described(WithColumn(columns, SimpleColumn), rows[..m], service) + rows[m..]
  }

  /** The stage describes exactly the leading rows it processes (`WithDescription` says
      what that changes in a row) and leaves the other rows as they were. */
  lemma PassDescribesLeadingRows(columns: seq<string>, rows: seq<Row>, batchSize: Option<nat>, service: Service)
    ensures |DescriptionPass(columns, rows, batchSize, service)| == |rows|
    ensures forall i :: 0 <= i < Processed(|rows|, batchSize) ==>
      DescriptionPass(columns, rows, batchSize, service)[i] == WithDescription(WithColumn(columns, SimpleColumn), rows[i], service)
    ensures forall i :: Processed(|rows|, batchSize) <= i < |rows| ==>
      DescriptionPass(columns, rows, batchSize, service)[i] == rows[i]
  {
    var m := Processed(|rows|, batchSize);
    var header := WithColumn(columns, SimpleColumn);
    var described := Described(header, rows[..m], service);
    assert DescriptionPass(columns, rows, batchSize, service) == described + rows[m..];
    forall i | 0 <= i < m
      ensures described[i] == WithDescription(header, rows[i], service)
    {
      DescribedAt(header, rows[..m], service, i);
    }
  }

  /** Generating the description of a row whose description column was already reset gives
      the same row as generating it from the row as it was. */
  lemma DescribeAfterClear(header: seq<string>, row: Row, service: Service)
    ensures RowOutcome(header, row[SimpleColumn := Some("")], service) == RowOutcome(header, row, service)
    ensures WithDescription(header, row[SimpleColumn := Some("")], service) == WithDescription(header, row, service)
  {
    var cleared := row[SimpleColumn := Some("")];
    assert cleared[SimpleColumn := Some("")] == cleared;
    assert RowOutcome(header, cleared, service) == RowOutcome(header, row, service);
    var text := RowOutcome(header, row, service).Text();
    assert cleared[SimpleColumn := Some(text)] == row[SimpleColumn := Some(text)];
  }

  /** Amounts added to the two usage counters. */
  datatype Counters = Counters(tokens: nat, requests: nat)

  /** What the generations of the given rows add to the two counters. */
  function Usage(header: seq<string>, rows: seq<Row>, service: Service): Counters
  {
    if rows == [] then Counters(0, 0)
    else
      var before := Usage(header, rows[..|rows| - 1], service);
      var o := RowOutcome(header, rows[|rows| - 1], service);
      Counters(before.tokens + o.tokens, before.requests + o.requests)
  }

  /** The pass makes at most three requests per processed row. */
  lemma {:induction false} UsageBounded(header: seq<string>, rows: seq<Row>, service: Service)
    ensures Usage(header, rows, service).requests <= MaxRetries * |rows|
  {
    if rows != [] {
      UsageBounded(header, rows[..|rows| - 1], service);
      var fields := ItemFields(header, rows[|rows| - 1][SimpleColumn := Some("")]);
      if fields != map[] && Present(Get(fields, "DESCRIPTION")) {
        AttemptsBounded(CreatePrompt(fields), service, 0);
      }
    }
  }

  /** The generator with its usage counters. */
  class Generator {
    var totalTokens: nat
    var totalRequests: nat

    constructor ()
      ensures totalTokens == 0 && totalRequests == 0
    {
      totalTokens := 0;
      totalRequests := 0;
    }

    /** `generate_description`: answers the description text and the back-off waits slept,
        and adds the counted requests and their usage to the counters. */
    method GenerateDescription(item: ItemData, service: Service) returns (text: string, sleeps: seq<nat>)
      modifies this
      ensures text == Generation(item, service).Text() && sleeps == Generation(item, service).sleeps
      ensures totalTokens == old(totalTokens) + Generation(item, service).tokens
      ensures totalRequests == old(totalRequests) + Generation(item, service).requests
    {
      sleeps := [];
      if item.NotADict? || item.fields == map[] {
        return InvalidItem, sleeps;
      }
      if !Present(Get(item.fields, "DESCRIPTION")) {
        return NoDescription, sleeps;
      }
      var prompt := CreatePrompt(item.fields);
      text, sleeps := Retry(prompt, service);
    }

    /** One turn of the retry loop: the request, the counters bumped for a completion, and
        either the answer (`done`) or the go-ahead for the next attempt. */
    method Attempt(prompt: string, service: Service, attempt: nat, ghost rest: Outcome) returns (done: bool, text: string)
      requires attempt < MaxRetries && rest == Attempts(prompt, service, attempt)
      modifies this
      ensures done ==> (text == rest.Text() && rest.sleeps == []
                        && totalTokens == old(totalTokens) + rest.tokens && totalRequests == old(totalRequests) + rest.requests)
      ensures !done ==> (attempt < MaxRetries - 1
                         && rest.answer == Attempts(prompt, service, attempt + 1).answer
                         && rest.tokens == totalTokens - old(totalTokens) + Attempts(prompt, service, attempt + 1).tokens
                         && rest.requests == totalRequests - old(totalRequests) + Attempts(prompt, service, attempt + 1).requests
                         && rest.sleeps == [Backoff(attempt)] + Attempts(prompt, service, attempt + 1).sleeps)
    {
      var reply := service(prompt, attempt);
      var error: string;
      if reply.Completion? {
        totalTokens := totalTokens + reply.usage;
        totalRequests := totalRequests + 1;
        if reply.content.Some? {
          return true, Unquote(Strip(reply.content.value));
        }
        error := NullContentError;
      } else {
        error := reply.message;
      }
      if attempt < MaxRetries - 1 {
        return false, "";
      }
      return true, ErrorPrefix + error;
    }

    /** Part way through the retry loop: what the whole loop comes to is what was counted
        and slept so far followed by what the remaining attempts `rest` come to. */
    ghost predicate Remaining(whole: Outcome, rest: Outcome, tokens: int, requests: int, sleeps: seq<nat>) {
      whole.answer == rest.answer && whole.tokens == tokens + rest.tokens
      && whole.requests == requests + rest.requests && whole.sleeps == sleeps + rest.sleeps
    }

    /** The retry loop of `generate_description` for one prompt. */
    method Retry(prompt: string, service: Service) returns (text: string, sleeps: seq<nat>)
      modifies this
      ensures text == Attempts(prompt, service, 0).Text() && sleeps == Attempts(prompt, service, 0).sleeps
      ensures totalTokens == old(totalTokens) + Attempts(prompt, service, 0).tokens
      ensures totalRequests == old(totalRequests) + Attempts(prompt, service, 0).requests
    {
      ghost var whole, tokens, requests := Attempts(prompt, service, 0), totalTokens, totalRequests;
      ghost var rest := whole;
      sleeps := [];
      var attempt := 0;
      while attempt < MaxRetries
        invariant 0 <= attempt <= MaxRetries && rest == Attempts(prompt, service, attempt)
        invariant Remaining(whole, rest, totalTokens - tokens, totalRequests - requests, sleeps)
      {
        var done;
        done, text := Attempt(prompt, service, attempt, rest);
        if done {
          return text, sleeps;
        }
        sleeps := sleeps + [Backoff(attempt)];
        attempt := attempt + 1;
        rest := Attempts(prompt, service, attempt);
      }
      return FailedAfterRetries, sleeps;
    }

    /** Part way through the loop: the first `idx` rows described, the rest up to `m` still
        cleared. */
    ghost predicate LeadingState(header: seq<string>, current: seq<Row>, idx: nat, m: nat, original: seq<Row>, service: Service) {
      idx <= m <= |current| == |original|
      && current[..idx] == Described(header, original[..idx], service)
      && forall k :: idx <= k < m ==> current[k] == original[k][SimpleColumn := Some("")]
    }

    /** One row of the pass, `rows[idx]`, whose description column was reset: its
        description is generated from the row's fields and written to that column. */
    method DescribeRow(header: seq<string>, rows: array<Row>, idx: nat, ghost row: Row, service: Service)
      requires idx < rows.Length && rows[idx] == row[SimpleColumn := Some("")]
      modifies this, rows
      ensures rows[..] == old(rows[..])[idx := WithDescription(header, row, service)]
      ensures totalTokens == old(totalTokens) + RowOutcome(header, row, service).tokens
      ensures totalRequests == old(totalRequests) + RowOutcome(header, row, service).requests
    {
      DescribeAfterClear(header, row, service);
      var item := Dict(ItemFields(header, rows[idx][SimpleColumn := Some("")]));
      var text, _ := GenerateDescription(item, service);
      rows[idx] := rows[idx][SimpleColumn := Some(text)];
    }

    /** One turn of the loop below: row `idx` described, the counters advanced past it. */
    method DescribeNext(header: seq<string>, rows: array<Row>, idx: nat, m: nat, ghost original: seq<Row>, service: Service,
                        ghost tokens: int, ghost requests: int)
      requires idx < m && LeadingState(header, rows[..], idx, m, original, service)
      requires totalTokens == tokens + Usage(header, original[..idx], service).tokens
      requires totalRequests == requests + Usage(header, original[..idx], service).requests
      modifies this, rows
      ensures LeadingState(header, rows[..], idx + 1, m, original, service)
      ensures rows[m..] == old(rows[m..])
      ensures totalTokens == tokens + Usage(header, original[..idx + 1], service).tokens
      ensures totalRequests == requests + Usage(header, original[..idx + 1], service).requests
    {
      DescribeRow(header, rows, idx, original[idx], service);
      PrefixNext(original, idx);
      PrefixNext(rows[..], idx);
    }

    /** The loop over the leading `m` rows, whose description columns were reset. */
    method DescribeLeading(header: seq<string>, rows: array<Row>, m: nat, ghost original: seq<Row>, service: Service)
      returns (checkpoints: seq<nat>)
      requires m <= rows.Length == |original|
      requires forall k :: 0 <= k < m ==> rows[k] == original[k][SimpleColumn := Some("")]
      modifies this, rows
      ensures rows[..m] == Described(header, original[..m], service)
      ensures rows[m..] == old(rows[m..])
      ensures totalTokens == old(totalTokens) + Usage(header, original[..m], service).tokens
      ensures totalRequests == old(totalRequests) + Usage(header, original[..m], service).requests
      ensures checkpoints == Multiples(m, CheckpointEvery)
    {
      ghost var tokens, requests, rest := totalTokens, totalRequests, rows[m..];
      checkpoints := [];
      var idx := 0;
      while idx < m
        invariant LeadingState(header, rows[..], idx, m, original, service)
        invariant rows[m..] == rest
        invariant totalTokens == tokens + Usage(header, original[..idx], service).tokens
        invariant totalRequests == requests + Usage(header, original[..idx], service).requests
        invariant checkpoints == Multiples(idx, CheckpointEvery)
      {
        DescribeNext(header, rows, idx, m, original, service, tokens, requests);
        if (idx + 1) % CheckpointEvery == 0 {
          checkpoints := checkpoints + [idx + 1];
        }
        idx := idx + 1;
      }
    }

    /** The description column of the leading `m` rows reset to "". */
    method ClearLeading(rows: array<Row>, m: nat)
      requires m <= rows.Length
      modifies rows
      ensures forall k :: 0 <= k < m ==> rows[k] == old(rows[k])[SimpleColumn := Some("")]
      ensures rows[m..] == old(rows[m..])
    {
      forall i | 0 <= i < m {
        rows[i] := rows[i][SimpleColumn := Some("")];
      }
    }

    /** `process_inventory_file` on the table held in `rows` (with header `columns`): answers
        the new header and the row counts at which a checkpoint was written. */
    method ProcessInventoryFile(columns: seq<string>, rows: array<Row>, batchSize: Option<nat>, service: Service)
      returns (header: seq<string>, checkpoints: seq<nat>)
      modifies this, rows
      ensures header == WithColumn(columns, SimpleColumn)
      ensures rows[..] == DescriptionPass(columns, old(rows[..]), batchSize, service)
      ensures var done := old(rows[..])[..Processed(rows.Length, batchSize)];
        totalTokens == old(totalTokens) + Usage(header, done, service).tokens
        && totalRequests == old(totalRequests) + Usage(header, done, service).requests
      ensures checkpoints == Multiples(Processed(rows.Length, batchSize), CheckpointEvery)
    {
      header := WithColumn(columns, SimpleColumn);
      var m := Processed(rows.Length, batchSize);
      ghost var original := rows[..];
      ClearLeading(rows, m);
      checkpoints := DescribeLeading(header, rows, m, original, service);
      assert rows[..] == rows[..m] + rows[m..];
      assert DescriptionPass(columns, original, batchSize, service) == Described(header, original[..m], service) + original[m..];
    }
  }
}
