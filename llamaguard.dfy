/**
 * The LlamaGuard guardrail (comps/guardrails/src/guardrails/integrations/llamaguard.py):
 * the hazard-category tables, the model-id lookup, the chat messages built from
 * the checked document, the verdict parsed from the guard model's reply, and
 * the health check. The guard model's answers are parameters.
 */
module LlamaGuard {
  import opened Wrappers
  import opened Text
  import opened Json

  const DefaultModel: string := "meta-llama/LlamaGuard-7b"

  /** The exception that ends a call. */
  datatype Failure = KeyError | TypeError | IndexError

  /** The category codes of LlamaGuard-7b. */
  const LegacyCodes: set<string> := {"O1", "O2", "O3", "O4", "O5", "O6"}

  /** The category codes of the hazard taxonomy used by the later models. */
  const HazardCodes: set<string> := {"S1", "S2", "S3", "S4", "S5", "S6", "S7", "S8", "S9", "S10", "S11"}

  /** A category code: `O` or `S` followed by a number of one or two digits. */
  predicate CodeShaped(code: string) {
    2 <= |code| <= 3 && (code[0] == 'O' || code[0] == 'S') && '0' <= code[|code| - 1] <= '9'
  }

  /**
   * `get_unsafe_dict`: LlamaGuard-7b's own categories O1-O6, and for any
   * other model the MLCommons AI Safety v0.5 hazard taxonomy S1-S11.
   */
  function UnsafeDict(modelId: Value): (r: map<string, string>)
    ensures modelId == Str(DefaultModel) ==> r.Keys == LegacyCodes
    ensures modelId != Str(DefaultModel) ==> r.Keys == HazardCodes
  {
    if modelId == Str("meta-llama/LlamaGuard-7b") then
      map[
        "O1" := "Violence and Hate",
        "O2" := "Sexual Content",
        "O3" := "Criminal Planning",
        "O4" := "Guns and Illegal Weapons",
        "O5" := "Regulated or Controlled Substances",
        "O6" := "Self-Harm"
      ]
    else
      map[
        "S1" := "Violent Crimes",
        "S2" := "Non-Violent Crimes",
        "S3" := "Sex Crimes",
        "S4" := "Child Exploitation",
        "S5" := "Specialized Advice",
        "S6" := "Privacy",
        "S7" := "Intellectual Property",
        "S8" := "Indiscriminate Weapons",
        "S9" := "Hate",
        "S10" := "Self-Harm",
        "S11" := "Sexual Content"
      ]
  }

  // ---------------------------------------------------------------------
  // get_service_model_id

  /** Python's `len(v)`. */
  function Len(v: Value): Result<nat, Failure> {
    match v
    case Str(s) => Ok(|s|)
    case List(items) => Ok(|items|)
    case Obj(fields) => Ok(|fields|)
    case _ => Err(TypeError)
  }

  /** Python's `v[0]`; JSON object keys are strings, so an object has no key `0`. */
  function First(v: Value): Result<Value, Failure>
    requires Len(v).Ok? && Len(v).value > 0
  {
    match v
    case Str(s) => Ok(Str([s[0]]))
    case List(items) => Ok(items[0])
    case _ => Err(KeyError)
  }

  /** Python's `v["id"]`: only an object can be indexed by a string. */
  function Field(v: Value, key: string): Result<Value, Failure> {
    match v
    case Obj(fields) => if key in fields then Ok(fields[key]) else Err(KeyError)
    case _ => Err(TypeError)
  }

  /**
   * The body of the `try` in `get_service_model_id`, on the decoded answer of
   * `/v1/models`: `Ok(None)` when the `if` does not hold, an exception when a
   * step raises.
   */
  function ListedModelId(info: Value): Result<Option<Value>, Failure> {
    match info
    case Obj(fields) =>
      if "data" !in fields then Ok(None) else FirstId(fields["data"])
    case List(items) =>
      // `"data" in` a list tests membership; indexing it by a string then raises.
      if Str("data") in items then Err(TypeError) else Ok(None)
    case Str(s) =>
      if Contains(s, "data") then Err(TypeError) else Ok(None)
    case _ => Err(TypeError)
  }

  /** `data[0]["id"]` once `len(data) > 0` has been checked. */
  function FirstId(data: Value): Result<Option<Value>, Failure> {
    match Len(data)
    case Err(e) => Err(e)
    case Ok(n) =>
      if n == 0 then Ok(None)
      else
        match First(data)
        case Err(e) => Err(e)
        case Ok(first) =>
          match Field(first, "id")
          case Err(e) => Err(e)
          case Ok(id) => Ok(Some(id))
  }

  /** The answer of `/v1/models` names a first model with an `id`. */
  predicate NamesModel(info: Value) {
    && info.Obj? && "data" in info.fields
    && info.fields["data"].List? && |info.fields["data"].items| > 0
    && info.fields["data"].items[0].Obj? && "id" in info.fields["data"].items[0].fields
  }

  /**
   * `get_service_model_id`: `info` is the decoded answer of `/v1/models`,
   * `None` when the request raised. The `id` of the first listed model, or
   * else, whatever went wrong, the default.
   */
  function ServiceModelId(info: Option<Value>, default: Value): (r: Value)
    ensures info.Some? && NamesModel(info.value) ==> r == info.value.fields["data"].items[0].fields["id"]
    ensures !(info.Some? && NamesModel(info.value)) ==> r == default
  {
    match info
    case None => default
    case Some(v) =>
      match ListedModelId(v)
      case Ok(Some(id)) => id
      case _ => default
  }

  /** The model name the guard is built with: the `SAFETY_GUARD_MODEL_ID` override, else the served model. */
  function GuardModel(envModelId: Option<string>, info: Option<Value>): (r: Value)
    ensures envModelId.Some? ==> r == Str(envModelId.value)
    ensures envModelId.None? && info.Some? && NamesModel(info.value) ==> r == info.value.fields["data"].items[0].fields["id"]
    ensures envModelId.None? && !(info.Some? && NamesModel(info.value)) ==> r == Str(DefaultModel)
  {
    match envModelId
    case Some(m) => Str(m)
    case None => ServiceModelId(info, Str(DefaultModel))
  }

  // ---------------------------------------------------------------------
  // invoke

  /** The document to check. */
  datatype Doc = GeneratedDoc(prompt: string, text: string) | TextDoc(text: string)

  datatype Message = Message(role: string, content: string)

  /**
   * The chat sent to the guard: a generated answer is checked as the
   * assistant's reply to the user's prompt, a plain text as a user message.
   */
  function Messages(doc: Doc): (r: seq<Message>)
    ensures |r| == if doc.GeneratedDoc? then 2 else 1
    ensures r[0].role == "user" && r[|r| - 1].content == doc.text
    ensures doc.GeneratedDoc? ==> r[0].content == doc.prompt && r[1].role == "assistant"
  {
    match doc
    case GeneratedDoc(prompt, text) => [Message("user", prompt), Message("assistant", text)]
    case TextDoc(text) => [Message("user", text)]
  }

  /** The `TextDoc` the guard returns: its text and its downstream blacklist. */
  datatype Verdict = Verdict(text: string, blacklist: seq<string>)

  function ViolationText(policy: string): string {
    "Violated policies: " + policy + ", please check your input."
  }

  /** The category code of an unsafe reply: its second line, stripped. */
  function CategoryCode(reply: string): Result<string, Failure> {
    var lines := Split(reply, '\n');
    if |lines| < 2 then Err(IndexError) else Ok(Strip(lines[1]))
  }

  /**
   * `invoke` once the guard has answered `reply`: a reply containing `unsafe`
   * names a category on its second line, which yields the violation message
   * and a blacklist matching every downstream; any other reply passes the
   * document's text through.
   */
  function Invoke(doc: Doc, modelName: Value, reply: string): (r: Result<Verdict, Failure>)
    ensures !Contains(reply, "unsafe") ==> r == Ok(Verdict(doc.text, []))
    ensures Contains(reply, "unsafe") ==>
      (r.Err? <==> CategoryCode(reply).Err? || CategoryCode(reply).value !in UnsafeDict(modelName))
    ensures Contains(reply, "unsafe") && r.Ok? ==>
      r.value == Verdict(ViolationText(UnsafeDict(modelName)[CategoryCode(reply).value]), [".*"])
  {
    if Contains(reply, "unsafe") then
      var table := UnsafeDict(modelName);
      match CategoryCode(reply)
      case Err(e) => Err(e)
      case Ok(code) =>
        if code !in table then Err(KeyError)
        else Ok(Verdict(ViolationText(table[code]), [".*"]))
    else
      Ok(Verdict(doc.text, []))
  }

  /**
   * An unsafe reply whose second line is a known category code, however
   * padded, yields that category's violation message and the `.*` blacklist.
   */
  lemma UnsafeReplyVerdict(doc: Doc, modelName: Value, lines: seq<string>, pre: string, code: string, post: string)
    requires |lines| >= 2 && forall k :: 0 <= k < |lines| ==> '\n' !in lines[k]
    requires Contains(Join(lines, '\n'), "unsafe")
    requires lines[1] == pre + code + post && AllSpace(pre) && AllSpace(post)
    requires code in UnsafeDict(modelName)
    ensures Invoke(doc, modelName, Join(lines, '\n')) == Ok(Verdict(ViolationText(UnsafeDict(modelName)[code]), [".*"]))
  {
    SplitJoin(lines, '\n');
    CodesAreStripped(modelName, code);
    StripPadded(pre, code, post);
    assert CategoryCode(Join(lines, '\n')) == Ok(code);
  }

  /** Every category code is a word without surrounding blanks. */
  lemma CodesAreStripped(modelName: Value, code: string)
    requires code in UnsafeDict(modelName)
    ensures code != [] && !IsSpace(code[0]) && !IsSpace(code[|code| - 1])
  {
    if modelName == Str(DefaultModel) {
      LegacyShaped(code);
    } else {
      HazardShaped(code);
    }
    NotSpace(code[0]);
    NotSpace(code[|code| - 1]);
  }

  lemma LegacyShaped(code: string)
    requires code in LegacyCodes
    ensures CodeShaped(code)
  {
  }

  lemma HazardShaped(code: string)
    requires code in HazardCodes
    ensures CodeShaped(code)
  {
  }

  lemma NotSpace(c: char)
    requires c == 'O' || c == 'S' || '0' <= c <= '9'
    ensures !IsSpace(c)
  {
  }

  /** An unsafe reply on a single line has no second line: `IndexError`. */
  lemma OneLineUnsafeReply(doc: Doc, modelName: Value, reply: string)
    requires Contains(reply, "unsafe") && '\n' !in reply
    ensures Invoke(doc, modelName, reply) == Err(IndexError)
  {
    SplitJoin([reply], '\n');
  }

  // ---------------------------------------------------------------------
  // check_health

  /**
   * `check_health`: `engine` says whether the chat client exists, `reply` is
   * the content of its answer to the probe, `None` when the call raised.
   */
  function CheckHealth(engine: bool, reply: Option<string>): (r: bool)
    ensures r ==> engine && reply.Some?
    ensures engine && reply.Some? ==> (r <==> exists i :: OccursAt(reply.value, "safe", i))
  {
    if engine && reply.Some? then
      ContainsIffOccurs(reply.value, "safe");
      Contains(reply.value, "safe")
    else
      false
  }

  /** The substring test counts an `unsafe` answer as healthy too. */
  lemma UnsafeReplyIsHealthy(reply: string)
    requires Contains(reply, "unsafe")
    ensures CheckHealth(true, Some(reply))
  {
    assert "un" + "safe" == "unsafe";
    ContainsSuffixPart(reply, "un", "safe");
  }
}
