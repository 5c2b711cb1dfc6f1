/** `execute_prompt` of chatbot/chatbot.py: a prompt cache keyed by the exact
    prompt string in front of a generation service that is retried on non-200
    replies. The service is a script: the k-th POST (counting from 0) is
    answered by `script(k)`. */
module PromptExecutor {
  import opened Text

  /** One reply of the service: status 200 with its text, or any other status. */
  datatype Response = Ok(text: string) | Fail

  /** What the function returns once every inspected reply has failed:
      "Could not get answer from API, try again later", written in three
      pieces so that facts about its characters stay cheap to prove. */
  const Sentinel: string := "Could not get " + "answer from API, " + "try again later"

  /** The sentinel has neither `*` nor `E` in it. */
  lemma SentinelIsPlain()
    ensures '*' !in Sentinel && 'E' !in Sentinel
  {
  }

  /** `max_tries`: the number of replies that are inspected. */
  const MaxTries: nat := 3

  /** One call: what it returns, how many POSTs it sends, and what it saves
      under the prompt (`save_prompt`), if anything. */
  datatype Exec = Exec(answer: string, posts: nat, saved: Option<string>)

  /** `get_prompt(prompt)`: exact string lookup. */
  function Lookup(entries: map<string, string>, prompt: string): Option<string>
  {
    if prompt in entries then Some(entries[prompt]) else None
  }

  /** The cache after a call that had outcome `e`. */
  function AfterCall(entries: map<string, string>, prompt: string, e: Exec): map<string, string>
  {
    if e.saved.Some? then entries[prompt := e.saved.value] else entries
  }

  /** Index of the first 200 reply among replies `k .. MaxTries-1`. */
  function FirstOkFrom(script: nat -> Response, k: nat): (r: Option<nat>)
    requires k <= MaxTries
    ensures r.Some? ==> k <= r.value < MaxTries && script(r.value).Ok?
    ensures r.Some? ==> forall j :: k <= j < r.value ==> script(j).Fail?
    ensures r.None? ==> forall j :: k <= j < MaxTries ==> script(j).Fail?
    decreases MaxTries - k
  {
    if k == MaxTries then None
    else if script(k).Ok? then Some(k)
    else FirstOkFrom(script, k + 1)
  }

  /** `execute_prompt(prompt, override)` as a function of the cached entry and
      the script (chatbot/chatbot.py:35-61). */
  function Execute(cached: Option<string>, override: bool, script: nat -> Response): (e: Exec)
    ensures e.posts <= MaxTries + 1
    ensures e.posts == 0 <==> cached.Some? && !override
    ensures e.posts == 0 ==> e == Exec(cached.value, 0, None)
    ensures e.saved.Some? ==>
              && e.answer == e.saved.value
              && 1 <= e.posts <= MaxTries
              && script(e.posts - 1) == Ok(e.answer)
              && forall j :: 0 <= j < e.posts - 1 ==> script(j).Fail?
    ensures e.posts > 0 && e.saved.None? ==>
              && e == Exec(Sentinel, MaxTries + 1, None)
              && forall j :: 0 <= j < MaxTries ==> script(j).Fail?
  {
    if cached.Some? && !override then Exec(cached.value, 0, None)
    else match FirstOkFrom(script, 0)
      case Some(k) => Exec(script(k).text, k + 1, Some(script(k).text))
      case None => Exec(Sentinel, MaxTries + 1, None)
  }

  /** The reply to the last POST of a failed call is never looked at: two
      scripts that agree on the first `MaxTries` replies give the same call. */
  lemma {:induction false} FourthReplyIgnored(cached: Option<string>, override: bool,
                                              script: nat -> Response, other: nat -> Response)
    requires forall j :: 0 <= j < MaxTries ==> script(j) == other(j)
    ensures Execute(cached, override, script) == Execute(cached, override, other)
  {
    SameFirstOk(script, other, 0);
  }

  lemma {:induction false} SameFirstOk(script: nat -> Response, other: nat -> Response, k: nat)
    requires k <= MaxTries
    requires forall j :: k <= j < MaxTries ==> script(j) == other(j)
    ensures FirstOkFrom(script, k) == FirstOkFrom(other, k)
    decreases MaxTries - k
  {
    if k < MaxTries && script(k).Fail? {
      SameFirstOk(script, other, k + 1);
    }
  }

  /** Three non-200 replies: four POSTs, the sentinel, and no cache write. */
  lemma AllRepliesFail(entries: map<string, string>, prompt: string, override: bool, script: nat -> Response)
    requires override || prompt !in entries
    requires script(0) == Fail && script(1) == Fail && script(2) == Fail
    ensures var e := Execute(Lookup(entries, prompt), override, script);
      e == Exec(Sentinel, 4, None) && AfterCall(entries, prompt, e) == entries
  {
    assert FirstOkFrom(script, 0) == None;
  }

  /** A success after two failures: three POSTs, and exactly that text is
      stored under the prompt, every other entry kept. */
  lemma SuccessAfterTwoFailures(entries: map<string, string>, prompt: string, override: bool,
                                script: nat -> Response, text: string)
    requires override || prompt !in entries
    requires script(0) == Fail && script(1) == Fail && script(2) == Ok(text)
    ensures var e := Execute(Lookup(entries, prompt), override, script);
      && e == Exec(text, 3, Some(text))
      && AfterCall(entries, prompt, e)[prompt] == text
      && forall p :: p in entries && p != prompt ==> AfterCall(entries, prompt, e)[p] == entries[p]
  {
    assert FirstOkFrom(script, 0) == Some(2);
  }

  /** Asking again without override after a call that answered from the
      service or from the cache sends nothing and returns the same answer. */
  lemma RepeatHitsCache(entries: map<string, string>, prompt: string, override: bool,
                        script: nat -> Response, later: nat -> Response)
    requires var e := Execute(Lookup(entries, prompt), override, script);
      e.saved.Some? || e.posts == 0
    ensures var e := Execute(Lookup(entries, prompt), override, script);
      var again := Execute(Lookup(AfterCall(entries, prompt, e), prompt), false, later);
      again == Exec(e.answer, 0, None)
  {
  }

  /** The prompt cache (functions.prompt_caching.get_prompt / save_prompt). */
  class PromptCache {
    var entries: map<string, string>

    constructor ()
      ensures entries == map[]
    {
      entries := map[];
    }

    /** `execute_prompt(prompt, override)`: one POST before the loop and one
        more for each inspected non-200 reply; the first 200 reply is saved
        and returned. */
    method ExecutePrompt(prompt: string, override: bool, script: nat -> Response)
      returns (answer: string, posts: nat)
      modifies this
      ensures var e := Execute(Lookup(old(entries), prompt), override, script);
        answer == e.answer && posts == e.posts && entries == AfterCall(old(entries), prompt, e)
    {
      if prompt in entries && !override {
        return entries[prompt], 0;
      }
      var tries := 0;
      var response := script(0);
      posts := 1;
      while tries < MaxTries
        invariant 0 <= tries <= MaxTries
        invariant posts == tries + 1
        invariant response == script(tries)
        invariant FirstOkFrom(script, 0) == FirstOkFrom(script, tries)
        invariant entries == old(entries)
      {
        if response.Ok? {
          entries := entries[prompt := response.text];
          return response.text, posts;
        }
        response := script(posts);
        posts := posts + 1;
        tries := tries + 1;
      }
      return Sentinel, posts;
    }
  }
}
