/** The request path of the page (app.py lines 37-112): the fetch with its
    error-as-content fallback, the cut of the content to 8000 characters, the
    analysis prompt, and the click handler with its two input checks. The
    network fetch with HTML parsing, and the agent, are function parameters:
    their behaviour is not visible here. */
module Analyze {
  import opened Chars
  import opened PyStr
  import opened Cleanup

  /** How many characters of page content go into the prompt. */
  const MaxContentChars: nat := 8000

  const FetchErrorPrefix: string := "Error fetching content: "
  const UrlMissing: string := "Please enter a URL to analyze."
  const QueryMissing: string := "Please enter a question or insight to analyze the content."
  const AnalysisErrorPrefix: string := "An error occurred during analysis: "

  // ---------------------------------------------------------------- fetch

  /** What the HTTP request and the HTML parse produced: the text of the page
      with script and style elements removed, or the message of the exception
      raised on the way (network error, non-2xx status, parse failure). */
  datatype PageText = Extracted(text: string) | Raised(message: string)

  /** `fetch_webpage_content`: the cleaned page text, or, when the fetch
      failed, the error message dressed up as content. */
  function FetchWebpageContent(page: PageText): (r: string)
    ensures page.Extracted? ==> Canonical(r) && NonSpace(r) == NonSpace(page.text)
    ensures page.Extracted? ==> (r == [] <==> AllSpace(page.text))
    ensures page.Raised? ==> |r| == |FetchErrorPrefix| + |page.message|
    ensures page.Raised? ==> r[..|FetchErrorPrefix|] == FetchErrorPrefix
    ensures page.Raised? ==> r[|FetchErrorPrefix|..] == page.message
  {
    match page
    case Extracted(text) =>
      CleanKeepsNonSpace(text);
      CleanEmptyIffAllSpace(text);
      Clean(text)
    case Raised(message) =>
      var r := FetchErrorPrefix + message;
      assert r[..|FetchErrorPrefix|] == FetchErrorPrefix;
      assert r[|FetchErrorPrefix|..] == message;
      r
  }

  /** The content handed on cannot tell a failed fetch from a page whose text
      reads like the error report: for any tidy message the two give the same
      string. */
  lemma FailureLooksLikePage(message: string)
    requires message != [] && Canonical(message)
    ensures FetchWebpageContent(Raised(message))
         == FetchWebpageContent(Extracted(FetchErrorPrefix + message))
  {
    var head := "Error fetching content:";
    assert FetchErrorPrefix == head + OneSpace;
    assert NoBreak(head);
    DoubleSpaceAt(head);
    assert forall i :: 0 <= i < |head| - 1 ==> head[i] != ' ' || head[i + 1] != ' ';
    ChunkThenCanonical(head, message);
    CleanFixesCanonical(FetchErrorPrefix + message);
  }

  // --------------------------------------------------------------- prompt

  /** `content[:8000]`: the longest prefix of at most 8000 characters. */
  function TruncateContent(content: string): (r: string)
    ensures |r| <= MaxContentChars
    ensures r <= content
    ensures |content| <= MaxContentChars ==> r == content
    ensures |content| > MaxContentChars ==> |r| == MaxContentChars
  {
    if |content| <= MaxContentChars then content else content[..MaxContentChars]
  }

  const PromptHead: string :=
    "Analyze the following webpage content and respond to the user's query:\n\nWebpage URL: "
  const QueryLabel: string := "\nUser Query: "
  const ContentLabel: string := "\n\nContent:\n"
  const PromptTail: string :=
    "\n\nProvide a detailed, well-structured, and actionable response that directly addresses the user's query.\n"
    + "Include relevant quotes or examples from the webpage when appropriate.\n"

  /** The characters the prompt adds around its three fields. */
  const PromptOverhead: nat := |PromptHead| + |QueryLabel| + |ContentLabel| + |PromptTail|

  /** The analysis prompt: it carries the URL, the query and the cut content,
      and its length is bounded whatever the size of the page. */
  function BuildPrompt(url: string, query: string, content: string): (r: string)
    ensures Contains(r, url) && Contains(r, query) && Contains(r, TruncateContent(content))
    ensures |r| <= PromptOverhead + |url| + |query| + MaxContentChars
  {
    RenderPrompt(url, query, TruncateContent(content))
  }

  /** The template with its three fields filled in. */
  function RenderPrompt(url: string, query: string, body: string): (r: string)
    ensures Contains(r, url) && Contains(r, query) && Contains(r, body)
    ensures |r| == PromptOverhead + |url| + |query| + |body|
  {
    var before := PromptHead + url + QueryLabel + query + ContentLabel;
    var r := before + body + PromptTail;
    assert OccursAt(r, url, |PromptHead|);
    assert OccursAt(r, query, |PromptHead| + |url| + |QueryLabel|);
    assert OccursAt(r, body, |before|);
    r
  }

  /** Past the first 8000 characters the page content has no influence on
      the prompt. */
  lemma PromptIgnoresTail(url: string, query: string, a: string, b: string)
    requires |a| >= MaxContentChars && |b| >= MaxContentChars
    requires a[..MaxContentChars] == b[..MaxContentChars]
    ensures BuildPrompt(url, query, a) == BuildPrompt(url, query, b)
  {
    calc {
      BuildPrompt(url, query, a);
      RenderPrompt(url, query, TruncateContent(a));
      { assert TruncateContent(a) == TruncateContent(b); }
      RenderPrompt(url, query, TruncateContent(b));
      BuildPrompt(url, query, b);
    }
  }

  // -------------------------------------------------------------- handler

  /** What the agent's `run` gave back: a response, or the message of the
      exception it raised. */
  datatype AgentReply = Reply(content: string) | Failed(message: string)

  /** A call the handler makes to the outside world. */
  datatype Call = Fetch(url: string) | RunAgent(prompt: string)

  /** What the page shows after the click. */
  datatype Display = Warning(text: string) | Answer(markdown: string) | Error(text: string)

  /** The display and, in order, the outside calls made to reach it. */
  datatype Outcome = Outcome(display: Display, calls: seq<Call>)

  /** The handler of the "Analyze Content" button. An empty URL is refused
      first, an empty query second; only with both present is the page
      fetched and the agent asked. */
  function AnalyzeClick(url: string, query: string,
                        fetch: string -> PageText, agent: string -> AgentReply): (o: Outcome)
    ensures url == [] ==> o == Outcome(Warning(UrlMissing), [])
    ensures url != [] && query == [] ==> o == Outcome(Warning(QueryMissing), [])
    ensures o.calls != [] <==> url != [] && query != []
    ensures o.calls != [] ==>
      && |o.calls| == 2
      && o.calls[0] == Fetch(url)
      && o.calls[1].RunAgent?
      && Contains(o.calls[1].prompt, url)
      && Contains(o.calls[1].prompt, query)
      && Contains(o.calls[1].prompt, TruncateContent(FetchWebpageContent(fetch(url))))
    ensures o.display.Answer? ==>
      o.calls != [] && agent(o.calls[1].prompt) == Reply(o.display.markdown)
    ensures o.calls != [] && agent(o.calls[1].prompt).Reply? ==>
      o.display == Answer(agent(o.calls[1].prompt).content)
    ensures o.display.Error? <==>
      o.calls != [] && agent(o.calls[1].prompt).Failed?
    ensures o.display.Error? ==>
      o.display.text == AnalysisErrorPrefix + agent(o.calls[1].prompt).message
  {
    if url == [] then
      Outcome(Warning(UrlMissing), [])
    else if query == [] then
      Outcome(Warning(QueryMissing), [])
    else
      var content := FetchWebpageContent(fetch(url));
      var prompt := BuildPrompt(url, query, content);
      var calls := [Fetch(url), RunAgent(prompt)];
      match agent(prompt)
      case Reply(answer) => Outcome(Answer(answer), calls)
      case Failed(message) => Outcome(Error(AnalysisErrorPrefix + message), calls)
  }

  /** A failed fetch still reaches the agent: the prompt carries the error
      report, cut like any page content. */
  lemma FailedFetchReachesAgent(url: string, query: string, message: string,
                                fetch: string -> PageText, agent: string -> AgentReply)
    requires url != [] && query != [] && fetch(url) == Raised(message)
    ensures var o := AnalyzeClick(url, query, fetch, agent);
      o.calls != [] && Contains(o.calls[1].prompt, TruncateContent(FetchErrorPrefix + message))
  {
    assert FetchWebpageContent(fetch(url)) == FetchErrorPrefix + message;
  }
}
