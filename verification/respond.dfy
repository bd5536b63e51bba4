/**
 `Jira.get_response_text`: scan the message body for ticket ids, visit the
 distinct ids in the order the set happens to yield them, look each one up,
 and stop at the first issue the tracker either returns (200) or does not
 know (404).

 The HTTP lookup, with its session-cookie handshake, is the parameter
 `lookup`; the iteration order of `set(matches)` is the parameter `order`.
 */
module Respond {
  import opened Wrappers
  import opened Scan
  import opened Configuration

  /** What the tracker answers for one id: the HTTP status and, for a 200,
      the issue's summary field. */
  datatype Issue = Issue(status: int, summary: string)

  /** An exception raised while handling a message: a configuration key that
      is absent, or whose value cannot be used the way the code uses it. */
  datatype Fault = MissingKey(key: string) | WrongType(key: string)

  /** The reply chosen, if any, and the ids looked up, in lookup order. */
  datatype Visit = Visit(reply: Option<string>, looked: seq<string>)

  const NotFound := "Issue not found"

  /** Statuses that end the visit; 401 and every other status are skipped. */
  predicate Decisive(status: int) {
    status == 200 || status == 404
  }

  /** No id occurs twice. */
  predicate NoDup(xs: seq<string>) {
    forall i, j :: 0 <= i < j < |xs| ==> xs[i] != xs[j]
  }

  /** `order` lists every distinct element of `ms` exactly once: one possible
      iteration order of `set(ms)`. */
  ghost predicate Enumerates(order: seq<string>, ms: seq<string>) {
    (forall x :: x in order <==> x in ms) && NoDup(order)
  }

  /** The loop over the distinct ids: the first id whose status is 200 yields
      the browse link with its summary, the first whose status is 404 yields
      the not-found notice, and any other status moves on to the next id. */
  function Select(url: string, order: seq<string>, lookup: string -> Issue): (v: Visit)
    ensures v.looked <= order
    ensures forall k :: 0 <= k < |v.looked| - 1 ==> !Decisive(lookup(v.looked[k]).status)
    ensures v.reply.None? <==> forall k :: 0 <= k < |order| ==> !Decisive(lookup(order[k]).status)
    ensures v.reply.None? ==> v.looked == order
    ensures v.reply.Some? ==>
      && |v.looked| > 0
      && var id := v.looked[|v.looked| - 1];
      && (lookup(id).status == 200 ==> v.reply.value == url + "/browse/" + id + " - " + lookup(id).summary)
      && (lookup(id).status == 404 ==> v.reply.value == NotFound)
      && Decisive(lookup(id).status)
  {
    if order == [] then Visit(None, [])
    else
      var id := order[0];
      var issue := lookup(id);
      if issue.status == 200 then
        Visit(Some(url + "/browse/" + id + " - " + issue.summary), [id])
      else if issue.status == 404 then
        Visit(Some(NotFound), [id])
      else
        var rest := Select(url, order[1..], lookup);
        assert forall k :: 0 <= k < |order| - 1 ==> order[1..][k] == order[k + 1];
        Visit(rest.reply, [id] + rest.looked)
  }

  /** Iterating `config['PROJECTS']`: a list yields its strings, a string
      yields its characters one by one, a boolean is not iterable. */
  function Prefixes(config: Config): (r: Result<seq<string>, Fault>)
    ensures ProjectsKey !in config ==> r == Failure(MissingKey(ProjectsKey))
    ensures ProjectsKey in config && config[ProjectsKey].Flag? ==> r == Failure(WrongType(ProjectsKey))
    ensures ProjectsKey in config && config[ProjectsKey].Texts? ==> r == Success(config[ProjectsKey].items)
    ensures ProjectsKey in config && config[ProjectsKey].Text? ==>
      var s := config[ProjectsKey].s;
      r.Success? && |r.value| == |s| && forall k :: 0 <= k < |s| ==> r.value[k] == [s[k]]
  {
    if ProjectsKey !in config then Failure(MissingKey(ProjectsKey))
    else match config[ProjectsKey]
      case Texts(xs) => Success(xs)
      case Text(s) => Success(seq(|s|, k requires 0 <= k < |s| => [s[k]]))
      case Flag(_) => Failure(WrongType(ProjectsKey))
  }

  /** `config['URL']` as the request path and the reply use it: only a
      string can be concatenated with the REST path. */
  function Url(config: Config): (r: Result<string, Fault>)
    ensures r.Success? <==> UrlKey in config && config[UrlKey].Text?
    ensures r.Success? ==> config[UrlKey] == Text(r.value)
    ensures UrlKey !in config ==> r == Failure(MissingKey(UrlKey))
    ensures UrlKey in config && !config[UrlKey].Text? ==> r == Failure(WrongType(UrlKey))
  {
    if UrlKey !in config then Failure(MissingKey(UrlKey))
    else match config[UrlKey]
      case Text(s) => Success(s)
      case _ => Failure(WrongType(UrlKey))
  }

  /** The ids the regexes collect, or the exception reading the project list
      raises; an unconfigured plugin collects nothing. */
  function Candidates(config: Option<Config>, body: string): (r: Result<seq<string>, Fault>)
    ensures !Truthy(config) ==> r == Success([])
    ensures Truthy(config) ==> (r.Failure? <==> Prefixes(config.value).Failure?)
    ensures Truthy(config) && r.Failure? ==> r.error == Prefixes(config.value).error
    ensures Truthy(config) && r.Success? ==>
      (r.value == [] <==> !Mentions(body, Prefixes(config.value).value))
    ensures Truthy(config) && r.Success? ==> forall m :: m in r.value ==>
      exists k :: 0 <= k < |Prefixes(config.value).value| && m in FindAll(body, Prefixes(config.value).value[k])
  {
    if !Truthy(config) then Success([])
    else match Prefixes(config.value)
      case Failure(f) => Failure(f)
      case Success(ps) =>
        MatchesEmpty(body, ps);
        assert forall m :: m in Matches(body, ps) ==>
          exists k :: 0 <= k < |ps| && m in FindAll(body, ps[k]) by {
          forall m | m in Matches(body, ps)
            ensures exists k :: 0 <= k < |ps| && m in FindAll(body, ps[k])
          {
            MatchesMember(body, ps, m);
          }
        }
        Success(Matches(body, ps))
  }

  /** `get_response_text` for one message body, visiting the distinct ids in
      `order`. A URL that is not a string raises at the first lookup, so only
      when there is something to look up. */
  function ResponseText(config: Option<Config>, body: string, order: seq<string>, lookup: string -> Issue): (r: Result<Visit, Fault>)
    requires Candidates(config, body).Success? ==> Enumerates(order, Candidates(config, body).value)
    ensures !Truthy(config) ==> r == Success(Visit(None, []))
    ensures r.Success? ==> Candidates(config, body).Success?
    ensures r.Success? ==> NoDup(r.value.looked)
    ensures r.Success? ==> forall x :: x in r.value.looked ==> x in Candidates(config, body).value
    ensures r.Failure? <==> (Candidates(config, body).Failure? ||
                             (Candidates(config, body).value != [] && Url(config.value).Failure?))
  {
    if !Truthy(config) then Success(Visit(None, []))
    else match Prefixes(config.value)
      case Failure(f) => Failure(f)
      case Success(ps) =>
        if Matches(body, ps) == [] then Success(Visit(None, []))
        else match Url(config.value)
          case Failure(f) => Failure(f)
          case Success(url) => Success(Select(url, order, lookup))
  }

  /** For a configuration whose project list can be read: a message in which
      no configured prefix followed by `-` and a digit occurs gets no reply
      and causes no lookup; otherwise the first id is looked up, which raises
      when the URL cannot be used. */
  lemma LookupIffMention(config: Option<Config>, body: string, order: seq<string>, lookup: string -> Issue, ps: seq<string>)
    requires Truthy(config) && Prefixes(config.value) == Success(ps)
    requires Enumerates(order, Matches(body, ps))
    ensures !Mentions(body, ps) ==> ResponseText(config, body, order, lookup) == Success(Visit(None, []))
    ensures Mentions(body, ps) && Url(config.value).Success? ==>
      ResponseText(config, body, order, lookup).Success? && ResponseText(config, body, order, lookup).value.looked != []
    ensures Mentions(body, ps) && Url(config.value).Failure? ==>
      ResponseText(config, body, order, lookup) == Failure(Url(config.value).error)
  {
    MatchesEmpty(body, ps);
    var ms := Matches(body, ps);
    if ms != [] {
      assert ms[0] in order;
    }
  }

  /** Whether a reply is produced does not depend on the visiting order:
      there is one exactly when some distinct id has status 200 or 404. */
  lemma ReplyIffDecisive(config: Option<Config>, body: string, order: seq<string>, lookup: string -> Issue)
    requires Candidates(config, body).Success? ==> Enumerates(order, Candidates(config, body).value)
    requires ResponseText(config, body, order, lookup).Success?
    ensures ResponseText(config, body, order, lookup).value.reply.Some? <==>
      exists x :: x in Candidates(config, body).value && Decisive(lookup(x).status)
  {
    var ms := Candidates(config, body).value;
    if x :| x in ms && Decisive(lookup(x).status) {
      assert x in order;
    }
  }

  /** At most one of the distinct ids ends the visit. */
  predicate SingleDecisive(ms: seq<string>, lookup: string -> Issue) {
    forall x, y :: x in ms && y in ms && Decisive(lookup(x).status) && Decisive(lookup(y).status) ==> x == y
  }

  /** Two visiting orders of the same distinct ids: they fail alike, reply
      alike or stay silent alike, and when at most one id has status 200 or
      404 they give the very same reply. */
  lemma ReplyOrderIndependent(config: Option<Config>, body: string, o1: seq<string>, o2: seq<string>, lookup: string -> Issue)
    requires Candidates(config, body).Success? ==> Enumerates(o1, Candidates(config, body).value)
    requires Candidates(config, body).Success? ==> Enumerates(o2, Candidates(config, body).value)
    ensures ResponseText(config, body, o1, lookup).Success? <==> ResponseText(config, body, o2, lookup).Success?
    ensures ResponseText(config, body, o1, lookup).Success? ==>
      (ResponseText(config, body, o1, lookup).value.reply.None? <==> ResponseText(config, body, o2, lookup).value.reply.None?)
    ensures ResponseText(config, body, o1, lookup).Success? && SingleDecisive(Candidates(config, body).value, lookup) ==>
      ResponseText(config, body, o1, lookup).value.reply == ResponseText(config, body, o2, lookup).value.reply
  {
    var r1 := ResponseText(config, body, o1, lookup);
    var r2 := ResponseText(config, body, o2, lookup);
    if r1.Success? {
      ReplyIffDecisive(config, body, o1, lookup);
      ReplyIffDecisive(config, body, o2, lookup);
      var ms := Candidates(config, body).value;
      if SingleDecisive(ms, lookup) && r1.value.reply.Some? {
        var l1, l2 := r1.value.looked, r2.value.looked;
        assert l1[|l1| - 1] in ms && l2[|l2| - 1] in ms;
      }
    }
  }

  /** When every distinct id that ends the visit is unknown to the tracker
      (404) and there is at least one, the reply is the not-found notice
      whatever the order. */
  lemma AllNotFound(config: Option<Config>, body: string, order: seq<string>, lookup: string -> Issue)
    requires Candidates(config, body).Success? ==> Enumerates(order, Candidates(config, body).value)
    requires ResponseText(config, body, order, lookup).Success?
    requires forall x :: x in Candidates(config, body).value && Decisive(lookup(x).status) ==> lookup(x).status == 404
    requires exists x :: x in Candidates(config, body).value && lookup(x).status == 404
    ensures ResponseText(config, body, order, lookup).value.reply == Some(NotFound)
  {
    ReplyIffDecisive(config, body, order, lookup);
    var l := ResponseText(config, body, order, lookup).value.looked;
    assert l[|l| - 1] in Candidates(config, body).value;
  }

  /** One distinct id in the message: its lookup alone decides the reply. */
  lemma SingleReference(config: Option<Config>, body: string, order: seq<string>, lookup: string -> Issue, id: string, url: string)
    requires Candidates(config, body).Success? && Enumerates(order, Candidates(config, body).value)
    requires id in Candidates(config, body).value
    requires forall x :: x in Candidates(config, body).value ==> x == id
    requires Truthy(config) && Url(config.value) == Success(url)
    ensures order == [id]
    ensures lookup(id).status == 200 ==>
      ResponseText(config, body, order, lookup) == Success(Visit(Some(url + "/browse/" + id + " - " + lookup(id).summary), [id]))
    ensures lookup(id).status == 404 ==>
      ResponseText(config, body, order, lookup) == Success(Visit(Some(NotFound), [id]))
    ensures !Decisive(lookup(id).status) ==>
      ResponseText(config, body, order, lookup) == Success(Visit(None, [id]))
  {
    var ms := Candidates(config, body).value;
    assert id in order;
    forall k | 0 <= k < |order|
      ensures order[k] == id
    {
      assert order[k] in order;
      assert order[k] in ms;
    }
    var last := |order| - 1;
    assert order[0] == order[last];
  }

  /** The first id is refused (401) and skipped; the second resolves (200). */
  lemma SkipDeniedThenSuccess(url: string, a: string, b: string, lookup: string -> Issue)
    requires lookup(a).status == 401 && lookup(b).status == 200
    ensures Select(url, [a, b], lookup) ==
      Visit(Some(url + "/browse/" + b + " - " + lookup(b).summary), [a, b])
  {
    assert [a, b][1..] == [b];
  }
}
