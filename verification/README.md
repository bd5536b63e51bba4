# err-jira: the message-to-reply pipeline, in Dafny

This project models the core of the err-jira chat-bot plugin (`jira.py`): the
part that turns an inbound chat message into at most one reply about a JIRA
issue. The pipeline has four steps, each a module of pure functions:

- **Scan** (`scan.dfy`): for every configured project prefix `P`, the list
  `re.findall(r'(P\-[0-9]+)', body, flags=re.IGNORECASE)` returns, and those
  lists concatenated in configuration order. The scan is modelled by match
  spans. Each span is a head (`P` up to case, `-`, a digit) followed by a
  maximal digit run. Spans are found leftmost first, and the scan resumes
  where the last match ended.
- **Configuration** (`configuration.dfy`): `CONFIG_TEMPLATE` and
  `Jira.configure`, a right-biased overlay of the supplied dictionary on the
  template.
- **Respond** (`respond.dfy`): `Jira.get_response_text`. The distinct ids are
  visited in an order given as a parameter, which must list each distinct
  match exactly once: it stands for the unspecified iteration order of
  `set(matches)`. Each id is looked up through an oracle
  `lookup: string -> Issue(status, summary)` that stands for `get_issue`.
  A 200 ends the visit with `URL/browse/ID - summary`. A 404 ends it with
  `Issue not found`. A 401 or any other status moves on to the next id.
  Every property is stated for every admissible order.
- **Dispatch** (`dispatch.dfy`): `Jira.callback_message`, which addresses a
  non-empty reply to the sender of a direct message or the room of a group
  message.

`examples.dfy` works the scanner and responder through a few concrete
messages. `wrappers.dfy` holds `Option` and `Result`.

Python raises in some cases, and the model returns a `Fault` for each:
- `config['PROJECTS']` is missing, or is a boolean, which cannot be iterated.
- `config['URL']` is missing or not a string. This raises at the first lookup,
  because `jira.py:53` concatenates the URL outside the `try`. So it only
  raises when there is an id to look up.

A string `PROJECTS` is iterated character by character, so each character
becomes a prefix. The model does the same.

Assumptions of the scanner:
- Prefixes are literal text. The source interpolates them into the pattern
  unescaped.
- Letters are compared with ASCII case folding.

`get_issue` never reads `KERBEROS`, `USERNAME` or `PASSWORD`, and caches no
cookie: it runs the handshake again for every lookup (jira.py:48). When the
handshake fails it sends an empty `JSESSIONID` cookie (jira.py:50-51). All of
this sits behind the lookup oracle.

## Model

| member | source | states |
|---|---|---|
| `Configuration.Configure` | jira.py:31-35 | Every supplied key maps to its supplied value, every template key not supplied keeps its template value, the keys are the union, and an absent or empty supply yields the template itself |
| `Configuration.ConfigureSettles` | jira.py:8-13 | After `configure`, the configuration is truthy and holds `URL` and `PROJECTS`. It also derives a fact the plugin never relies on: configuring again with the result changes nothing |
| `Scan.DigitRun` | jira.py:63 | `[0-9]+` is greedy: the run it measures is all digits and is followed by end of body or a non-digit |
| `Scan.MatchEnd` | jira.py:63 | A match starting at a head covers at least the prefix, the `-` and one digit, and stays inside the body |
| `Scan.MatchEndMaximal` | jira.py:63 | The span from a head to its end is a match of `P-[0-9]+` whose digit run cannot be extended |
| `Scan.Spans` | jira.py:65 | Every span `re.findall` reports lies at or after the scan start, is non-empty and stays inside the body |
| `Scan.SpansSound` | jira.py:63-65 | Every span reported from a scan position is a maximal match of `P-[0-9]+`, compared case-insensitively, starting at or after that position |
| `Scan.SpansOrdered` | jira.py:65 | The reported matches do not overlap and come in body order |
| `Scan.SpansCover` | jira.py:65 | No reference is missed: every head lies inside a reported match, either as its start or overlapped by an earlier match |
| `Scan.SpansUnique` | jira.py:65 | The reported spans are the only list of maximal matches that is in body order without overlap and covers every head: any such list equals them |
| `Scan.DigitRunUnique` | jira.py:63 | A digit run that is followed by end of body or a non-digit is exactly the greedy run |
| `Scan.FindAll` | jira.py:63-65 | Every reported id has the shape prefix (up to ASCII case), `-`, one or more digits |
| `Scan.FindAllOccurs` | jira.py:65 | Every reported id is the body's own substring at a maximal match, so it keeps the message's casing |
| `Scan.FindAllEmpty` | jira.py:65-66 | A prefix yields no id exactly when no head for it occurs anywhere in the body |
| `Scan.Matches` | jira.py:62-65 | Every collected id has the ticket-id shape of some configured prefix |
| `Scan.MatchesMember` | jira.py:64-65 | An id is collected exactly when `re.findall` reports it for some configured prefix |
| `Scan.MatchesEmpty` | jira.py:64-66 | Nothing is collected exactly when no configured prefix followed by `-` and a digit occurs in the body, case-insensitively |
| `Respond.Prefixes` | jira.py:62 | `for project in config['PROJECTS']`: a list is iterated element by element; a string of length n gives n one-character prefixes, one per character; a missing key raises `KeyError`; a boolean raises `TypeError` |
| `Respond.Url` | jira.py:52-54 | The URL is usable exactly when `URL` is present and a string, and then it is that string; a missing key or a non-string value raises |
| `Respond.Candidates` | jira.py:59-66 | An unconfigured or empty configuration collects nothing. Collecting raises exactly when the project list cannot be read, with the same error. Otherwise nothing is collected exactly when no prefix is mentioned, and every id collected is reported by `re.findall` for some prefix |
| `Respond.Select` | jira.py:68-82 | The ids looked up are a prefix of the visiting order; all but the last were skipped (not 200/404). The visit ends with a reply exactly when some id has status 200 or 404, and that id is the last looked up. For a 200 the reply is exactly `URL/browse/ID - summary`, for a 404 exactly `Issue not found`. With no reply, every id was looked up |
| `Respond.ResponseText` | jira.py:58-82 | An unconfigured or empty configuration gives no reply and no lookup. Each distinct id is looked up at most once and only ids that were matched are looked up. With a lookup that never raises, the handler raises exactly when the project list cannot be read, or when there is an id to look up and the URL cannot be used |
| `Respond.LookupIffMention` | jira.py:59-71 | With a readable project list: no mention of any prefix gives no reply and no lookup; a mention causes a lookup, or raises when the URL is unusable |
| `Respond.ReplyIffDecisive` | jira.py:68-82 | A reply is produced exactly when some distinct matched id has status 200 or 404, whatever the visiting order |
| `Respond.ReplyOrderIndependent` | jira.py:67-68 | Two iteration orders of the set fail alike and reply-or-stay-silent alike; when at most one distinct id has status 200 or 404 they give the same reply |
| `Respond.AllNotFound` | jira.py:76-79 | When the only ids with status 200 or 404 are 404s and there is one, the reply is `Issue not found` in every order |
| `Respond.SingleReference` | jira.py:68-79 | A message whose matches are all one id is visited as that id alone, and the reply is its summary line (200), the not-found notice (404) or nothing |
| `Respond.SkipDeniedThenSuccess` | jira.py:72-77 | A 401 on the first id is skipped and a 200 on the second gives the second issue's summary line, after exactly two lookups |
| `Dispatch.Address` | jira.py:87-93 | A send happens exactly when the reply is present, non-empty, and the message is direct or group. It carries the reply text, goes to the sender for a direct message and to the sender's room otherwise |
| `Dispatch.CallbackMessage` | jira.py:84-93 | The callback raises exactly when the reply computation raises, with the same error. Otherwise it addresses the computed reply to the sender or the room. An unconfigured plugin never sends |
| `Dispatch.CallbackSendsIffDecisive` | jira.py:84-93 | A direct or group message is answered exactly when one of its distinct ids has status 200 or 404, with the chosen reply; the empty-text guard never suppresses a chosen reply |
| `Examples.NoWordBoundary` | jira.py:63-65 | `XFOO-12` yields `FOO-12`: there is no word boundary before the prefix and the digit run is taken whole |
| `Examples.CaseVariantsKept` | jira.py:65 | `FOO-1 foo-1` yields both `FOO-1` and `foo-1`, each with the body's casing |
| `Examples.RepeatReported` | jira.py:65 | `FOO-1 FOO-1` yields `FOO-1` twice, once per occurrence |
| `Examples.StringProjectsSplit` | jira.py:62 | `PROJECTS = "AB"` is read as the two prefixes `A` and `B` |
| `Examples.RepeatLookedUpOnce` | jira.py:65-71 | A message naming `FOO-1` twice causes exactly one lookup, of `FOO-1`, in every iteration order |

## Left out

- `get_cookie` and `get_issue` (Kerberos handshake, HTTP requests, cookie jar, `verify=False`): network I/O behind foreign libraries. They are the `lookup` oracle. Their one local fact, that a failed handshake degrades to an empty cookie, depends on the network.
- Decoding the JSON body (`fields.summary`): the summary is a string the oracle supplies. A malformed body, and the `.json()` call in the unknown-status log line, can raise in the source; that is not modelled.
- Respond.ResponseText: the lookup oracle is total. In the source, a lookup that raises (a transport error from `requests.get` at jira.py:52-54, which is outside the `try`) aborts the handler; the model has no such outcome.
- Logging: it has no observable effect on the reply.
- The errbot host: plugin base class, `send`, `super().configure`, version bounds. `send` becomes the returned `Send` value.
- Regular-expression syntax in prefixes: a prefix is literal text in the model; the source would interpret metacharacters.
- Unicode case folding: Python's `re.IGNORECASE` also equates some non-ASCII letters (for example the Kelvin sign and `k`); the model folds ASCII letters only.
- Configuration values other than strings, string lists and booleans, and project lists holding non-strings: values are limited to those three kinds.
- `Dispatch.Address`: the sender of a group message always has a room; a group message whose sender lacks one would raise in the source.
- The iteration order of `set(matches)`: a parameter, not Python's hash order.
