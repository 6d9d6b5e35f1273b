# MiniRouter, modelled in Dafny

This project models the path router of `functions/src/MiniRouter.ts`: the
template compiler `parse`, the route table that `add` and its nine verb
shorthands fill, and the dispatch step `handle`, which picks a handler and
the path parameters for a request.

- `route_pattern.dfy` (module `RoutePattern`): JavaScript's `split('/')`
  with its round trip, the compiled pattern as a sequence of segments
  (`Lit`, `Param`, `Wild`), the specification `Compile`/`Keys`, and `Parse`,
  the source's `while (tmp)` loop over a shifting array, proved against it.
- `regex_match.dfy` (module `RegexMatch`): what the anchored expression
  `^…\/?$` with the `i` flag matches (`Accepts`), and `Run`, which follows
  the JavaScript backtracking order (greedy `(.*)`, lazy `([^/]+?)`, greedy
  `\/?`) and so returns the capture groups `exec` reports. `Run` is proved
  sound and complete with respect to `Accepts`.
- `mini_router.dfy` (module `MiniRouter`): the class `Router` with its
  table of entries, `Add`, `Get` … `Trace`, and `Handle` with the source's
  two loops, proved against the specification `Select`.
- `examples.dfy` (module `RouterExamples`): the template
  `/api/users/:id/export/:format/test` and the url
  `/api/users/42/export/csv/test`, and the `GET /unimplemented`
  registration of `functions/src/index.ts:10` without a handler.

The source keys both of its maps by the `RegExp` object that `parse`
builds afresh on every call. JavaScript maps compare object keys by
identity, so every `add` makes a new entry, even for a template already
registered. Each entry's method map holds exactly one pair. The branch of
`add` under "not first handler" (lines 69-72) can never run. The table is
therefore a sequence of entries in registration order. One consequence is
proved as `SecondMethodOnSameTemplateShadowed`: after `get('/a', h1)` and
`post('/a', h2)`, a POST to `/a` matches the GET entry first and reaches the
default handler.

Handlers are named by `Handler` values (`Registered(id)` or the sentinel
`DefaultHandler`); they are never run. `undefined`, which `arr.shift()`
yields on an empty array, is modelled as `""`: both are falsy for
`while (tmp)`.

The optional `\/?` before `$` makes one trailing `/` on a url irrelevant
for every template whose compiled pattern does not end in a `*…` segment
(templates such as `/a/*/`, `/a/*x` and `/a/*//b` do end in one, as
they all compile like `/a/*`): a url not ending in `/` and the same url with `/` appended match
the same templates (`TemplateIgnoresTrailingSlash`).
A final `(.*)` breaks this symmetry: it may capture nothing after its `/`,
so the template `/a/*` matches `/a/` with the capture `""` but does not
match `/a` (`WildEndNeedsSlash`).

## Model

| member | source | states |
|---|---|---|
| RoutePattern.Split | functions/src/MiniRouter.ts:22 | `split('/')` yields at least one piece, no piece holds `/`, and joining the pieces with `/` gives the template back |
| RoutePattern.SplitJoin | functions/src/MiniRouter.ts:22 | splitting the join of slash-free pieces gives the same pieces (the other half of the round trip) |
| RoutePattern.SplitAtSlash | functions/src/MiniRouter.ts:22 | splitting `a + "/" + b` is splitting `a` followed by splitting `b` |
| RoutePattern.Parse | functions/src/MiniRouter.ts:18-45 | the loop compiles exactly the pieces after one leading empty piece up to the first empty one, and its keys are those of the compiled pattern |
| RoutePattern.CompileKeepsLeadingPieces | functions/src/MiniRouter.ts:27-39 | compilation keeps the non-empty pieces before the first empty one, in order, each classified by its first character (`*` wildcard, `:` named capture, literal otherwise) |
| RoutePattern.KeysInOrder | functions/src/MiniRouter.ts:27-39 | one key per capture segment, in template order: `wild` for a wildcard, the text after `:` for a named capture, none for a literal |
| RoutePattern.KeysAppend | functions/src/MiniRouter.ts:30-33 | the keys of two patterns in sequence are the keys of the first followed by those of the second |
| RoutePattern.CompileStopsAtEmpty | functions/src/MiniRouter.ts:27 | an empty piece ends compilation; nothing after it is looked at |
| RoutePattern.CompileIgnoresTrailingSlash | functions/src/MiniRouter.ts:22-27 | a template with a trailing `/` compiles like the template without it |
| RoutePattern.CompileStopsAtDoubleSlash | functions/src/MiniRouter.ts:22-27 | `t + "//" + tail` compiles like `t`: a doubled `/` truncates the template |
| RoutePattern.CompileLiteralsPlain | functions/src/MiniRouter.ts:22-39 | every literal segment of a compiled template is non-empty and holds no `/` |
| RoutePattern.RootTemplates | functions/src/MiniRouter.ts:22-27 | the templates `""` and `/` compile to the empty pattern |
| RegexMatch.Run | functions/src/MiniRouter.ts:43 | a result of the matcher is a full match of the path with one capture per key |
| RegexMatch.Lazy | functions/src/MiniRouter.ts:34 | `([^/]+?)` returns the shortest slash-free capture after which the rest matches, and fails only when no such capture exists |
| RegexMatch.Greedy | functions/src/MiniRouter.ts:31 | `(.*)` returns the longest capture after which the rest matches, and fails only when no capture works |
| RegexMatch.RunComplete | functions/src/MiniRouter.ts:43 | every path the anchored expression accepts is matched by the backtracking matcher |
| RegexMatch.RunDecidesMatch | functions/src/MiniRouter.ts:85-87 | the matcher succeeds exactly when some capture list makes the path a full match |
| RegexMatch.CaptureCount | functions/src/MiniRouter.ts:30-34 | every match has exactly as many capture groups as the pattern has keys |
| RegexMatch.CapturesUniqueWithoutWild | functions/src/MiniRouter.ts:34 | without a wildcard a path has at most one capture list |
| RegexMatch.RunForced | functions/src/MiniRouter.ts:34 | without a wildcard, any full match's captures are the ones the matcher returns |
| RegexMatch.AcceptsLit | functions/src/MiniRouter.ts:36 | a literal segment matches `/` followed by its own text |
| RegexMatch.AcceptsParam | functions/src/MiniRouter.ts:34 | a named capture matches `/` followed by any non-empty run without `/` |
| RegexMatch.AcceptsWild | functions/src/MiniRouter.ts:31 | a wildcard matches `/` followed by any run, empty or holding `/` |
| RegexMatch.WildTakesLongest | functions/src/MiniRouter.ts:31 | a leading wildcard captures the longest run any match allows |
| RegexMatch.ParamTakesShortest | functions/src/MiniRouter.ts:34 | a leading named capture captures the shortest run any match allows |
| RegexMatch.SoleWildCapturesRest | functions/src/MiniRouter.ts:29-31 | the pattern `/*` matches every path starting with `/` and captures all of the rest, a trailing `/` included |
| RegexMatch.RunCaptureTail | functions/src/MiniRouter.ts:30-43 | after a capturing first segment, the remaining captures are exactly the matcher's captures for the rest of the template on the rest of the path, so the lazy and greedy priorities hold at every capturing segment, not only the first |
| RegexMatch.LazyTail | functions/src/MiniRouter.ts:34 | whatever capture `([^/]+?)` settles on, the captures after it are the matcher's result for the rest of the path |
| RegexMatch.GreedyTail | functions/src/MiniRouter.ts:31 | whatever capture `(.*)` settles on, the captures after it are the matcher's result for the rest of the path |
| RegexMatch.ParamThenWild | functions/src/MiniRouter.ts:30-34 | for the template `/:user/*` on `/a/b/` the captures are `a` and `b/`: the wildcard after a named capture is still greedy |
| RegexMatch.RootTemplateMatchesRootOnly | functions/src/MiniRouter.ts:22-43 | the templates `""` and `/` match the paths `""` and `/` and no other |
| RegexMatch.ParamCaptureShape | functions/src/MiniRouter.ts:33-34 | the capture of every named segment is non-empty and free of `/`, at the position of its key |
| RegexMatch.AcceptsTrailingSlash | functions/src/MiniRouter.ts:43 | a match of a path not ending in `/` is also a match of that path with `/` appended, with the same captures |
| RegexMatch.TrailingSlashTolerated | functions/src/MiniRouter.ts:43 | if a path not ending in `/` matches, so does the path with one `/` appended |
| RegexMatch.AcceptsWithoutTrailingSlash | functions/src/MiniRouter.ts:43 | for a pattern with plain literals that does not end in a wildcard, a match of a path with `/` appended is a match of the path, with the same captures |
| RegexMatch.TrailingSlashOptional | functions/src/MiniRouter.ts:43 | for such a pattern, if the path with `/` appended matches then the path matches |
| RegexMatch.TemplateIgnoresTrailingSlash | functions/src/MiniRouter.ts:18-45 | a path not ending in `/` and the same path with `/` appended match exactly the same templates, for every template whose compiled pattern does not end in a `*…` segment (templates such as `/a/*/`, `/a/*x` and `/a/*//b` do end in one) |
| RegexMatch.WildEndNeedsSlash | functions/src/MiniRouter.ts:29-31 | the template `/a/*` compiles to a final wildcard and matches `/a/` (capturing `""`) but not `/a` |
| RegexMatch.AcceptsIgnoresCase | functions/src/MiniRouter.ts:43 | a path that differs only in the case of ASCII letters still has a full match, with as many captures |
| RegexMatch.MatchIgnoresCase | functions/src/MiniRouter.ts:43 | whether a path matches does not depend on the case of its ASCII letters |
| MiniRouter.FirstMatch | functions/src/MiniRouter.ts:84-94 | the entry found is the first in registration order whose pattern matches, with that match's captures; none is found exactly when no entry matches |
| MiniRouter.Router.constructor | functions/src/MiniRouter.ts:51-53 | a new router has an empty table |
| MiniRouter.Router.Add | functions/src/MiniRouter.ts:55-73 | appends exactly one entry, holding the compiled pattern, its keys and the single pair method to handler (`defaultHandler` when none is given); earlier entries are unchanged |
| MiniRouter.Router.Get | functions/src/MiniRouter.ts:106-108 | `add` with GET |
| MiniRouter.Router.Post | functions/src/MiniRouter.ts:110-112 | `add` with POST |
| MiniRouter.Router.Put | functions/src/MiniRouter.ts:114-116 | `add` with PUT |
| MiniRouter.Router.Delete | functions/src/MiniRouter.ts:118-120 | `add` with DELETE |
| MiniRouter.Router.Patch | functions/src/MiniRouter.ts:122-124 | `add` with PATCH |
| MiniRouter.Router.Options | functions/src/MiniRouter.ts:126-128 | `add` with OPTIONS |
| MiniRouter.Router.Head | functions/src/MiniRouter.ts:130-132 | `add` with HEAD |
| MiniRouter.Router.Connect | functions/src/MiniRouter.ts:134-136 | `add` with CONNECT |
| MiniRouter.Router.Trace | functions/src/MiniRouter.ts:138-140 | `add` with TRACE |
| MiniRouter.Router.Handle | functions/src/MiniRouter.ts:75-101 | the handler and params chosen are those of the first matching entry, or the default handler and no params |
| MiniRouter.FirstMatchAt | functions/src/MiniRouter.ts:84-94 | the scan stops at entry i when i matches and no earlier entry does |
| MiniRouter.BindStep | functions/src/MiniRouter.ts:97-99 | one turn of the params loop binds the next key to the next capture |
| MiniRouter.FirstMatchingEntryDecides | functions/src/MiniRouter.ts:84-99 | the first matching entry decides: its handler for the method, or the default handler, and its keys bound to the captures |
| MiniRouter.NoMatchSelectsDefault | functions/src/MiniRouter.ts:80-83 | when no entry matches, the default handler is chosen with empty params |
| MiniRouter.MethodMismatchDoesNotFallThrough | functions/src/MiniRouter.ts:88 | when the first matching entry lacks the method, the default handler is chosen whatever later entries hold |
| MiniRouter.LaterEntriesNeverConsulted | functions/src/MiniRouter.ts:84-94 | entries registered after a matching one never change the selection |
| MiniRouter.AppendedEntryReachedLast | functions/src/MiniRouter.ts:84-94 | a new entry is reached only when no earlier entry matches, and then it decides |
| MiniRouter.SecondMethodOnSameTemplateShadowed | functions/src/MiniRouter.ts:55-94 | a template registered under two methods yields two entries, and the second method's requests reach the default handler |
| MiniRouter.BindDomain | functions/src/MiniRouter.ts:97-99 | the params are keyed by exactly the keys |
| MiniRouter.BindLastWins | functions/src/MiniRouter.ts:97-99 | key i is bound to capture group i + 1 unless a later key has the same name, in which case the later capture wins |
| RouterExamples.CompileUserExport | functions/src/MiniRouter.ts:18-45 | `/api/users/:id/export/:format/test` compiles to four literals around the named captures `id` and `format` |
| RouterExamples.RunUserExport | functions/src/MiniRouter.ts:43 | `/api/users/<id>/export/<format>/test` matches with the captures `[id, format]` for any slash-free non-empty values |
| RouterExamples.SoleEntrySelects | functions/src/MiniRouter.ts:84-99 | with one registration, a matching url selects its handler (or the default one) with its keys bound |
| RouterExamples.UserExportParams | functions/src/MiniRouter.ts:75-101 | a GET for `/api/users/<id>/export/<format>/test` selects the registered handler with params `{ id, format }` taken from the url |
| RouterExamples.UnimplementedRoute | functions/src/index.ts:10 | `GET /unimplemented` registered without a handler, on a new router, dispatches a GET of `/unimplemented` to the default handler with empty params (dispatch as in functions/src/MiniRouter.ts:75-101) |
| RouterExamples.UserExportExample | functions/src/MiniRouter.ts:75-101 | a GET for `/api/users/42/export/csv/test` gets params `{ id: "42", format: "csv" }` |

## Left out

- Router.Add: requires that no literal segment of the template contains a regular-expression metacharacter; the source pastes literals unescaped, so such a template either changes the expression's meaning (`.`, `+`, `?`, `$`, `^`, `|`) or makes `new RegExp` at line 43 throw (an unbalanced `(`, `)` or `[`, or a quantifier such as `a++`), in which case `add` itself throws; the model has no general RegExp engine and no exceptions. The nine shorthands carry the same requirement.
- Case folding beyond ASCII letters: the `i` flag also folds non-ASCII letters, which the model does not.
- `.` in `(.*)` does not match line terminators in JavaScript; the model lets a wildcard capture any character.
- A parameter named `__proto__` behaves specially on a plain JavaScript object; `params` is modelled as a map.
- Running the handler (`await handler(req, res)`, line 103) and asynchrony: `Handle` returns the chosen handler instead of calling it.
- `defaultHandler` lives in a module that is not part of this model; it is the sentinel `DefaultHandler`.
- The request and response objects: `Handle` takes `req.url` (which includes any query string) and `req.method` as plain strings, and returns the params instead of assigning `req.params`.
- `functions/src/index.ts`: the Firebase `https.onRequest` glue and its try/catch mapping of errors to 404 and 500 responses are transport code over foreign types.
- Handler chains and request-body decoding: the code has neither, so the model has neither.
