# michi routes and router, modelled in Dafny

michi maps URI templates such as `/users/:id.:format?` to controller actions. Its core has two parts.

A **route** does the following:
- When created, it scans its template for placeholders with the grammar `(\/)?(\.)?([:\*])(\w+)(\?)?`. Each occurrence gets an identifier record, which carries the segment class for `:` and the glob class for `*`.
- `where` constrains records.
- `to` and `as` set the terminal and the name.
- On first use it compiles the template into an anchored regular expression and memoises it.
- `parse` turns a URI into parameters, after a method filter in which HEAD counts as GET.
- `stringify` fills a template from parameters, one leftmost placeholder per pass, and returns the URI with the unconsumed parameters.

A **router** keeps its routes in registration order and its named routes by name. It offers:
- `match` and the per-method helpers;
- first-match from an offset (`next`, `first`);
- collect-all (`all`);
- generation by name (`url`).

The project models both copies of this code. `lib/route.js` and `lib/router.js` form module `LibRouting`. The bundle `dist/michi.js` forms module `DistRouting`: its `parse` reports controller, action and method; it has `options` and `pattern`; and its `where` strips expression literals differently and keeps the conditions.

The modules:
- `Runtime`: values of the JavaScript runtime. It holds `Option` (`false`/`undefined`), thrown errors (`Outcome`), and the host services the code calls: the regular-expression engine on custom patterns, `decodeURIComponent` and `qs.stringify` (`Host`).
- `Strings`: `split`/`join` on one character.
- `Placeholders`: the placeholder grammar at one offset (`MatchAt`), the leftmost search (`FindFrom`, `FindFirst`), and the global scan of a template into literal and placeholder tokens (`Tokenize`, `Holes`).
- `Identifiers`: identifier records, the records `match` pushes, and `identsByName`.
- `Conditions`: the pattern of a `where` condition in either build, and the condition loop as a function.
- `Compiler`: `regex()` as a program of literal characters and groups, and its exact source text.
- `Matcher`: a backtracking matcher for compiled programs, proved sound and complete against a declarative reading, and the parameters `parse` reads from the captures.
- `Generator`: the `stringify` loop on text (`FillText`). On templates whose literals hold no sigil, whose placeholders have the default classes and whose substitutions cannot lend a separator to the next placeholder, it is proved to agree with a token-by-token substitution. When, in addition, every name is written alike wherever it occurs, the URI it generates is proved to match the route's own expression. Outside these hypotheses it can generate a URI the route rejects (see "## Findings").
- `Routing`: what both builds share. It holds the method list and filter, the invariant tying records to the template, and value-level specifications of `next` and `all`.
- `LibRouting`, `DistRouting`: the `Route` and `Router` classes. Their fields are the objects' fields, and the builder methods, the memo, `parse`, `stringify`, `next`, `all` and `url` are loops or updates proved against the functions above.

The host functions are parameters of the model (`Host`), as is I/O. Every operation takes the host it needs.

## Model

| member | source | states |
|---|---|---|
| Routing.Accepted | lib/route.js:27-29 | an absent or empty method is accepted, HEAD is accepted, and a truthy method outside the six names is refused |
| LibRouting.Route.Match | lib/route.js:24-51 | a refused method throws and leaves uri, method and records unchanged; otherwise uri and method are set and the records are exactly those of the template's occurrences, indexed by name |
| LibRouting.Route.Scan | lib/route.js:34-48 | the global scan loop leaves one record per placeholder occurrence, in template order, and the index of the last record per name |
| DistRouting.Route.Match | dist/michi.js:27-54 | as in lib |
| DistRouting.Route.Scan | dist/michi.js:37-51 | as in lib |
| LibRouting.Route.constructor | lib/route.js:17-18 | before `match` runs, the route holds its router and no template, method, records, terminal, name or memo, and keeps the route invariant |
| DistRouting.Route.constructor | dist/michi.js:20-21 | as in lib, and no conditions or options |
| Routing.ScannedIndexed | lib/route.js:37-48 | the records match made belong to the template, one per occurrence with its name, and record i has the segment class for `:` and the glob class for `*` |
| Identifiers.IdentsOfExact | lib/route.js:38-46 | record i has occurrence i's name and class, and its validation expression is the anchored form of its pattern |
| Identifiers.ByNameLast | lib/route.js:47 | `identsByName[name]` is the record of the last occurrence of that name, and every name has an entry |
| Placeholders.MatchAtExact | lib/route.js:7 | the placeholder the scan finds at an offset is exactly the one whose text, with a legal name, ends the greedy match there |
| Placeholders.MatchAtComplete | lib/route.js:7 | wherever a placeholder's text with a word name appears, the grammar matches there |
| Placeholders.FindFromLeast | lib/route.js:37 | the occurrence found from an offset is the leftmost one; when none is found, none exists |
| Placeholders.HolesFrom | lib/route.js:37 | the occurrences from an offset are the next one found followed by those after its end: the global search never overlaps or skips |
| Placeholders.TokenizeText | lib/route.js:113-117 | the tokens of a scan spell the template back: the scan loses and invents no text |
| Placeholders.HolesNamed | lib/route.js:7 | every occurrence has a non-empty word name |
| Conditions.PatternOf | lib/route.js:60-68 | a string condition is the pattern verbatim, an array its items joined with a vertical bar, and `null`/`undefined` throws |
| Conditions.LibStripMatch | lib/route.js:67 | reading `/^\^?(.*)\$?$/` declaratively (an optional `^`, a one-line group, an optional `$`, the greedy choices first), a one-line text is replaced by the group of its first split and any other text is left as it is |
| Conditions.DistStripLiteral | dist/michi.js:72-74 | on the text `/body/flags` of a literal with no flag or a single flag among `g`, `i` and `s`, the bundle keeps the body without its leading `^` and trailing `$` |
| Conditions.DistStripFlagged | dist/michi.js:72-74 | with any other flags (two or more, as in `/a/gi`, or one outside `g`, `i` and `s`, as in `/^a$/m`), only the opening `/` and `^` go: the closing `/`, the flags and any trailing `$` stay in the pattern |
| Conditions.ConditionStepIndex | lib/route.js:56-71 | one condition rewrites only the index entry of its name, with the constrained record, and keeps every name |
| Conditions.ConditionedFails | lib/route.js:54-72 | the loop stops with a TypeError exactly when some condition is null or undefined or names no identifier, every custom pattern being taken to compile (see "## Left out") |
| Conditions.ConditionedKeeps | lib/route.js:54-72 | identifiers the conditions do not name keep their records |
| Conditions.ConditionedSets | lib/route.js:70-71 | after a run without error, a name's entry has the pattern of the last condition naming it, and its validation expression is `'^' + pattern + '$'` |
| Conditions.ConditionedShape | lib/route.js:70-71 | conditions keep the number of records and their names, and keep every record's expression anchored on its pattern |
| Routing.ConditionedIndexed | lib/route.js:53-76 | `where` keeps the records tied to the template, whatever it is given and wherever it stops |
| LibRouting.Route.Where | lib/route.js:53-76 | the loop leaves exactly the records of the condition function, returns the error that stopped it, and keeps the route invariant, every custom pattern being taken to compile |
| DistRouting.Route.Where | dist/michi.js:56-83 | as in lib, with the bundle's literal stripping, and the conditions are kept in `conds` |
| Strings.SplitTwo | lib/route.js:83-85 | a terminal splits into two parts exactly when it holds one dot, and the parts are the text around it |
| Strings.JoinSplit | lib/route.js:83 | splitting loses no text |
| Strings.SplitJoin | lib/route.js:83 | joining dot-free parts and splitting gives them back |
| LibRouting.Route.To | lib/route.js:78-94 | a non-string terminal or one without exactly one dot throws and changes nothing; otherwise terminal, controller and action are set, and controller + "." + action is the terminal |
| DistRouting.Route.To | dist/michi.js:85-101 | as in lib |
| LibRouting.Route.As | lib/route.js:96-99 | the route takes the name and is registered under it in its router, and is returned |
| DistRouting.Route.As | dist/michi.js:108-111 | as in lib |
| DistRouting.Route.Options | dist/michi.js:103-106 | the given options are stored, `{}` when absent, and the route is returned |
| Compiler.ArgsByNameLast | lib/route.js:113-117 | `argsByName` has an entry for every name, the last occurrence of that name |
| Compiler.CompileGroups | lib/route.js:119-138 | the program has one group per occurrence, in order, with the shape of the name's last occurrence and the pattern of its index entry |
| Compiler.BodyCompile | lib/route.js:119-138 | the expression's body is the escaped literals and the group text of every occurrence, token by token |
| Routing.CompiledGroups | lib/route.js:119-138 | for a route satisfying its invariant, group i carries the index pattern of record i's name, so capture i + 1 belongs to record i |
| LibRouting.Route.Regex | lib/route.js:101-141 | the first call compiles the template with the current records and stores it; later calls return the stored program even after `where` |
| DistRouting.Route.Regex | dist/michi.js:113-153 | as in lib |
| DistRouting.Route.Pattern | dist/michi.js:155-157 | `pattern()` returns what `regex()` returns, memoised alike |
| Matcher.ExecSound | lib/route.js:144 | what the matcher finds is a choice of values with which the program spells the URI |
| Matcher.ExecComplete | lib/route.js:144 | whenever some choice of values spells the URI, the matcher finds a match |
| Matcher.Matches | lib/route.js:143-145 | `test` holds exactly when the URI is spelled by the program for some choice of values |
| LibRouting.Route.Test | lib/route.js:143-145 | `test` is the matcher on the program `regex()` returns, and afterwards the memo holds that program, so a later `where` does not change it |
| DistRouting.Route.Test | dist/michi.js:159-161 | as in lib |
| Routing.Admits | lib/route.js:148-154 | with either method absent everything passes; HEAD passes a GET-bound or unbound route only; otherwise the two methods must be equal |
| Matcher.ParamsExact | lib/route.js:163-173 | a name is a parameter exactly when some record of it has a truthy decoded capture, and its value is the decoded capture of the last such record |
| Routing.ReadParams | lib/route.js:163-173 | the `forEach` loop over the records builds exactly those parameters |
| LibRouting.Route.Parse | lib/route.js:147-176 | the method filter, then the match, then the parameters: the result is the route's parse function; a call the filter refuses leaves the memo as it was, and any other leaves the program `regex()` returns in the memo |
| DistRouting.Reported | dist/michi.js:164-179 | the reported method is HEAD for HEAD, the route's method when the caller gives none, and the caller's otherwise |
| DistRouting.Route.Parse | dist/michi.js:163-206 | as in lib, and a success carries controller, action, the reported method and the parameters |
| Generator.FillScan | lib/route.js:187-207 | on templates whose literals hold no sigil, whose placeholders have the default classes and whose substitutions cannot lend a separator, the loop on text is the token-by-token substitution |
| Generator.FillRest | lib/route.js:194-213 | in the token-by-token substitution, the parameters returned beside the URI are exactly the caller's parameters whose names no placeholder has |
| Generator.FillTextRest | lib/route.js:194-213 | the same for the `stringify` loop itself, on the templates of FillScan |
| Generator.FillFails | lib/route.js:190-199 | in the token-by-token substitution with distinct indexed names, generation never raises and fails exactly when a required placeholder has no parameter or a parameter fails validation |
| Generator.FillTextFails | lib/route.js:190-207 | the same for the `stringify` loop itself, on the templates of FillScan with distinct names |
| Generator.FillMatches | lib/route.js:178-214 | round trip: under default classes, sigil-free literals, uniform occurrences and safe adjacency, a URI that `stringify` generates matches the expression `regex()` compiles for the route |
| Generator.SlashAbsorbed | lib/route.js:187-207 | on `x//:a?:b?` with no parameters, `stringify` returns `x`, which the expression `regex()` compiles for the route does not match |
| LibRouting.Route.Stringify | lib/route.js:178-214 | the do-while loop on a copy of the parameters returns exactly the text substitution of the template, including `false` and the TypeError of a name without a record |
| DistRouting.Route.Stringify | dist/michi.js:208-250 | as in lib |
| LibRouting.Router.constructor | lib/router.js:9-12 | a new router has no routes and no named routes |
| DistRouting.Router.constructor | dist/michi.js:254-257 | as in lib |
| LibRouting.Router.Match | lib/router.js:16-20 | a refused method throws and adds nothing; otherwise exactly one new route is appended, freshly matched, and earlier routes stay as they were |
| LibRouting.Router.Get | lib/router.js:22-30 | registers one new route bound to GET; Post, Put, Delete and Options do the same for their methods, and there is no HEAD helper |
| DistRouting.Router.Match | dist/michi.js:261-265 | as in lib |
| DistRouting.Router.Get | dist/michi.js:267-275 | as in lib |
| LibRouting.ParseAllAt | lib/router.js:37-39 | the i-th per-route result is route i's parse |
| LibRouting.ParseAt | lib/router.js:38-39 | parsing route i returns its parse, leaves route i's memo as its `parse` leaves it (unchanged when the method filter refuses, the program `regex()` returns otherwise), and changes no route's other fields nor how any route parses |
| Routing.FirstFoundFirst | lib/router.js:37-47 | the search from i finds nothing exactly when every route from i fails, and otherwise finds the first route j ≥ i that parses and resumes at j + 1 |
| LibRouting.NextFrom | lib/router.js:37-47 | the early-return loop returns the first hit from the offset with `next` = j + 1 (replacing a parameter of that name), and keeps every route |
| LibRouting.Router.Next | lib/router.js:32-48 | returns the first hit from the offset over the routes as they were, and leaves every route's fields but the memo, and its parse, unchanged |
| LibRouting.Router.First | lib/router.js:50-52 | `first` is `next` from offset 0 |
| Routing.CollectedLength | lib/router.js:54-65 | what `all` collects from n routes has at most n results |
| Routing.CollectedMembers | lib/router.js:57-62 | a value is collected exactly when some route parses to it |
| Routing.CollectedEmpty | lib/router.js:57-62 | nothing is collected exactly when no route parses |
| Routing.CollectedHead | lib/router.js:57-62 | when route j is the first that parses, its result heads the collection |
| Routing.FirstAll | lib/router.js:50-65 | `first` finds nothing exactly when `all` is empty, and otherwise finds the head of `all` |
| LibRouting.AllOf | lib/router.js:55-64 | the accumulating loop collects every result in registration order and keeps every route |
| LibRouting.CollectAt | lib/router.js:57-62 | one pass of the `forEach`: the collection of the first i results becomes that of the first i + 1, and every route keeps its fields but the memo and its parse |
| LibRouting.Router.All | lib/router.js:54-65 | returns the collection of every route's parse, in order, over the routes as they were |
| DistRouting.NextFrom | dist/michi.js:282-292 | as in lib, with `next` set on the result object beside the controller, action, method and params |
| DistRouting.ParseAllAt | dist/michi.js:283-284 | as in lib |
| DistRouting.ParseAt | dist/michi.js:283-284 | as in lib |
| DistRouting.Router.Next | dist/michi.js:277-293 | as in lib |
| DistRouting.Router.First | dist/michi.js:295-297 | as in lib |
| DistRouting.AllOf | dist/michi.js:300-309 | as in lib |
| DistRouting.CollectAt | dist/michi.js:302-307 | as in lib |
| DistRouting.Router.All | dist/michi.js:299-310 | as in lib |
| LibRouting.Router.Url | lib/router.js:67-84 | an unknown name throws; a failed `stringify` gives false; otherwise the path, with `'?' + query` only when query is not ignored and the encoded rest is not empty |
| DistRouting.Router.Url | dist/michi.js:312-329 | as in lib |

## Left out

- The JavaScript regular-expression engine. Custom patterns given to `where` are matched through the host's `search`, both in the route expression and in validation, so metacharacters in template literals other than `/` and `.`, and capture groups inside custom patterns, are not modelled. Only the two default classes are matched exactly. On a custom pattern the matcher tries a group's values longest first, while the engine tries the alternatives in the pattern's own order: on `/:a:b?` with `where({a: ['x', 'xy']})`, the source captures `{a: 'x', b: 'y'}` from `/xy`, where the model captures `{a: 'xy'}`.
- Conditions.ConditionedFails, LibRouting.Route.Where and DistRouting.Route.Where: every custom pattern is taken to compile. In the source, a pattern that is no valid expression, such as `where({id: '['})` or the array `['a', '(']`, is first stored in the record's `pattern` (lib/route.js:70, dist/michi.js:77). Then `new RegExp('^' + pattern + '$')` raises a SyntaxError (lib/route.js:71, dist/michi.js:78), so the record keeps its old `regex` beside the new pattern. Every later `regex()` raises the same error (lib/route.js:140, dist/michi.js:152), and so do that route's `test` and `parse` and, through them, the router's `next`, `first` and `all`.
- Generator.FillMatches: the round trip is proved only under four hypotheses, and each is needed:
  - Default classes (`Typed`). Array conditions are excluded because their validation expression `'^a|b$'` anchors only its first and last alternatives.
  - Sigil-free literals (`Plain`). On `/::a/:b?` with `{a: "b", b: "c"}`, the value `b` glues onto the literal `:` and is read as a new placeholder, so `/c` is generated; the expression requires the literal `/:`.
  - Uniform occurrences (`Uniform`). Every group takes the shape of the last occurrence of its name, so on `/:a/x.:a?` with `{a: "v"}`, `/v/x` is generated and rejected.
  - Safe adjacency (`SafeAdjacent`). A dropped optional placeholder can hand its literal `/` to the next one, as Generator.SlashAbsorbed shows for `x//:a?:b?`. The hypothesis also rules out some templates on which generation is well behaved, such as `/:c?.:f?`.
- Generator.FillRest and Generator.FillFails are about the token-by-token substitution. They reach `stringify` through FillScan only on its templates, as FillTextRest and FillTextFails state. Elsewhere a value is re-scanned as template text: on `/:a`, with `a` constrained to `.*` and `{a: ":zz", zz: "q"}`, the second pass reads `:zz` as a placeholder that has no record and raises a TypeError.
- LibRouting.Router.Next and DistRouting.Router.Next: the offset is a natural number. The source takes any value: `-1` raises a TypeError at `this.routes[-1].parse`, and the string `"1"` makes `next` the string `"11"`.
- The `$name$` marker detour of `regex()` is modelled as a direct token-by-token compilation. Hence any literal `$word` in the template that meets a marker is not modelled. The source reads such text as a marker too: on `/$y:a`, `regex()` builds `/$y$a$`, the marker search takes `$y$` first, and `self.identsByName.y.pattern` raises a TypeError (lib/route.js:121, dist/michi.js:133).
- `decodeURIComponent` and `qs.stringify` are host functions; the URIError of a malformed escape is not modelled.
- JavaScript object semantics: the model does not cover the prototype keys, the non-string values, the for-in order of the conditions (they are a sequence in the model), string length in UTF-16 units, or truthiness beyond `false`, `undefined` and `""`.
- `shien.merge` and the bundle's own-property copy in `stringify` are a copy of a map, since the model's maps have no inherited keys.
- `Route.constructor` models the object before `match` runs; `Router.Match` creates and matches a route as the source constructor does.
- A `routesByName` entry that is falsy is modelled only as absent.
- The RegExp-object branch of `where` is modelled on the text of the expression, as a function from that text. The `toString` of other objects is not modelled.
- The UMD wrapper, `exports` and the prototype-as-singleton construction have no behaviour to model. `Gruntfile.js` is build tooling.

Where the code and its prose description differ, the model follows the code:
- `stringify` deletes the parameter before validating it, so a failed value is consumed.
- A missing required placeholder gives `false`.
- An unknown name, or a `null` or `undefined` condition, in `where` raises a TypeError after the earlier conditions are applied.
- The CommonJS `next` puts `next` among the parameters, so a parameter of that name is replaced.
- `to` accepts `"a."` and `".b"`, which split into two parts one of which is empty; only the number of parts is checked.
- `stringify` can raise a TypeError, when a substituted value brings a placeholder whose name has no record (see Generator.FillRest above).

## Findings

| source | as written | input that shows it | evidently intended | confidence | as-written member | corrected member |
|---|---|---|---|---|---|---|
| lib/route.js:204-207 | each pass rescans the rewritten text, so dropping `/:a?` lets the literal `/` before it join the next placeholder, which is then dropped with it | template `x//:a?:b?`, no parameters: `stringify` returns `x`, and `^x\/(?:\/(...))?(?:(...))?$` rejects it | a generated URI matches its own route | not executed | Generator.SlashAbsorbed | Generator.FillMatches |
