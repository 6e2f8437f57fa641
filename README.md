# Bitbucket webhook middleware, modelled in Dafny

The repository is an Express middleware for Bitbucket push webhooks. The
factory `BitbucketHook(name, branch, noIpCheck)` returns a handler. The handler
classifies each request by a short chain of checks, in this order:

1. If the body was not parsed into an object, it answers 500
   `"500 JSON Parser Error"` and passes an error to `next`.
2. If the client address is outside Bitbucket's range `104.192.143.0/24`, it
   calls `next('route')`. A literal `true` for `noIpCheck` skips this check.
3. If the event is not a git push to the configured repository, it calls
   `next('route')`.
4. It scans the pushed changes for the configured branch. On the first match
   it answers `"200 OK"` and calls `next()`. If nothing matches it answers
   `"200 Repository Match"` and stops.

The model has three modules:

- `BitbucketIp` (`bitbucket_ip.dfy`). The anchored address pattern, written
  as the predicate `Test`. Beside it is an independent decimal reading of
  the last octet (`Value`, `Decimal`). The lemmas prove that the pattern
  accepts exactly what that reading says.
- `Webhook` (`webhook.dfy`). The parsed body as a datatype and the guard
  chain as the pure function `Classify`. `Effects` maps each outcome to the
  response and `next` calls it produces. `Middleware` is the handler as a
  step-by-step method: the same early returns, and a loop over the changes
  that returns from inside. It is proved to produce exactly
  `Effects(Classify(...))`. Lemmas state each guard's behaviour and
  characterise the branch scan by indices.
- `Scenarios` (`scenarios.dfy`). The functional tests' payloads and expected
  outcomes, plus a few edge cases, as concrete lemmas.

How the JavaScript body maps to the datatypes:

- `NotObject` stands for every value that fails `instanceof Object`.
- An `Option` field is `None` when reading it gives a value the code cannot
  use. `repository` is `None` when null or undefined, and reading `.scm`
  through it then throws.
- `push` is `None` when falsy. `push.changes` is `None` when it is not
  iterable.
- A change's `new` is `None` when the change or its `new` is null or
  undefined.
- `scm`, `full_name` and `new.name` are `None` when absent or not a string.
  Strict equality with a string can then never hold.

An unguarded read that throws a `TypeError` becomes the separate outcome
`Fault`. The middleware then writes nothing and calls nothing.

Determinism and non-mutation of the body hold by construction: `Classify`
is a function, and the body is an immutable value.

### Edge cases of the code

- **Array bodies.** An array body passes `instanceof Object`. Its `push` is
  `Array.prototype.push`, which is truthy. Its `repository` is undefined, so
  reading `repository.scm` throws (`Scenarios.ArrayBodyThrows`).
- **Missing `repository`.** A null or undefined `repository` throws a
  `TypeError`, but only once `push` is truthy. With a falsy `push` the route
  is skipped first (`Webhook.MissingRepositoryThrows`).
- **Leading zeros.** The address pattern accepts two-digit octets with a
  leading zero (`"05"`) and rejects three-digit ones (`"005"`).
  `BitbucketIp.TestExact` gives the exact language.

## Model

| member | source | states |
|---|---|---|
| `BitbucketIp.Octet` | src/index.ts:12 | the pattern's octet group, alternative by alternative; it accepts only strings of 1-3 digits. `OctetExact` gives its exact language |
| `BitbucketIp.Test` | src/index.ts:12 | `BitBucketIP.test(ip)`: the whole string is the literal prefix `104.192.143.` followed by one octet, so an accepted address is 13-15 characters long. `TestSound`, `TestComplete` and `TestExact` characterise it |
| `BitbucketIp.OctetExact` | src/index.ts:12 | the octet group accepts exactly the strings of 1-3 digits whose value is at most 255, excluding three-digit strings with a leading zero |
| `BitbucketIp.TestSound` | src/index.ts:12 | an accepted address is `104.192.143.` followed by 1-3 ASCII digits whose value is at most 255 |
| `BitbucketIp.TestComplete` | src/index.ts:12 | for every n in 0..255, `104.192.143.` followed by the canonical decimal spelling of n is accepted |
| `BitbucketIp.TestExact` | src/index.ts:12 | the pattern's language: the canonical spellings of 0..255 after the prefix, plus `0` followed by one digit |
| `BitbucketIp.NoLeadingExtra` | src/index.ts:12 | the start anchor: adding any character in front of an accepted address makes it rejected |
| `BitbucketIp.NoTrailingExtra` | src/index.ts:12 | the end anchor: a trailing non-digit, or any character after a three-digit octet, makes the address rejected |
| `BitbucketIp.Decimal` | src/index.ts:12 | the canonical decimal spelling of n: 1 or more digits denoting n, never longer than one digit when it starts with `0`, and starting with `0` only for 0 (the reference the pattern is proved against) |
| `Webhook.AddressAllowed` | src/index.ts:44 | the address guard passes: the flag is a literal `true`, or the address is accepted, and then it starts with `104.192.143.` and is 13-15 characters long. `AddressGuard`, `BypassIgnoresAddress` and `OnlyTrueBypasses` characterise it |
| `Webhook.BranchMatches` | src/index.ts:54 | `change.new.name === branch`: only a change with a readable `new` can match, and a missing or non-string name never does |
| `Webhook.Classify` | src/index.ts:39-61 | the guard chain in its order: the JSON error exactly for non-object bodies, a route skip for a rejected address, and a 200 outcome only when every guard passed and `push.changes` is iterable. The guard lemmas below and `FullMatchCase`/`RepositoryMatchCase` characterise it |
| `Webhook.Effects` | src/index.ts:40-61 | the `res` and `next` calls for each outcome (lines 40-41, 45, 50, 56-57, 61): nothing only for a thrown TypeError, a status set only for the JSON error, and `next` called last exactly for the JSON error, a route skip and a full match. `AtMostOneResponseAndNext` and `Middleware` characterise it |
| `Webhook.Scan` | src/index.ts:53-59 | the branch scan ends in one of three ways: full match, fall-through (repository match only), or a thrown TypeError |
| `Webhook.ScanFullMatch` | src/index.ts:53-58 | the scan is a full match iff some change names the branch and every change before it has a readable `new` that does not name it |
| `Webhook.ScanFault` | src/index.ts:53-54 | the scan throws iff some change has no readable `new` and every change before it is readable and does not name the branch |
| `Webhook.ScanNoMatch` | src/index.ts:53-61 | the scan falls through iff every change is readable and none names the branch |
| `Webhook.ScanStopsAtFirstMatch` | src/index.ts:53-58 | once a change names the branch after only readable misses, the outcome is a full match whatever follows |
| `Webhook.Middleware` | src/index.ts:36-62 | the handler with its early returns and its loop over the changes: the response and `next` calls it makes are exactly `Effects(Classify(...))`, and it throws exactly when `Classify` gives `Fault` |
| `Webhook.SchemaGuardFirst` | src/index.ts:39-42 | a non-object body gives status 500, the single text `500 JSON Parser Error` and one `next` call with an error whose message contains `JSON`, for any address and configuration |
| `Webhook.AddressGuard` | src/index.ts:44-46 | for an object body with the flag not `true` and a rejected address, the only action is `next('route')` |
| `Webhook.BypassIgnoresAddress` | src/index.ts:44 | with the flag `true`, the outcome does not depend on the address |
| `Webhook.OnlyTrueBypasses` | src/index.ts:44 | a flag of `false` gives the same outcomes as an omitted flag |
| `Webhook.EventShapeGuard` | src/index.ts:48-51 | past the address guard, a falsy `push`, an `scm` other than exactly `git` or a `full_name` other than exactly `name` gives only `next('route')` |
| `Webhook.MissingRepositoryThrows` | src/index.ts:48-49 | a truthy `push` with a null or undefined `repository` throws; a falsy `push` skips the route first |
| `Webhook.FullMatchCase` | src/index.ts:53-58 | past the guards, the outcome is full match iff a change names the branch before any unreadable change; its actions are `end("200 OK")` followed by `next()` with no argument |
| `Webhook.RepositoryMatchCase` | src/index.ts:60-61 | past the guards, the outcome is repository match only iff every change is readable and none names the branch; it writes `200 Repository Match` and never calls `next` |
| `Webhook.WellFormedPush` | src/index.ts:53-61 | past the guards, with every change readable, the outcome is full match if some change names the branch and repository match only otherwise |
| `Webhook.AtMostOneResponseAndNext` | src/index.ts:36-62 | every outcome writes at most one response text and calls `next` at most once; a response always comes before `next`; only a thrown TypeError does neither |
| `Scenarios.NoJsonParser` | test/index.spec.ts:84-89 | without a JSON parser, the outcome is the JSON parser error and the error message contains `JSON` |
| `Scenarios.IpMismatch` | test/index.spec.ts:91-97 | the test payload from `127.0.0.1`, with the check on, skips the route |
| `Scenarios.IpBypass` | test/index.spec.ts:99-105 | the test payload with the bypass is a full match answered with `200 OK` |
| `Scenarios.IpMatch` | test/index.spec.ts:107-114 | `104.192.143.1` is accepted, and the test payload from it is a full match |
| `Scenarios.EventMismatch` | test/index.spec.ts:116-122 | a repository event without `push` skips the route |
| `Scenarios.ScmMismatch` | test/index.spec.ts:124-130 | an `hg` repository skips the route |
| `Scenarios.RepositoryNameMismatch` | test/index.spec.ts:132-138 | a different configured repository name skips the route |
| `Scenarios.BranchNotFound` | test/index.spec.ts:140-146 | configured branch `dev` against a push of `master` is answered with `200 Repository Match` |
| `Scenarios.PublicAddress` | src/index.ts:44-46 | `8.8.8.8`, with the flag `false`, skips the route |
| `Scenarios.ExactComparison` | src/index.ts:48-54 | repository and branch names are compared without case folding or trimming |
| `Scenarios.ArrayBodyThrows` | src/index.ts:39-49 | an array body passes the schema guard and throws when `repository.scm` is read |
| `Scenarios.FaultBeforeMatch` | src/index.ts:53-54 | a change without `new` before the matching one throws |
| `Scenarios.MatchBeforeFault` | src/index.ts:53-57 | a change without `new` after the matching one is never read |
| `Scenarios.LeadingZeroOctets` | src/index.ts:12 | `05` is accepted, `005` and `256` are rejected, and so is an address followed by a newline |

## Left out

- Express itself is not modelled: the `req`, `res` and `next` objects, how
  `res.status().end()` sends bytes, and how `req.ip` comes from
  `X-Forwarded-For` under the trust-proxy setting. The address is an input
  string. The response and `next` calls are an action trace of `Status`,
  `End` and `Next`.
- A `TypeError` thrown by the handler is the outcome `Fault` with an empty
  trace. What Express does with it afterwards is not modelled.
- JavaScript values are not modelled in general. `instanceof Object`,
  truthiness and property reads on primitives are folded into the `Body`
  datatypes as described above. A non-boolean truthy `noIpCheck` is not
  representable; like `false`, it would not bypass the check, since the
  code compares with `!==`.
- A string used as `push.changes` is iterated character by character. The
  model covers it only through its encoding: a sequence of changes without
  `new`, or the empty sequence for `""`.
- Names are modelled as Dafny strings, which are sequences of Unicode
  scalar values. JavaScript strings are sequences of UTF-16 code units, so
  a `full_name`, `new.name`, `name` or `branch` holding a lone surrogate
  (such as `"\ud800"`) cannot be represented. Equality on every other
  string is exact, as `===` is.
- Only the single address pattern is modelled, not a general regular
  expression engine.
- `cjs/index.js` and `cjs/index.d.ts` are not part of this model. They copy
  the module's exports onto its default export for CommonJS loaders and
  have no domain behaviour.
- The test harness is not modelled: the HTTP server, the spawned `sleep`
  process, and the check that the factory returns a function. Its payloads
  and expected outcomes are the `Scenarios` lemmas. The test at
  test/index.spec.ts:158-166 expects the same outcome as the bypass test.
- The test at test/index.spec.ts:91-97 does not fix the loopback address it
  sends from. `Scenarios.IpMismatch` uses `127.0.0.1`, and
  `Webhook.AddressGuard` covers every rejected address.
