# Rendezvous session registry, modelled in Dafny

The server in `app.ts` lets a *host* and a *guest* swap two opaque
connection descriptions. A host posts its description and gets a session
id. A guest reads the host's description by that id and posts its own. The
host then reads the guest's description once, and that read consumes the
session. All of this lives in two module-level dictionaries: `hosts` maps
an id to `{description, guestDescription}`, and `hostsRev` maps a
description back to an id.

The model has seven modules:

- `Wrappers` (`wrappers.dfy`): the `Option` and `Result` types.
- `Ids` (`ids.dfy`): generated ids. An id is two 4-byte random tokens in
  lower-case hex, joined by a space. `ParseId` reads an id back, and the
  lemmas prove that formatting is injective.
- `Sessions` (`sessions.dfy`): the dictionaries as a value `Tables`, the
  invariant `WellFormed`, and one step function per request branch. A
  step function returns the answer and the new dictionaries.
- `SessionLaws` (`session_laws.dfy`) and `SessionRuns` (`session_runs.dfy`):
  what the branches promise, proved for all inputs, including over a
  sequence of registrations, plus concrete runs.
  The runs show both the intended exchange and where the code leaves the
  reverse index stale.
- `Routes` (`routes.dfy`): the route key of the path (`split('/')`,
  `filter`, `.at(-1) || ''`) and the dispatch on key and verb.
- `Server` (`registry.dfy`): class `Registry`. Its fields `hosts` and
  `hostsRev` are updated in place, as in the source. Each branch is a method
  proved equal to its step function. The id-drawing `do … while` loop is a
  `while` loop with invariants. `Handle` is the whole request handler.

How the model maps JavaScript onto Dafny:

- The two dictionaries are `map`s.
- A session object is a `Session` value. Nothing else holds a reference to
  one, so the in-place `host.guestDescription = …` is a map update.
- JavaScript truthiness is spelled out. `hosts[id]` counts as present
  whenever the key is there. `hostsRev[description]` counts only when it
  is present and non-empty.
- Each `throw` becomes an `Error` constructor named after its message.
  Every error gives the same 404 answer (`Reply`).
- The random source is a sequence `draws` of candidate token pairs. The
  loop takes the first draw whose id is unused.

Three behaviours of the code are easy to miss. The model follows the
code in each:

- **Consumption.** A two-way index would also clear
  `hostsRev[description]` when a session is consumed. `GET guest` deletes
  only `hosts[hostId]` (app.ts:119-121), so the reverse entry stays behind. `WellFormed` therefore holds in one
  direction only: every live session is indexed back to itself.
  `ReverseIndexed`, the converse, is not kept
  (`SessionRuns.ConsumptionLeavesStaleEntry`).
- **Stale entries.** A stale entry changes later registrations
  (`SessionRuns.StaleEntryConsequences`). Re-registering the description
  without an id reuses the consumed id. Registering that description under
  a new id evicts whatever session then lives at the stale id, even one
  with another description. That session's own reverse entry stays behind
  as well.
- **Guest overwrite.** A second `POST guest` silently overwrites the first
  guest description (`SessionRuns.GuestOverwritten`).

## Model

| member | source | states |
|---|---|---|
| `Ids.HexDigit` | app.ts:56 | the lower-case hex digit of a nibble is a hex digit, and its value reads back as the nibble |
| `Ids.HexByte` | app.ts:56 | a byte prints as two hex digits, high nibble first, whose values recombine to the byte |
| `Ids.Hex` | app.ts:56 | `toString('hex')` gives two hex digits per byte and nothing else |
| `Ids.UnHex` | app.ts:56 | reading hex back yields half as many bytes as digits |
| `Ids.UnHexHex` | app.ts:56 | reading back the hex of a byte string gives the byte string again |
| `Ids.FormatId` | app.ts:56 | a generated id is 17 characters: eight hex digits, a space, eight hex digits |
| `Ids.ParseId` | app.ts:56 | an id parses exactly when it has the generated shape |
| `Ids.ParseFormatId` | app.ts:56 | every generated id parses back to the draw it was built from |
| `Ids.FormatIdInjective` | app.ts:56 | two different draws never give the same id |
| `Sessions.FirstFreshIndex` | app.ts:55-57 | the loop stops at a draw whose id is unused, and every earlier draw's id was in use |
| `Sessions.FreshDrawInRest` | app.ts:55-57 | if the first draw is taken, an unused draw is still among the rest |
| `Sessions.FreshInFewer` | app.ts:45-57 | a draw unused before eviction is still unused after it |
| `Sessions.Indexed` | app.ts:45-64 | when sessions are indexed back to themselves, no two live sessions share a description |
| `Sessions.WellFormed` | app.ts:45-64 | under the invariant, an unsupplied id resolves every reverse entry to its id and every live session's description to that session's id |
| `Sessions.ResolveId` | app.ts:39 | a non-empty supplied id wins; otherwise a non-empty reverse entry is used; the id is "" exactly when neither exists |
| `Sessions.EvictedIds` | app.ts:45-52 | the effective id, if live, and the reverse entry's id, if any, are evicted, and nothing else: at most two ids |
| `Sessions.DroppedDescriptions` | app.ts:45-52 | the new description and the description of the session living at the effective id lose their reverse entries, and nothing else: at most two |
| `Sessions.FetchHostStep` | app.ts:69-81 | `GET host` succeeds exactly when the session exists and has no guest yet, and then answers its description |
| `Sessions.RegisterGuestStep` | app.ts:82-102 | `POST guest` succeeds exactly when both fields are non-empty and the session exists; a failure changes nothing; `hostsRev` and the set of ids never change |
| `Sessions.FetchGuestStep` | app.ts:103-121 | `GET guest` succeeds exactly when the id is non-empty and the session exists; a failure changes nothing; `hostsRev` never changes and no id is added |
| `Sessions.RegisterHostStep` | app.ts:36-68 | registration fails exactly when the description is empty, and then with `EmptyDescription` and both maps unchanged |
| `SessionLaws.InitialWellFormed` | app.ts:6-7 | both maps start empty and satisfy the invariant |
| `SessionLaws.NothingEvictedWhenGenerating` | app.ts:39-57 | an id is generated only when none was supplied and the description has no reverse entry, and then nothing is evicted |
| `SessionLaws.RegisterHostResolvesId` | app.ts:39-64 | the effective id is the supplied id, else the reverse entry for the description, else the first unused draw, which is not already a key; the new record is `{description, ""}` and the reverse entry points to it |
| `SessionLaws.RegisterWithoutIdKeepsIds` | app.ts:39-64 | a registration without an id never removes a live session id |
| `SessionLaws.GeneratedIdsDistinct` | app.ts:39-64 | over any sequence of registrations without ids, the generated ids are pairwise distinct, each unused when drawn and still live at the end, and no live id is lost |
| `SessionLaws.RegisterHostFrame` | app.ts:45-60 | only the effective id and the reverse entry's pre-state id lose or change their sessions; no other id appears; a session evicted through the reverse entry is gone; in `hostsRev` only the new description's entry is added or changed, the description of the session evicted at the effective id loses its entry, and every other entry is kept |
| `SessionLaws.RegisterHostKeepsWellFormed` | app.ts:45-64 | a registration keeps the invariant |
| `SessionLaws.RegisterOpenAgain` | app.ts:39-64 | registering, without an id, the description of a still-open session answers its id and changes nothing |
| `SessionLaws.RegisterHostIdempotent` | app.ts:36-64 | registering the same description twice without an id answers the same id and leaves the same maps |
| `SessionLaws.FetchHostOutcome` | app.ts:70-81 | `GET host` answers the description exactly when the session exists and has no guest yet; otherwise `NeedHostId` (always for the empty id) or `AlreadyInCall` |
| `SessionLaws.RegisterGuestOutcome` | app.ts:84-98 | `POST guest` succeeds exactly when the host id and guest description are non-empty and the session exists; a failure changes nothing; a success overwrites only that session's guest description and leaves `hostsRev` alone |
| `SessionLaws.RegisterGuestKeepsWellFormed` | app.ts:93-98 | a guest registration keeps the invariant |
| `SessionLaws.HostGate` | app.ts:75-76 | once a guest has joined, `GET host` on that id fails with `AlreadyInCall` |
| `SessionLaws.FetchGuestOutcome` | app.ts:104-121 | `GET guest` fails on an empty or unknown host id and changes nothing; otherwise it answers the guest description and removes the session exactly when that is non-empty; `hostsRev` never changes |
| `SessionLaws.FetchGuestKeepsWellFormed` | app.ts:110-121 | consuming a session keeps the invariant |
| `SessionLaws.FetchGuestConsumes` | app.ts:119-121 | after a non-empty guest description has been read, both `GET guest` and `GET host` on that id fail |
| `SessionLaws.FetchGuestPollIsPure` | app.ts:115-121 | polling before a guest has joined answers "" and changes nothing |
| `SessionRuns.AliceAndBob` | app.ts:36-121 | the exchange host register, host poll, guest register, blocked host poll, guest read, failed second read |
| `SessionRuns.EmptyDescriptionRefused` | app.ts:41-43 | an empty description is refused even with an id, and no session is created |
| `SessionRuns.ConsumptionLeavesStaleEntry` | app.ts:119-121 | after consumption `hosts` is empty while `hostsRev` still maps the description; the invariant holds and its converse does not |
| `SessionRuns.StaleEntryConsequences` | app.ts:39-52 | a stale entry hands the consumed id back, and later evicts an unrelated session living at that id |
| `SessionRuns.GuestOverwritten` | app.ts:98 | a second guest description replaces the first |
| `Routes.Split` | app.ts:34 | `split('/')` gives at least one piece and no piece holds a slash |
| `Routes.JoinSplit` | app.ts:34 | joining the pieces with `/` gives back the path |
| `Routes.NonEmpty` | app.ts:34 | a piece is kept exactly when it is one of the pieces and is non-empty; the result is no longer than the input |
| `Routes.NonEmptyAppend` | app.ts:34 | filtering a concatenation is the concatenation of the filtered parts, in order |
| `Routes.RouteKey` | app.ts:34 | a non-empty route key is one of the pieces of the path; the key is "" exactly when every piece is empty |
| `Routes.LastPiece` | app.ts:34 | the last piece of a split is the slash-free tail of the string |
| `Routes.RouteKeySnoc` | app.ts:34 | a trailing slash does not change the route key; another character extends the last piece |
| `Routes.RouteKeyIsLastSegment` | app.ts:34 | the route key has no slash; it is "" exactly when the path is only slashes; otherwise it is a whole segment followed only by slashes |
| `Routes.RouteKeyOfSlashes` | app.ts:34 | a path of slashes alone routes on "" |
| `Routes.SplitSlashName` | app.ts:34 | a slash followed by a slash-free name splits into an empty piece and the name |
| `Routes.RouteKeyOfSegment` | app.ts:34 | `/name`, for any non-empty slash-free name such as `host` or `guest`, routes on that name |
| `Routes.Route` | app.ts:36-129 | `debug` is chosen for any verb; `host` with POST selects host registration and with GET the host fetch; `guest` with POST selects guest registration and with GET the guest fetch; each endpoint is chosen by exactly that pair, and every other pair is unhandled |
| `Server.Reply` | app.ts:139-141 | every failure becomes status 404 with the one error body; a success is status 200 with its payload |
| `Server.Field` | app.ts:38-39 | a field reads as its value when the request carries it and as "" otherwise (also at app.ts lines 70, 84-85 and 104) |
| `Server.Serve` | app.ts:34-141 | every request keeps the invariant and answers 200 or 404, and 404 exactly with the error body |
| `Server.ServeReadOnlyRequests` | app.ts:34-129 | `debug`, `GET host` and unhandled requests leave the maps unchanged; `debug` answers 200 `{}` and unhandled requests answer 404 with the error body |
| `Server.EvictInPlace` | app.ts:45-52 | the two guarded in-place deletes remove from `hosts` exactly the evicted ids and from `hostsRev` exactly the dropped descriptions |
| `Server.Registry.constructor` | app.ts:6-7 | a new registry holds two empty maps |
| `Server.Registry.GenerateId` | app.ts:55-57 | the loop returns the first drawn id that is not a key of `hosts`, and that id has the generated shape |
| `Server.Registry.RegisterHost` | app.ts:36-68 | the in-place deletes and assignments produce exactly the answer and maps of `RegisterHostStep`, and keep the invariant |
| `Server.Registry.FetchHost` | app.ts:69-81 | answers the description exactly when the session exists and has no guest; fails with `NeedHostId` for the empty id; changes nothing |
| `Server.Registry.RegisterGuest` | app.ts:82-102 | the in-place update produces exactly the answer and maps of `RegisterGuestStep`, and keeps the invariant |
| `Server.Registry.FetchGuest` | app.ts:103-121 | the read and the conditional delete produce exactly the answer and maps of `FetchGuestStep`, and keep the invariant |
| `Server.Registry.Handle` | app.ts:25-143 | one request, dispatched on route key and verb; it answers and updates the maps exactly as `Serve` does, and keeps the invariant |
| `Server.Exchange` | app.ts:36-121 | the host/guest exchange, run through one registry's methods, hands the host the guest's description |

## Left out

- HTTP server setup and listening, response headers and the body-streaming `getBody` (app.ts:9-22, 25, 146-151): these are I/O. Only the status code and the kind of payload are modelled.
- `decodeURI`, `URL.parse`, `searchParams` and `JSON.parse` (app.ts:28-33, 38-39, 70, 84-85, 104) are library calls. A request arrives with its path and its string fields already extracted, and a missing field reads as "". The 404 that a malformed URL or body would cause is not modelled.
- Non-string JSON field values, and plain-object quirks of JavaScript dictionaries such as a key `toString`: the dictionaries are maps.
- The JSON text of the answers, built by unescaped interpolation (app.ts:68, 81, 117): a `Payload` value stands for each answer.
- Logging on failure (app.ts:131-142).
- Concurrency. Each branch's dictionary work runs synchronously after its only `await`, so one method call per request is faithful.
- The random source (app.ts:56). It is the `draws` parameter: each draw is the pair of 4-byte tokens that two `crypto.randomBytes(4)` calls return.
- Server.Registry.RegisterHost: requires some draw whose id is unused whenever an id must be generated. The source's loop would simply keep drawing, so the model assumes the random source eventually produces a fresh id.
- Server.Registry.GenerateId: the same assumption, that some draw is unused.
- Server.Registry.Handle: carries the same assumption on a `POST host` request that needs a generated id.
