# Scheduler-request client and service export, modelled in Dafny

This project models two parts of a robotics-in-concert web tool.

The first is its scheduler-request client, requester.js. A requester owns a set of allocation requests, each asking the concert scheduler for resources (rapps). It publishes the whole set on `/concert/scheduler/requests` and hears back on its own feedback topic. It keeps two lists of request ids:

- `pending`: submitted, outcome not yet known;
- `allocated`: the allocation wait has completed.

The second is the pure text generation of `exportToROS` in service_store.js. It derives a service key from a service name, then builds the `.parameters` and `.service` files as `key: value` lines, the files' names and the package.xml export entry.

Modules:

- `Wrappers`: `Option`, `Result` and the `byte` type.
- `Base64`: the forgiving-base64 decoder behind `atob`, as defined in the WHATWG Infra standard ("forgiving-base64 decode"), with the RFC 4648 section 4 alphabet. Text is first read as a list of sextets (numbers 0 to 63), which are then regrouped into bytes. It also has an encoder as its round-trip partner.
- `Ids`: `UniqueId`.
  - The constructor takes one of four branches: random, hex text, base64 text or raw bytes.
  - node-uuid's `parse` and `unparse` are written out.
  - `toString` renders an id as 32 lowercase hex digits.
- `Protocol`: request and set values.
  - The status and reason codes and the priority constants.
  - The wire messages and their decoders.
  - The feedback merge and cancellation as value functions.
  - Reconciliation of the two id lists (`PendingAfter`, `AllocatedAfter`).
  - The feedback topic name.
  - The three source defects of the table under "Findings".
- `Requests`: the stateful objects `Resource`, `Request`, `SchedulerRequests` and `Requester`.
  - They are classes whose methods change fields in place.
  - Each method's postcondition ties the new state to the functions of `Protocol`. For example, `SchedulerRequests.CancelAll` ensures `Snapshot() == CancelAllState(old(Snapshot()))`.
  - `Snapshot()` is the value of a set. `deepClone` and the set comparison of `_handleFeedback` work on this value.
- `ServiceExport`: a JavaScript object is modelled as its fields in insertion order, with assignment (`Assign`) keeping an existing key's place. It covers:
  - `R.fromPairs`, `R.pickAll` and `_to_colon_sep`, with a line parser as its partner;
  - the service key;
  - the in-place rewrite of the interactions;
  - the `.service` record;
  - the output paths.

Where the written design and the code disagree, the model follows the code:

- `Request.cancel` sets CANCELING even on a CLOSED request.
- `add_request` silently replaces a request stored under the same key; it raises no duplicate error.
- The constructor picks a branch for a text id by length alone. Text whose length without hyphens is 32 goes to `UUID.parse` whatever its characters are; 32 `z`s, say, give 16 zero bytes. Any other text goes to `atob`, and whatever that decodes to, of any length, becomes the id's bytes; 16 bytes are not required.
- When the allocation wait ends, the id is appended to `allocated` even if the request was CLOSED.
- The live `_handleFeedback` only logs and returns (requester.js:294). `Requester.HandleFeedbackMessage` models the snapshot, merge, compare, reconcile and publish steps written after that `return`.

Request ids follow one rule: a request's id is the key it is stored under, `req.id.toString()`. The source returns a different string from `new_request`; see "Findings".

## Model

| member | source | states |
|---|---|---|
| `Base64.SextetOf` | requester.js:58 | a character decodes to a sextet only if it is the alphabet character of that sextet |
| `Base64.SextetOfAlphabet` | requester.js:58 | every alphabet character decodes to its own index |
| `Base64.SextetsOfChars` | requester.js:58 | reading the alphabet characters of any sextets gives those sextets back |
| `Base64.EncodeSextetsLength` | requester.js:58 | 3 bytes take 4 sextets, and a final 1 or 2 bytes take 2 or 3 sextets |
| `Base64.DecodeEncodeSextets` | requester.js:58 | regrouping the sextets of any bytes into bytes gives those bytes back |
| `Base64.DecodeEncodeBody` | requester.js:58 | the unpadded base64 text of any bytes is accepted by the decoder and decodes to those bytes |
| `Base64.Atob` | requester.js:58 | accepted text decodes to 3 bytes for every 4 characters left after whitespace and padding are removed, rounded down |
| `Base64.AtobEncode` | requester.js:57-61 | `atob` of the padded base64 text of any bytes yields exactly those bytes |
| `Base64.EncodeHasNoHyphen` | requester.js:55-58 | base64 text has no hyphens and 4 characters for every 3 bytes or part of 3; the 24 characters of a 16-byte id therefore take the base64 branch (22 to 24 bytes would give 32 and take the hex branch) |
| `Ids.HexOf` | requester.js:84 | two characters per byte (node-uuid's byte-to-hex table) |
| `Ids.Unparse` | requester.js:84 | node-uuid `unparse`: 36 characters with hyphens at positions 8, 13, 18 and 23 |
| `Ids.StripHyphens` | requester.js:55 | `replace(/-/g, "")` leaves no hyphen |
| `Ids.HexPairs` | requester.js:56 | the scan finds at most one byte per two characters |
| `Ids.UniqueId.ToMsg` | requester.js:79-81 | `to_msg` is `{uuid: bytes}`; it has no contract of its own, and `IdMsgRoundTrip` states what the message carries |
| `Ids.IdMsgRoundTrip` | requester.js:79-81 | the id rebuilt from its message's `uuid` is the id itself |
| `Ids.UniqueId.ToString` | requester.js:83-85 | the rendering is exactly 32 lowercase hex digits |
| `Ids.HexOfIsHex` | requester.js:84 | the hex rendering of bytes holds only lowercase hex digits |
| `Ids.UnparseIsHex` | requester.js:84 | removing the hyphens of the 8-4-4-4-12 form leaves the bytes' hex digits in order |
| `Ids.UuidParse` | requester.js:56 | parsing takes the first 16 hex pairs; with fewer, it keeps those found and the remaining bytes are 0 |
| `Ids.HexPairsOfHex` | requester.js:56 | the pair scanner reads the hex digits of bytes back as those bytes |
| `Ids.UniqueIdOf` | requester.js:51-71 | no value or "" gives the random id; raw bytes are kept; text whose length without hyphens is 32 is parsed by `UUID.parse`, whatever its characters; any other text becomes the bytes `atob` decodes, and fails exactly when `atob` rejects it |
| `Ids.NoPairsGivesZeroId` | requester.js:55-56 | text of length 32 without hyphens in which no hex pair is found becomes the all-zero id |
| `Ids.HexPairsOfUnparse` | requester.js:56 | the pair scanner reads the hyphenated form of 16 bytes back as those bytes |
| `Ids.HexTextPath` | requester.js:55-56 | text of length 32 without hyphens that holds 16 hex pairs becomes those 16 bytes |
| `Ids.ParseToString` | requester.js:83-85 | constructing from a rendered id gives the same id back |
| `Ids.ParseUnparse` | requester.js:55-56 | constructing from the hyphenated RFC 4122 form gives the same id back |
| `Ids.ParseBase64` | requester.js:57-61 | constructing from the base64 text of 16 bytes gives the id of those bytes |
| `Ids.ToStringInjective` | requester.js:157 | two ids render to the same key if and only if they are equal |
| `Protocol.StatusCodes` | requester.js:21-31 | status codes are 0-6, and a code decodes to a status exactly when it is that status's code |
| `Protocol.ReasonCodes` | requester.js:34-39 | reason codes are 0-5, and a code decodes to a reason exactly when it is that reason's code |
| `Protocol.NewRequestState` | requester.js:119-130 | a new request has status code 0, reason code 0 and priority 0 |
| `Protocol.DecodeRequest` | requester.js:132-137 | a request message decodes exactly when its status and reason codes are valid |
| `Protocol.EncodeRequest` | requester.js:132-137 | a request's message carries a valid status code (0-6) and reason code (0-5) |
| `Protocol.DecodeEncodeRequest` | requester.js:132-137 | a request's message decodes back to the request |
| `Protocol.DecodeEncodeRequests` | requester.js:163 | the list of request messages decodes to the keys in order and the requests under them |
| `Protocol.EncodeSet` | requester.js:160-165 | the message holds one request message per key, the i-th for the i-th key in order |
| `Protocol.DecodeEncodeSet` | requester.js:160-165 | a well-keyed set's message decodes back to the whole set: requester, key order and every request |
| `Protocol.Merge` | requester.js:169-171 | merging keeps the requester, the key order and the key set |
| `Protocol.MergeEffect` | requester.js:169-171 | merging feedback keeps requester, order and key set; named requests take status, reason, problem and availability; everything else is unchanged |
| `Protocol.MergeOfStates` | requester.js:169-171 | a set with the same requester, order and keys whose named requests hold the feedback, and whose other requests are unchanged, is the merge |
| `Protocol.MergeIdempotent` | requester.js:169-171 | merging the same feedback twice is merging it once |
| `Protocol.MergeKeepsWellKeyed` | requester.js:169-171 | merging keeps every request under the rendering of its own id |
| `Protocol.MergeChanges` | requester.js:297-299 | the merged set differs from the old one exactly when some named request took a different value |
| `Protocol.CancelState` | requester.js:139-142 | a cancelled request is CANCELING and differs from the old one in its status only |
| `Protocol.CancelAllState` | requester.js:173-178 | cancelling all keeps requester, order and keys, and every request is CANCELING |
| `Protocol.CancelAllEffect` | requester.js:173-178 | after cancelling all, every request is CANCELING with all else, the keys and the order unchanged |
| `Protocol.CancelAllIdempotent` | requester.js:173-178 | cancelling all twice is cancelling once, and keys stay well formed |
| `Protocol.WithoutCounts` | requester.js:316 | removing a set of ids drops every copy of those ids and keeps every other id's count |
| `Protocol.Pull` | requester.js:316 | `_.pull` leaves no copy of the id; `PullWithout` and `WithoutCounts` give every other id's count |
| `Protocol.PullWithout` | requester.js:320-321 | `_.pull` of one more id is removal of the enlarged set |
| `Protocol.PendingAfter` | requester.js:309-327 | an id stays pending exactly when it was pending and its request is neither GRANTED nor CLOSED; nothing is added |
| `Protocol.AllocatedAfter` | requester.js:309-327 | an id stays allocated exactly when it was allocated and its request is not CLOSED; nothing is added |
| `Protocol.ReconcileKeepsUnresolved` | requester.js:312-325 | an id whose request is neither GRANTED nor CLOSED keeps its count in both lists |
| `Protocol.ReconcileGranted` | requester.js:314-316 | a GRANTED id leaves pending and keeps its count in allocated |
| `Protocol.ReleaseSettledByClosedFeedback` | requester.js:240-241 | with the corrected condition, the release wait ends exactly when the id was not allocated or its request is CLOSED |
| `Protocol.FeedbackTopic` | requester.js:329-332 | the topic is the scheduler topic, `_`, then exactly the id's `toString` rendering (32 hex digits) |
| `Protocol.FeedbackTopicInjective` | requester.js:329-332 | two requesters share a feedback topic if and only if their ids are equal |
| `Protocol.NewRequestIdAsWrittenText` | requester.js:273 | `unparse` of the `UniqueId` object, which has no entries 0 to 15, is always `"NaN-"` then "undefined" twice, "-", twice, "-", twice, "-" and six times, whatever the id's bytes |
| `Protocol.SumAfterText` | requester.js:273 | once a left-to-right chain of JavaScript `+` has produced a string, each later operand appends its string form |
| `Protocol.SumOfUndefineds` | requester.js:273 | adding two or more `undefined`s gives NaN |
| `Protocol.AsWrittenIdNeverResolves` | requester.js:219-220 | the text returned as written holds a hyphen, so it is never a key and no feedback removes it from pending |
| `Protocol.AsWrittenIdsPileUp` | requester.js:212-213 | as written, every allocation request pushes the same text onto pending, and feedback on well-formed keys leaves all the copies there |
| `Protocol.KeysHaveNoHyphen` | requester.js:157 | no key of a well-keyed set contains a hyphen |
| `Protocol.ReleaseLookupAsWrittenFails` | requester.js:238 | no id of 32 or more characters names a property of the container, so the lookup as written finds nothing |
| `Protocol.ReleaseWaitAsWritten` | requester.js:240-241 | the wait as written ends right after allocation and never after CLOSED feedback; the corrected one does the opposite |
| `Requests.Resource.constructor` | requester.js:93-99 | a new resource has the given id, no rapp or uri, and empty lists |
| `Requests.Resource.AddRemapping` | requester.js:101-103 | appends exactly one remapping at the end; all other fields unchanged |
| `Requests.Resource.AddParameter` | requester.js:104-106 | appends exactly one parameter at the end, duplicates kept; all other fields unchanged |
| `Requests.Resource.ToMsg` | requester.js:107-111 | the message holds rapp, uri, remappings, parameters and the id's bytes |
| `Requests.Request.constructor` | requester.js:119-130 | NEW (0), NONE (0), empty problem, zero availability and hold time, default priority, no resources |
| `Requests.Request.Cancel` | requester.js:139-142 | status becomes CANCELING whatever it was; every other field unchanged |
| `Requests.Request.ToMsg` | requester.js:132-137 | the message decodes back to the request's state |
| `Requests.SchedulerRequests.constructor` | requester.js:150-153 | a new set belongs to the given requester and is empty |
| `Requests.SchedulerRequests.AddRequest` | requester.js:156-158 | stores the request under its rendered id, replacing any earlier one; other keys keep their requests; keys stay well formed |
| `Requests.SchedulerRequests.Snapshot` | requester.js:166-168 | the value of a valid set is well keyed |
| `Requests.SchedulerRequests.ToMsg` | requester.js:160-165 | the published message decodes back to the set's value |
| `Requests.SchedulerRequests.CancelAll` | requester.js:173-178 | the new value is `CancelAllState` of the old one, and no resource list changes |
| `Requests.SchedulerRequests.ApplyFeedback` | requester.js:169-171 | the new value is `Merge` of the old value with the feedback |
| `Requests.Requester.constructor` | requester.js:187-210 | a requester starts with an empty set of its own, empty lists and the feedback topic of its id |
| `Requests.Requester.NewRequest` | requester.js:266-274 | adds one NEW request holding the resources under its id's key, changes no other key, appends the key to the order unless it was already there, and returns that key |
| `Requests.Requester.SendAllocationRequest` | requester.js:212-216 | adds one NEW request holding the resource, appends its key to the key order (unless already there) and to pending, and publishes the set in that order |
| `Requests.Requester.PollAllocation` | requester.js:219-226 | the wait ends exactly when the id has left pending, and only then is it appended to allocated |
| `Requests.Requester.SendReleasingRequest` | requester.js:236-239 | a stored request becomes CANCELING and the set is published; an unknown id fails and changes nothing |
| `Requests.Requester.PollRelease` | requester.js:240-241 | the wait ends exactly when the id is no longer allocated |
| `Requests.Requester.HandleFeedback` | requester.js:309-327 | the lists become `PendingAfter` and `AllocatedAfter` of the old lists under the set's statuses |
| `Requests.Requester.ReconcileAndPublish` | requester.js:300-301 | reconciles against the set's own statuses and publishes it, leaving the set unchanged |
| `Requests.Requester.HandleFeedbackMessage` | requester.js:297-302 | merges the feedback; reconciles and publishes only when that changed the set, otherwise leaves the lists alone |
| `Requests.Requester.CancelAll` | requester.js:334-338 | every request is cancelled as `CancelAllState` says and the set is published |
| `ServiceExport.LookupAt` | rocon_composer_blockly/src/service_store.js:317 | in an object with distinct keys, each property is what its key looks up |
| `ServiceExport.Assign` | rocon_composer_blockly/src/service_store.js:318-322 | `obj[k] = v`; it has no contract of its own, and its effect is stated by the four `Assign…` lemmas below |
| `ServiceExport.AssignLookup` | rocon_composer_blockly/src/service_store.js:318-322 | after `obj[k] = v`, `k` yields `v` and every other key what it did |
| `ServiceExport.AssignKeys` | rocon_composer_blockly/src/service_store.js:318-322 | assignment keeps the key order, appending only a new key |
| `ServiceExport.AssignDistinct` | rocon_composer_blockly/src/service_store.js:318-322 | assignment keeps keys distinct |
| `ServiceExport.AssignNew` | rocon_composer_blockly/src/service_store.js:318-319 | assigning a new key appends it last |
| `ServiceExport.AssignExisting` | rocon_composer_blockly/src/service_store.js:321-322 | assigning an existing key changes its value in place and nothing else |
| `ServiceExport.FromPairs` | rocon_composer_blockly/src/service_store.js:296-300 | `R.fromPairs` gives an object with distinct keys |
| `ServiceExport.FromPairsLookup` | rocon_composer_blockly/src/service_store.js:296-300 | each key holds the value of the last pair with that key |
| `ServiceExport.FromPairsKeys` | rocon_composer_blockly/src/service_store.js:296-300 | the keys are the pairs' keys, each once, in order of first appearance |
| `ServiceExport.ToColonSep` | rocon_composer_blockly/src/service_store.js:35-41 | the text is empty exactly for an object with no properties |
| `ServiceExport.ColonSepLines` | rocon_composer_blockly/src/service_store.js:35-41 | for keys and values without newlines (colons allowed), the text splits into exactly one `key: value` line per property, in order, with no trailing newline |
| `ServiceExport.ColonSepRoundTrip` | rocon_composer_blockly/src/service_store.js:35-41 | reading the text back yields the object, for keys without colons and single-line values |
| `ServiceExport.CollapseSpaces` | rocon_composer_blockly/src/service_store.js:264 | `replace(/\s+/g, "_")` leaves no whitespace |
| `ServiceExport.LowerCase` | rocon_composer_blockly/src/service_store.js:264 | `toLowerCase` keeps the length and lowers each character in place |
| `ServiceExport.NameKey` | rocon_composer_blockly/src/service_store.js:264 | the key has no whitespace and no upper-case letter |
| `ServiceExport.CollapseRun` | rocon_composer_blockly/src/service_store.js:264 | a whitespace run of any length becomes one `_` |
| `ServiceExport.NameKeyFixedPoints` | rocon_composer_blockly/src/service_store.js:264 | a name is its own key if and only if it has no whitespace and no upper-case letter |
| `ServiceExport.NameKeyIdempotent` | rocon_composer_blockly/src/service_store.js:264 | deriving the key of a key changes nothing |
| `ServiceExport.ParametersFile` | rocon_composer_blockly/src/service_store.js:296-301 | the `.parameters` text is empty exactly when there are no parameters |
| `ServiceExport.ParametersFileLookup` | rocon_composer_blockly/src/service_store.js:296-301 | reading the `.parameters` file back gives each key the value of its last pair |
| `ServiceExport.NormalizeInteractions` | rocon_composer_blockly/src/service_store.js:303-305 | every interaction's parameter list is replaced in place by the object built from its pairs |
| `ServiceExport.PickAll` | rocon_composer_blockly/src/service_store.js:317 | `R.pickAll` gives one property per name, in the names' order, with the object's value for it |
| `ServiceExport.ServiceRecord` | rocon_composer_blockly/src/service_store.js:317-322 | the record is name, description, author, priority, interactions, parameters, launcher_type, launcher; the three file fields are the key plus `.interactions`, `.parameters` and `.launcher` |
| `ServiceExport.Dirname` | rocon_composer_blockly/src/service_store.js:265 | `Path.dirname` is never empty |
| `ServiceExport.JoinPath` | rocon_composer_blockly/src/service_store.js:265 | `Path.join(dir, rel)`; it has no contract of its own, and its effect is stated by `JoinPathEndsWith` and `JoinPathAppend` below |
| `ServiceExport.JoinPathEndsWith` | rocon_composer_blockly/src/service_store.js:265 | `Path.join(dir, rel)` ends with `rel` |
| `ServiceExport.JoinPathAppend` | rocon_composer_blockly/src/service_store.js:265 | joining a longer relative path appends the extra part, so the files written and the export entry agree |
| `ServiceExport.ServicesDir` | rocon_composer_blockly/src/service_store.js:265 | `services` then the key, with the empty key skipped as `Path.join` skips empty segments |
| `ServiceExport.ServiceBase` | rocon_composer_blockly/src/service_store.js:265 | the service directory ends with `services/<key>` (just `services` for an empty key) |
| `ServiceExport.ExportEntry` | rocon_composer_blockly/src/service_store.js:278 | the export entry starts with `services` and ends with `.service`; for a non-empty key it is `services/<key>/<key>.service` |
| `ServiceExport.OutputFiles` | rocon_composer_blockly/src/service_store.js:331-334 | four files are written |
| `ServiceExport.OutputFilesLayout` | rocon_composer_blockly/src/service_store.js:331-334 | the files are `<key>.parameters`, `<key>.launcher`, `<key>.service` and `<key>.interactions`, in that order, in `services/<key>` beside package.xml, and the export entry resolves to the `.service` file |
| `ServiceExport.OutputFilesDistinct` | rocon_composer_blockly/src/service_store.js:331-334 | the four output files have four different names |

## Left out

- Random ids (`UUID.v4`, requester.js:73-77) are a parameter `random` of every constructor that makes one.
- Falsy values: `UniqueId` treats every falsy argument (`undefined`, `null`, `0`, `false`, `""`) as absent. The model's `IdValue` has `Absent` and the empty text for these. Any truthy non-string is taken as raw bytes.
- Ids.UniqueIdOf: for arbitrary text, the hex and base64 branches' bytes are stated through `UuidParse` and `Atob` rather than written out. Exact bytes are proved for rendered, hyphenated and base64 text (`ParseToString`, `ParseUnparse`, `ParseBase64`).
- Strings are sequences of Unicode characters, not UTF-16 code units. Lengths are counted in characters.
- Publishing (`engine.publish` in `send_requests`) becomes the returned message. Console logging is dropped.
- The event-emitter subscription, engine and options defaults are not modelled; the topic name is.
- Heartbeat frequency (requester.js:15, 199) is configured but never used.
- `async.until`, `setTimeout` and the callbacks are not modelled. `PollAllocation` and `PollRelease` model one check of the wait condition and its completion step.
- `unserialize_message` (requester.js:277-289) is not modelled. It only returns a deep copy, which `Snapshot` covers.
- Availability and hold time are ROS durations on the wire. The model keeps them as integers.
- Protocol.Merge: the lodash deep merge of the raw feedback message is not modelled. The model takes feedback already keyed by request id, applies status, reason, problem and availability, and ignores ids the set does not hold.
- Requests.SchedulerRequests.ApplyFeedback: the merge is written into the stored request objects. The source builds a merged deep copy and swaps it in. No other holder of those objects exists in the core, so the set's value is the same, but aliasing is not captured.
- Protocol.ReleaseLookupAsWrittenFails: the container's property names are listed without the double-underscore accessors of `Object.prototype`. All of them are shorter than 32 characters, like those listed.
- ServiceExport.NameKey: only the letters A to Z are lowered. `toLowerCase` on other scripts, including mappings that change length, is not modelled.
- ServiceExport.FromPairs: objects are kept in insertion order. JavaScript enumerates keys that look like array indices first, which is not modelled. Rendered request ids are never such keys.
- ServiceExport.PickAll: a missing property renders as empty text, which is how `join` prints `undefined`. Values are kept as text, so numbers and nested objects are not converted by the model.
- ServiceExport.NormalizeInteractions: each entry's values are taken as `[key, value]`, as the editor sends them. The method requires list-valued parameters held by distinct interaction objects, which is how parsed JSON arrives.
- ServiceExport.OutputFiles: `Path.join` normalisation is modelled only for a package directory of `.` or `/`. An empty key is skipped as `Path.join` skips it, but a key containing `/`, `.` or `..` is not normalised, and `Path.dirname` of a path with a trailing slash is not modelled.
- The `.launcher` body, `yaml.dump` of the interactions, the libxmljs edit of package.xml, `mkdirp`, file writes and git operations are I/O or third-party serialisers. github_store.js is all git and HTTP and is not part of this model.

## Findings

| source | as written | input that shows it | evidently intended | confidence | as-written member | corrected member |
|---|---|---|---|---|---|---|
| requester.js:266-274 | `new_request` returns `UUID.unparse(uuid)` of the `UniqueId` object, not of its bytes, and the new `Request` ignores that id | any call: `unparse` reads entries 0 to 15 of the `UniqueId` object, finds `undefined` each time and returns `"NaN-undefinedundefined-…"`, the same text every time; it has a hyphen, every key has none, so it never leaves pending | return the key `req.id.toString()` the request is stored under | high, not executed | `Protocol.AsWrittenIdNeverResolves` | `Requests.Requester.NewRequest` |
| requester.js:238 | `this.requests[reqId]` indexes the `SchedulerRequests` object, not its `requests` map | any stored key (32 hex digits): no such property, so `cancel()` is called on `undefined` | look the id up in `this.requests.requests` | high, not executed | `Protocol.ReleaseLookupAsWrittenFails` | `Requests.Requester.SendReleasingRequest` |
| requester.js:240-241 | the release wait ends once the id is IN `allocated` | an id just allocated: the wait ends before any feedback; after CLOSED feedback it never ends | wait until CLOSED feedback has removed the id from `allocated` | high, not executed | `Protocol.ReleaseWaitAsWritten` | `Protocol.ReleaseSettledByClosedFeedback` |
