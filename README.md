# cf-macro-jsonnet, modelled in Dafny

This project models the core of a CloudFormation macro that expands Jsonnet
snippets. The macro gets a template fragment. It finds every string that
starts with `#!jsonnet` and evaluates that snippet. Each snippet sees a fixed
four-line `local` preamble: the region, the account id, the template and the
template parameters. The macro then puts the JSON that the evaluator returns
in place of the string.

A fragment may name a library zip under `JsonnetLibraryUri`. The macro then
fetches it, and the evaluator gets an import callback that reads entries from
it. That key is removed from the fragment that comes back. The macro answers
with a success record or a failure record, and both echo the request id.

Modules:

- `Results` (results.dfy): `Result`/`Option`. A Python exception is `Err(str(e))`.
- `Json` (json.dfy): the JSON value tree. A dict is its `(key, value)` entries
  in insertion order. This file also has `key in d`, `d[key]` and `del d[key]`.
- `TreeWalker` (walker.dfy): `obj_iterate`. The methods `Walk`, `WalkMembers`
  and `WalkItems` loop over the entries and replace them one position at a
  time. Each is proved equal to the function `Rewrite`. Each also reports
  which strings it passed to `f`, in order. The lemmas are about `Rewrite`.
- `Imports` (imports.dfy): the import callback over the archive.
- `Text` (text.dfy): `split("\n")`, used to state the layout of the evaluator's input.
- `Handler` (handler.dfy): library loading, the preamble, `process`,
  `handler_prime` (`HandlerPrime`, specified by `Expand`) and `handler`
  (`HandleEvent`).

The collaborators that the handler calls are the fields of `Handler.Runtime`.
They are `json.dumps`, `json.loads`, the f-string rendering of `accountId`,
`_jsonnet.evaluate_snippet`, `download_from_s3` and `ZipFile`. The model
fixes none of them. Most properties hold for every choice of these
collaborators. `SourceLayout` and the four-line contract of `Preamble` assume
that the rendered values are single-line. `NotFoundOpensEmptyBuffer` assumes
that the zip opener rejects the empty buffer.

Three points about what the code does, which the model follows:

- A 404 on the library download does not drop the import callback. The
  handler still opens a zip over the empty buffer. `LoadLibrary` therefore
  passes `[]` to `openZip`, and the snippet is never reached when opening
  fails (`NotFoundOpensEmptyBuffer`).
- There are no per-parameter bindings. The preamble has exactly four bindings.
- A dict is walked in insertion order, not in an unspecified order.

## Model

| member | source | states |
|---|---|---|
| `TreeWalker.Marks` | src/handler.py:32-45 | every string it lists starts with `#!jsonnet`; the list is the depth-first order the walker meets them in |
| `TreeWalker.Rewrite` | src/handler.py:32-45 | what `obj_iterate(obj, f)` returns or raises: a marked string becomes whatever `f` makes of it; numbers, booleans, `None` and unmarked strings come back as they are; a dict stays a dict with the same keys in the same order; a list stays a list of the same length |
| `TreeWalker.RewriteMembers` | src/handler.py:36-38 | a rewritten dict keeps its keys, in order |
| `TreeWalker.RewriteItems` | src/handler.py:39-41 | a rewritten list keeps its length |
| `TreeWalker.Walk` | src/handler.py:32-45 | `obj_iterate(obj, f)` equals `Rewrite(obj, f)`; `f` is applied to the marked strings in traversal order up to and including the first that fails; on success to each marked string exactly once, so a tree without marks never calls `f` |
| `TreeWalker.WalkMembers` | src/handler.py:36-38 | the dict loop that assigns `obj[k]` in key order equals `RewriteMembers`; an exception leaves the loop at once, and `f` has then seen the marks up to that failure |
| `TreeWalker.WalkItems` | src/handler.py:39-41 | the list loop that assigns `obj[i]` in index order equals `RewriteItems`, with the same call log |
| `TreeWalker.ErrorOfRewrite` | src/handler.py:36-45 | fail-fast: the walk fails exactly when `f` fails on some marked string, and then with the error of the first one in traversal order |
| `TreeWalker.MembersFailAt` | src/handler.py:37-38 | when value `i` of a dict fails after all earlier ones succeeded, the dict fails with that error and no later value is evaluated |
| `TreeWalker.ItemsFailAt` | src/handler.py:40-41 | the same for element `i` of a list |
| `TreeWalker.RewriteNoMarks` | src/handler.py:32-45 | a tree with no marked string comes back equal to the input, whatever `f` is |
| `TreeWalker.RewriteAgree` | src/handler.py:42-44 | `f` is consulted only on the marked strings, each passed whole with its prefix: evaluators that agree on them give the same result |
| `TreeWalker.MembersShape` | src/handler.py:36-38 | a dict rewrites to `ms'` iff `ms'` has the same keys in the same order and each value is the rewritten value at that position |
| `TreeWalker.ItemsShape` | src/handler.py:39-41 | a list rewrites to `xs'` iff it has the same length and element `i` is the rewritten element `i` |
| `TreeWalker.RewriteWellFormed` | src/handler.py:36-41 | rewriting keeps every dict free of duplicate keys, given that `f` yields such values |
| `TreeWalker.SinglePassExample` | src/handler.py:43-44 | a snippet whose value holds a marked string is spliced in with that string untouched, and only the outer snippet is evaluated |
| `Json.HasKeyIff` | src/handler.py:70 | `'JsonnetLibraryUri' in template` holds exactly when some entry of the dict carries that key |
| `Json.Get` | src/handler.py:71 | `template['JsonnetLibraryUri']` is a value the dict holds under that key, and in a dict (distinct keys) the value of every entry with that key |
| `Json.IndexOf` | src/handler.py:71 | `template['JsonnetLibraryUri']` reads the first (only) entry with that key |
| `Json.Remove` | src/handler.py:102-103 | after `del`, the key is absent, and a dict without the key is unchanged |
| `Json.RemoveEntries` | src/handler.py:103 | the entries left by `del` are exactly the entries with another key |
| `Json.RemoveAt` | src/handler.py:103 | in a dict, `del` removes that one entry and keeps the others in order |
| `Json.RemoveKeys` | src/handler.py:102-103 | the keys left are exactly the other keys |
| `Json.RemoveKeepsDistinct` | src/handler.py:103 | deleting keeps the keys distinct |
| `Json.DeleteFromSameKeys` | src/handler.py:102-103 | `if key in d: del d[key]` on a dict whose keys are laid out like a dict `ms` with distinct keys: the entry at the position where `ms` holds the key goes, every other entry stays in order, and nothing changes when `ms` lacks the key |
| `Imports.JoinPath` | src/handler.py:54 | the joined path ends with `rel`; an absolute `rel`, or an empty `dir`, gives `rel` itself; otherwise it starts with `dir`, with exactly one `/` between them |
| `Imports.MissingEntry` | src/handler.py:56-59 | the RuntimeError message for a missing entry has zipfile's fixed text around the path, and the path can be read back from it |
| `Imports.Import` | src/handler.py:51-59 | returns `(p, archive[p])` for the joined path `p`, and fails with the RuntimeError message exactly when `p` is not an entry |
| `Handler.Buffer` | src/handler.py:73-75 | the buffer after `download_from_s3`: the object's bytes, empty after a 404 (the exception is swallowed), and a failure with the error's message exactly when the download re-raises |
| `Handler.LoadLibrary` | src/handler.py:70-79 | the import callback is present iff the fragment has `JsonnetLibraryUri`; without the key nothing is fetched; a fetch error propagates; a 404 opens the zip over an empty buffer; otherwise the zip of the downloaded bytes |
| `Handler.Preamble` | src/handler.py:81-85 | when the rendered values are single-line, the preamble is exactly four lines: the `local` bindings of region, accountId, template and templateParams, in that order |
| `Handler.Source` | src/handler.py:88 | what the evaluator receives is the preamble, one newline, then the snippet verbatim |
| `Handler.Process` | src/handler.py:87-98 | `process(code)`: an evaluator error propagates; otherwise the result is `json.loads` of the evaluator's output; the call gets the import callback when there is one; its closure `Processor` is what the walker is given |
| `Handler.SourceLayout` | src/handler.py:81-88 | the evaluator receives the region, accountId, template and templateParams bindings as its first four lines, in that order, followed by the snippet verbatim |
| `Handler.Expand` | src/handler.py:64-103 | a library that cannot be set up fails the handler with its error; on success the fragment has no `JsonnetLibraryUri` and its keys are exactly the input's other keys |
| `Handler.HandlerPrime` | src/handler.py:64-109 | `handler_prime` returns exactly `Expand`: library first, then the walk of the fragment with `process`, then deletion of the library key |
| `Handler.ExpandSuccess` | src/handler.py:100-109 | on success the fragment is the walked fragment with every `JsonnetLibraryUri` entry removed, its keys are the input's other keys, the callback was present iff the key was, and the preamble's `template` is the fragment as it arrived |
| `Handler.ExpandDeletesOneEntry` | src/handler.py:100-103 | for a fragment with distinct keys, as a parsed dict has, `del` takes out exactly the entry at the position where the input holds `JsonnetLibraryUri` and keeps every other walked entry in order; without the key the walked fragment comes back whole |
| `Handler.ExpandFailure` | src/handler.py:70-100 | the handler fails with the library's error, or else with the error of the first snippet in traversal order whose evaluation fails, and succeeds when none fails |
| `Handler.ExpandNoSnippets` | src/handler.py:100-103 | a fragment without snippets comes back unchanged apart from losing the library key |
| `Handler.NotFoundOpensEmptyBuffer` | src/handler.py:73-76 | a 404 on the library fails the handler with the zip error, given that the opener rejects the empty buffer |
| `Handler.HandleEvent` | src/handler.py:112-123 | the response echoes `requestId`; it is a success with the `Expand` fragment iff `handler_prime` returns, and otherwise a failure carrying the error message and no fragment |
| `Handler.ResponseRecord` | src/handler.py:105-109 | the response dict has keys `requestId`, `status`, then `fragment` or `errorMessage`, with status `"success"` or `"failure"` |

## Left out

- `download_from_s3` (src/handler.py:13-29): the S3 call and the URL parsing are network I/O. They are the abstract `download`, which yields bytes, not-found or an error.
- `ZipFile` and `.decode()`: these are library calls. `openZip` yields an archive of entries that are already decoded. A UnicodeDecodeError while reading an entry is not modelled.
- `Handler.NotFoundOpensEmptyBuffer`: in Python, `ZipFile` over the empty buffer always raises BadZipFile, so a 404 on the library always gives a failure response. The model does not fix `openZip([])` to fail. It therefore also admits runs in which a 404 ends in success, and the lemma takes the rejection as a hypothesis.
- `Json.Remove`: it drops every entry with the key, where `del` drops one. The two agree on dicts with distinct keys (`Json.RemoveAt`, `Handler.ExpandDeletesOneEntry`). A fragment is a plain sequence of entries, however, and `Handler.ExpandSuccess` does not assume distinct keys.
- `Imports.JoinPath`: does not model pathlib normalisation. Duplicate slashes, `.` components, trailing slashes of the result and an empty `rel` are not covered.
- `Imports.MissingEntry`: the name is quoted with plain `'…'`. Python's `repr` escaping of unusual names is not modelled.
- `_jsonnet.evaluate_snippet`: the embedded evaluator is a black box. The model does not say how it calls the import callback or how it reports a callback error.
- `json.dumps`, `json.loads` and the f-string rendering of `accountId` are abstract functions. Escaping and the JSON grammar are not modelled.
- `Handler.Preamble` and `Handler.SourceLayout`: the four-line layout assumes that the rendered region, account id, template and parameters contain no newline. `json.dumps` without indentation never emits one. A raw `accountId` that contains a newline would add lines to the preamble.
- `traceback.print_exc` and `print`: diagnostic output only.
- The `context` argument of both handlers is never read.
- Malformed events: the event is a typed record. A missing field, which raises KeyError, and a fragment that is not a dict are not modelled. A missing `requestId` escapes `handler` in any case.
- JSON numbers are integers. Floats are not modelled, and the walker never inspects numbers.
- In-place update and aliasing: the tree is a value. The walker loops assign positions of a local copy of each dict or list. This matches Python because a parsed event shares no sub-objects, and the handler reads the result only through the returned dict.
