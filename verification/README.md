# lsp-client, modelled in Dafny

lsp-client is a Python client for language servers. This project models
the parts of it whose behaviour is a matter of logic rather than of I/O:

- **Document state** (`DocumentState`): the per-URI text and version of
  open documents, with a reference count per URI so that nested
  `open_files` scopes share one tracked copy.
- **Hook registry** (`HookRegistry`): request handlers, one per method
  (a later one replaces the earlier one with a warning), and notification
  handlers, several per method.
- **Client orchestration** (`Client`): the order in which servers are
  tried, dispatch of server-initiated messages, `open_files`, `read_file`,
  `write_file`, and the lifecycle messages of a session.
  - Asynchronous work is replaced by traces of events.
  - Availability checks, server start-up, file contents and the body of a
    scope are parameters.
- **Container server arguments** (`Container`): rendering of bind, volume
  and tmpfs `--mount` specifications, the choice of the working directory,
  and the `run` argument list.
  - Rendered specifications are read back with a parser.
  - Host-path resolution is a parameter.
- **Project roots** (`ProjectRoot`): the upward search for a directory
  holding a project marker, and the outermost-first search inside a working
  directory.
  - A path is its list of components.
  - Directory contents are a `glob` oracle.
- **Code actions** (`CodeAction`): applying commands and code actions,
  including resolving, editing and command execution, alone and in
  sequence.
- **Document symbols** (`Symbol`): symbol paths, `at`, `flatten`,
  `iter_dfs` (a verified stack loop) and `iter_bfs`.
- **Type guards** (`TypeGuard`): the eight guards on untyped request
  results.

Shared helpers live in `Wrappers` (Option and Result), `Strings`
(joining, splitting, and Python's `str`/`oct` for integers) and
`Sequences` (reversal).

## Model

| member | source | states |
|---|---|---|
| DocumentState.Open | src/lsp_client/client/document_state.py:43-78 | every listed URI gains one count per occurrence before anything is read. When every new URI can be read, the returned states are exactly the URIs not tracked before, each at version 0 with its file's text, old states are kept and the manager invariant is preserved. When some new URI cannot be read or decoded, the open raises naming exactly those URIs, no state is stored and the counts stay raised |
| DocumentState.Close | src/lsp_client/client/document_state.py:80-102 | every listed URI loses one count per occurrence; URIs whose count reaches zero or below lose count and state; the returned list holds, once each, exactly the evicted URIs that had a state |
| DocumentState.Register | src/lsp_client/client/document_state.py:104-120 | an untracked URI is stored with exactly the given content and version and a count of 1; a tracked URI is refused and the manager is left unchanged; other URIs are untouched |
| DocumentState.Unregister | src/lsp_client/client/document_state.py:122-138 | a tracked URI loses state and count; an untracked one is refused and nothing changes; other URIs are untouched |
| DocumentState.GetVersion | src/lsp_client/client/document_state.py:140-155 | succeeds exactly for tracked URIs; otherwise a not-found error |
| DocumentState.GetContent | src/lsp_client/client/document_state.py:157-172 | succeeds exactly for tracked URIs; otherwise a not-found error |
| DocumentState.IncrementVersion | src/lsp_client/client/document_state.py:174-193 | a tracked URI's version grows by one, its text stays and the new version is returned; nothing else changes; an unknown URI is refused unchanged |
| DocumentState.UpdateContent | src/lsp_client/client/document_state.py:195-213 | a tracked URI takes the new text and one more version, which is returned; nothing else changes; an unknown URI is refused unchanged |
| DocumentState.RegisterThenGet | src/lsp_client/client/document_state.py:116-120 | what `register` stores is what `get_version` and `get_content` report |
| DocumentState.RegisterUnregister | src/lsp_client/client/document_state.py:116-137 | `unregister` undoes `register` on a valid manager |
| DocumentState.RegisterTwice | tests/unit/test_client/test_document_state.py:85-90 | a second registration of a URI fails, and the content stays what the first registration stored |
| DocumentState.UpdateThenGet | src/lsp_client/client/document_state.py:209-212 | after `update_content`, the new text is read back one version later and every other document reads as before |
| DocumentState.IncrementThenGet | src/lsp_client/client/document_state.py:187-192 | after `increment_version`, the same text is read back one version later |
| DocumentState.UnknownUri | tests/unit/test_client/test_document_state.py:65-96 | every lookup and update of an unknown URI is refused, and the manager is left as it was |
| DocumentState.OpenOne | src/lsp_client/client/document_state.py:54-78 | opening a tracked URI only counts it once more; a new readable URI is read and tracked; a new unreadable one makes the open raise naming it, leaving it counted without a state |
| DocumentState.CloseOne | tests/unit/test_client/test_document_state.py:131-165 | closing one URI keeps it while its count stays positive; otherwise it is evicted and reported |
| DocumentState.OpenTwiceCloseTwice | tests/unit/test_client/test_document_state.py:118-150 | for a readable file, open twice reads once and counts 2; the first close keeps the document; the second close evicts and reports it |
| DocumentState.EvictedAfterOpen | src/lsp_client/client/document_state.py:91-100 | after a scoped open that succeeded, the URIs a matching close evicts are exactly the URIs the open created |
| DocumentState.OpenThenCloseRestores | src/lsp_client/client/document_state.py:43-102 | a scoped open that succeeded, closed with the same URIs, restores a valid manager exactly; the URIs reported closed are the URIs reported opened |
| DocumentState.FailedOpenLeaks | src/lsp_client/client/document_state.py:56-78 | after a failing open every new URI is counted but has no state, so the manager invariant no longer holds |
| DocumentState.LeakOutlivesScope | src/lsp_client/client/document_state.py:59-102 | a URI whose first open failed stays counted: a later open and close that both succeed leave it tracked with a count of 1, and the close reports nothing |
| HookRegistry.Register | tests/unit/test_protocol/test_hook.py:39-87 | a request hook replaces any earlier one and warns exactly when there was one; a notification hook is appended after the earlier ones without a warning; other methods are untouched |
| HookRegistry.RequestOverwrite | tests/unit/test_protocol/test_hook.py:70-87 | of two request hooks for one method the second wins, with exactly one warning, on the second registration |
| HookRegistry.NotificationsAccumulate | tests/unit/test_protocol/test_hook.py:50-67 | two notification hooks for one method are both kept, in registration order |
| Client.Candidates | src/lsp_client/client/abc.py:104-131 | the candidates in priority order: the requested server (none, the container, the local one or a given instance), then the local server exactly when its availability check passes, then the container server exactly when the container backend is enabled, then the installing local server last; only the first can be a given instance |
| Client.SelectFrom | src/lsp_client/client/abc.py:139-153 | the loop from attempt i stops at the first candidate that starts, or at the first that raises an error other than `ServerRuntimeError`, having attempted exactly the candidates up to it, each raising `ServerRuntimeError` before it; otherwise it attempted all of them and holds one such error per candidate |
| Client.Select | src/lsp_client/client/abc.py:134-153 | the first candidate that starts is used and no later one is attempted; a `ServerRuntimeError` moves on to the next candidate; any other error ends the search at that candidate; if every candidate raised `ServerRuntimeError`, the error group holds those errors, one per candidate, in order |
| Client.FallbackToInstall | src/lsp_client/client/abc.py:115-153 | with `local` requested, its availability check failing and containers disabled, a failed first local start falls back to the installing local server, keeping the first error |
| Client.AllFailedTriedLocalLast | src/lsp_client/client/abc.py:129-153 | when every candidate raises `ServerRuntimeError`, the search ends with all of them failed, the installing local server was the last attempted, and there are one to four errors |
| Client.AllRuntimeFailures | src/lsp_client/client/abc.py:129-153 | when every attempt from a given one on raises `ServerRuntimeError`, the loop from that attempt ends with every candidate failed |
| Client.Dispatch | src/lsp_client/client/abc.py:301-321 | in the model, where handlers cannot fail, a request with a handler is answered once on its own reply channel; a request without a handler is fatal and nothing is sent; a notification runs each of its handlers in registration order, or only logs a warning when it has none |
| Client.DispatchAll | src/lsp_client/client/abc.py:309-325 | the loop fails exactly when some request has no handler; when it does not fail, it sends as many responses as there were requests |
| Client.NoResponses | src/lsp_client/client/abc.py:313-321 | handling a notification never sends a response |
| Client.OpenFiles | src/lsp_client/client/abc.py:185-211 | with sync off or no paths only the body runs. Otherwise, when opening raises (exactly when some new URI cannot be read), neither the body nor any close runs and the open's counts stay. When it does not, didOpen goes out once for each newly tracked URI with its read text, the body sees every URI tracked, and didClose goes out once for each URI evicted afterwards, even when the body raised |
| Client.OpenFilesRestores | src/lsp_client/client/abc.py:196-211 | a scope that ran, with a body that leaves the documents alone, restores the manager and closes exactly the documents it opened |
| Client.OpenFilesLeaks | src/lsp_client/client/abc.py:196-211 | when opening raises, every new URI stays counted without a state, so the manager invariant no longer holds for later scopes |
| Client.ReadFile | src/lsp_client/client/abc.py:214-225 | the tracked in-memory text when the document is open, the disk contents otherwise |
| Client.ReadFileAsWritten | src/lsp_client/client/abc.py:220-225 | whenever the read as written succeeds it returns what the intended read returns; when it fails, the error is the `KeyError` for that URI |
| Client.ReadFileDiskFallback | src/lsp_client/client/abc.py:220-225 | the read as written fails exactly for untracked documents, the ones the intended read takes from the disk |
| Client.WriteFile | src/lsp_client/client/abc.py:227-277 | the disk write comes first; a tracked document then takes the new text and one more version, and a didChange with that version follows; an untracked document is only written |
| Client.WriteFileAsWritten | src/lsp_client/client/abc.py:265-267 | as written, every call fails with an AttributeError on `get_encoding` before anything is written; Client.WriteFileNeverWrites sets this against the intended write |
| Client.WriteFileNeverWrites | src/lsp_client/client/abc.py:265-277 | for every document and text the write as written raises and leaves the manager alone, while the intended write puts the text on disk first and moves a tracked document's version on |
| Client.WriteFileVersionAgrees | src/lsp_client/client/abc.py:269-277 | the version in the last didChange is the version `get_version` reports afterwards |
| Client.HandshakePositions | src/lsp_client/client/abc.py:380-407 | dispatch starts first, initialize second and initialized right after the checks; the configuration push comes right after initialized exactly when there is a default configuration |
| Client.ManagedOrder | src/lsp_client/client/abc.py:371-416 | with passing checks, initialize, initialized, body, drain, shutdown and exit each happen once and in this order, whether or not the body raised; the session fails exactly when the body raised |
| Client.FailedCheckAborts | src/lsp_client/client/abc.py:335-343 | a failing server check ends the session after initialize, without initialized, the body, shutdown or exit |
| Client.ChecksOnlyInDebug | src/lsp_client/client/abc.py:335-343 | without assertions no compatibility or capability check happens |
| Client.UnmanagedSkipsHandshake | src/lsp_client/client/abc.py:418-431 | an unmanaged session sends none of initialize, initialized, shutdown or exit, and runs its body exactly when a server started |
| Client.RunSession | src/lsp_client/client/abc.py:327-431 | no server means no events; the body runs exactly when a server started and, in a managed session, the checks passed; shutdown is sent exactly in a managed session whose checks passed; the session succeeds exactly when the body ran and did not raise |
| Container.BaseParts | src/lsp_client/server/container.py:29-36 | the type comes first and appears once; the target appears once; the source appears (second) exactly when non-empty; `readonly` is last exactly when set |
| Container.BindParts | src/lsp_client/server/container.py:50-55 | a bind mount's parts are the base parts, then one `bind-propagation` part with the propagation's name exactly when one is set |
| Container.VolumeParts | src/lsp_client/server/container.py:79-92 | a volume mount's parts start with the base parts and end with one `volume-opt` per option, in order; driver and subpath appear exactly when non-empty; `volume-nocopy` appears exactly when set |
| Container.VolumeOrder | src/lsp_client/server/container.py:79-92 | a volume mount's parts come in the order base parts, driver, subpath, `volume-nocopy`, options, and never go back to an earlier group |
| Container.TmpfsFields | src/lsp_client/server/container.py:102-110 | a tmpfs mount carries `tmpfs-size` as `str(size)` and `tmpfs-mode` as `oct(mode)` exactly when each is given |
| Container.TmpfsNumbersReadBack | src/lsp_client/server/container.py:105-108 | reading back a rendered tmpfs mount recovers the size and the mode as numbers, and each is present exactly when it was given |
| Strings.DecimalRoundTrip | src/lsp_client/server/container.py:106 | reading `str(n)` back gives n, negatives included |
| Strings.OctalRoundTrip | src/lsp_client/server/container.py:108 | reading `oct(n)` back gives n, negatives included |
| Container.DecodeRender | src/lsp_client/server/container.py:29-39 | a mount whose values hold no comma renders to a string that reads back to exactly its parts, in order |
| Container.ParseAllRendered | src/lsp_client/server/container.py:38-39 | reading a rendered list of parts gives the parts back |
| Container.Render | src/lsp_client/server/container.py:38-39 | the parts joined by `,`; Container.DecodeRender states that they read back |
| Container.KeyNameReadsBack | src/lsp_client/server/container.py:30-33 | each key name reads back as its key |
| Container.ReadonlyFlag | src/lsp_client/server/container.py:34-35 | the rendered parts hold `readonly` exactly when the mount is read-only |
| Container.HostPathFields | src/lsp_client/server/container.py:57-67 | the default bind mount of a host path has type `bind`, the posix absolute path as its target, the native path as its source when non-empty, no `readonly` and no propagation |
| Container.HostPathCommaFree | src/lsp_client/server/container.py:57-67 | no value of a host path's default bind mount holds a comma exactly when neither spelling of the absolute path holds one |
| Container.FromPath | src/lsp_client/server/container.py:57-67 | the default bind mount of a host path; Container.HostPathFields states its fields |
| Container.HostPathMount | src/lsp_client/server/container.py:118-121 | a host path given as a mount is formatted as its default bind mount, and that reads back to the bind mount's parts |
| Container.FormatMount | src/lsp_client/server/container.py:118-121 | `_format_mount`: a host path through its default bind mount, a mount rendered, a string verbatim; Container.HostPathMount states the host-path case |
| Container.EffectiveWorkdir | src/lsp_client/server/container.py:182-192 | a non-empty explicit workdir wins; otherwise exactly one workspace folder is required and its posix absolute path is used; any other number of folders is an error |
| Container.MountSpecs | src/lsp_client/server/container.py:202-208 | one specification per configured mount and then one per workspace folder, in order, each formatted as `_format_mount` does |
| Container.Layout | src/lsp_client/server/container.py:194-215 | the argument list is `run -i --rm`, the optional name, `--workdir` and its value, `--mount` with each specification, the extra arguments, and the image last |
| Container.FormatArgs | src/lsp_client/server/container.py:194-215 | `format_args` fails exactly when the workdir cannot be chosen; otherwise it gives the layout for the chosen workdir and the mount specifications |
| Container.LayoutMount | src/lsp_client/server/container.py:207-208 | the i-th specification sits right after the i-th `--mount` |
| Container.WorkdirIsFolderTarget | src/lsp_client/server/container.py:182-208 | with no explicit workdir and one folder, the `--workdir` value is the target of the folder's bind mount, and that mount's specification is the last `--mount` |
| ProjectRoot.FindFrom | src/lsp_client/protocol/lang.py:33-101 | a ValueError exactly when the start lies outside the working directory; any root found is an ancestor-or-self of the start, lies inside the working directory, is marked and is not excluded |
| ProjectRoot.Scan | src/lsp_client/protocol/lang.py:86-101 | the scan returns the first root of the candidate list, stopping at an earlier excluded directory unless excluded ones are skipped |
| ProjectRoot.NearestRoot | src/lsp_client/protocol/lang.py:81-101 | without a working directory, q is found exactly when q is the nearest ancestor-or-self that is a root, with no directory met before it excluded or marked |
| ProjectRoot.NearestOnly | src/lsp_client/protocol/lang.py:81-101 | without a working directory, any root found is the nearest one in that sense |
| ProjectRoot.ExcludedStops | src/lsp_client/protocol/lang.py:86-93 | without a working directory, an excluded directory met before any marked one ends the search with no root |
| ProjectRoot.CwdCandidates | src/lsp_client/protocol/lang.py:81-84 | with a working directory, the candidates are the working directory and then each step down to the start, outermost first |
| ProjectRoot.OutermostRoot | src/lsp_client/protocol/lang.py:83-101 | with a working directory, q is found exactly when q is the outermost root between the working directory and the start; excluded directories are passed over |
| ProjectRoot.OutermostOnly | src/lsp_client/protocol/lang.py:83-101 | with a working directory, any root found is that outermost root |
| ProjectRoot.NoRootInside | src/lsp_client/protocol/lang.py:83-101 | with no root between the working directory and the start, the search finds nothing |
| ProjectRoot.FindProjectRoot | src/lsp_client/protocol/lang.py:103-142 | a path outside the working directory is an error; a file without a known suffix has no root; a file with one is searched from its parent; a directory is searched from itself |
| ProjectRoot.FileInsideCwd | src/lsp_client/protocol/lang.py:130-142 | a file search inside the working directory fails only when the file is the working directory itself |
| CodeAction.ApplyOne | src/lsp_client/capability/request/code_action.py:114-150 | a bare command fails exactly when commands cannot be executed; an enabled code action (resolved first when it has neither edit nor command) fails exactly when it carries a command that cannot be executed, and its edit, when present, is the first effect; a disabled action does nothing |
| CodeAction.CommandRunsItself | src/lsp_client/capability/request/code_action.py:126-133 | a command executes exactly its own name and arguments; without the capability it fails having done nothing |
| CodeAction.ResolvedOnce | src/lsp_client/capability/request/code_action.py:138-150 | an action with neither edit nor command is resolved once, first; the resolved edit is applied next and the resolved command last, and the step fails exactly when the resolved action has a command that cannot be executed |
| CodeAction.CommandOnly | src/lsp_client/capability/request/code_action.py:134-150 | an enabled action with only a command is not resolved and applies no edit: it runs exactly that command when commands can be executed (the command-only unit test), and otherwise fails with nothing applied |
| CodeAction.EditThenCommand | src/lsp_client/capability/request/code_action.py:141-150 | an edit is applied before the command runs; without the capability the edit still happens and then the application fails |
| CodeAction.EditOnlyNeedsNoCommand | src/lsp_client/capability/request/code_action.py:141-144 | an action with an edit and no command applies the edit, capability or not |
| CodeAction.ApplyAllSucceeds | src/lsp_client/capability/request/code_action.py:152-162 | applying a list succeeds exactly when each item would succeed on its own |
| CodeAction.ApplyAll | src/lsp_client/capability/request/code_action.py:152-162 | in the model, applying a list fails only when the execute-command capability is missing |
| CodeAction.RunStops | src/lsp_client/capability/request/code_action.py:152-162 | a failing list stops at its first failing item, after the effects of every item before it |
| CodeAction.ApplyAllAppend | src/lsp_client/capability/request/code_action.py:152-162 | applying `xs + ys` is applying `xs` and then, unless that failed, `ys` |
| CodeAction.Normalize | src/lsp_client/capability/request/code_action.py:106 | a missing or empty answer becomes the empty list, and anything else is kept as it is |
| CodeAction.NothingToApply | src/lsp_client/capability/request/code_action.py:106 | applying a missing answer does nothing and succeeds |
| Symbol.FormatRoundTrip | src/lsp_client/utils/symbol.py:17-18 | a path whose names hold no `.` is recovered by splitting its formatted form |
| Symbol.Format | src/lsp_client/utils/symbol.py:17-18 | the names joined by `.`; what that form means is stated by Symbol.FormatRoundTrip and Symbol.FormatDiv |
| Symbol.Div | src/lsp_client/utils/symbol.py:20-21 | `path / name` keeps the path and adds the name at the end |
| Symbol.FormatDiv | src/lsp_client/utils/symbol.py:17-21 | formatting `path / name` appends a dot and the name |
| Symbol.At | src/lsp_client/utils/symbol.py:28-38 | an empty path, or one not starting at the root's name, finds nothing; the root's own name finds the root |
| Symbol.AtDiv | src/lsp_client/utils/symbol.py:32-38 | `at(path / name)` is the first child called `name` of `at(path)`, or nothing |
| Symbol.IterDfs | src/lsp_client/utils/symbol.py:52-58 | the stack walk yields exactly the pre-order of the tree, children left to right |
| Symbol.BfsIsLevelOrder | src/lsp_client/utils/symbol.py:60-66 | the queue walk yields the level order: a level, then the level order of all its children |
| Symbol.IterBfs | src/lsp_client/utils/symbol.py:60-66 | the queue walk yields one node per node of the queued trees; Symbol.BfsIsLevelOrder states their order |
| Symbol.DfsBfsSameNodes | src/lsp_client/utils/symbol.py:52-66 | the depth-first and breadth-first walks yield the same nodes, each as often, one per node of the tree |
| Symbol.EntriesArePreOrder | src/lsp_client/utils/symbol.py:40-58 | `flatten` visits the nodes in the order `iter_dfs` yields them |
| Symbol.ToMap | src/lsp_client/utils/symbol.py:40-50 | filling the dict entry by entry: a path is a key exactly when some entry has it, and it maps to the node of the last entry with that path, since a later assignment replaces an earlier one |
| Symbol.Flatten | src/lsp_client/utils/symbol.py:40-50 | the dict filled in the order `flatten` pops its stack; Symbol.FlattenAgreesWithAt and Symbol.FlattenOnePerNode state what it holds |
| Symbol.FlattenAgreesWithAt | src/lsp_client/utils/symbol.py:28-50 | with distinct sibling names, every path `flatten` lists leads `at` to the node it maps to |
| Symbol.FlattenOnePerNode | src/lsp_client/utils/symbol.py:40-50 | with distinct sibling names, `flatten` has exactly one entry per node |
| TypeGuard.AllIn | src/lsp_client/utils/type_guard.py:9-14 | true exactly when every element is of an accepted class |
| TypeGuard.Check | src/lsp_client/utils/type_guard.py:9-78 | a guard accepts only iterables, and it accepts every empty one |
| TypeGuard.RejectsNullAcceptsEmpty | src/lsp_client/utils/type_guard.py:9-78 | every guard rejects `None` and non-iterables, and accepts an empty iterable |
| TypeGuard.DefinitionLinksAreLocationLinks | src/lsp_client/utils/type_guard.py:17-30 | `is_definition_links` and `is_location_links` accept the same values |
| TypeGuard.CodeActionsMixture | src/lsp_client/utils/type_guard.py:69-78 | `is_code_actions` accepts exactly the mixtures of commands and code actions |
| TypeGuard.CheckAppend | src/lsp_client/utils/type_guard.py:9-78 | a guard holds of a concatenation exactly when it holds of both parts |
| TypeGuard.DisjointGuards | src/lsp_client/utils/type_guard.py:9-78 | two guards with no class in common both accept only the empty iterable |
| TypeGuard.LocationsAreNotLinks | src/lsp_client/utils/type_guard.py:9-30 | a non-empty result `is_locations` accepts is rejected by `is_location_links` |

## Left out

- Wire framing, JSON-RPC (de)serialisation and the request/response correlation table are not modelled. Messages are abstract values.
- File, process and network I/O are not modelled. File contents, reads, server start-up and availability checks are parameters or oracles.
- Concurrency is not modelled. Task groups and `soonify` are sequential traces.
- Client.OpenFiles: didOpen notifications are stated as a set, without order. The code sends them concurrently, in the insertion order of a dict filled by concurrent reads, so their order is unspecified.
- Client.Dispatch: request and notification handlers cannot fail in the model. In the code a request hook that raises in `execute` (abc.py:306-307) sends no response, and a raising notification hook (abc.py:317) fails as well; either ends the dispatch task group.
- Client.RunSession: the `anyio.fail_after` time-outs around requests and notifications (abc.py:286, 293) are not modelled, so a shutdown request that times out and raises, skipping `exit`, is not covered.
- Client.Dispatch: notification handlers are listed in registration order. The code starts them as concurrent tasks, so only the set of runs is fixed.
- Client.Select: an exception thrown into the generator by the body of a started server is not modelled. Only start-up outcomes are.
- Per-document encodings are not modelled. The tests expect `open` to detect and record each document's encoding and `get_encoding` to report it, but the manager as written decodes UTF-8 only, records no encoding and defines no `get_encoding`.
- Client.WriteFile: the disk write carries no encoding. The intended write would use a tracked document's recorded encoding and fall back to UTF-8, which the model cannot express without per-document encodings.
- Client.Candidates: the local availability check is a boolean. An exception from it other than `ServerRuntimeError`, which would end `run_server` after the requested candidate, is not modelled.
- DocumentState.Open: a failing open names every new URI that cannot be read. The code raises from a task group that cancels the other reads once one fails, so the raised group may name only some of them.
- CodeAction.ApplyOne: resolving a code action, applying a workspace edit and executing a command cannot fail in the model. In the code each of them can raise and abort `apply_code_actions`.
- CodeAction.ApplyAll: its contract only names the missing execute-command capability as a failure, for the same reason.
- The document state manager raises `KeyError` for unknown URIs and for double registration, while its tests and callers expect `None`. Both readings leave the manager unchanged, and the model returns an error value carrying the unchanged manager.
- Object identity is modelled as value equality. This covers request-hook equality in the hook registry and symbols in `flatten`.
- Handlers are opaque numbers. The hook registry's own source file is not part of this model; its behaviour comes from its unit tests.
- `None` and the empty list are identified for `extra_container_args`, `volume_opt` and a symbol's `children`. The code treats both alike.
- ProjectRoot.FindFrom: paths are lists of components. `..`, symlinks and Windows drive letters are not normalised. `Path.resolve()` and `glob` are oracles.
- ProjectRoot.FindProjectRoot: `is_file()` is an oracle.
- The docstring of `find_project_root` says "nearest ancestor". With a working directory the code returns the outermost root inside it; the model follows the code.
- Container: `Path.resolve()` is a parameter returning both spellings of the absolute path. Container start-up, reuse and `check_availability` are not modelled.
- Symbol: `flatten` is modelled as the pre-order list of (path, node) pairs its stack pops, then as a dict filled in that order. Ranges, `as_pos` and the other symbol helpers are not modelled.
- TypeGuard: a value is modelled as `None`, a non-iterable, or an iterable listed by the class of each element.
- Generated capability mixins and the per-language client classes are not modelled.

## Findings

| source | as written | input that shows it | evidently intended | confidence | as-written member | corrected member |
|---|---|---|---|---|---|---|
| src/lsp_client/client/abc.py:220-225 | `read_file` calls `get_content`, which raises `KeyError` for an untracked document, so the disk fallback is never reached | any URI not currently open | an untracked file is read from disk, as the docstring says | not executed | Client.ReadFileAsWritten | Client.ReadFile |
| src/lsp_client/client/abc.py:265-267 | `write_file` calls `self._doc.get_encoding`, which the document state manager does not define, so every call raises before writing | any URI and content | write the text in the encoding recorded for the document, UTF-8 when there is none, then sync a tracked document | not executed | Client.WriteFileAsWritten | Client.WriteFile |
