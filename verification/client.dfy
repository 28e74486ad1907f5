/**
 * The orchestration rules of the abstract client: which servers are tried
 * and in what order, how inbound server messages are dispatched, how file
 * access keeps the document state and the server in sync, and the order of
 * the lifecycle messages of a session.
 *
 * Asynchronous work is replaced by traces: each operation returns the events
 * it causes, in the order the code causes them. Availability checks, file
 * contents, server start-up and the body of a scope are parameters.
 */
module Client {
  import opened Wrappers
  import DocumentState
  import HookRegistry

  type Uri = DocumentState.Uri
  type Manager = DocumentState.Manager

  // ---------------------------------------------------------------------------
  // Server candidates and fallback
  // ---------------------------------------------------------------------------

  /** The `server` argument of the client: nothing, one of the two names, or an instance. */
  datatype ServerArg = NoServer | ContainerByName | LocalByName | Instance(id: nat)

  /** A server that may be started: the client's default local or container server, or a given one. */
  datatype Candidate = DefaultLocal | DefaultContainer | Explicit(id: nat)

  /** The candidate the `server` argument asks for first, if any. */
  function Requested(arg: ServerArg): seq<Candidate> {
    match arg
    case NoServer => []
    case ContainerByName => [DefaultContainer]
    case LocalByName => [DefaultLocal]
    case Instance(id) => [Explicit(id)]
  }

  /**
   * `_iter_candidate_servers`: the requested server, then the local server
   * when its availability check passes, then the container server when the
   * container backend is enabled, then the local server once more (this
   * time it may install itself).
   */
  function Candidates(arg: ServerArg, localAvailable: bool, containerEnabled: bool): (r: seq<Candidate>)
    ensures 1 <= |r| <= 4
    ensures |r| == |Requested(arg)| + (if localAvailable then 1 else 0) + (if containerEnabled then 1 else 0) + 1
    ensures r[..|Requested(arg)|] == Requested(arg)
    ensures localAvailable ==> r[|Requested(arg)|] == DefaultLocal
    ensures containerEnabled ==> r[|r| - 2] == DefaultContainer
    ensures r[|r| - 1] == DefaultLocal
    ensures arg != NoServer ==> r[0] == Requested(arg)[0]
    ensures DefaultContainer in r <==> arg == ContainerByName || containerEnabled
    ensures forall i :: 0 < i < |r| ==> !r[i].Explicit?
    ensures r[0].Explicit? <==> arg.Instance?
  {
    Requested(arg)
    + (if localAvailable then [DefaultLocal] else [])
    + (if containerEnabled then [DefaultContainer] else [])
    + [DefaultLocal]
  }

  /**
   * The outcome of starting one candidate: it started, it raised
   * `ServerRuntimeError`, which `run_server` collects before trying the
   * next candidate, or it raised anything else, which ends `run_server`.
   */
  datatype StartOutcome = Up | RuntimeFailure(message: string) | OtherFailure(message: string)

  /**
   * The result of `run_server`: the index of the candidate that started,
   * with the candidates attempted and the errors of the ones that failed,
   * in order; when every candidate failed, one error per candidate; or the
   * index of the candidate whose other error ended the search, which
   * propagates alone.
   */
  datatype Selection =
    | Started(index: nat, attempted: seq<Candidate>, errors: seq<string>)
    | AllFailed(attempted: seq<Candidate>, errors: seq<string>)
    | Aborted(index: nat, attempted: seq<Candidate>, error: string)

  /** Attempts `i` up to `k` (exclusive) all raised `ServerRuntimeError`, with messages `errs` in order. */
  predicate FailedWith(cands: seq<Candidate>, start: (nat, Candidate) -> StartOutcome, i: nat, k: nat,
                       errs: seq<string>)
    requires i <= k <= |cands|
  {
    |errs| == k - i && forall j :: i <= j < k ==> start(j, cands[j]) == RuntimeFailure(errs[j - i])
  }

  lemma FailedWithCons(cands: seq<Candidate>, start: (nat, Candidate) -> StartOutcome, i: nat, k: nat,
                       e: string, errs: seq<string>)
    requires i < k <= |cands|
    requires start(i, cands[i]) == RuntimeFailure(e)
    requires FailedWith(cands, start, i + 1, k, errs)
    ensures FailedWith(cands, start, i, k, [e] + errs)
  {
    forall j | i <= j < k
      ensures start(j, cands[j]) == RuntimeFailure(([e] + errs)[j - i])
    {
      if j > i {
        assert ([e] + errs)[j - i] == errs[j - (i + 1)];
      }
    }
  }

  /**
   * What the loop from attempt `i` on may return: the first candidate that
   * started, after `ServerRuntimeError`s only; the first candidate that
   * raised anything else, after `ServerRuntimeError`s only; or, with every
   * candidate failing, one error per candidate.
   */
  predicate Outcome(cands: seq<Candidate>, start: (nat, Candidate) -> StartOutcome, i: nat, r: Selection)
    requires i <= |cands|
  {
    match r
    case Started(k, attempted, errors) =>
      && i <= k < |cands|
      && start(k, cands[k]) == Up
      && attempted == cands[i..k + 1]
      && FailedWith(cands, start, i, k, errors)
    case Aborted(k, attempted, error) =>
      && i <= k < |cands|
      && start(k, cands[k]) == OtherFailure(error)
      && attempted == cands[i..k + 1]
      && forall j :: i <= j < k ==> start(j, cands[j]).RuntimeFailure?
    case AllFailed(attempted, errors) =>
      && attempted == cands[i..]
      && FailedWith(cands, start, i, |cands|, errors)
  }

  /** A `ServerRuntimeError` at attempt `i`, in front of what the later attempts did. */
  function Retried(c: Candidate, e: string, rest: Selection): Selection {
    match rest
    case Started(k, attempted, errors) => Started(k, [c] + attempted, [e] + errors)
    case Aborted(k, attempted, other) => Aborted(k, [c] + attempted, other)
    case AllFailed(attempted, errors) => AllFailed([c] + attempted, [e] + errors)
  }

  lemma RetriedOutcome(cands: seq<Candidate>, start: (nat, Candidate) -> StartOutcome, i: nat, e: string,
                       rest: Selection)
    requires i < |cands| && start(i, cands[i]) == RuntimeFailure(e)
    requires Outcome(cands, start, i + 1, rest)
    ensures Outcome(cands, start, i, Retried(cands[i], e, rest))
  {
    match rest
    case Started(k, _, errors) =>
      SliceCons(cands, i, k + 1);
      FailedWithCons(cands, start, i, k, e, errors);
    case Aborted(k, _, _) =>
      SliceCons(cands, i, k + 1);
      RuntimeFailuresCons(cands, start, i, k);
    case AllFailed(_, errors) =>
      SliceCons(cands, i, |cands|);
      FailedWithCons(cands, start, i, |cands|, e, errors);
  }

  lemma SliceCons(cands: seq<Candidate>, i: nat, k: nat)
    requires i < k <= |cands|
    ensures cands[i..k] == [cands[i]] + cands[i + 1..k]
  {
  }

  lemma RuntimeFailuresCons(cands: seq<Candidate>, start: (nat, Candidate) -> StartOutcome, i: nat, k: nat)
    requires i < k <= |cands|
    requires start(i, cands[i]).RuntimeFailure?
    requires forall j :: i + 1 <= j < k ==> start(j, cands[j]).RuntimeFailure?
    ensures forall j :: i <= j < k ==> start(j, cands[j]).RuntimeFailure?
  {
  }

  /**
   * `run_server`'s loop from attempt `i` on. `start(i, c)` is the outcome of
   * starting candidate `c` as attempt `i`.
   */
  function SelectFrom(cands: seq<Candidate>, start: (nat, Candidate) -> StartOutcome, i: nat): (r: Selection)
    requires i <= |cands|
    ensures Outcome(cands, start, i, r)
    decreases |cands| - i
  {
    if i == |cands| then AllFailed([], [])
    else
      match start(i, cands[i])
      case Up => Started(i, [cands[i]], [])
      case OtherFailure(e) => Aborted(i, [cands[i]], e)
      case RuntimeFailure(e) =>
        var rest := SelectFrom(cands, start, i + 1);
        RetriedOutcome(cands, start, i, e, rest);
        Retried(cands[i], e, rest)
  }

  /**
   * `run_server`: the first candidate that starts is used and none after it
   * is attempted. A `ServerRuntimeError` moves on to the next candidate; if
   * every candidate raised one, the raised group holds one error per
   * candidate, in order. Any other error ends the search at that candidate.
   */
  function Select(cands: seq<Candidate>, start: (nat, Candidate) -> StartOutcome): (r: Selection)
    ensures r.Started? ==>
      && r.index < |cands|
      && start(r.index, cands[r.index]) == Up
      && r.attempted == cands[..r.index + 1]
      && |r.errors| == r.index
      && forall j :: 0 <= j < r.index ==> start(j, cands[j]) == RuntimeFailure(r.errors[j])
    ensures r.Aborted? ==>
      && r.index < |cands|
      && start(r.index, cands[r.index]) == OtherFailure(r.error)
      && r.attempted == cands[..r.index + 1]
      && forall j :: 0 <= j < r.index ==> start(j, cands[j]).RuntimeFailure?
    ensures r.AllFailed? ==>
      && r.attempted == cands
      && |r.errors| == |cands|
      && forall j :: 0 <= j < |cands| ==> start(j, cands[j]) == RuntimeFailure(r.errors[j])
  {
    SelectFrom(cands, start, 0)
  }

  /**
   * With the local server requested by name, its availability check
   * failing and the container backend disabled, a failing first start of
   * the local server falls back to the installing one, and the first
   * failure is kept.
   */
  lemma FallbackToInstall(start: (nat, Candidate) -> StartOutcome)
    requires start(0, DefaultLocal).RuntimeFailure? && start(1, DefaultLocal) == Up
    ensures
      var r := Select(Candidates(LocalByName, false, false), start);
      r.Started? && r.index == 1 && r.errors == [start(0, DefaultLocal).message]
  {
  }

  /**
   * When every candidate raises `ServerRuntimeError`, all of them fail; as
   * every candidate list ends in the installing local server, it is the
   * one attempted last.
   */
  lemma AllFailedTriedLocalLast(arg: ServerArg, localAvailable: bool, containerEnabled: bool,
                                start: (nat, Candidate) -> StartOutcome)
    requires forall j :: 0 <= j < |Candidates(arg, localAvailable, containerEnabled)| ==>
      start(j, Candidates(arg, localAvailable, containerEnabled)[j]).RuntimeFailure?
    ensures
      var r := Select(Candidates(arg, localAvailable, containerEnabled), start);
      && r.AllFailed?
      && r.attempted[|r.attempted| - 1] == DefaultLocal
      && 1 <= |r.errors| <= 4
  {
    var cands := Candidates(arg, localAvailable, containerEnabled);
    assert cands[|cands| - 1] == DefaultLocal;
    AllRuntimeFailures(cands, start, 0);
  }

  /** When every attempt from `i` on raises `ServerRuntimeError`, the loop from `i` ends with all of them failed. */
  lemma {:induction false} AllRuntimeFailures(cands: seq<Candidate>, start: (nat, Candidate) -> StartOutcome, i: nat)
    requires i <= |cands|
    requires forall j :: i <= j < |cands| ==> start(j, cands[j]).RuntimeFailure?
    ensures SelectFrom(cands, start, i).AllFailed?
    decreases |cands| - i
  {
    if i < |cands| {
      AllRuntimeFailures(cands, start, i + 1);
    }
  }

  // ---------------------------------------------------------------------------
  // Dispatch of server-initiated messages
  // ---------------------------------------------------------------------------

  /** A message the server sends to the client: a request with its reply channel, or a notification. */
  datatype Inbound =
    | ServerRequest(name: string, replyTo: nat)
    | ServerNotification(name: string)

  /** What dispatching causes: a response, a notification handler run, or a logged warning. */
  datatype DispatchEvent =
    | Respond(replyTo: nat, handler: nat)
    | RunHandler(name: string, handler: nat)
    | Warn(name: string)

  /** Dispatch either goes on, having caused `events`, or stops with a fatal `ClientRuntimeError`. */
  datatype Dispatched = Continue(events: seq<DispatchEvent>) | Fatal(name: string)

  /** One handler run per notification hook, in registration order. */
  function RunAll(name: string, hooks: seq<nat>): (r: seq<DispatchEvent>)
    ensures |r| == |hooks|
    ensures forall i :: 0 <= i < |r| ==> r[i] == RunHandler(name, hooks[i])
  {
    seq(|hooks|, i requires 0 <= i < |hooks| => RunHandler(name, hooks[i]))
  }

  /**
   * `dispatch`: a request with a handler is answered once on its own reply
   * channel; a request without one is fatal and nothing is sent; a
   * notification runs all its handlers, or with none only logs a warning.
   */
  function Dispatch(reg: HookRegistry.Registry, msg: Inbound): (r: Dispatched)
    ensures msg.ServerRequest? ==>
      (r.Fatal? <==> HookRegistry.GetRequestHook(reg, msg.name).None?)
      && (r.Fatal? ==> r.name == msg.name)
      && (r.Continue? ==> r.events == [Respond(msg.replyTo, HookRegistry.GetRequestHook(reg, msg.name).value)])
    ensures msg.ServerNotification? ==>
      && r.Continue?
      && var hooks := HookRegistry.GetNotificationHooks(reg, msg.name);
         if |hooks| == 0 then r.events == [Warn(msg.name)]
         else |r.events| == |hooks| && forall i :: 0 <= i < |hooks| ==> r.events[i] == RunHandler(msg.name, hooks[i])
  {
    match msg
    case ServerRequest(name, replyTo) =>
      (match HookRegistry.GetRequestHook(reg, name)
       case Some(h) => Continue([Respond(replyTo, h)])
       case None => Fatal(name))
    case ServerNotification(name) =>
      var hooks := HookRegistry.GetNotificationHooks(reg, name);
      if |hooks| == 0 then Continue([Warn(name)]) else Continue(RunAll(name, hooks))
  }

  /** The outcome of the dispatch loop over a stream of inbound messages. */
  datatype Loop = Loop(events: seq<DispatchEvent>, fatal: Option<string>)

  /** A request no handler is registered for. */
  predicate Unhandled(reg: HookRegistry.Registry, msg: Inbound) {
    msg.ServerRequest? && HookRegistry.GetRequestHook(reg, msg.name).None?
  }

  /** The number of requests among `msgs`. */
  function RequestCount(msgs: seq<Inbound>): nat {
    if |msgs| == 0 then 0
    else (if msgs[0].ServerRequest? then 1 else 0) + RequestCount(msgs[1..])
  }

  /** The number of responses among `events`. */
  function ResponseCount(events: seq<DispatchEvent>): nat {
    if |events| == 0 then 0
    else (if events[0].Respond? then 1 else 0) + ResponseCount(events[1..])
  }

  lemma ResponseCountAppend(a: seq<DispatchEvent>, b: seq<DispatchEvent>)
    ensures ResponseCount(a + b) == ResponseCount(a) + ResponseCount(b)
  {
    if |a| > 0 {
      assert (a + b)[0] == a[0];
      assert (a + b)[1..] == a[1..] + b;
      ResponseCountAppend(a[1..], b);
    } else {
      assert a + b == b;
    }
  }

  /**
   * The dispatch loop, taking messages in arrival order: the first request
   * without a handler ends it with a fatal error; until then every request
   * with a handler is answered exactly once and a notification never stops
   * it.
   */
  function DispatchAll(reg: HookRegistry.Registry, msgs: seq<Inbound>): (r: Loop)
    ensures r.fatal.Some? <==> exists i :: 0 <= i < |msgs| && Unhandled(reg, msgs[i])
    ensures r.fatal.None? ==> ResponseCount(r.events) == RequestCount(msgs)
    decreases |msgs|
  {
    if |msgs| == 0 then Loop([], None)
    else
      match Dispatch(reg, msgs[0])
      case Fatal(name) => Loop([], Some(name))
      case Continue(evs) =>
        var rest := DispatchAll(reg, msgs[1..]);
        assert forall i :: 1 <= i < |msgs| ==> msgs[i] == msgs[1..][i - 1];
        if rest.fatal.None? then
          ResponseCountAppend(evs, rest.events);
          assert msgs[0].ServerNotification? ==> ResponseCount(evs) == 0 by {
            if msgs[0].ServerNotification? {
              NoResponses(msgs[0].name, HookRegistry.GetNotificationHooks(reg, msgs[0].name));
            }
          }
          Loop(evs + rest.events, rest.fatal)
        else
          Loop(evs + rest.events, rest.fatal)
  }

  lemma NoResponses(name: string, hooks: seq<nat>)
    ensures ResponseCount(RunAll(name, hooks)) == 0
    ensures ResponseCount([Warn(name)]) == 0
    decreases |hooks|
  {
    if |hooks| > 0 {
      assert RunAll(name, hooks)[1..] == RunAll(name, hooks[1..]);
      NoResponses(name, hooks[1..]);
    }
  }

  // ---------------------------------------------------------------------------
  // File synchronisation
  // ---------------------------------------------------------------------------

  /** Effects of file access on the server and the disk. */
  datatype SyncEvent =
    | DidOpen(uri: Uri, content: string)
    | DidClose(uri: Uri)
    | DidChange(uri: Uri, content: string, version: int)
    | DiskWrite(uri: Uri, content: string)

  /** What a unit of work run inside `open_files` did: its final state, its events, whether it raised. */
  datatype Scoped = Scoped(docs: Manager, events: seq<SyncEvent>, raised: bool)

  /**
   * One `open_files` scope: the URIs announced opened, the manager the body
   * ran on, what the body did, the URIs announced closed, and the manager
   * afterwards.
   */
  datatype Scope = Scope(announced: seq<Uri>, bodyDocs: Manager, inner: Scoped, closed: seq<Uri>, docs: Manager)

  /** The whole trace of a scope. */
  function Trace(s: Scope): seq<SyncEvent> {
    seq(|s.announced|, i requires 0 <= i < |s.announced| =>
      DidOpen(s.announced[i], if s.announced[i] in s.bodyDocs.states then s.bodyDocs.states[s.announced[i]].content else ""))
    + s.inner.events
    + seq(|s.closed|, i requires 0 <= i < |s.closed| => DidClose(s.closed[i]))
  }

  /** The URIs of `s` in order of first occurrence. */
  function Dedup(s: seq<Uri>): (r: seq<Uri>)
    ensures forall u :: u in r <==> u in s
    ensures DocumentState.Distinct(r)
    decreases |s|
  {
    if |s| == 0 then []
    else
      var rest := Dedup(s[..|s| - 1]);
      assert forall u :: u in s <==> u in s[..|s| - 1] || u == s[|s| - 1];
      if s[|s| - 1] in rest then rest else rest + [s[|s| - 1]]
  }

  /** The elements of `s` that satisfy `keep`, in order. */
  function Filter(s: seq<Uri>, keep: Uri -> bool): (r: seq<Uri>)
    ensures forall u :: u in r <==> u in s && keep(u)
    ensures DocumentState.Distinct(s) ==> DocumentState.Distinct(r)
    decreases |s|
  {
    if |s| == 0 then []
    else
      var rest := Filter(s[1..], keep);
      assert forall u :: u in s <==> u == s[0] || u in s[1..];
      if keep(s[0]) then [s[0]] + rest else rest
  }

  /**
   * How `open_files` ended: the scope ran, or opening the documents raised
   * before the `try`, so neither the body nor the close ran and the manager
   * keeps the counts the open added.
   */
  datatype ScopeOutcome = Ran(scope: Scope) | OpenRaised(docs: Manager, error: DocumentState.DocError)

  /**
   * `open_files(*paths)` around a unit of work `body`. With file sync off or
   * no paths, only the body runs. Otherwise the documents are opened; if a
   * read fails the open raises and nothing else happens. Else a didOpen is
   * sent for each newly tracked document; the body runs; then, on every
   * exit path of the body including an exception, all requested URIs are
   * closed and a didClose is sent for each evicted one.
   */
  function OpenFiles(docs: Manager, syncFile: bool, uris: seq<Uri>, read: Uri -> Option<string>,
                     body: Manager -> Scoped): (r: ScopeOutcome)
    ensures !syncFile || |uris| == 0 ==>
      && r.Ran?
      && r.scope.announced == [] && r.scope.closed == [] && r.scope.bodyDocs == docs
      && r.scope.inner == body(docs) && r.scope.docs == r.scope.inner.docs
    ensures r.OpenRaised? <==>
      syncFile && |uris| > 0 && exists u :: u in uris && u !in docs.states && read(u).None?
    ensures r.OpenRaised? ==>
      && r.docs.states == docs.states
      && forall u :: DocumentState.Count(r.docs.refCounts, u) == DocumentState.Count(docs.refCounts, u) + multiset(uris)[u]
    ensures syncFile && |uris| > 0 && r.Ran? ==>
      && DocumentState.Distinct(r.scope.announced)
      && (forall u :: u in r.scope.announced <==> u in uris && u !in docs.states)
      && (forall u :: u in uris ==> u in r.scope.bodyDocs.states)
      && (forall u :: u in r.scope.announced ==>
            Some(r.scope.bodyDocs.states[u].content) == read(u) && r.scope.bodyDocs.states[u].version == 0)
      && r.scope.inner == body(r.scope.bodyDocs)
      && DocumentState.Distinct(r.scope.closed)
      && (forall u :: u in r.scope.closed <==>
            u in DocumentState.Evicted(r.scope.inner.docs, uris) && u in r.scope.inner.docs.states)
      && r.scope.docs.states == r.scope.inner.docs.states - DocumentState.Evicted(r.scope.inner.docs, uris)
  {
    if !syncFile || |uris| == 0 then
      var b := body(docs);
      Ran(Scope([], docs, b, [], b.docs))
    else
      var step := DocumentState.Open(docs, uris, read);
      match step.out
      case Err(e) => OpenRaised(step.next, e)
      case Ok(created) =>
        var news := Filter(Dedup(uris), u => u in created);
        var b := body(step.next);
        var (closedDocs, closed) := DocumentState.Close(b.docs, uris);
        Ran(Scope(news, step.next, b, closed, closedDocs))
  }

  /**
   * A scope that ran, with a body that leaves the documents alone, restores
   * a valid manager, and the documents announced closed are exactly the
   * ones announced opened.
   */
  lemma OpenFilesRestores(docs: Manager, syncFile: bool, uris: seq<Uri>, read: Uri -> Option<string>,
                          body: Manager -> Scoped)
    requires DocumentState.Valid(docs)
    requires forall m :: body(m).docs == m
    ensures
      var r := OpenFiles(docs, syncFile, uris, read, body);
      r.Ran? ==> r.scope.docs == docs && forall u :: u in r.scope.closed <==> u in r.scope.announced
  {
    if syncFile && |uris| > 0 {
      DocumentState.OpenThenCloseRestores(docs, uris, read);
    }
  }

  /**
   * When opening raises, the body never runs and nothing is closed: every
   * new URI stays counted without a state, which breaks the manager's
   * invariant for every later scope.
   */
  lemma OpenFilesLeaks(docs: Manager, syncFile: bool, uris: seq<Uri>, read: Uri -> Option<string>,
                       body: Manager -> Scoped)
    requires DocumentState.Valid(docs)
    ensures
      var r := OpenFiles(docs, syncFile, uris, read, body);
      r.OpenRaised? ==>
        && (forall u :: u in uris && u !in docs.states ==> u in r.docs.refCounts && u !in r.docs.states)
        && !DocumentState.Valid(r.docs)
  {
    if syncFile && |uris| > 0 {
      DocumentState.FailedOpenLeaks(docs, uris, read);
    }
  }

  /** The failures of the client's file access. */
  datatype ClientError = KeyErrorRaised(uri: Uri) | AttributeErrorRaised(attribute: string)

  /**
   * `read_file` as the intended lookup behaves: the tracked in-memory text
   * when the document is open, the disk contents otherwise.
   */
  function ReadFile(docs: Manager, uri: Uri, disk: Uri -> string): (r: string)
    ensures uri in docs.states ==> r == docs.states[uri].content
    ensures uri !in docs.states ==> r == disk(uri)
  {
    match DocumentState.GetContent(docs, uri)
    case Ok(content) => content
    case Err(_) => disk(uri)
  }

  /**
   * `read_file` as written against the document state manager, whose
   * `get_content` raises `KeyError` for an untracked document instead of
   * returning `None`: the error passes on and the disk is never read.
   */
  function ReadFileAsWritten(docs: Manager, uri: Uri, disk: Uri -> string): (r: Result<string, ClientError>)
    ensures r.Ok? ==> r.value == ReadFile(docs, uri, disk)
    ensures r.Err? ==> r.error == KeyErrorRaised(uri)
  {
    match DocumentState.GetContent(docs, uri)
    case Ok(content) => Ok(content)
    case Err(_) => Err(KeyErrorRaised(uri))
  }

  /**
   * As written, `read_file` fails exactly for the documents its disk
   * fallback exists for; as intended, those are read from the disk.
   */
  lemma ReadFileDiskFallback(docs: Manager, uri: Uri, disk: Uri -> string)
    ensures ReadFileAsWritten(docs, uri, disk).Err? <==> uri !in docs.states
    ensures uri !in docs.states ==> ReadFile(docs, uri, disk) == disk(uri)
  {
  }

  /**
   * `write_file` as intended: the text goes to disk; a tracked document
   * then takes the new text and one more version, and a didChange carrying
   * that version follows. An untracked document is written to disk only.
   */
  function WriteFile(docs: Manager, uri: Uri, content: string): (r: (Manager, seq<SyncEvent>))
    ensures |r.1| >= 1 && r.1[0] == DiskWrite(uri, content)
    ensures uri !in docs.states ==> r.0 == docs && r.1 == [DiskWrite(uri, content)]
    ensures uri in docs.states ==>
      && |r.1| == 2
      && DocumentState.GetContent(r.0, uri) == Ok(content)
      && DocumentState.GetVersion(r.0, uri) == Ok(docs.states[uri].version + 1)
      && r.1[1] == DidChange(uri, content, docs.states[uri].version + 1)
  {
    var step := DocumentState.UpdateContent(docs, uri, content);
    match step.out
    case Ok(v) => (step.next, [DiskWrite(uri, content), DidChange(uri, content, v)])
    case Err(_) => (docs, [DiskWrite(uri, content)])
  }

  /**
   * `write_file` as written: it first asks the manager for `get_encoding`,
   * which the document state manager does not define, so every call raises before
   * anything is written.
   */
  function WriteFileAsWritten(docs: Manager, uri: Uri, content: string): (r: Result<(Manager, seq<SyncEvent>), ClientError>)
    ensures r.Err?
  {
    Err(AttributeErrorRaised("get_encoding"))
  }

  /**
   * For every document and text, `write_file` as written raises and leaves
   * the manager as it was, while the intended one writes the text to disk
   * and, for a tracked document, moves its version on.
   */
  lemma WriteFileNeverWrites(docs: Manager, uri: Uri, content: string)
    ensures WriteFileAsWritten(docs, uri, content).Err?
    ensures WriteFile(docs, uri, content).1[0] == DiskWrite(uri, content)
    ensures uri in docs.states ==>
      DocumentState.GetVersion(WriteFile(docs, uri, content).0, uri) != DocumentState.GetVersion(docs, uri)
  {
  }

  /** The didChange of `write_file` carries exactly the version `get_version` reports afterwards. */
  lemma WriteFileVersionAgrees(docs: Manager, uri: Uri, content: string)
    requires uri in docs.states
    ensures
      var (after, events) := WriteFile(docs, uri, content);
      DocumentState.GetVersion(after, uri) == Ok(events[|events| - 1].version)
  {
  }

  // ---------------------------------------------------------------------------
  // Session lifecycle
  // ---------------------------------------------------------------------------

  /** Lifecycle steps of a session, as seen from the client. */
  datatype LifecycleEvent =
    | StartDispatch | Initialize | CheckCompatibility | CheckCapabilities | Initialized
    | PushConfig | RunBody | Drain | Shutdown | Exit

  datatype Mode = Managed | Unmanaged

  /**
   * The inputs of a session: whether assertions are on (`__debug__`),
   * whether the client is a capability protocol, whether each check
   * passes, whether there is a default configuration, and whether the body
   * raises.
   */
  datatype Setup = Setup(debug: bool, capabilityProtocol: bool, compatible: bool, capable: bool,
                         hasConfig: bool, bodyRaises: bool)

  /** The lifecycle events of a session and whether it ended without an exception. */
  datatype Session = Session(events: seq<LifecycleEvent>, ok: bool)

  /** The server checks of `_initialize`, up to the first failing one. */
  function Checks(s: Setup): seq<LifecycleEvent> {
    if !s.debug then []
    else if !s.compatible || !s.capabilityProtocol then [CheckCompatibility]
    else [CheckCompatibility, CheckCapabilities]
  }

  /** Whether the checks `_initialize` runs all pass. */
  predicate ChecksPass(s: Setup) {
    !s.debug || (s.compatible && (!s.capabilityProtocol || s.capable))
  }

  /**
   * A session: no server started means no events and an error. Unmanaged,
   * only dispatch and the body run. Managed, initialize and its checks
   * precede initialized and the configuration push; after the body, even
   * when it raised, pending requests are drained and shutdown and exit are
   * sent. A failing check aborts the session before initialized.
   */
  function RunSession(mode: Mode, serverStarted: bool, s: Setup): (r: Session)
    ensures r.events == [] <==> !serverStarted
    ensures RunBody in r.events <==> serverStarted && (mode == Unmanaged || ChecksPass(s))
    ensures r.ok <==> serverStarted && !s.bodyRaises && (mode == Unmanaged || ChecksPass(s))
    ensures Shutdown in r.events <==> serverStarted && mode != Unmanaged && ChecksPass(s)
  {
    if !serverStarted then Session([], false)
    else if mode == Unmanaged then Session([StartDispatch, RunBody], !s.bodyRaises)
    else if !ChecksPass(s) then Session([StartDispatch, Initialize] + Checks(s), false)
    else
      var events := Handshake(s) + Teardown;
      assert events[|Handshake(s)| + 2] == Shutdown;
      Session(events, !s.bodyRaises)
  }

  /** The configuration push that follows initialized, when there is a default configuration. */
  function Config(s: Setup): seq<LifecycleEvent> {
    if s.hasConfig then [PushConfig] else []
  }

  /** The events of a managed session up to the body. */
  function Handshake(s: Setup): seq<LifecycleEvent> {
    [StartDispatch, Initialize] + Checks(s) + [Initialized] + Config(s)
  }

  /** The events of a managed session from the body on, run even when the body raises. */
  const Teardown: seq<LifecycleEvent> := [RunBody, Drain, Shutdown, Exit]

  /** Where initialize, initialized and the configuration push sit in the handshake. */
  lemma HandshakePositions(s: Setup)
    ensures
      var h, n := Handshake(s), |Checks(s)|;
      && |h| == 3 + n + |Config(s)|
      && h[0] == StartDispatch && h[1] == Initialize && h[2 + n] == Initialized
      && (PushConfig in h <==> s.hasConfig)
      && (s.hasConfig ==> h[3 + n] == PushConfig)
  {
    var h := Handshake(s);
    if !s.debug {
      if s.hasConfig {
        assert h == [StartDispatch, Initialize, Initialized, PushConfig];
      } else {
        assert h == [StartDispatch, Initialize, Initialized];
      }
    } else if !s.compatible || !s.capabilityProtocol {
      if s.hasConfig {
        assert h == [StartDispatch, Initialize, CheckCompatibility, Initialized, PushConfig];
      } else {
        assert h == [StartDispatch, Initialize, CheckCompatibility, Initialized];
      }
    } else {
      if s.hasConfig {
        assert h == [StartDispatch, Initialize, CheckCompatibility, CheckCapabilities, Initialized, PushConfig];
      } else {
        assert h == [StartDispatch, Initialize, CheckCompatibility, CheckCapabilities, Initialized];
      }
    }
  }

  /** The handshake holds initialize and initialized once each. */
  lemma HandshakeCounts(s: Setup)
    ensures multiset(Handshake(s))[Initialize] == 1 && multiset(Handshake(s))[Initialized] == 1
  {
    var c, cfg := Checks(s), Config(s);
    assert Initialize !in c && Initialized !in c && Initialize !in cfg && Initialized !in cfg;
    assert multiset(Handshake(s)) == multiset([StartDispatch, Initialize]) + multiset(c)
                                     + multiset([Initialized]) + multiset(cfg);
  }

  /** No teardown event belongs to the handshake. */
  lemma HandshakeExcludesTeardown(s: Setup, e: LifecycleEvent)
    requires e in Teardown
    ensures e !in Handshake(s)
  {
    assert e != StartDispatch && e != Initialize && e != Initialized && e !in Checks(s) && e !in Config(s);
  }

  /** `e` occurs in `t` exactly once. */
  predicate Once(t: seq<LifecycleEvent>, e: LifecycleEvent) {
    multiset(t)[e] == 1
  }

  /** Some `a` in `t` comes before some `b`. */
  predicate Precedes(t: seq<LifecycleEvent>, a: LifecycleEvent, b: LifecycleEvent) {
    exists i, j :: 0 <= i < j < |t| && t[i] == a && t[j] == b
  }

  /** The handshake and teardown events of a managed session, each once and in protocol order. */
  predicate HandshakeOrdered(t: seq<LifecycleEvent>) {
    && Once(t, Initialize) && Once(t, Initialized) && Once(t, RunBody)
    && Once(t, Drain) && Once(t, Shutdown) && Once(t, Exit)
    && Precedes(t, StartDispatch, Initialize)
    && Precedes(t, Initialize, Initialized)
    && Precedes(t, Initialized, RunBody)
    && Precedes(t, RunBody, Drain)
    && Precedes(t, Drain, Shutdown)
    && Precedes(t, Shutdown, Exit)
    && t[|t| - 1] == Exit
  }

  /** A handshake with initialize and initialized once each, followed by the teardown, is ordered. */
  lemma OrderedFromParts(h: seq<LifecycleEvent>, n: nat)
    requires 2 + n < |h|
    requires h[0] == StartDispatch && h[1] == Initialize && h[2 + n] == Initialized
    requires multiset(h)[Initialize] == 1 && multiset(h)[Initialized] == 1
    requires RunBody !in h && Drain !in h && Shutdown !in h && Exit !in h
    ensures HandshakeOrdered(h + Teardown)
  {
    var t := h + Teardown;
    assert multiset(t) == multiset(h) + multiset(Teardown);
    assert t[0] == StartDispatch && t[1] == Initialize && t[2 + n] == Initialized;
    assert t[|h|] == RunBody && t[|h| + 1] == Drain && t[|h| + 2] == Shutdown && t[|h| + 3] == Exit;
  }

  /** The configuration push follows initialized in a session exactly when the handshake holds it. */
  lemma ConfigFromParts(h: seq<LifecycleEvent>, n: nat, withConfig: bool)
    requires 2 + n < |h| && h[2 + n] == Initialized
    requires PushConfig in h <==> withConfig
    requires withConfig ==> 3 + n < |h| && h[3 + n] == PushConfig
    ensures withConfig <==> Precedes(h + Teardown, Initialized, PushConfig)
  {
    var t := h + Teardown;
    if withConfig {
      assert t[2 + n] == Initialized && t[3 + n] == PushConfig;
    } else {
      assert forall j :: 0 <= j < |t| ==> t[j] != PushConfig by {
        forall j | 0 <= j < |t|
          ensures t[j] != PushConfig
        {
          if j < |h| {
            assert t[j] == h[j];
          }
        }
      }
    }
  }

  /**
   * A managed session whose server started and whose checks pass sends
   * initialize, initialized, runs the body, drains, and sends shutdown and
   * exit, each once and in this order, whether or not the body raised; the
   * configuration is pushed after initialized exactly when there is one.
   */
  lemma ManagedOrder(s: Setup)
    requires ChecksPass(s)
    ensures HandshakeOrdered(RunSession(Managed, true, s).events)
    ensures RunSession(Managed, true, s).ok == !s.bodyRaises
    ensures s.hasConfig <==> Precedes(RunSession(Managed, true, s).events, Initialized, PushConfig)
  {
    var h, n := Handshake(s), |Checks(s)|;
    var t := h + Teardown;
    assert RunSession(Managed, true, s).events == t;
    HandshakePositions(s);
    HandshakeCounts(s);
    HandshakeExcludesTeardown(s, RunBody);
    HandshakeExcludesTeardown(s, Drain);
    HandshakeExcludesTeardown(s, Shutdown);
    HandshakeExcludesTeardown(s, Exit);
    OrderedFromParts(h, n);
    ConfigFromParts(h, n, s.hasConfig);
  }

  /**
   * A failing server check aborts a managed session after initialize:
   * initialized is never sent, the body never runs, and neither shutdown
   * nor exit follows.
   */
  lemma FailedCheckAborts(s: Setup)
    requires !ChecksPass(s)
    ensures
      var r := RunSession(Managed, true, s);
      && !r.ok
      && Initialize in r.events
      && Initialized !in r.events && RunBody !in r.events
      && Shutdown !in r.events && Exit !in r.events
  {
    var t := RunSession(Managed, true, s).events;
    assert t == [StartDispatch, Initialize] + Checks(s);
    assert forall e :: e in Checks(s) ==> e == CheckCompatibility || e == CheckCapabilities;
  }

  /** Server checks run only when assertions are on. */
  lemma ChecksOnlyInDebug(mode: Mode, serverStarted: bool, s: Setup)
    requires !s.debug
    ensures
      var t := RunSession(mode, serverStarted, s).events;
      CheckCompatibility !in t && CheckCapabilities !in t
  {
  }

  /** An unmanaged session sends none of initialize, initialized, shutdown or exit. */
  lemma UnmanagedSkipsHandshake(serverStarted: bool, s: Setup)
    ensures
      var t := RunSession(Unmanaged, serverStarted, s).events;
      && Initialize !in t && Initialized !in t && Shutdown !in t && Exit !in t
      && (RunBody in t <==> serverStarted)
  {
  }
}
