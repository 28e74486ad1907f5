/**
 * The document state manager of the client: a map from document URI to the
 * document's text and version, and a reference count per URI that says how
 * many scoped openers still hold the document open.
 *
 * The implementation raises `KeyError` for an unknown URI (and for a
 * second registration) while its tests and its callers expect `None`. Both
 * readings agree that the manager is left as it was, which is what the
 * `Step` results below state: an `Err` outcome of a lookup, a registration
 * or an update carries the input manager unchanged. The one exception is
 * `open`, which counts the URIs before it reads them, so a failing read
 * leaves the new counts behind.
 */
module DocumentState {
  import opened Wrappers

  type Uri = string

  /** One open document: its current text and version number. */
  datatype DocState = DocState(content: string, version: int)

  /**
   * Why a lookup or a registration was refused, or why an open raised:
   * `Unreadable` lists the new URIs whose file could not be read or decoded
   * as UTF-8.
   */
  datatype DocError = NotFound(uri: Uri) | AlreadyRegistered(uri: Uri) | Unreadable(uris: set<Uri>)

  /**
   * `states` maps each tracked URI to its document; `refCounts` is the
   * `collections.Counter` of openers, so a missing key reads as 0.
   */
  datatype Manager = Manager(states: map<Uri, DocState>, refCounts: map<Uri, int>)

  /** The manager after an operation, and what the operation returned. */
  datatype Step<T> = Step(next: Manager, out: Result<T, DocError>)

  /** A new manager tracks nothing. */
  const Empty: Manager := Manager(map[], map[])

  /**
   * The manager's invariant: a URI has a state exactly when it has a count,
   * and every count is at least 1.
   */
  ghost predicate Valid(m: Manager) {
    && m.states.Keys == m.refCounts.Keys
    && forall u :: u in m.refCounts ==> m.refCounts[u] >= 1
  }

  /** `Counter.__getitem__`: a missing key counts 0. */
  function Count(counts: map<Uri, int>, u: Uri): int {
    if u in counts then counts[u] else 0
  }

  /** The set of URIs listed in `uris`. */
  function Listed(uris: seq<Uri>): set<Uri> {
    set u | u in uris
  }

  /** `n`, negated unless `up`. */
  function Signed(n: nat, up: bool): int {
    if up then n else -(n as int)
  }

  /**
   * `Counter.update(uris)` (`up`) and `Counter.subtract(uris)` (not `up`):
   * one step of 1 per listed element, left to right, creating missing keys.
   */
  function Bump(counts: map<Uri, int>, uris: seq<Uri>, up: bool): (r: map<Uri, int>)
    ensures r.Keys == counts.Keys + Listed(uris)
    ensures forall u :: Count(r, u) == Count(counts, u) + Signed(multiset(uris)[u], up)
    decreases |uris|
  {
    if |uris| == 0 then counts
    else
      var u := uris[0];
      assert uris == [u] + uris[1..];
      Bump(counts[u := Count(counts, u) + Signed(1, up)], uris[1..], up)
  }

  /** The URIs of `uris` whose count is at most zero. */
  function Exhausted(counts: map<Uri, int>, uris: seq<Uri>): set<Uri> {
    set u | u in uris && Count(counts, u) <= 0
  }

  /** No URI occurs twice. */
  predicate Distinct(s: seq<Uri>) {
    forall i, j :: 0 <= i < j < |s| ==> s[i] != s[j]
  }

  /**
   * The eviction loop of `close`, run after the counts were decremented:
   * for each URI in order, a count at most zero deletes the count and the
   * state, and a URI whose state was deleted is reported once.
   */
  function Evict(counts: map<Uri, int>, states: map<Uri, DocState>, uris: seq<Uri>)
    : (r: (map<Uri, int>, map<Uri, DocState>, seq<Uri>))
    ensures r.0 == counts - Exhausted(counts, uris)
    ensures r.1 == states - Exhausted(counts, uris)
    ensures forall u :: u in r.2 <==> u in Exhausted(counts, uris) && u in states
    ensures Distinct(r.2)
    decreases |uris|
  {
    if |uris| == 0 then (counts, states, [])
    else
      var u := uris[0];
      assert Listed(uris) == {u} + Listed(uris[1..]);
      if Count(counts, u) <= 0 then
        var rest := Evict(counts - {u}, states - {u}, uris[1..]);
        assert Exhausted(counts, uris) == {u} + Exhausted(counts - {u}, uris[1..]);
        if u in states then (rest.0, rest.1, [u] + rest.2)
        else rest
      else
        var rest := Evict(counts, states, uris[1..]);
        assert Exhausted(counts, uris) == Exhausted(counts, uris[1..]);
        rest
  }

  /** The URIs `close(uris)` evicts: those whose count drops to zero or below. */
  function Evicted(m: Manager, uris: seq<Uri>): set<Uri> {
    set u | u in uris && Count(m.refCounts, u) - multiset(uris)[u] <= 0
  }

  /** The listed URIs not yet tracked whose file cannot be read. */
  function Failing(m: Manager, uris: seq<Uri>, read: Uri -> Option<string>): (f: set<Uri>)
    ensures forall u :: u in f <==> u in uris && u !in m.states && read(u).None?
  {
    set u | u in uris && u !in m.states && read(u).None?
  }

  /** The states `open` creates when every new URI could be read. */
  function Created(m: Manager, uris: seq<Uri>, read: Uri -> Option<string>): (c: map<Uri, DocState>)
    requires Failing(m, uris, read) == {}
    ensures c.Keys == Listed(uris) - m.states.Keys
    ensures forall u :: u in c ==> read(u) == Some(c[u].content) && c[u].version == 0
  {
    assert forall u :: u in uris && u !in m.states ==> read(u).Some? by {
      forall u | u in uris && u !in m.states ensures read(u).Some? {
        assert u !in Failing(m, uris, read);
      }
    }
    map u | u in uris && u !in m.states :: DocState(read(u).value, 0)
  }

  /**
   * `open(uris)`: every listed URI gains one count per occurrence, and each
   * URI not yet tracked is read (through `read`, `None` when reading or
   * decoding the file raises) and tracked at version 0. A URI listed twice
   * is read twice, to the same result. Returns the newly created states
   * only. If any read fails, the open raises after the counts were raised
   * and before any state was stored.
   */
  function Open(m: Manager, uris: seq<Uri>, read: Uri -> Option<string>): (r: Step<map<Uri, DocState>>)
    ensures forall u :: Count(r.next.refCounts, u) == Count(m.refCounts, u) + multiset(uris)[u]
    ensures r.next.refCounts.Keys == m.refCounts.Keys + Listed(uris)
    ensures r.out.Err? <==> exists u :: u in uris && u !in m.states && read(u).None?
    ensures r.out.Err? ==>
      && r.out.error.Unreadable?
      && (forall u :: u in r.out.error.uris <==> u in uris && u !in m.states && read(u).None?)
      && r.next.states == m.states
    ensures r.out.Ok? ==>
      && r.out.value.Keys == Listed(uris) - m.states.Keys
      && (forall u :: u in r.out.value ==> read(u) == Some(r.out.value[u].content) && r.out.value[u].version == 0)
      && r.next.states == m.states + r.out.value
    ensures r.out.Ok? && Valid(m) ==> Valid(r.next)
  {
    var counts := Bump(m.refCounts, uris, true);
    var failed := Failing(m, uris, read);
    if failed != {} then
      Step(Manager(m.states, counts), Err(Unreadable(failed)))
    else
      var created := Created(m, uris, read);
      OpenValid(m, uris, counts, created);
      Step(Manager(m.states + created, counts), Ok(created))
  }

  /** Counting every listed URI and creating a state for each new one keeps a manager valid. */
  lemma OpenValid(m: Manager, uris: seq<Uri>, counts: map<Uri, int>, created: map<Uri, DocState>)
    requires counts.Keys == m.refCounts.Keys + Listed(uris)
    requires forall u :: Count(counts, u) == Count(m.refCounts, u) + multiset(uris)[u]
    requires created.Keys == Listed(uris) - m.states.Keys
    ensures Valid(m) ==> Valid(Manager(m.states + created, counts))
  {
    if Valid(m) {
      forall u | u in counts ensures counts[u] >= 1 {
        assert counts[u] == Count(counts, u) == Count(m.refCounts, u) + multiset(uris)[u];
        if u in m.refCounts {
          assert Count(m.refCounts, u) >= 1;
        } else {
          assert u in Listed(uris);
          assert multiset(uris)[u] >= 1;
        }
      }
    }
  }

  /**
   * `close(uris)`: every listed URI loses one count per occurrence; a URI
   * whose count is then at most zero loses both its count and its state.
   * Returns the new manager and, without duplicates, the URIs whose state
   * was removed.
   */
  function Close(m: Manager, uris: seq<Uri>): (r: (Manager, seq<Uri>))
    ensures r.0.states == m.states - Evicted(m, uris)
    ensures forall u :: u in r.0.refCounts <==>
      (u in m.refCounts || u in uris) && u !in Evicted(m, uris)
    ensures forall u :: u in r.0.refCounts ==>
      r.0.refCounts[u] == Count(m.refCounts, u) - multiset(uris)[u]
    ensures forall u :: u in r.1 <==> u in Evicted(m, uris) && u in m.states
    ensures Distinct(r.1)
    ensures Valid(m) ==> Valid(r.0)
  {
    var counts := Bump(m.refCounts, uris, false);
    assert Exhausted(counts, uris) == Evicted(m, uris);
    var e := Evict(counts, m.states, uris);
    (Manager(e.1, e.0), e.2)
  }

  /**
   * `register(uri, content, version)`: tracks an untracked URI with exactly
   * that content and version and a count of 1; a tracked URI is refused.
   */
  function Register(m: Manager, uri: Uri, content: string, version: int): (r: Step<()>)
    ensures r.out.Ok? <==> uri !in m.states
    ensures r.out.Err? ==> r.out.error == AlreadyRegistered(uri) && r.next == m
    ensures r.out.Ok? ==>
      && uri in r.next.states && r.next.states[uri] == DocState(content, version)
      && Count(r.next.refCounts, uri) == 1
    ensures forall u :: u != uri ==>
      (u in r.next.states <==> u in m.states) && Count(r.next.refCounts, u) == Count(m.refCounts, u)
    ensures forall u :: u != uri && u in m.states ==> r.next.states[u] == m.states[u]
    ensures Valid(m) ==> Valid(r.next)
  {
    if uri in m.states then Step(m, Err(AlreadyRegistered(uri)))
    else Step(Manager(m.states[uri := DocState(content, version)], m.refCounts[uri := 1]), Ok(()))
  }

  /** `unregister(uri)`: forgets a tracked URI's state and count; an untracked URI is refused. */
  function Unregister(m: Manager, uri: Uri): (r: Step<()>)
    ensures r.out.Ok? <==> uri in m.states
    ensures r.out.Err? ==> r.out.error == NotFound(uri) && r.next == m
    ensures r.out.Ok? ==> uri !in r.next.states && uri !in r.next.refCounts
    ensures forall u :: u != uri ==>
      (u in r.next.states <==> u in m.states) && Count(r.next.refCounts, u) == Count(m.refCounts, u)
    ensures forall u :: u != uri && u in m.states ==> r.next.states[u] == m.states[u]
    ensures Valid(m) ==> Valid(r.next)
  {
    if uri in m.states then Step(Manager(m.states - {uri}, m.refCounts - {uri}), Ok(()))
    else Step(m, Err(NotFound(uri)))
  }

  /** `get_version(uri)`. */
  function GetVersion(m: Manager, uri: Uri): (r: Result<int, DocError>)
    ensures r.Ok? <==> uri in m.states
    ensures r.Err? ==> r.error == NotFound(uri)
  {
    if uri in m.states then Ok(m.states[uri].version) else Err(NotFound(uri))
  }

  /** `get_content(uri)`. */
  function GetContent(m: Manager, uri: Uri): (r: Result<string, DocError>)
    ensures r.Ok? <==> uri in m.states
    ensures r.Err? ==> r.error == NotFound(uri)
  {
    if uri in m.states then Ok(m.states[uri].content) else Err(NotFound(uri))
  }

  /**
   * `increment_version(uri)`: the version of a tracked URI grows by one and
   * its content stays; nothing else changes. Returns the new version.
   */
  function IncrementVersion(m: Manager, uri: Uri): (r: Step<int>)
    ensures r.out.Ok? <==> uri in m.states
    ensures r.out.Err? ==> r.out.error == NotFound(uri) && r.next == m
    ensures r.out.Ok? ==>
      && r.out.value == m.states[uri].version + 1
      && r.next.states == m.states[uri := DocState(m.states[uri].content, r.out.value)]
      && r.next.refCounts == m.refCounts
    ensures Valid(m) ==> Valid(r.next)
  {
    if uri in m.states then
      var s := m.states[uri];
      Step(Manager(m.states[uri := DocState(s.content, s.version + 1)], m.refCounts), Ok(s.version + 1))
    else Step(m, Err(NotFound(uri)))
  }

  /**
   * `update_content(uri, content)`: a tracked URI takes the new content and
   * its version grows by one; nothing else changes. Returns the new version.
   */
  function UpdateContent(m: Manager, uri: Uri, content: string): (r: Step<int>)
    ensures r.out.Ok? <==> uri in m.states
    ensures r.out.Err? ==> r.out.error == NotFound(uri) && r.next == m
    ensures r.out.Ok? ==>
      && r.out.value == m.states[uri].version + 1
      && r.next.states == m.states[uri := DocState(content, r.out.value)]
      && r.next.refCounts == m.refCounts
    ensures Valid(m) ==> Valid(r.next)
  {
    if uri in m.states then
      var v := m.states[uri].version + 1;
      Step(Manager(m.states[uri := DocState(content, v)], m.refCounts), Ok(v))
    else Step(m, Err(NotFound(uri)))
  }

  // ---------------------------------------------------------------------------
  // Properties relating several operations
  // ---------------------------------------------------------------------------

  /** What `register` stored is what `get_version` and `get_content` report. */
  lemma RegisterThenGet(m: Manager, uri: Uri, content: string, version: int)
    requires uri !in m.states
    ensures GetVersion(Register(m, uri, content, version).next, uri) == Ok(version)
    ensures GetContent(Register(m, uri, content, version).next, uri) == Ok(content)
  {
  }

  /** `unregister` undoes `register` on a valid manager. */
  lemma RegisterUnregister(m: Manager, uri: Uri, content: string, version: int)
    requires Valid(m) && uri !in m.states
    ensures Unregister(Register(m, uri, content, version).next, uri).next == m
  {
    var m1 := Register(m, uri, content, version).next;
    var m2 := Unregister(m1, uri).next;
    assert uri !in m.refCounts;
    assert m2.states == m.states;
    assert m2.refCounts == m.refCounts;
  }

  /** A second registration of a URI fails and keeps the first one's content. */
  lemma RegisterTwice(m: Manager, uri: Uri, c1: string, c2: string, v1: int, v2: int)
    ensures
      var m1 := Register(m, uri, c1, v1).next;
      var again := Register(m1, uri, c2, v2);
      again.out.Err? && GetContent(again.next, uri) == GetContent(m1, uri)
  {
  }

  /** `update_content` then `get_*`: the new text, one version later. */
  lemma UpdateThenGet(m: Manager, uri: Uri, content: string)
    requires uri in m.states
    ensures
      var s := UpdateContent(m, uri, content);
      && GetVersion(s.next, uri) == Ok(m.states[uri].version + 1)
      && GetContent(s.next, uri) == Ok(content)
      && forall u :: u != uri ==>
        (GetContent(s.next, u) == GetContent(m, u) && GetVersion(s.next, u) == GetVersion(m, u))
  {
  }

  /** `increment_version` then `get_*`: the same text, one version later. */
  lemma IncrementThenGet(m: Manager, uri: Uri)
    requires uri in m.states
    ensures
      var s := IncrementVersion(m, uri);
      && GetVersion(s.next, uri) == Ok(m.states[uri].version + 1)
      && GetContent(s.next, uri) == GetContent(m, uri)
  {
  }

  /** Every operation on an unknown URI is refused and changes nothing. */
  lemma UnknownUri(m: Manager, uri: Uri, content: string)
    requires uri !in m.states
    ensures GetVersion(m, uri) == Err(NotFound(uri))
    ensures GetContent(m, uri) == Err(NotFound(uri))
    ensures IncrementVersion(m, uri) == Step(m, Err(NotFound(uri)))
    ensures UpdateContent(m, uri, content) == Step(m, Err(NotFound(uri)))
    ensures Unregister(m, uri) == Step(m, Err(NotFound(uri)))
  {
  }

  /**
   * Opening one URI: a tracked URI is only counted; a new one is read and
   * tracked, or, when it cannot be read, the open raises and leaves it
   * counted without a state.
   */
  lemma OpenOne(m: Manager, uri: Uri, read: Uri -> Option<string>)
    ensures Open(m, [uri], read).out ==
      if uri in m.states then Ok(map[])
      else if read(uri).None? then Err(Unreadable({uri}))
      else Ok(map[uri := DocState(read(uri).value, 0)])
    ensures Count(Open(m, [uri], read).next.refCounts, uri) == Count(m.refCounts, uri) + 1
    ensures uri in Open(m, [uri], read).next.states <==> uri in m.states || read(uri).Some?
  {
    assert multiset([uri])[uri] == 1;
    assert Listed([uri]) == {uri};
    if uri in m.states {
      assert Failing(m, [uri], read) == {};
      assert Created(m, [uri], read) == map[];
    } else if read(uri).None? {
      assert Failing(m, [uri], read) == {uri};
    } else {
      assert Failing(m, [uri], read) == {};
      var created := Created(m, [uri], read);
      assert created.Keys == {uri};
      assert created == map[uri := DocState(read(uri).value, 0)];
    }
  }

  /** Closing one URI: kept while its count stays positive, evicted and reported otherwise. */
  lemma CloseOne(m: Manager, uri: Uri)
    requires uri in m.states
    ensures Close(m, [uri]).1 == (if Count(m.refCounts, uri) > 1 then [] else [uri])
    ensures Count(m.refCounts, uri) > 1 ==>
      uri in Close(m, [uri]).0.states && Count(Close(m, [uri]).0.refCounts, uri) == Count(m.refCounts, uri) - 1
    ensures Count(m.refCounts, uri) <= 1 ==>
      uri !in Close(m, [uri]).0.states && uri !in Close(m, [uri]).0.refCounts
  {
    assert multiset([uri])[uri] == 1;
    assert [uri][1..] == [];
    var counts := Bump(m.refCounts, [uri], false);
    assert Count(counts, uri) == Count(m.refCounts, uri) - 1;
    var e := Evict(counts, m.states, [uri]);
    if Count(counts, uri) <= 0 {
      assert e.2 == [uri] + Evict(counts - {uri}, m.states - {uri}, []).2;
    } else {
      assert e.2 == Evict(counts, m.states, []).2;
    }
  }

  /**
   * Reference counting of one readable URI: opening it twice reads it once
   * and counts 2; the first close keeps it, the second close evicts it and
   * reports it.
   */
  lemma OpenTwiceCloseTwice(m: Manager, uri: Uri, read: Uri -> Option<string>)
    requires Valid(m) && uri !in m.states && read(uri).Some?
    ensures
      var s1 := Open(m, [uri], read);
      var s2 := Open(s1.next, [uri], read);
      var (m3, closed3) := Close(s2.next, [uri]);
      var (m4, closed4) := Close(m3, [uri]);
      && s1.out == Ok(map[uri := DocState(read(uri).value, 0)])
      && s2.out == Ok(map[])
      && Count(s2.next.refCounts, uri) == 2
      && closed3 == [] && uri in m3.states && Count(m3.refCounts, uri) == 1
      && closed4 == [uri] && uri !in m4.states && uri !in m4.refCounts
  {
    assert uri !in m.refCounts;
    var s1 := Open(m, [uri], read);
    OpenOne(m, uri, read);
    var s2 := Open(s1.next, [uri], read);
    OpenOne(s1.next, uri, read);
    var (m3, closed3) := Close(s2.next, [uri]);
    CloseOne(s2.next, uri);
    CloseOne(m3, uri);
  }

  /**
   * After a scoped open that succeeded, the URIs a matching close evicts
   * are exactly the ones the open created.
   */
  lemma EvictedAfterOpen(m: Manager, uris: seq<Uri>, read: Uri -> Option<string>)
    requires Valid(m)
    ensures Open(m, uris, read).out.Ok? ==>
      Evicted(Open(m, uris, read).next, uris) == Open(m, uris, read).out.value.Keys
  {
    var s := Open(m, uris, read);
    if s.out.Ok? {
      forall u | u in uris
        ensures u in Evicted(s.next, uris) <==> u in s.out.value
      {
        assert Count(s.next.refCounts, u) - multiset(uris)[u] == Count(m.refCounts, u);
      }
    }
  }

  /**
   * A scoped open that succeeded, followed by a close of the same URIs,
   * leaves a valid manager exactly as it was, and the URIs reported closed
   * are exactly the ones the open created.
   */
  lemma OpenThenCloseRestores(m: Manager, uris: seq<Uri>, read: Uri -> Option<string>)
    requires Valid(m)
    ensures
      var s := Open(m, uris, read);
      var (m2, closed) := Close(s.next, uris);
      s.out.Ok? ==> m2 == m && forall u :: u in closed <==> u in s.out.value
  {
    var s := Open(m, uris, read);
    if s.out.Ok? {
      var (m2, closed) := Close(s.next, uris);
      StatesRestored(m, uris, read);
      EvictedAfterOpen(m, uris, read);
      CountsRestored(m.refCounts, s.next.refCounts, m2.refCounts, uris, Evicted(s.next, uris));
    }
  }

  /** The states after a successful scoped open and its close are those before it. */
  lemma StatesRestored(m: Manager, uris: seq<Uri>, read: Uri -> Option<string>)
    requires Valid(m)
    ensures Open(m, uris, read).out.Ok? ==> Close(Open(m, uris, read).next, uris).0.states == m.states
  {
    EvictedAfterOpen(m, uris, read);
  }

  /**
   * A failing open leaves every new URI counted but without a state, so the
   * manager invariant no longer holds.
   */
  lemma FailedOpenLeaks(m: Manager, uris: seq<Uri>, read: Uri -> Option<string>)
    requires Valid(m)
    ensures
      var s := Open(m, uris, read);
      s.out.Err? ==>
        && (forall u :: u in uris && u !in m.states ==> u in s.next.refCounts && u !in s.next.states)
        && !Valid(s.next)
  {
    var s := Open(m, uris, read);
    if s.out.Err? {
      var u :| u in uris && u !in m.states && read(u).None?;
      assert u in s.next.refCounts && u !in s.next.states;
    }
  }

  /**
   * Nothing closes after a failing open, so a document whose first open
   * failed stays counted: a later open and close of it that both succeed
   * leave it tracked with a count of 1, and the close reports nothing.
   */
  lemma LeakOutlivesScope(m: Manager, uri: Uri, bad: Uri -> Option<string>, good: Uri -> Option<string>)
    requires Valid(m) && uri !in m.states
    requires bad(uri).None? && good(uri).Some?
    ensures
      var s1 := Open(m, [uri], bad);
      var s2 := Open(s1.next, [uri], good);
      var (m3, closed) := Close(s2.next, [uri]);
      && s1.out.Err? && s2.out.Ok?
      && closed == [] && uri in m3.states && Count(m3.refCounts, uri) == 1
  {
    assert uri !in m.refCounts;
    var s1 := Open(m, [uri], bad);
    OpenOne(m, uri, bad);
    OpenOne(s1.next, uri, good);
    CloseOne(Open(s1.next, [uri], good).next, uri);
  }

  /**
   * Counts raised once per listed occurrence and then lowered the same way,
   * dropping exactly the URIs that had no count before, are as they were.
   */
  lemma CountsRestored(before: map<Uri, int>, raised: map<Uri, int>, closed: map<Uri, int>,
                       uris: seq<Uri>, evicted: set<Uri>)
    requires forall u :: u in before ==> before[u] >= 1
    requires raised.Keys == before.Keys + Listed(uris)
    requires forall u :: Count(raised, u) == Count(before, u) + multiset(uris)[u]
    requires evicted == Listed(uris) - before.Keys
    requires forall u :: u in closed <==> (u in raised || u in uris) && u !in evicted
    requires forall u :: u in closed ==> closed[u] == Count(raised, u) - multiset(uris)[u]
    ensures closed == before
  {
    assert closed.Keys == before.Keys;
  }
}
