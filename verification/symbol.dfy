/**
 * The document-symbol tree a server reports for a file, addressed by name
 * paths. A path formats as its names joined with `.`; `at` follows a path
 * from the root, taking the first child with each name; `iter_dfs` walks
 * the tree in pre-order with an explicit stack, `iter_bfs` in level order
 * with a queue; `flatten` maps every node's name path to the node.
 */
module Symbol {
  import opened Wrappers
  import Strings
  import Sequences

  /** A `DocumentSymbol`: a missing children list is the empty one. */
  datatype Symbol = Symbol(name: string, kind: nat, children: seq<Symbol>)

  /** A `DocumentSymbolPath`: the names from the root down. */
  type SymbolPath = seq<string>

  /** `path.format()`. */
  function Format(path: SymbolPath): string {
    Strings.Join(path, '.')
  }

  /** `path / name`: the same names with one more at the end. */
  function Div(path: SymbolPath, name: string): (r: SymbolPath)
    ensures |r| == |path| + 1 && r[..|path|] == path && r[|path|] == name
  {
    path + [name]
  }

  /** A path whose names hold no `.` is recovered from its formatted form. */
  lemma FormatRoundTrip(path: SymbolPath)
    requires |path| >= 1 && Strings.FreeOf(path, '.')
    ensures Strings.Split(Format(path), '.') == path
  {
    Strings.SplitJoin(path, '.');
  }

  /** Formatting `path / name` appends `.` and the name. */
  lemma FormatDiv(path: SymbolPath, name: string)
    requires |path| >= 1
    ensures Format(Div(path, name)) == Format(path) + "." + name
  {
    Strings.JoinSnoc(path, name, '.');
  }

  // ---------------------------------------------------------------------
  // Lookup by path

  /** The position of the first child called `name`, or `|children|` when there is none. */
  function FirstIndex(children: seq<Symbol>, name: string): (k: nat)
    ensures k <= |children|
    ensures k < |children| ==> children[k].name == name
    ensures forall i :: 0 <= i < k ==> children[i].name != name
    decreases |children|
  {
    if |children| == 0 then 0
    else if children[0].name == name then 0
    else 1 + FirstIndex(children[1..], name)
  }

  /** `next((c for c in children if c.name == name), None)`. */
  function FirstChild(children: seq<Symbol>, name: string): Option<Symbol> {
    var k := FirstIndex(children, name);
    if k < |children| then Some(children[k]) else None
  }

  /** The loop of `at`: from `node`, take the first child with each name in turn. */
  function Follow(node: Symbol, names: SymbolPath): Option<Symbol>
    decreases |names|
  {
    if |names| == 0 then Some(node)
    else match FirstChild(node.children, names[0])
      case None => None
      case Some(child) => Follow(child, names[1..])
  }

  /** `hierarchy.at(path)`: none for an empty path or one not starting at the root's name. */
  function At(root: Symbol, path: SymbolPath): (r: Option<Symbol>)
    ensures |path| == 0 || path[0] != root.name ==> r.None?
    ensures path == [root.name] ==> r == Some(root)
  {
    if |path| == 0 || path[0] != root.name then None else Follow(root, path[1..])
  }

  /** One more name takes the first child of that name of the node found so far. */
  lemma {:induction false} FollowSnoc(node: Symbol, names: SymbolPath, name: string)
    ensures Follow(node, names + [name])
      == match Follow(node, names) case None => None case Some(n) => FirstChild(n.children, name)
    decreases |names|
  {
    if |names| == 0 {
      assert names + [name] == [name];
      assert ([name])[1..] == [];
    } else {
      assert (names + [name])[0] == names[0];
      assert (names + [name])[1..] == names[1..] + [name];
      match FirstChild(node.children, names[0])
      case None =>
      case Some(child) => FollowSnoc(child, names[1..], name);
    }
  }

  /** `at(path / name)` is the first child called `name` of `at(path)`, or none. */
  lemma AtDiv(root: Symbol, path: SymbolPath, name: string)
    requires |path| >= 1
    ensures At(root, Div(path, name))
      == match At(root, path) case None => None case Some(n) => FirstChild(n.children, name)
  {
    assert Div(path, name)[0] == path[0];
    assert Div(path, name)[1..] == path[1..] + [name];
    FollowSnoc(root, path[1..], name);
  }

  // ---------------------------------------------------------------------
  // Depth-first traversal

  function Size(t: Symbol): nat
    decreases t
  {
    1 + SizeAll(t.children)
  }

  function SizeAll(ts: seq<Symbol>): nat
    decreases ts
  {
    if |ts| == 0 then 0 else Size(ts[0]) + SizeAll(ts[1..])
  }

  /** The nodes of `t` in pre-order, children left to right. */
  function PreOrder(t: Symbol): (r: seq<Symbol>)
    ensures |r| == Size(t) && r[0] == t
    decreases t
  {
    [t] + PreOrders(t.children)
  }

  /** The pre-orders of the trees of `ts`, one after another. */
  function PreOrders(ts: seq<Symbol>): (r: seq<Symbol>)
    ensures |r| == SizeAll(ts)
    decreases ts
  {
    if |ts| == 0 then [] else PreOrder(ts[0]) + PreOrders(ts[1..])
  }

  lemma {:induction false} PreOrdersAppend(a: seq<Symbol>, b: seq<Symbol>)
    ensures PreOrders(a + b) == PreOrders(a) + PreOrders(b)
    decreases |a|
  {
    if |a| == 0 {
      assert a + b == b;
    } else {
      assert (a + b)[0] == a[0];
      assert (a + b)[1..] == a[1..] + b;
      PreOrdersAppend(a[1..], b);
    }
  }

  /**
   * `iter_dfs()`: pop the last node of the stack, yield it, push its
   * children in reverse so that the first child is popped next. The nodes
   * come out in pre-order.
   */
  method IterDfs(root: Symbol) returns (out: seq<Symbol>)
    ensures out == PreOrder(root)
  {
    var stack := [root];
    out := [];
    while |stack| > 0
      invariant out + PreOrders(Sequences.Reverse(stack)) == PreOrder(root)
      decreases |PreOrder(root)| - |out|
    {
      var rest, node := stack[..|stack| - 1], stack[|stack| - 1];
      assert stack == rest + [node];
      PopStep(rest, node);
      assert out + ([node] + PreOrders(Sequences.Reverse(rest + Sequences.Reverse(node.children))))
        == (out + [node]) + PreOrders(Sequences.Reverse(rest + Sequences.Reverse(node.children)));
      out := out + [node];
      stack := rest + Sequences.Reverse(node.children);
    }
    assert Sequences.Reverse(stack) == [];
    assert out + [] == out;
  }

  /** One turn of the stack loop: the popped node, then its subtrees, then what was below it. */
  lemma PopStep(rest: seq<Symbol>, node: Symbol)
    ensures PreOrders(Sequences.Reverse(rest + [node]))
      == [node] + PreOrders(Sequences.Reverse(rest + Sequences.Reverse(node.children)))
  {
    var cs, below := node.children, Sequences.Reverse(rest);
    assert Sequences.Reverse(rest + [node]) == [node] + below by {
      Sequences.ReverseAppend(rest, [node]);
      assert Sequences.Reverse([node]) == [node];
    }
    assert Sequences.Reverse(rest + Sequences.Reverse(cs)) == cs + below by {
      Sequences.ReverseAppend(rest, Sequences.Reverse(cs));
      Sequences.ReverseReverse(cs);
    }
    PreOrdersCons(node, below);
    PreOrdersAppend(cs, below);
  }

  /** The pre-orders of a node followed by more trees. */
  lemma PreOrdersCons(t: Symbol, ts: seq<Symbol>)
    ensures PreOrders([t] + ts) == [t] + PreOrders(t.children + ts)
  {
    assert ([t] + ts)[0] == t && ([t] + ts)[1..] == ts;
    PreOrdersAppend(t.children, ts);
  }

  // ---------------------------------------------------------------------
  // Breadth-first traversal

  /** The children of every node of `level`, in order: the next level. */
  function Kids(level: seq<Symbol>): (r: seq<Symbol>)
    ensures SizeAll(level) == |level| + SizeAll(r)
    decreases |level|
  {
    if |level| == 0 then []
    else
      var rest := Kids(level[1..]);
      SizeAllAppend(level[0].children, rest);
      level[0].children + rest
  }

  lemma {:induction false} SizeAllAppend(a: seq<Symbol>, b: seq<Symbol>)
    ensures SizeAll(a + b) == SizeAll(a) + SizeAll(b)
    decreases |a|
  {
    if |a| == 0 {
      assert a + b == b;
    } else {
      assert (a + b)[0] == a[0];
      assert (a + b)[1..] == a[1..] + b;
      SizeAllAppend(a[1..], b);
    }
  }

  /** The reference level order: a level, then the level order of the next one. */
  function LevelOrder(level: seq<Symbol>): (r: seq<Symbol>)
    decreases SizeAll(level)
  {
    if |level| == 0 then [] else level + LevelOrder(Kids(level))
  }

  /**
   * `iter_bfs()`: pop the first node of the queue, yield it, append its
   * children to the queue.
   */
  function IterBfs(queue: seq<Symbol>): (r: seq<Symbol>)
    ensures |r| == SizeAll(queue)
    decreases SizeAll(queue)
  {
    if |queue| == 0 then []
    else
      SizeAllAppend(queue[1..], queue[0].children);
      assert SizeAll(queue) == 1 + SizeAll(queue[0].children) + SizeAll(queue[1..]);
      [queue[0]] + IterBfs(queue[1..] + queue[0].children)
  }

  /** Whatever follows a run of nodes in the queue, those nodes come out first and their children join the end. */
  lemma {:induction false} BfsSplit(q: seq<Symbol>, r: seq<Symbol>)
    ensures IterBfs(q + r) == q + IterBfs(r + Kids(q))
    decreases |q|
  {
    if |q| == 0 {
      assert q + r == r && r + Kids(q) == r;
    } else {
      var x, rest := q[0], q[1..];
      var tail := IterBfs(r + Kids(q));
      assert q == [x] + rest;
      Sequences.AppendAssoc([x], rest, r);
      assert (q + r)[0] == x && (q + r)[1..] == rest + r;
      Sequences.AppendAssoc(rest, r, x.children);
      assert IterBfs(q + r) == [x] + IterBfs(rest + (r + x.children));
      BfsSplit(rest, r + x.children);
      Sequences.AppendAssoc(r, x.children, Kids(rest));
      assert Kids(q) == x.children + Kids(rest);
      Sequences.AppendAssoc([x], rest, tail);
    }
  }

  /** The queue walk produces the level order. */
  lemma {:induction false} BfsIsLevelOrder(queue: seq<Symbol>)
    ensures IterBfs(queue) == LevelOrder(queue)
    decreases SizeAll(queue)
  {
    if |queue| > 0 {
      BfsSplit(queue, []);
      assert queue + [] == queue && [] + Kids(queue) == Kids(queue);
      BfsIsLevelOrder(Kids(queue));
    }
  }

  /** A level's pre-orders hold the level itself and the pre-orders of the next level. */
  lemma {:induction false} PreOrdersByLevel(ts: seq<Symbol>)
    ensures multiset(PreOrders(ts)) == multiset(ts) + multiset(PreOrders(Kids(ts)))
    decreases |ts|
  {
    if |ts| > 0 {
      var t, rest := ts[0], ts[1..];
      var own, later, next := PreOrders(t.children), PreOrders(rest), Kids(rest);
      LevelHead(ts);
      PreOrdersAppend(t.children, next);
      PreOrdersByLevel(rest);
      MultisetRegroup(ts, t, rest, PreOrders(ts), PreOrder(t), own, later, PreOrders(Kids(ts)), PreOrders(next));
    }
  }

  /** A non-empty level splits into its first tree and the rest. */
  lemma LevelHead(ts: seq<Symbol>)
    requires |ts| > 0
    ensures ts == [ts[0]] + ts[1..]
    ensures PreOrders(ts) == PreOrder(ts[0]) + PreOrders(ts[1..])
    ensures Kids(ts) == ts[0].children + Kids(ts[1..])
  {
  }

  /**
   * The counting step of `PreOrdersByLevel`: the pre-orders of `[t] + rest`
   * are `t`, its own descendants and the pre-orders of `rest`.
   */
  lemma MultisetRegroup<T>(ts: seq<T>, t: T, rest: seq<T>, pre: seq<T>, first: seq<T>, own: seq<T>,
                           later: seq<T>, kidsPre: seq<T>, deeper: seq<T>)
    requires ts == [t] + rest && pre == first + later && first == [t] + own && kidsPre == own + deeper
    requires multiset(later) == multiset(rest) + multiset(deeper)
    ensures multiset(pre) == multiset(ts) + multiset(kidsPre)
  {
  }

  /** Pre-order and level order list the same nodes, each as often. */
  lemma {:induction false} SameNodes(ts: seq<Symbol>)
    ensures multiset(PreOrders(ts)) == multiset(LevelOrder(ts))
    decreases SizeAll(ts)
  {
    if |ts| > 0 {
      PreOrdersByLevel(ts);
      SameNodes(Kids(ts));
    }
  }

  /** `iter_dfs` and `iter_bfs` visit the same nodes, each once per occurrence in the tree. */
  lemma DfsBfsSameNodes(root: Symbol)
    ensures |PreOrder(root)| == |IterBfs([root])| == Size(root)
    ensures multiset(PreOrder(root)) == multiset(IterBfs([root]))
  {
    BfsIsLevelOrder([root]);
    SameNodes([root]);
    assert PreOrders([root]) == PreOrder(root) + [];
    assert SizeAll([root]) == Size(root) + SizeAll([]);
  }

  // ---------------------------------------------------------------------
  // Flattening

  /** The `(path, node)` pairs the stack of `flatten` pops, for `t` reached by `path`. */
  function Entries(t: Symbol, path: SymbolPath): (r: seq<(SymbolPath, Symbol)>)
    ensures |r| == Size(t) && r[0] == (path, t)
    decreases t
  {
    [(path, t)] + EntriesAll(t.children, path)
  }

  /** The entries of each tree of `ts`, each reached by `parent / name`. */
  function EntriesAll(ts: seq<Symbol>, parent: SymbolPath): (r: seq<(SymbolPath, Symbol)>)
    ensures |r| == SizeAll(ts)
    decreases ts
  {
    if |ts| == 0 then [] else Entries(ts[0], Div(parent, ts[0].name)) + EntriesAll(ts[1..], parent)
  }

  /** `(p, v)` is the last entry of `es` whose path is `p`. */
  predicate LastEntry(es: seq<(SymbolPath, Symbol)>, p: SymbolPath, v: Symbol) {
    exists i :: 0 <= i < |es| && es[i] == (p, v) && forall j :: i < j < |es| ==> es[j].0 != p
  }

  /** `dict` filled in order: a later entry for the same path replaces an earlier one. */
  function ToMap(es: seq<(SymbolPath, Symbol)>): (m: map<SymbolPath, Symbol>)
    ensures forall p :: p in m <==> exists i :: 0 <= i < |es| && es[i].0 == p
    ensures forall p :: p in m ==> LastEntry(es, p, m[p])
    decreases |es|
  {
    if |es| == 0 then map[]
    else
      var n := |es| - 1;
      var init := ToMap(es[..n]);
      assert forall i :: 0 <= i < n ==> es[..n][i] == es[i];
      var m := init[es[n].0 := es[n].1];
      assert forall p :: p in m ==> LastEntry(es, p, m[p]) by {
        forall p | p in m ensures LastEntry(es, p, m[p]) {
          if p == es[n].0 {
            LastEntryEnd(es);
          } else {
            LastEntrySnoc(es, p, m[p]);
          }
        }
      }
      m
  }

  /** The final entry is the last one for its path. */
  lemma LastEntryEnd(es: seq<(SymbolPath, Symbol)>)
    requires |es| > 0
    ensures LastEntry(es, es[|es| - 1].0, es[|es| - 1].1)
  {
    assert es[|es| - 1] == (es[|es| - 1].0, es[|es| - 1].1);
  }

  /** Appending an entry for another path keeps the last entry of `p`. */
  lemma LastEntrySnoc(es: seq<(SymbolPath, Symbol)>, p: SymbolPath, v: Symbol)
    requires |es| > 0 && es[|es| - 1].0 != p
    requires LastEntry(es[..|es| - 1], p, v)
    ensures LastEntry(es, p, v)
  {
    var n := |es| - 1;
    var i :| 0 <= i < n && es[..n][i] == (p, v) && forall j :: i < j < n ==> es[..n][j].0 != p;
    assert es[i] == (p, v);
    assert forall j :: i < j < n ==> es[j] == es[..n][j];
  }

  /** `flatten()`. */
  function Flatten(root: Symbol): map<SymbolPath, Symbol> {
    ToMap(Entries(root, [root.name]))
  }

  /** No two children of any node share a name. */
  predicate DistinctSiblings(t: Symbol)
    decreases t
  {
    && DistinctNames(t.children)
    && (forall i :: 0 <= i < |t.children| ==> DistinctSiblings(t.children[i]))
  }

  /** The path of entry `e` extends `base`, and the rest of it leads from `from` to the entry's node. */
  predicate Leads(from: Symbol, base: SymbolPath, e: (SymbolPath, Symbol)) {
    |base| <= |e.0| && e.0[..|base|] == base && Follow(from, e.0[|base|..]) == Some(e.1)
  }

  /** Every entry of `t`, reached by `path`, leads from `t` to its node. */
  lemma EntriesFollow(t: Symbol, path: SymbolPath)
    requires DistinctSiblings(t)
    ensures forall e :: e in Entries(t, path) ==> Leads(t, path, e)
    decreases t, 1
  {
    EntriesAllFollow(t, t.children, path);
    assert path[|path|..] == [];
    assert Leads(t, path, (path, t));
  }

  /** `EntriesFollow` for the children `ts` of `node`, reached from `node`. */
  lemma EntriesAllFollow(node: Symbol, ts: seq<Symbol>, parent: SymbolPath)
    requires DistinctSiblings(node)
    requires forall i :: 0 <= i < |ts| ==> ts[i] in node.children
    ensures forall e :: e in EntriesAll(ts, parent) ==> Leads(node, parent, e)
    decreases ts, 0
  {
    if |ts| > 0 {
      var c := ts[0];
      var cp := Div(parent, c.name);
      ChildFound(node, c);
      EntriesFollow(c, cp);
      forall e | e in Entries(c, cp) ensures Leads(node, parent, e) {
        ChildEntryFollows(node, c, parent, e);
      }
      EntriesAllFollow(node, ts[1..], parent);
    }
  }

  /** An entry under child `c` leads from `node` through `c`. */
  lemma ChildEntryFollows(node: Symbol, c: Symbol, parent: SymbolPath, e: (SymbolPath, Symbol))
    requires FirstChild(node.children, c.name) == Some(c)
    requires Leads(c, Div(parent, c.name), e)
    ensures Leads(node, parent, e)
  {
    var cp := Div(parent, c.name);
    var rest := e.0[|cp|..];
    assert e.0 == cp + rest;
    assert e.0[..|parent|] == parent;
    var tail := e.0[|parent|..];
    assert tail == [c.name] + rest;
    assert tail[0] == c.name && tail[1..] == rest;
  }

  /** With distinct sibling names a child is the first child with its name. */
  lemma ChildFound(node: Symbol, c: Symbol)
    requires DistinctSiblings(node) && c in node.children
    ensures FirstChild(node.children, c.name) == Some(c)
    ensures DistinctSiblings(c)
  {
    var k :| 0 <= k < |node.children| && node.children[k] == c;
    assert FirstIndex(node.children, c.name) == k;
  }

  /** With distinct sibling names, every path `flatten` lists leads `at` to the node it maps to. */
  lemma FlattenAgreesWithAt(root: Symbol, p: SymbolPath)
    requires DistinctSiblings(root)
    requires p in Flatten(root)
    ensures At(root, p) == Some(Flatten(root)[p])
  {
    var es := Entries(root, [root.name]);
    var i :| 0 <= i < |es| && es[i] == (p, Flatten(root)[p]);
    EntriesFollow(root, [root.name]);
    assert Leads(root, [root.name], es[i]);
    assert p[..1] == [root.name];
  }

  /** The nodes `flatten` visits are those of `iter_dfs`, in the same order. */
  lemma {:induction false} EntriesArePreOrder(t: Symbol, path: SymbolPath)
    ensures forall i :: 0 <= i < |Entries(t, path)| ==> Entries(t, path)[i].1 == PreOrder(t)[i]
    decreases t, 1
  {
    EntriesAllArePreOrders(t.children, path);
  }

  lemma {:induction false} EntriesAllArePreOrders(ts: seq<Symbol>, parent: SymbolPath)
    ensures forall i :: 0 <= i < |EntriesAll(ts, parent)| ==> EntriesAll(ts, parent)[i].1 == PreOrders(ts)[i]
    decreases ts, 0
  {
    if |ts| > 0 {
      EntriesArePreOrder(ts[0], Div(parent, ts[0].name));
      EntriesAllArePreOrders(ts[1..], parent);
    }
  }

  /** No two entries share a path. */
  predicate DistinctPaths(es: seq<(SymbolPath, Symbol)>) {
    forall i, j :: 0 <= i < j < |es| ==> es[i].0 != es[j].0
  }

  /** A map filled from entries with distinct paths has one key per entry. */
  lemma {:induction false} ToMapSize(es: seq<(SymbolPath, Symbol)>)
    requires DistinctPaths(es)
    ensures |ToMap(es)| == |es|
    decreases |es|
  {
    if |es| > 0 {
      var init := es[..|es| - 1];
      assert DistinctPaths(init) by {
        assert forall i :: 0 <= i < |init| ==> init[i] == es[i];
      }
      ToMapSize(init);
      var last := es[|es| - 1].0;
      assert forall i :: 0 <= i < |init| ==> init[i].0 != last;
      assert last !in ToMap(init);
    }
  }

  /** Two runs of entries with distinct paths, sharing none, have distinct paths together. */
  lemma DistinctAppend(a: seq<(SymbolPath, Symbol)>, b: seq<(SymbolPath, Symbol)>)
    requires DistinctPaths(a) && DistinctPaths(b)
    requires forall i, j :: 0 <= i < |a| && 0 <= j < |b| ==> a[i].0 != b[j].0
    ensures DistinctPaths(a + b)
  {
    forall i, j | 0 <= i < j < |a + b| ensures (a + b)[i].0 != (a + b)[j].0 {
      if j < |a| {
        assert (a + b)[i] == a[i] && (a + b)[j] == a[j];
      } else if i < |a| {
        assert (a + b)[i] == a[i] && (a + b)[j] == b[j - |a|];
      } else {
        assert (a + b)[i] == b[i - |a|] && (a + b)[j] == b[j - |a|];
      }
    }
  }

  /** The names of `ts` are pairwise distinct. */
  predicate DistinctNames(ts: seq<Symbol>) {
    forall i, j :: 0 <= i < j < |ts| ==> ts[i].name != ts[j].name
  }

  /** With distinct sibling names the entries of `t` have distinct paths, all extending `path`. */
  lemma EntriesDistinct(t: Symbol, path: SymbolPath)
    requires DistinctSiblings(t)
    ensures DistinctPaths(Entries(t, path))
    ensures forall e :: e in Entries(t, path) ==> |path| <= |e.0| && e.0[..|path|] == path
    decreases t, 1
  {
    EntriesAllDistinct(t.children, path);
    var rest := EntriesAll(t.children, path);
    DistinctAppend([(path, t)], rest);
  }

  /**
   * The entries of siblings with distinct names have distinct paths, each
   * extending `parent` by the name of one of them.
   */
  lemma EntriesAllDistinct(ts: seq<Symbol>, parent: SymbolPath)
    requires DistinctNames(ts)
    requires forall i :: 0 <= i < |ts| ==> DistinctSiblings(ts[i])
    ensures DistinctPaths(EntriesAll(ts, parent))
    ensures forall e :: e in EntriesAll(ts, parent) ==> (|parent| < |e.0| && e.0[..|parent|] == parent
      && exists k :: 0 <= k < |ts| && e.0[|parent|] == ts[k].name)
    decreases ts, 0
  {
    if |ts| > 0 {
      var c := ts[0];
      var cp := Div(parent, c.name);
      EntriesDistinct(c, cp);
      EntriesAllDistinct(ts[1..], parent);
      var a, b := Entries(c, cp), EntriesAll(ts[1..], parent);
      forall e | e in a ensures |parent| < |e.0| && e.0[..|parent|] == parent && e.0[|parent|] == c.name {
        assert e.0[..|cp|] == cp;
        assert e.0[..|parent|] == cp[..|parent|];
        assert e.0[|parent|] == cp[|parent|];
      }
      forall e | e in b ensures exists k :: 0 <= k < |ts| && e.0[|parent|] == ts[k].name {
        var k :| 0 <= k < |ts[1..]| && e.0[|parent|] == ts[1..][k].name;
        assert ts[1..][k] == ts[k + 1];
      }
      forall i, j | 0 <= i < |a| && 0 <= j < |b| ensures a[i].0 != b[j].0 {
        assert a[i] in a && b[j] in b;
        var k :| 0 <= k < |ts[1..]| && b[j].0[|parent|] == ts[1..][k].name;
        assert ts[1..][k] == ts[k + 1];
      }
      DistinctAppend(a, b);
    }
  }

  /** With distinct sibling names `flatten` has exactly one entry per node of the tree. */
  lemma FlattenOnePerNode(root: Symbol)
    requires DistinctSiblings(root)
    ensures |Flatten(root)| == Size(root)
  {
    EntriesDistinct(root, [root.name]);
    ToMapSize(Entries(root, [root.name]));
  }
}
