/**
 * Applying the code actions a server offers. An item is either a bare
 * command, which is executed, or a code action, which is skipped when
 * disabled, resolved first when it carries neither an edit nor a command,
 * and then has its edit applied and after that its command executed.
 * Executing a command needs the execute-command capability; without it the
 * application fails at that point, after any edit already applied.
 *
 * The client calls are recorded as a trace of effects. The server's answer
 * to a resolve request is an oracle `resolve`, and whether the client has
 * the execute-command capability is the flag `canExecute`.
 */
module CodeAction {
  import opened Wrappers
  import Sequences

  /** A workspace edit, identified by an opaque number. */
  type Edit = nat

  datatype Command = Command(title: string, command: string, arguments: Option<seq<string>>)

  datatype Action = Action(
    title: string,
    edit: Option<Edit>,
    command: Option<Command>,
    disabled: Option<string>)

  /** `Command | CodeAction`. */
  datatype Item = Cmd(cmd: Command) | CodeAct(action: Action)

  /** A call the client makes to the server or to itself. */
  datatype Effect =
    | ExecCommand(name: string, arguments: Option<seq<string>>)
    | ApplyEdit(edit: Edit)
    | Resolve(action: Action)

  /** The `RuntimeError` for a missing execute-command capability. */
  datatype ActionError = ExecuteUnavailable

  /** The effects performed, and the error that stopped the application, if any. */
  datatype Outcome = Outcome(effects: seq<Effect>, error: Option<ActionError>)

  type Resolver = Action -> Action

  /** How many resolve requests `effects` holds. */
  function Resolves(effects: seq<Effect>): (n: nat)
    ensures n <= |effects|
    decreases |effects|
  {
    if |effects| == 0 then 0 else (if effects[0].Resolve? then 1 else 0) + Resolves(effects[1..])
  }

  /** Executing a command: the call when the capability is present, the error otherwise. */
  function Execute(c: Command, canExecute: bool, before: seq<Effect>): (r: Outcome)
    ensures r.error.None? <==> canExecute
    ensures |r.effects| >= |before| && r.effects[..|before|] == before
  {
    if canExecute then Outcome(before + [ExecCommand(c.command, c.arguments)], None)
    else Outcome(before, Some(ExecuteUnavailable))
  }

  /** Applies an action that is not disabled and no longer needs resolving. */
  function ApplyResolved(a: Action, canExecute: bool, before: seq<Effect>): (r: Outcome)
    ensures r.error.Some? <==> !canExecute && a.command.Some?
    ensures |r.effects| >= |before| && r.effects[..|before|] == before
    ensures |r.effects| == |before| + (if a.edit.Some? then 1 else 0) + (if a.command.Some? && canExecute then 1 else 0)
    ensures a.edit.Some? ==> r.effects[|before|] == ApplyEdit(a.edit.value)
    ensures a.command.Some? && canExecute ==>
      r.effects[|r.effects| - 1] == ExecCommand(a.command.value.command, a.command.value.arguments)
  {
    var edited := if a.edit.Some? then before + [ApplyEdit(a.edit.value)] else before;
    if a.command.Some? then Execute(a.command.value, canExecute, edited)
    else Outcome(edited, None)
  }

  /** `apply_code_action(item)`. */
  function ApplyOne(item: Item, canExecute: bool, resolve: Resolver): (r: Outcome)
    ensures r.error.Some? ==> !canExecute
    ensures item.Cmd? ==> (r.error.None? <==> canExecute)
    ensures item.CodeAct? && item.action.disabled.Some? ==> r == Outcome([], None)
    ensures item.CodeAct? && item.action.disabled.None? ==>
      var a := item.action;
      var b := if a.edit.None? && a.command.None? then resolve(a) else a;
      (r.error.Some? <==> !canExecute && b.command.Some?)
    ensures item.CodeAct? && item.action.disabled.None? && item.action.edit.Some? ==>
      |r.effects| > 0 && r.effects[0] == ApplyEdit(item.action.edit.value)
  {
    match item
    case Cmd(c) => Execute(c, canExecute, [])
    case CodeAct(a) =>
      if a.disabled.Some? then Outcome([], None)
      else if a.edit.None? && a.command.None? then ApplyResolved(resolve(a), canExecute, [Resolve(a)])
      else ApplyResolved(a, canExecute, [])
  }

  /** A command executes exactly its own name and arguments, and fails without the capability. */
  lemma CommandRunsItself(c: Command, canExecute: bool, resolve: Resolver)
    ensures canExecute ==> ApplyOne(Cmd(c), canExecute, resolve) == Outcome([ExecCommand(c.command, c.arguments)], None)
    ensures !canExecute ==> ApplyOne(Cmd(c), canExecute, resolve) == Outcome([], Some(ExecuteUnavailable))
  {
  }

  /**
   * An action with neither edit nor command is resolved once, first, and the
   * resolved action's edit and command follow with no further resolve.
   */
  lemma ResolvedOnce(a: Action, canExecute: bool, resolve: Resolver)
    requires a.disabled.None? && a.edit.None? && a.command.None?
    ensures var r := ApplyOne(CodeAct(a), canExecute, resolve);
      && r.effects[0] == Resolve(a)
      && Resolves(r.effects) == 1
      && (r.error.Some? <==> !canExecute && resolve(a).command.Some?)
      && |r.effects| == 1 + (if resolve(a).edit.Some? then 1 else 0)
                          + (if resolve(a).command.Some? && canExecute then 1 else 0)
      && (resolve(a).edit.Some? ==> r.effects[1] == ApplyEdit(resolve(a).edit.value))
      && (resolve(a).command.Some? && canExecute ==>
            r.effects[|r.effects| - 1] == ExecCommand(resolve(a).command.value.command, resolve(a).command.value.arguments))
  {
    var b := resolve(a);
    var r := ApplyResolved(b, canExecute, [Resolve(a)]);
    var tail := r.effects[1..];
    assert Resolves(tail) == 0 by {
      NoResolveAfter(b, canExecute, [Resolve(a)]);
    }
    assert r.effects == [Resolve(a)] + tail;
  }

  /**
   * A code action with a command and no edit executes that command once
   * and nothing else, and fails having done nothing without the capability.
   */
  lemma CommandOnly(a: Action, canExecute: bool, resolve: Resolver)
    requires a.disabled.None? && a.edit.None? && a.command.Some?
    ensures canExecute ==>
      ApplyOne(CodeAct(a), canExecute, resolve) == Outcome([ExecCommand(a.command.value.command, a.command.value.arguments)], None)
    ensures !canExecute ==> ApplyOne(CodeAct(a), canExecute, resolve) == Outcome([], Some(ExecuteUnavailable))
  {
  }

  /** Applying a resolved action adds no resolve call. */
  lemma NoResolveAfter(a: Action, canExecute: bool, before: seq<Effect>)
    requires |before| == 1
    ensures var r := ApplyResolved(a, canExecute, before); Resolves(r.effects[1..]) == 0
  {
    var r := ApplyResolved(a, canExecute, before);
    var tail := r.effects[1..];
    assert forall i :: 0 <= i < |tail| ==> !tail[i].Resolve?;
    NoResolves(tail);
  }

  lemma {:induction false} NoResolves(effects: seq<Effect>)
    requires forall i :: 0 <= i < |effects| ==> !effects[i].Resolve?
    ensures Resolves(effects) == 0
    decreases |effects|
  {
    if |effects| > 0 {
      NoResolves(effects[1..]);
    }
  }

  /** With both an edit and a command, the edit is applied before the command runs. */
  lemma EditThenCommand(a: Action, canExecute: bool, resolve: Resolver)
    requires a.disabled.None? && a.edit.Some? && a.command.Some?
    ensures var r := ApplyOne(CodeAct(a), canExecute, resolve);
      && r.effects[0] == ApplyEdit(a.edit.value)
      && (canExecute ==> r == Outcome([ApplyEdit(a.edit.value), ExecCommand(a.command.value.command, a.command.value.arguments)], None))
      && (!canExecute ==> r == Outcome([ApplyEdit(a.edit.value)], Some(ExecuteUnavailable)))
  {
  }

  /** An action with an edit and no command never needs the execute-command capability. */
  lemma EditOnlyNeedsNoCommand(a: Action, resolve: Resolver)
    requires a.disabled.None? && a.edit.Some? && a.command.None?
    ensures ApplyOne(CodeAct(a), false, resolve) == ApplyOne(CodeAct(a), true, resolve) == Outcome([ApplyEdit(a.edit.value)], None)
  {
  }

  /** Running `first` and then, unless it failed, `rest`. */
  function Then(first: Outcome, rest: Outcome): (r: Outcome)
    ensures r.error.None? <==> first.error.None? && rest.error.None?
    ensures |r.effects| >= |first.effects| && r.effects[..|first.effects|] == first.effects
  {
    if first.error.Some? then first else Outcome(first.effects + rest.effects, rest.error)
  }

  /** Sequencing outcomes is associative. */
  lemma ThenAssoc(a: Outcome, b: Outcome, c: Outcome)
    ensures Then(Then(a, b), c) == Then(a, Then(b, c))
  {
    if a.error.None? && b.error.None? {
      assert (a.effects + b.effects) + c.effects == a.effects + (b.effects + c.effects);
    }
  }

  /** The outcomes of a run of steps, in order, stopping at the first that fails. */
  function RunAll(outs: seq<Outcome>): Outcome
    decreases |outs|
  {
    if |outs| == 0 then Outcome([], None) else Then(outs[0], RunAll(outs[1..]))
  }

  /** What each item would do on its own. */
  function Steps(items: seq<Item>, canExecute: bool, resolve: Resolver): (outs: seq<Outcome>)
    ensures |outs| == |items|
    ensures forall i :: 0 <= i < |items| ==> outs[i] == ApplyOne(items[i], canExecute, resolve)
  {
    seq(|items|, i requires 0 <= i < |items| => ApplyOne(items[i], canExecute, resolve))
  }

  /**
   * `apply_code_actions(items)`: the items in order, stopping at the first
   * error; only a missing capability can stop it.
   */
  function ApplyAll(items: seq<Item>, canExecute: bool, resolve: Resolver): (r: Outcome)
    ensures r.error.Some? ==> !canExecute
  {
    var outs := Steps(items, canExecute, resolve);
    assert forall i :: 0 <= i < |outs| ==> (outs[i].error.Some? ==> !canExecute);
    RunFails(outs);
    RunAll(outs)
  }

  /** A run fails only with the error of one of its steps. */
  lemma {:induction false} RunFails(outs: seq<Outcome>)
    ensures RunAll(outs).error.Some? ==> exists i :: 0 <= i < |outs| && outs[i].error == RunAll(outs).error
    decreases |outs|
  {
    if |outs| > 0 && outs[0].error.None? {
      RunFails(outs[1..]);
      if RunAll(outs).error.Some? {
        var i :| 0 <= i < |outs[1..]| && outs[1..][i].error == RunAll(outs[1..]).error;
        assert outs[i + 1] == outs[1..][i];
      }
    }
  }

  /** The effects of every step, one after another. */
  function AllEffects(outs: seq<Outcome>): seq<Effect>
    decreases |outs|
  {
    if |outs| == 0 then [] else outs[0].effects + AllEffects(outs[1..])
  }

  /** The position of the first step that fails, or `|outs|` when none does. */
  function FirstFailure(outs: seq<Outcome>): (f: nat)
    ensures f <= |outs|
    ensures forall i :: 0 <= i < f ==> outs[i].error.None?
    ensures f < |outs| ==> outs[f].error.Some?
    decreases |outs|
  {
    if |outs| == 0 then 0
    else if outs[0].error.Some? then 0
    else
      var f := 1 + FirstFailure(outs[1..]);
      assert forall i :: 1 <= i < f ==> outs[i] == outs[1..][i - 1];
      f
  }

  /** A run succeeds iff every step does, and then it has the effects of all steps. */
  lemma {:induction false} RunSucceeds(outs: seq<Outcome>)
    ensures RunAll(outs).error.None? <==> FirstFailure(outs) == |outs|
    ensures FirstFailure(outs) == |outs| ==> RunAll(outs).effects == AllEffects(outs)
    decreases |outs|
  {
    if |outs| > 0 && outs[0].error.None? {
      RunSucceeds(outs[1..]);
    }
  }

  /**
   * A run that fails stops at its first failing step, after the effects of
   * every step before it and the partial effects of the failing one.
   */
  lemma {:induction false} RunStops(outs: seq<Outcome>)
    requires FirstFailure(outs) < |outs|
    ensures var f := FirstFailure(outs);
      RunAll(outs) == Outcome(AllEffects(outs[..f]) + outs[f].effects, outs[f].error)
    decreases |outs|
  {
    if outs[0].error.Some? {
      assert outs[..0] == [];
    } else {
      var tail := outs[1..];
      var f := FirstFailure(outs);
      assert f == 1 + FirstFailure(tail);
      RunStops(tail);
      var e := AllEffects(tail[..f - 1]);
      assert RunAll(tail) == Outcome(e + outs[f].effects, outs[f].error) by {
        assert tail[f - 1] == outs[f];
      }
      PrefixEffects(outs, f);
      Sequences.AppendAssoc(outs[0].effects, e, outs[f].effects);
    }
  }

  /** The effects of a non-empty prefix start with those of its first step. */
  lemma PrefixEffects(outs: seq<Outcome>, f: nat)
    requires 1 <= f <= |outs|
    ensures AllEffects(outs[..f]) == outs[0].effects + AllEffects(outs[1..][..f - 1])
  {
    assert outs[..f][0] == outs[0];
    assert outs[..f][1..] == outs[1..][..f - 1];
  }

  /** `apply_code_actions` succeeds exactly when every item would succeed on its own. */
  lemma ApplyAllSucceeds(items: seq<Item>, canExecute: bool, resolve: Resolver)
    ensures ApplyAll(items, canExecute, resolve).error.None? <==>
      forall i :: 0 <= i < |items| ==> ApplyOne(items[i], canExecute, resolve).error.None?
  {
    var outs := Steps(items, canExecute, resolve);
    RunSucceeds(outs);
    var f := FirstFailure(outs);
    if f < |items| {
      assert ApplyOne(items[f], canExecute, resolve).error.Some?;
    }
  }

  /** Running `xs + ys` is running `xs` and then, unless that failed, `ys`. */
  lemma {:induction false} RunAppend(xs: seq<Outcome>, ys: seq<Outcome>)
    ensures RunAll(xs + ys) == Then(RunAll(xs), RunAll(ys))
    decreases |xs|
  {
    if |xs| == 0 {
      assert xs + ys == ys;
      assert RunAll(ys).effects == [] + RunAll(ys).effects;
    } else {
      assert (xs + ys)[1..] == xs[1..] + ys;
      assert (xs + ys)[0] == xs[0];
      RunAppend(xs[1..], ys);
      ThenAssoc(xs[0], RunAll(xs[1..]), RunAll(ys));
    }
  }

  /** Applying `xs + ys` is applying `xs` and then, unless that failed, `ys`. */
  lemma ApplyAllAppend(xs: seq<Item>, ys: seq<Item>, canExecute: bool, resolve: Resolver)
    ensures ApplyAll(xs + ys, canExecute, resolve) == Then(ApplyAll(xs, canExecute, resolve), ApplyAll(ys, canExecute, resolve))
  {
    StepsAppend(xs, ys, canExecute, resolve);
    RunAppend(Steps(xs, canExecute, resolve), Steps(ys, canExecute, resolve));
  }

  /** The steps of `xs + ys` are those of `xs` followed by those of `ys`. */
  lemma StepsAppend(xs: seq<Item>, ys: seq<Item>, canExecute: bool, resolve: Resolver)
    ensures Steps(xs + ys, canExecute, resolve) == Steps(xs, canExecute, resolve) + Steps(ys, canExecute, resolve)
  {
    var all, sx, sy := Steps(xs + ys, canExecute, resolve), Steps(xs, canExecute, resolve), Steps(ys, canExecute, resolve);
    forall i | 0 <= i < |all|
      ensures all[i] == (sx + sy)[i]
    {
      if i < |xs| {
        assert (xs + ys)[i] == xs[i];
      } else {
        assert (xs + ys)[i] == ys[i - |xs|];
      }
    }
  }

  /** `list(result) if result else []`: a missing or empty answer is the empty list. */
  function Normalize(result: Option<seq<Item>>): (r: seq<Item>)
    ensures |r| == 0 <==> result.None? || |result.value| == 0
    ensures |r| > 0 ==> r == result.value
  {
    if result.Some? && |result.value| > 0 then result.value else []
  }

  /** Applying what a server returned when it had no actions does nothing. */
  lemma NothingToApply(canExecute: bool, resolve: Resolver)
    ensures ApplyAll(Normalize(None), canExecute, resolve) == Outcome([], None)
  {
  }
}
