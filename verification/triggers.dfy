/**
 Triggers: the registry of declared trigger names, and the method each
 declaration defines, which pushes the context onto the front of the
 per-thread context stack, runs the body, and shifts the stack in an
 `ensure` clause whether the body returned or raised.

 The per-thread slot `Thread.current[:context]` is an explicit argument and
 result: `None` while it was never set, `Some(stack)` once it holds an array.
 Contexts on the stack are named by their object identity.
 */
module Triggers {
  import opened Ruby

  /**
   What a trigger body does, unfolded: return a value, raise, or call a
   trigger on some context (whose body is given inline) and then go on. A
   failing call either propagates (`Invoke`) or is caught by a
   `begin ... rescue` (`Rescue`).
   */
  datatype Body =
    | Return(result: Value)
    | Raise(tag: nat)
    | Invoke(target: nat, callee: Body, rest: Body)
    | Rescue(target: nat, callee: Body, handler: Body)

  /** The context stack as some step of a body running on behalf of `owner` saw it. */
  datatype Step = Step(owner: nat, stack: seq<nat>)

  /** The outcome of running a body, the stack afterwards, and what each step saw. */
  datatype Run = Run(outcome: Result<Value>, stack: seq<nat>, log: seq<Step>)

  /** `Thread.current[:context] ||= []`. */
  function Slot(slot: Option<seq<nat>>): seq<nat> {
    match slot
    case Some(s) => s
    case None => []
  }

  /** `Array#shift` for its effect on the array: an empty array stays empty. */
  function Shift(s: seq<nat>): seq<nat> {
    if |s| == 0 then [] else s[1..]
  }

  /**
   The generated trigger method on context `self`: unshift `self`, run the
   body, and shift in the `ensure` whatever the outcome. The slot ends up
   holding the array it held before (an empty one if it was unset), the
   body's result or exception reaches the caller unchanged, and every step
   of the body, and of the triggers it calls, sees its own context in front.
   */
  function Trigger(self: nat, body: Body, slot: Option<seq<nat>>): (r: Run)
    ensures r.stack == Slot(slot)
    ensures r.outcome == Eval(body)
    ensures |r.log| > 0 && r.log[0] == Step(self, [self] + Slot(slot))
    ensures OwnersOnTop(r.log)
    decreases body, 1
  {
    var pushed := [self] + Slot(slot);
    var inner := Exec(self, body, pushed);
    Run(inner.outcome, Shift(inner.stack), inner.log)
  }

  /**
   Run the body of a trigger of `owner` against the stack `stack`. The body
   leaves the stack as it found it, whether it returns, raises or rescues,
   and gives what the stack-free `Eval` gives.
   */
  function Exec(owner: nat, body: Body, stack: seq<nat>): (r: Run)
    ensures r.stack == stack
    ensures r.outcome == Eval(body)
    ensures |r.log| > 0 && r.log[0] == Step(owner, stack)
    ensures |stack| > 0 && stack[0] == owner ==> OwnersOnTop(r.log)
    decreases body, 0
  {
    var here := [Step(owner, stack)];
    match body
    case Return(v) => Run(Ok(v), stack, here)
    case Raise(tag) => Run(Err(Raised(tag)), stack, here)
    case Invoke(target, callee, rest) =>
      var call := Trigger(target, callee, Some(stack));
      if call.outcome.Err? then Run(call.outcome, call.stack, here + call.log)
      else
        var after := Exec(owner, rest, call.stack);
        Run(after.outcome, after.stack, here + call.log + after.log)
    case Rescue(target, callee, handler) =>
      var call := Trigger(target, callee, Some(stack));
      if call.outcome.Ok? then Run(call.outcome, call.stack, here + call.log)
      else
        var after := Exec(owner, handler, call.stack);
        Run(after.outcome, after.stack, here + call.log + after.log)
  }

  /** What a body returns or raises, described without any stack. */
  function Eval(body: Body): Result<Value> {
    match body
    case Return(v) => Ok(v)
    case Raise(tag) => Err(Raised(tag))
    case Invoke(_, callee, rest) =>
      if Eval(callee).Err? then Eval(callee) else Eval(rest)
    case Rescue(_, callee, handler) =>
      if Eval(callee).Ok? then Eval(callee) else Eval(handler)
  }

  /** Every step of a body saw its own context at the front of the stack. */
  predicate OwnersOnTop(log: seq<Step>) {
    forall k :: 0 <= k < |log| ==> |log[k].stack| > 0 && log[k].stack[0] == log[k].owner
  }

  /** A body only ever raises its own exceptions. */
  lemma {:induction false} EvalRaisesOnlyBodyErrors(body: Body)
    ensures Eval(body).Err? ==> Eval(body).error.Raised?
    decreases body
  {
    match body
    case Return(_) =>
    case Raise(_) =>
    case Invoke(_, callee, rest) =>
      EvalRaisesOnlyBodyErrors(callee);
      EvalRaisesOnlyBodyErrors(rest);
    case Rescue(_, callee, handler) =>
      EvalRaisesOnlyBodyErrors(callee);
      EvalRaisesOnlyBodyErrors(handler);
  }

  // ---------------------------------------------------------------------
  // The registry kept by `store_trigger` and the methods `trigger` defines.

  /**
   A method `trigger` defines: the private `trigger_<name>` holding the
   block, or the public `<name>` that brackets a call of `trigger_<name>`.
   */
  datatype Method = PrivateBody(body: Body) | PublicWrapper

  /** The name of the private method holding a trigger's block. */
  function BodyName(name: string): (r: string)
    ensures |r| > |name|
  {
    "trigger_" + name
  }

  /**
   A context class's triggers: the Set `@triggers` of declared names, and the
   methods defined for them, keyed by method name.
   */
  datatype TriggerTable = TriggerTable(names: set<Name>, methods: map<string, Method>)

  const NoTriggers := TriggerTable({}, map[])

  /** The method names at least as long as `name`: a measure for following wrappers. */
  function LongerNames(methods: map<string, Method>, name: string): set<string> {
    set k | k in methods && |k| >= |name|
  }

  /**
   `self.send(name)` against the stack `stack`: a missing method raises
   NoMethodError, a private body runs on the stack as it is, and a public
   wrapper unshifts `self`, sends `trigger_<name>` and shifts again. The
   stack comes back as it was, and the result is that of `Resolved`.
   */
  function Dispatch(methods: map<string, Method>, self: nat, name: string, stack: seq<nat>): (r: Run)
    ensures r.stack == stack
    ensures r.outcome == Resolved(methods, name)
    ensures (name in methods && methods[name].PublicWrapper?) || (|stack| > 0 && stack[0] == self) ==>
              OwnersOnTop(r.log)
    decreases LongerNames(methods, name)
  {
    if name !in methods then Run(Err(NoMethodError(name)), stack, [])
    else match methods[name]
      case PrivateBody(body) => Exec(self, body, stack)
      case PublicWrapper =>
        assert name !in LongerNames(methods, BodyName(name));
        var inner := Dispatch(methods, self, BodyName(name), [self] + stack);
        Run(inner.outcome, Shift(inner.stack), inner.log)
  }

  /** What sending `name` gives, described without any stack: follow wrappers to a body. */
  function Resolved(methods: map<string, Method>, name: string): Result<Value>
    decreases LongerNames(methods, name)
  {
    if name !in methods then Err(NoMethodError(name))
    else match methods[name]
      case PrivateBody(body) => Eval(body)
      case PublicWrapper =>
        assert name !in LongerNames(methods, BodyName(name));
        Resolved(methods, BodyName(name))
  }

  /** Every public wrapper has the private method it sends to. */
  predicate BodiesPresent(methods: map<string, Method>) {
    forall m :: m in methods && methods[m].PublicWrapper? ==> BodyName(m) in methods
  }

  /**
   In a table where every wrapper has its body method, sending a defined
   method never fails for want of a method: it fails only with what a body raises.
   */
  lemma {:induction false} ResolvedRaisesOnlyBodyErrors(methods: map<string, Method>, name: string)
    requires BodiesPresent(methods)
    requires name in methods
    ensures Resolved(methods, name).Err? ==> Resolved(methods, name).error.Raised?
    decreases LongerNames(methods, name)
  {
    match methods[name]
    case PrivateBody(body) =>
      EvalRaisesOnlyBodyErrors(body);
    case PublicWrapper =>
      assert name !in LongerNames(methods, BodyName(name));
      ResolvedRaisesOnlyBodyErrors(methods, BodyName(name));
  }

  /**
   `trigger name do ... end`: `store_trigger(name)` adds the name to the set,
   `define_method` (re)defines the private `trigger_<name>` with the block and
   the public `<name>` wrapper, and every other method stays as it was.
   */
  function DeclareTrigger(t: TriggerTable, name: Name, body: Body): (r: TriggerTable)
    ensures name in r.names && t.names <= r.names
    ensures |r.names| <= |t.names| + 1
    ensures name in t.names ==> r.names == t.names
    ensures r.methods.Keys == t.methods.Keys + {name.ToS(), BodyName(name.ToS())}
    ensures r.methods[name.ToS()] == PublicWrapper
    ensures r.methods[BodyName(name.ToS())] == PrivateBody(body)
    ensures forall m :: m in t.methods && m != name.ToS() && m != BodyName(name.ToS()) ==>
              r.methods[m] == t.methods[m]
    ensures BodiesPresent(t.methods) ==> BodiesPresent(r.methods)
  {
    var n := name.ToS();
    TriggerTable(t.names + {name}, t.methods[BodyName(n) := PrivateBody(body)][n := PublicWrapper])
  }

  /** `triggers`: a copy of the declared names. */
  function Triggers(t: TriggerTable): set<Name> {
    t.names
  }

  /** `triggers` lists exactly the names declared so far, Symbols and Strings apart. */
  lemma DeclaredTriggersAreListed(t: TriggerTable, name: Name, body: Body)
    ensures Triggers(DeclareTrigger(t, name, body)) == Triggers(t) + {name}
    ensures Triggers(NoTriggers) == {}
  {
    assert DeclareTrigger(t, name, body).names == t.names + {name};
  }

  /** Redeclaring a trigger with the same body changes nothing. */
  lemma DeclareTriggerIdempotent(t: TriggerTable, name: Name, body: Body)
    ensures DeclareTrigger(DeclareTrigger(t, name, body), name, body) == DeclareTrigger(t, name, body)
  {
  }

  /**
   `:go` and `"go"` are two members of the trigger set but define one pair
   of methods; the later declaration's body is the one that runs.
   */
  lemma SymbolAndStringTriggersShareAMethod(b1: Body, b2: Body)
    ensures var t := DeclareTrigger(DeclareTrigger(NoTriggers, Sym("go"), b1), Str("go"), b2);
            && Triggers(t) == {Sym("go"), Str("go")}
            && t.methods == map["go" := PublicWrapper, "trigger_go" := PrivateBody(b2)]
  {
    assert BodyName("go") == "trigger_go";
  }

  /** The result of calling a method on a context: outcome, the thread's slot, and the steps seen. */
  datatype Call = Call(outcome: Result<Value>, slot: Option<seq<nat>>, log: seq<Step>)

  /** Whether `name` is a public method of the table: a trigger's wrapper. */
  predicate IsPublic(t: TriggerTable, name: string) {
    name in t.methods && t.methods[name].PublicWrapper?
  }

  /**
   Calling the method `methodName` on the context `self` from outside. A name
   that is not a public trigger (undeclared, or a private `trigger_<name>`)
   raises NoMethodError before the stack is touched; a trigger returns or
   raises what sending it resolves to, leaves the slot holding the array it
   held before, and runs every step with the running context in front.
   */
  function InvokeTrigger(t: TriggerTable, self: nat, methodName: string, slot: Option<seq<nat>>): (r: Call)
    ensures !IsPublic(t, methodName) ==> r == Call(Err(NoMethodError(methodName)), slot, [])
    ensures IsPublic(t, methodName) ==>
              && r.outcome == Resolved(t.methods, methodName)
              && r.slot == Some(Slot(slot))
              && OwnersOnTop(r.log)
  {
    if !IsPublic(t, methodName) then Call(Err(NoMethodError(methodName)), slot, [])
    else
      var run := Dispatch(t.methods, self, methodName, Slot(slot));
      Call(run.outcome, Some(run.stack), run.log)
  }

  /**
   A freshly declared trigger, under a Symbol or a String, is called by its
   string name: its body runs once, with `self` pushed once in front of the
   caller's stack, and its result reaches the caller.
   */
  lemma DeclaredTriggerRuns(t: TriggerTable, name: Name, body: Body, self: nat, slot: Option<seq<nat>>)
    ensures var c := InvokeTrigger(DeclareTrigger(t, name, body), self, name.ToS(), slot);
            && c.outcome == Eval(body)
            && c.slot == Some(Slot(slot))
            && |c.log| > 0 && c.log[0] == Step(self, [self] + Slot(slot))
  {
    var t' := DeclareTrigger(t, name, body);
    var n := name.ToS();
    assert Dispatch(t'.methods, self, n, Slot(slot)).log == Exec(self, body, [self] + Slot(slot)).log;
  }

  /**
   The private body methods share the namespace of the triggers: declaring
   `x` and then `trigger_x` turns `trigger_x` into a wrapper, so calling `x`
   pushes the context twice and runs the block of `trigger_x`.
   */
  lemma LaterTriggerCapturesBodyName(t: TriggerTable, b1: Body, b2: Body, self: nat, slot: Option<seq<nat>>)
    ensures var t' := DeclareTrigger(DeclareTrigger(t, Sym("x"), b1), Sym("trigger_x"), b2);
            var c := InvokeTrigger(t', self, "x", slot);
            && c.outcome == Eval(b2)
            && c.slot == Some(Slot(slot))
            && |c.log| > 0 && c.log[0] == Step(self, [self, self] + Slot(slot))
  {
    var t' := DeclareTrigger(DeclareTrigger(t, Sym("x"), b1), Sym("trigger_x"), b2);
    assert BodyName("x") == "trigger_x";
    assert BodyName("trigger_x") == "trigger_trigger_x";
    assert t'.methods["x"] == PublicWrapper;
    assert t'.methods["trigger_x"] == PublicWrapper;
    assert t'.methods["trigger_trigger_x"] == PrivateBody(b2);
    var s := Slot(slot);
    assert Resolved(t'.methods, "trigger_x") == Resolved(t'.methods, "trigger_trigger_x");
    assert Resolved(t'.methods, "x") == Eval(b2);
    assert [self] + ([self] + s) == [self, self] + s;
    var inner := Dispatch(t'.methods, self, "trigger_x", [self] + s);
    assert inner.log == Dispatch(t'.methods, self, "trigger_trigger_x", [self, self] + s).log;
    assert inner.log == Exec(self, b2, [self, self] + s).log;
    assert Dispatch(t'.methods, self, "x", s).log == inner.log;
  }

  /**
   In the other order, declaring `x` redefines `trigger_x` as the private
   body of `x`: the trigger `trigger_x` can no longer be called from outside.
   */
  lemma EarlierTriggerLosesItsWrapper(t: TriggerTable, b1: Body, b2: Body, self: nat, slot: Option<seq<nat>>)
    ensures var t' := DeclareTrigger(DeclareTrigger(t, Sym("trigger_x"), b2), Sym("x"), b1);
            && Sym("trigger_x") in Triggers(t')
            && InvokeTrigger(t', self, "trigger_x", slot) == Call(Err(NoMethodError("trigger_x")), slot, [])
            && InvokeTrigger(t', self, "x", slot).outcome == Eval(b1)
  {
    var t' := DeclareTrigger(DeclareTrigger(t, Sym("trigger_x"), b2), Sym("x"), b1);
    assert BodyName("x") == "trigger_x";
    assert t'.methods["trigger_x"] == PrivateBody(b1);
  }
}
