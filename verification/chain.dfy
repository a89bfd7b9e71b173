/** `HookChain`: a list of inline hooks installed or removed together, in
    list order, stopping at the first hook whose call fails. */
module Chain {
  import opened Common
  import opened Protection
  import opened Advanced

  /** `HookChain`: the hooks, in the order they were added. */
  datatype HookChain = HookChain(hooks: seq<InlineHook>)

  /** `HookChain::len`: the number of hooks added. */
  function Len(c: HookChain): (n: nat)
    ensures n == 0 <==> c.hooks == []
  {
    |c.hooks|
  }

  /** `HookChain::is_empty`: no hook has been added, so `len` is 0. */
  function IsEmpty(c: HookChain): (b: bool)
    ensures b <==> Len(c) == 0
  {
    c.hooks == []
  }

  /** `HookChain::new` (and `Default`): a chain with no hooks. */
  function NewChain(): (c: HookChain)
    ensures IsEmpty(c) && Len(c) == 0
  {
    HookChain([])
  }

  /** `HookChain::add_hook`: appends, keeping the hooks already there. */
  function AddHook(c: HookChain, h: InlineHook): (c': HookChain)
    ensures Len(c') == Len(c) + 1
    ensures c'.hooks[..Len(c)] == c.hooks
    ensures c'.hooks[Len(c)] == h
  {
    HookChain(c.hooks + [h])
  }

  /** Adding the hooks `hs` one after another, in order. */
  function AddHooks(c: HookChain, hs: seq<InlineHook>): HookChain
    decreases |hs|
  {
    if hs == [] then c else AddHooks(AddHook(c, hs[0]), hs[1..])
  }

  /** `len` counts the hooks added, in the order they were added, and the
      chain is empty exactly when it was empty and nothing was added. */
  lemma {:induction false} AddHooksCount(c: HookChain, hs: seq<InlineHook>)
    ensures AddHooks(c, hs).hooks == c.hooks + hs
    ensures Len(AddHooks(c, hs)) == Len(c) + |hs|
    ensures IsEmpty(AddHooks(c, hs)) <==> IsEmpty(c) && hs == []
    decreases |hs|
  {
    if hs != [] {
      AddHooksCount(AddHook(c, hs[0]), hs[1..]);
      assert c.hooks + [hs[0]] + hs[1..] == c.hooks + hs;
    }
  }

  // ---------------------------------------------------------------------
  // Running the chain

  /** What the chain does to one hook: install it with a replacement, or
      uninstall it. */
  datatype Step = InstallStep(replacement: U64) | UninstallStep

  /** The per-hook conditions the single-hook operations need. */
  predicate StepFits(arch: Arch, os: Os, memLen: nat, h: InlineHook, s: Step)
  {
    match s
    case InstallStep(r) => HookFits(arch, os, memLen, h, r)
    case UninstallStep => h.target + |h.originalBytes| <= memLen && RangeOk(os.pageSize, h.target, |h.originalBytes|)
  }

  /** One hook's call. */
  function Perform(arch: Arch, os: Os, mem: seq<bv8>, h: InlineHook, s: Step): (p: Patched)
    requires StepFits(arch, os, |mem|, h, s)
    ensures |p.mem| == |mem|
    ensures p.outcome != Fail(CountMismatch)
  {
    match s
    case InstallStep(r) => Install(arch, os, mem, h, r)
    case UninstallStep => Uninstall(os, mem, h)
  }

  /** A per-hook call, as the chain loop sees it. */
  type HookOp = (seq<bv8>, InlineHook, Step) -> Patched

  /** The hook calls of the engine. A hook that does not lie in the modelled
      memory cannot be made writable, so its call fails like a refused
      `mprotect` and changes nothing. */
  function HookCall(arch: Arch, os: Os): (op: HookOp)
  {
    (m: seq<bv8>, h: InlineHook, s: Step) =>
      if StepFits(arch, os, |m|, h, s) then Perform(arch, os, m, h, s)
      else Patched(m, Fail(MprotectFailed), [])
  }

  /** Every hook call of the engine keeps the memory size and never reports a
      count mismatch. */
  lemma HookCallWellBehaved(arch: Arch, os: Os)
    ensures KeepsLength(HookCall(arch, os))
    ensures NeverMismatch(HookCall(arch, os))
  {
  }

  /** The call leaves the memory size alone. */
  ghost predicate KeepsLength(op: HookOp)
  {
    forall m, h, s :: |op(m, h, s).mem| == |m|
  }

  /** The call never reports a count mismatch (only the chain does). */
  ghost predicate NeverMismatch(op: HookOp)
  {
    forall m, h, s :: op(m, h, s).outcome != Fail(CountMismatch)
  }

  /** The outcome of a chain call: the memory, the first error if any, the
      system calls, and how many hooks were called. */
  datatype ChainRun = ChainRun(mem: seq<bv8>, outcome: Outcome, effects: seq<Effect>, attempted: nat)

  /** The loop `for hook in hooks { hook.op()?; }`: call each hook in turn and
      return at the first error. */
  function Run(op: HookOp, mem: seq<bv8>, hooks: seq<InlineHook>, steps: seq<Step>): (r: ChainRun)
    requires |hooks| == |steps|
    ensures r.attempted <= |hooks|
    ensures r.outcome == Pass ==> r.attempted == |hooks|
    ensures r.outcome != Pass ==> r.attempted >= 1
    ensures KeepsLength(op) ==> |r.mem| == |mem|
    ensures NeverMismatch(op) ==> r.outcome != Fail(CountMismatch)
    decreases |hooks|
  {
    if |hooks| == 0 then ChainRun(mem, Pass, [], 0)
    else
      var p := op(mem, hooks[0], steps[0]);
      if p.outcome.Fail? then ChainRun(p.mem, p.outcome, p.effects, 1)
      else
        var rest := Run(op, p.mem, hooks[1..], steps[1..]);
        ChainRun(rest.mem, rest.outcome, p.effects + rest.effects, rest.attempted + 1)
  }

  /** Running two chains back to back: the second runs, from the memory the
      first left, only when the first passed; otherwise nothing after the
      first error is called. */
  lemma {:induction false} RunAppend(op: HookOp, mem: seq<bv8>,
                                     hooks: seq<InlineHook>, steps: seq<Step>,
                                     more: seq<InlineHook>, moreSteps: seq<Step>)
    requires |hooks| == |steps| && |more| == |moreSteps|
    ensures var r := Run(op, mem, hooks, steps);
      Run(op, mem, hooks + more, steps + moreSteps) ==
        if r.outcome.Fail? then r
        else
          var s := Run(op, r.mem, more, moreSteps);
          ChainRun(s.mem, s.outcome, r.effects + s.effects, r.attempted + s.attempted)
    decreases |hooks|
  {
    if |hooks| == 0 {
      assert hooks + more == more;
      assert steps + moreSteps == moreSteps;
      var s := Run(op, mem, more, moreSteps);
      assert [] + s.effects == s.effects;
    } else {
      var p := op(mem, hooks[0], steps[0]);
      assert (hooks + more)[0] == hooks[0];
      assert (steps + moreSteps)[0] == steps[0];
      if p.outcome.Pass? {
        assert (hooks + more)[1..] == hooks[1..] + more;
        assert (steps + moreSteps)[1..] == steps[1..] + moreSteps;
        RunAppend(op, p.mem, hooks[1..], steps[1..], more, moreSteps);
        var r' := Run(op, p.mem, hooks[1..], steps[1..]);
        if r'.outcome.Pass? {
          var s := Run(op, r'.mem, more, moreSteps);
          assert p.effects + (r'.effects + s.effects) == (p.effects + r'.effects) + s.effects;
        }
      }
    }
  }

  /** A failed run stopped at the hook it names: every hook before it was
      called and passed, that hook's call failed, and the memory is exactly
      what that call left, so no later hook was called. */
  lemma {:induction false} RunStopsAtFirstError(op: HookOp, mem: seq<bv8>, hooks: seq<InlineHook>, steps: seq<Step>)
    requires |hooks| == |steps|
    requires Run(op, mem, hooks, steps).outcome.Fail?
    ensures var r := Run(op, mem, hooks, steps);
      var k := r.attempted - 1;
      && 0 <= k < |hooks|
      && var before := Run(op, mem, hooks[..k], steps[..k]);
      && before.outcome == Pass
      && op(before.mem, hooks[k], steps[k]).outcome == r.outcome
      && op(before.mem, hooks[k], steps[k]).mem == r.mem
    decreases |hooks|
  {
    var r := Run(op, mem, hooks, steps);
    var k := r.attempted - 1;
    var p := op(mem, hooks[0], steps[0]);
    if p.outcome.Pass? {
      RunStopsAtFirstError(op, p.mem, hooks[1..], steps[1..]);
      assert hooks[..k][1..] == hooks[1..][..k - 1];
      assert steps[..k][1..] == steps[1..][..k - 1];
      assert hooks[..k][0] == hooks[0];
      assert steps[..k][0] == steps[0];
    }
  }

  /** A passing run extended by one more hook: that hook is called from the
      memory the run left. */
  lemma RunSnoc(op: HookOp, mem: seq<bv8>, hooks: seq<InlineHook>, steps: seq<Step>, h: InlineHook, s: Step)
    requires |hooks| == |steps|
    requires Run(op, mem, hooks, steps).outcome == Pass
    ensures var r := Run(op, mem, hooks, steps);
      var p := op(r.mem, h, s);
      Run(op, mem, hooks + [h], steps + [s]) == ChainRun(p.mem, p.outcome, r.effects + p.effects, r.attempted + 1)
  {
    RunAppend(op, mem, hooks, steps, [h], [s]);
    var r := Run(op, mem, hooks, steps);
    var p := op(r.mem, h, s);
    assert [h][1..] == [] && [s][1..] == [];
    assert p.effects + [] == p.effects;
  }

  /** Once a prefix of the chain fails, the hooks after it change nothing. */
  lemma RunPrefixFails(op: HookOp, mem: seq<bv8>, hooks: seq<InlineHook>, steps: seq<Step>, k: nat)
    requires |hooks| == |steps| && k <= |hooks|
    requires Run(op, mem, hooks[..k], steps[..k]).outcome.Fail?
    ensures Run(op, mem, hooks, steps) == Run(op, mem, hooks[..k], steps[..k])
  {
    RunAppend(op, mem, hooks[..k], steps[..k], hooks[k..], steps[k..]);
    assert hooks[..k] + hooks[k..] == hooks;
    assert steps[..k] + steps[k..] == steps;
  }

  /** The same loop, written as the source writes it: a `for` over the
      hooks with an early return. It computes exactly `Run`. */
  method RunInOrder(op: HookOp, mem: seq<bv8>, hooks: seq<InlineHook>, steps: seq<Step>)
    returns (r: ChainRun)
    requires |hooks| == |steps|
    ensures r == Run(op, mem, hooks, steps)
  {
    var m := mem;
    var effects: seq<Effect> := [];
    var i := 0;
    while i < |hooks|
      invariant 0 <= i <= |hooks|
      invariant Run(op, mem, hooks[..i], steps[..i]) == ChainRun(m, Pass, effects, i)
    {
      var p := op(m, hooks[i], steps[i]);
      RunSnoc(op, mem, hooks[..i], steps[..i], hooks[i], steps[i]);
      assert hooks[..i + 1] == hooks[..i] + [hooks[i]];
      assert steps[..i + 1] == steps[..i] + [steps[i]];
      if p.outcome.Fail? {
        RunPrefixFails(op, mem, hooks, steps, i + 1);
        return ChainRun(p.mem, p.outcome, effects + p.effects, i + 1);
      }
      m := p.mem;
      effects := effects + p.effects;
      i := i + 1;
    }
    assert hooks[..i] == hooks;
    assert steps[..i] == steps;
    r := ChainRun(m, Pass, effects, i);
  }

  /** One install step per replacement. */
  function Installs(replacements: seq<U64>): (steps: seq<Step>)
    ensures |steps| == |replacements|
    ensures forall k :: 0 <= k < |steps| ==> steps[k] == InstallStep(replacements[k])
  {
    seq(|replacements|, k requires 0 <= k < |replacements| => InstallStep(replacements[k]))
  }

  /** `HookChain::install_all`: a count mismatch is refused before any hook
      is called; otherwise the hooks are installed in order up to the first
      error. */
  function InstallAll(arch: Arch, os: Os, mem: seq<bv8>, c: HookChain, replacements: seq<U64>): (r: ChainRun)
    ensures r.outcome == Fail(CountMismatch) <==> Len(c) != |replacements|
    ensures Len(c) != |replacements| ==> r == ChainRun(mem, Fail(CountMismatch), [], 0)
    ensures Len(c) == |replacements| ==> r == Run(HookCall(arch, os), mem, c.hooks, Installs(replacements))
    ensures |r.mem| == |mem|
  {
    HookCallWellBehaved(arch, os);
    if |c.hooks| != |replacements| then ChainRun(mem, Fail(CountMismatch), [], 0)
    else Run(HookCall(arch, os), mem, c.hooks, Installs(replacements))
  }

  /** One uninstall step per hook. */
  function Uninstalls(n: nat): (steps: seq<Step>)
    ensures |steps| == n
    ensures forall k :: 0 <= k < n ==> steps[k] == UninstallStep
  {
    seq(n, _ => UninstallStep)
  }

  /** `HookChain::uninstall_all`: the hooks are uninstalled in order up to
      the first error. Uninstalling writes no jump, so the architecture
      passed to `HookCall` is never consulted; `OtherArch` is a placeholder. */
  function UninstallAll(os: Os, mem: seq<bv8>, c: HookChain): (r: ChainRun)
    ensures r == Run(HookCall(OtherArch, os), mem, c.hooks, Uninstalls(Len(c)))
    ensures r.outcome == Pass ==> r.attempted == Len(c)
    ensures r.outcome != Pass ==> 1 <= r.attempted <= Len(c)
    ensures |r.mem| == |mem|
  {
    HookCallWellBehaved(OtherArch, os);
    Run(HookCall(OtherArch, os), mem, c.hooks, Uninstalls(|c.hooks|))
  }

  /** The unit test's chain: a new chain is empty, and a count mismatch is
      reported for it. */
  lemma NewChainIsEmpty()
    ensures Len(NewChain()) == 0 && IsEmpty(NewChain())
    ensures InstallAll(OtherArch, Os(4096, (b, l, p) => true, n => None), [], NewChain(), [0x1000]).outcome
            == Fail(CountMismatch)
  {
  }
}
