/** The loop of `_iter_substrings` (freqsubs/freqsubs.py). One iteration is
    the function Step on the loop state; Run chains iterations to the end of
    the stack; NodeRun and ChildrenRun show, by induction on the tree, that
    a run from the initial state yields EngineSpec; IterSubstrings is the
    loop itself, which follows Step iteration by iteration. */
module Engine {
  import opened Wrappers
  import opened Strings
  import opened SuffixTree
  import opened Traversal

  /** A stack entry `(node, edge_label, level, is_pre_step)`. */
  datatype Frame = Frame(node: Node, edgeLabel: string, level: int, pre: bool)

  /** The loop variables between two iterations. */
  datatype Machine = Machine(
    stack: seq<Frame>,
    freqAcc: seq<int>,
    pathLabels: seq<string>,
    childHasYielded: seq<bool>,
    prevLevel: int)

  /** Every frame holds a well-formed subtree no larger than the root, so
      that only the root's own frame holds the root. */
  predicate FrameWF(tree: Tree, f: Frame) {
    SubtreeWF(tree, f.node) && Size(f.node) <= Size(tree.root)
  }

  predicate StackWF(tree: Tree, stack: seq<Frame>) {
    forall i :: 0 <= i < |stack| ==> FrameWF(tree, stack[i])
  }

  function Last<T>(s: seq<T>): T
    requires |s| > 0
  {
    s[|s| - 1]
  }

  function DropLast<T>(s: seq<T>): seq<T>
    requires |s| > 0
  {
    s[..|s| - 1]
  }

  /** `acc[-1] += x` */
  function AddLast(acc: seq<int>, x: int): (r: seq<int>)
    requires |acc| > 0
    ensures |r| == |acc| && r[|r| - 1] == acc[|acc| - 1] + x
  {
    acc[..|acc| - 1] + [acc[|acc| - 1] + x]
  }

  /** `[True for _ in child_has_yielded]` */
  function AllTrue(k: nat): (r: seq<bool>)
    ensures |r| == k
  {
    seq(k, _ => true)
  }

  /** The pre-step frames of n's first j children, in `node.children.values()`
      order; the loop pushes all of them (j = the number of children). */
  function ChildFrames(tree: Tree, n: Node, level: int, j: nat): (r: seq<Frame>)
    requires SubtreeWF(tree, n) && j <= |n.children|
    ensures |r| == j
  {
    if j == 0 then []
    else
      ChildWF(tree, n, j - 1);
      ChildFrames(tree, n, level, j - 1) + [Frame(n.children[j - 1], EdgeLabel(tree, n.children[j - 1]), level, true)]
  }

  /** The work left on the stack: a pre-step frame stands for its whole
      subtree (a pre-step and a post-step per node), a post-step frame for one step. */
  function Weight(f: Frame): nat {
    if f.pre then 2 * Size(f.node) else 1
  }

  function Measure(stack: seq<Frame>): nat {
    if stack == [] then 0 else Measure(DropLast(stack)) + Weight(Last(stack))
  }

  lemma {:induction false} MeasureConcat(a: seq<Frame>, b: seq<Frame>)
    ensures Measure(a + b) == Measure(a) + Measure(b)
    decreases |b|
  {
    if b != [] {
      assert DropLast(a + b) == a + DropLast(b);
      MeasureConcat(a, DropLast(b));
    } else {
      assert a + b == a;
    }
  }

  lemma MeasureSnoc(a: seq<Frame>, f: Frame)
    ensures Measure(a + [f]) == Measure(a) + Weight(f)
  {
    assert DropLast(a + [f]) == a;
  }

  lemma {:induction false} MeasureChildFrames(tree: Tree, n: Node, level: int, j: nat)
    requires SubtreeWF(tree, n) && j <= |n.children|
    ensures Measure(ChildFrames(tree, n, level, j)) == 2 * ChildSize(n, j)
  {
    if j > 0 {
      ChildWF(tree, n, j - 1);
      var c := n.children[j - 1];
      MeasureChildFrames(tree, n, level, j - 1);
      MeasureSnoc(ChildFrames(tree, n, level, j - 1), Frame(c, EdgeLabel(tree, c), level, true));
    }
  }

  lemma {:induction false} ChildFramesWF(tree: Tree, n: Node, level: int, j: nat)
    requires SubtreeWF(tree, n) && Size(n) <= Size(tree.root) && j <= |n.children|
    ensures StackWF(tree, ChildFrames(tree, n, level, j))
  {
    if j > 0 {
      ChildFramesWF(tree, n, level, j - 1);
      ChildSizeLess(n, j - 1);
      ChildWF(tree, n, j - 1);
      var c := n.children[j - 1];
      StackWFPush(tree, ChildFrames(tree, n, level, j - 1), Frame(c, EdgeLabel(tree, c), level, true));
    }
  }

  lemma StackWFConcat(tree: Tree, a: seq<Frame>, b: seq<Frame>)
    requires StackWF(tree, a) && StackWF(tree, b)
    ensures StackWF(tree, a + b)
  {
    var c := a + b;
    forall i | 0 <= i < |c| ensures FrameWF(tree, c[i]) {
      if i >= |a| { assert c[i] == b[i - |a|]; }
    }
  }

  lemma StackWFPush(tree: Tree, a: seq<Frame>, f: Frame)
    requires StackWF(tree, a) && FrameWF(tree, f)
    ensures StackWF(tree, a + [f])
  {
    var c := a + [f];
    forall i | 0 <= i < |c| ensures FrameWF(tree, c[i]) {
      if i < |a| { assert c[i] == a[i]; }
    }
  }

  lemma StackWFPop(tree: Tree, a: seq<Frame>, f: Frame)
    requires StackWF(tree, a + [f])
    ensures StackWF(tree, a) && FrameWF(tree, f)
  {
    var c := a + [f];
    assert c[|a|] == f;
    forall i | 0 <= i < |a| ensures FrameWF(tree, a[i]) {
      assert c[i] == a[i];
    }
  }

  /** The pre-step of frame f, popped off (leaving `stack`): push f's
      post-step unless f is the root, then, if f's node has children, push
      their pre-steps and open a new depth in the three lists. */
  function PreStep(tree: Tree, f: Frame, stack: seq<Frame>, m: Machine): Machine
    requires SubtreeWF(tree, f.node)
  {
    var withPost := if f.node != tree.root then stack + [f.(pre := false)] else stack;
    if |f.node.children| > 0 then
      Machine(withPost + ChildFrames(tree, f.node, f.level + 1, |f.node.children|),
              m.freqAcc + [0], m.pathLabels + [f.edgeLabel], m.childHasYielded + [false],
              m.prevLevel)
    else
      m.(stack := withPost)
  }

  /** The post-step of frame f, popped off (leaving `stack`): close the
      depth below f if the previous step was deeper, add f's frequency into
      the parent's accumulator and yield f's triple if it passes the test.
      None when a list it pops or updates is empty. */
  function PostStep(cfg: Config, f: Frame, stack: seq<Frame>, m: Machine): Option<(Machine, seq<Triple>)> {
    var popping := f.level < m.prevLevel;
    if popping && (m.freqAcc == [] || m.pathLabels == [] || m.childHasYielded == []) then None
    else
      var freq := if popping then Last(m.freqAcc) else if |f.node.children| == 0 then 1 else 0;
      var dominated := popping && Last(m.childHasYielded) && cfg.onlyMaximal;
      var acc := if popping then DropLast(m.freqAcc) else m.freqAcc;
      var labels := if popping then DropLast(m.pathLabels) else m.pathLabels;
      var flags := if popping then DropLast(m.childHasYielded) else m.childHasYielded;
      if acc == [] then None
      else
        var t := Triple(Join(labels), f.edgeLabel, freq);
        var emit := Emittable(cfg, t) && !dominated;
        Some((Machine(stack, AddLast(acc, freq), labels, if emit then AllTrue(|flags|) else flags, f.level),
              if emit then [t] else []))
  }

  /** One iteration of the `while stack:` loop. None stands for the
      IndexError a pop or `freq_acc[-1]` raises on an empty list. */
  function Step(tree: Tree, cfg: Config, m: Machine): Option<(Machine, seq<Triple>)>
    requires m.stack != [] && StackWF(tree, m.stack)
  {
    var f := Last(m.stack);
    if f.pre then Some((PreStep(tree, f, DropLast(m.stack), m), []))
    else PostStep(cfg, f, DropLast(m.stack), m)
  }

  /** The three per-depth lists have one entry per open depth each. */
  predicate ListsAligned(m: Machine) {
    |m.freqAcc| == |m.pathLabels| == |m.childHasYielded|
  }

  /** One iteration pushes and pops the three lists together, yields at most
      one triple, which passes the yield test, and after a yield every open
      "a descendant has yielded" flag is set. */
  lemma StepLists(tree: Tree, cfg: Config, m: Machine)
    requires m.stack != [] && StackWF(tree, m.stack) && Step(tree, cfg, m).Some?
    ensures var (next, out) := Step(tree, cfg, m).value;
      && (ListsAligned(m) ==> ListsAligned(next))
      && |out| <= 1 && (forall t :: t in out ==> Emittable(cfg, t))
      && (out != [] ==> forall i :: 0 <= i < |next.childHasYielded| ==> next.childHasYielded[i])
  {
  }

  /** The top frame and the frames below it are well formed, and popping
      the top removes its weight. */
  lemma StackTop(tree: Tree, stack: seq<Frame>)
    requires stack != [] && StackWF(tree, stack)
    ensures StackWF(tree, DropLast(stack)) && FrameWF(tree, Last(stack))
    ensures Measure(stack) == Measure(DropLast(stack)) + Weight(Last(stack))
  {
    assert stack == DropLast(stack) + [Last(stack)];
    StackWFPop(tree, DropLast(stack), Last(stack));
  }

  lemma MeasurePushChildren(tree: Tree, n: Node, level: int, stack: seq<Frame>)
    requires SubtreeWF(tree, n)
    ensures Measure(stack + ChildFrames(tree, n, level, |n.children|)) == Measure(stack) + 2 * Size(n) - 2
  {
    MeasureConcat(stack, ChildFrames(tree, n, level, |n.children|));
    MeasureChildFrames(tree, n, level, |n.children|);
  }

  /** What the pre-step leaves on the stack, from the frame f it popped. */
  lemma PreStepStack(tree: Tree, f: Frame, stack: seq<Frame>)
    requires StackWF(tree, stack) && FrameWF(tree, f) && f.pre
    ensures
      var withPost := if f.node != tree.root then stack + [f.(pre := false)] else stack;
      && StackWF(tree, withPost)
      && Measure(withPost) <= Measure(stack) + 1
  {
    if f.node != tree.root {
      StackWFPush(tree, stack, f.(pre := false));
      MeasureSnoc(stack, f.(pre := false));
    }
  }

  /** The pre-step keeps the stack well formed and consumes work. */
  lemma PreStepFacts(tree: Tree, f: Frame, stack: seq<Frame>, m: Machine)
    requires StackWF(tree, stack) && FrameWF(tree, f) && f.pre
    ensures StackWF(tree, PreStep(tree, f, stack, m).stack)
    ensures Measure(PreStep(tree, f, stack, m).stack) < Measure(stack) + Weight(f)
  {
    PreStepStack(tree, f, stack);
    var withPost := if f.node != tree.root then stack + [f.(pre := false)] else stack;
    PreStepShape(tree, f, stack, m);
    if |f.node.children| > 0 {
      PushChildrenFacts(tree, f.node, f.level + 1, withPost);
    }
  }

  /** The stack the pre-step leaves: the post-step frame (except for the
      root), then the children's pre-step frames. */
  lemma PreStepShape(tree: Tree, f: Frame, stack: seq<Frame>, m: Machine)
    requires SubtreeWF(tree, f.node)
    ensures var withPost := if f.node != tree.root then stack + [f.(pre := false)] else stack;
      PreStep(tree, f, stack, m).stack
        == if |f.node.children| > 0 then withPost + ChildFrames(tree, f.node, f.level + 1, |f.node.children|)
           else withPost
  {
  }

  lemma PushChildrenFacts(tree: Tree, n: Node, level: int, stack: seq<Frame>)
    requires StackWF(tree, stack) && SubtreeWF(tree, n) && Size(n) <= Size(tree.root)
    ensures StackWF(tree, stack + ChildFrames(tree, n, level, |n.children|))
    ensures Measure(stack + ChildFrames(tree, n, level, |n.children|)) == Measure(stack) + 2 * Size(n) - 2
  {
    ChildFramesWF(tree, n, level, |n.children|);
    StackWFConcat(tree, stack, ChildFrames(tree, n, level, |n.children|));
    MeasurePushChildren(tree, n, level, stack);
  }

  /** Each iteration keeps the stack well formed and consumes work. */
  lemma StepFacts(tree: Tree, cfg: Config, m: Machine)
    requires m.stack != [] && StackWF(tree, m.stack)
    ensures Step(tree, cfg, m).Some? ==>
      && StackWF(tree, Step(tree, cfg, m).value.0.stack)
      && Measure(Step(tree, cfg, m).value.0.stack) < Measure(m.stack)
  {
    StackTop(tree, m.stack);
    if Last(m.stack).pre {
      PreStepFacts(tree, Last(m.stack), DropLast(m.stack), m);
    }
  }

  /** Prepend an iteration's output to the rest of a run (None stays None). */
  function Emit(out: seq<Triple>, rest: Option<seq<Triple>>): Option<seq<Triple>> {
    if rest.Some? then Some(out + rest.value) else None
  }

  lemma EmitEmit(a: seq<Triple>, b: seq<Triple>, r: Option<seq<Triple>>)
    ensures Emit(a, Emit(b, r)) == Emit(a + b, r)
  {
    if r.Some? { assert a + (b + r.value) == (a + b) + r.value; }
  }

  /** All the triples yielded from state m until the stack is empty, or None
      when some iteration raises. */
  function Run(tree: Tree, cfg: Config, m: Machine): Option<seq<Triple>>
    requires StackWF(tree, m.stack)
    decreases Measure(m.stack), 2
  {
    if m.stack == [] then Some([]) else RunFrom(tree, cfg, m)
  }

  /** Run on a non-empty stack, by the kind of the frame on top. */
  function RunFrom(tree: Tree, cfg: Config, m: Machine): Option<seq<Triple>>
    requires m.stack != [] && StackWF(tree, m.stack)
    decreases Measure(m.stack), 1
  {
    if Last(m.stack).pre then RunPre(tree, cfg, m) else RunPost(tree, cfg, m)
  }

  /** A pre-step, which yields nothing, then the rest of the run. */
  function RunPre(tree: Tree, cfg: Config, m: Machine): Option<seq<Triple>>
    requires m.stack != [] && StackWF(tree, m.stack) && Last(m.stack).pre
    decreases Measure(m.stack), 0
  {
    StackTop(tree, m.stack);
    PreStepFacts(tree, Last(m.stack), DropLast(m.stack), m);
    Run(tree, cfg, PreStep(tree, Last(m.stack), DropLast(m.stack), m))
  }

  /** A post-step, then the rest of the run; None if the post-step raises. */
  function RunPost(tree: Tree, cfg: Config, m: Machine): Option<seq<Triple>>
    requires m.stack != [] && StackWF(tree, m.stack) && !Last(m.stack).pre
    decreases Measure(m.stack), 0
  {
    StackTop(tree, m.stack);
    var next := PostStep(cfg, Last(m.stack), DropLast(m.stack), m);
    if next.None? then None
    else Emit(next.value.1, Run(tree, cfg, next.value.0))
  }

  /** The state before the loop: the root's pre-step frame, empty lists. */
  function Init(tree: Tree): Machine {
    Machine([Frame(tree.root, "", 0, true)], [], [], [], -1)
  }

  /** One iteration, seen from the run: None if the step raises, otherwise
      the step's output followed by the rest of the run. */
  lemma RunUnfold(tree: Tree, cfg: Config, m: Machine)
    requires m.stack != [] && StackWF(tree, m.stack)
    ensures Step(tree, cfg, m).Some? ==>
      && StackWF(tree, Step(tree, cfg, m).value.0.stack)
      && Measure(Step(tree, cfg, m).value.0.stack) < Measure(m.stack)
      && Run(tree, cfg, m) == Emit(Step(tree, cfg, m).value.1, Run(tree, cfg, Step(tree, cfg, m).value.0))
    ensures Step(tree, cfg, m).None? ==> Run(tree, cfg, m).None?
  {
    StepFacts(tree, cfg, m);
    assert Run(tree, cfg, m) == RunFrom(tree, cfg, m);
    if Last(m.stack).pre {
      assert RunFrom(tree, cfg, m) == RunPre(tree, cfg, m);
      EmitNothing(RunPre(tree, cfg, m));
    } else {
      assert RunFrom(tree, cfg, m) == RunPost(tree, cfg, m);
    }
  }

  /** One iteration, seen from the run: the rest of the run follows the step. */
  lemma RunStep(tree: Tree, cfg: Config, m: Machine, next: Machine, out: seq<Triple>)
    requires m.stack != [] && StackWF(tree, m.stack) && Step(tree, cfg, m) == Some((next, out))
    ensures StackWF(tree, next.stack)
    ensures Run(tree, cfg, m) == Emit(out, Run(tree, cfg, next))
  {
    RunUnfold(tree, cfg, m);
  }

  lemma EmitNothing(r: Option<seq<Triple>>)
    ensures Emit([], r) == r
  {
    if r.Some? { assert [] + r.value == r.value; }
  }

  /** A step that yields nothing leaves the rest of the run unchanged. */
  lemma RunSilentStep(tree: Tree, cfg: Config, m: Machine, next: Machine)
    requires m.stack != [] && StackWF(tree, m.stack) && Step(tree, cfg, m) == Some((next, []))
    ensures StackWF(tree, next.stack)
    ensures Run(tree, cfg, m) == Run(tree, cfg, next)
  {
    RunStep(tree, cfg, m, next, []);
    EmitNothing(Run(tree, cfg, next));
  }

  lemma StepOnPre(tree: Tree, cfg: Config, m: Machine, base: seq<Frame>, f: Frame)
    requires StackWF(tree, m.stack) && m.stack == base + [f] && f.pre
    ensures SubtreeWF(tree, f.node)
    ensures Step(tree, cfg, m) == Some((PreStep(tree, f, base, m), []))
  {
    assert Last(m.stack) == f && DropLast(m.stack) == base;
    assert FrameWF(tree, m.stack[|base|]);
  }

  lemma StepOnPost(tree: Tree, cfg: Config, m: Machine, base: seq<Frame>, f: Frame)
    requires StackWF(tree, m.stack) && m.stack == base + [f] && !f.pre
    ensures Step(tree, cfg, m) == PostStep(cfg, f, base, m)
  {
    assert Last(m.stack) == f && DropLast(m.stack) == base;
  }

  lemma JoinAppend(labels: seq<string>, s: string)
    ensures Join(labels + [s]) == Join(labels) + s
  {
    assert (labels + [s])[..|labels|] == labels;
  }

  /** A leaf's pre-step pushes its post-step; the post-step (not popping, as
      the previous level is not deeper) counts 1 and yields the leaf's triple
      if it passes the test. */
  lemma LeafRun(tree: Tree, cfg: Config, n: Node, p: string, base: seq<Frame>, m: Machine)
    requires SubtreeWF(tree, n) && Size(n) < Size(tree.root) && |n.children| == 0
    requires StackWF(tree, base) && StackWF(tree, m.stack)
    requires m.stack == base + [Frame(n, EdgeLabel(tree, n), |m.freqAcc|, true)]
    requires |m.freqAcc| >= 1 && Join(m.pathLabels) == p && m.prevLevel <= |m.freqAcc|
    ensures
      var t := Triple(p, EdgeLabel(tree, n), 1);
      var emit := Emittable(cfg, t);
      Run(tree, cfg, m) ==
        Emit(if emit then [t] else [],
             Run(tree, cfg, Machine(base, AddLast(m.freqAcc, 1), m.pathLabels,
                                    if emit then AllTrue(|m.childHasYielded|) else m.childHasYielded,
                                    |m.freqAcc|)))
  {
    var L := |m.freqAcc|;
    var edge := EdgeLabel(tree, n);
    var f := Frame(n, edge, L, true);
    var post := Frame(n, edge, L, false);
    assert n != tree.root;
    var m1 := m.(stack := base + [post]);
    StepOnPre(tree, cfg, m, base, f);
    assert PreStep(tree, f, base, m) == m1;
    RunSilentStep(tree, cfg, m, m1);
    StepOnPost(tree, cfg, m1, base, post);
    var t := Triple(p, edge, 1);
    var emit := Emittable(cfg, t);
    var final := Machine(base, AddLast(m.freqAcc, 1), m.pathLabels,
                         if emit then AllTrue(|m.childHasYielded|) else m.childHasYielded, L);
    assert PostStep(cfg, post, base, m1) == Some((final, if emit then [t] else []));
    RunStep(tree, cfg, m1, final, if emit then [t] else []);
  }

  /** The pre-step of a non-root node with children pushes its post-step and
      its children's pre-steps, and opens a depth holding 0, its label, False. */
  lemma OpenNode(tree: Tree, cfg: Config, n: Node, base: seq<Frame>, m: Machine)
    requires SubtreeWF(tree, n) && Size(n) < Size(tree.root) && |n.children| > 0
    requires StackWF(tree, base) && StackWF(tree, m.stack)
    requires m.stack == base + [Frame(n, EdgeLabel(tree, n), |m.freqAcc|, true)]
    ensures
      var L := |m.freqAcc|;
      var edge := EdgeLabel(tree, n);
      var m1 := Machine(base + [Frame(n, edge, L, false)] + ChildFrames(tree, n, L + 1, |n.children|),
                        m.freqAcc + [0], m.pathLabels + [edge], m.childHasYielded + [false], m.prevLevel);
      StackWF(tree, m1.stack) && Run(tree, cfg, m) == Run(tree, cfg, m1)
  {
    var L := |m.freqAcc|;
    var edge := EdgeLabel(tree, n);
    var f := Frame(n, edge, L, true);
    assert n != tree.root;
    StepOnPre(tree, cfg, m, base, f);
    var m1 := Machine(base + [Frame(n, edge, L, false)] + ChildFrames(tree, n, L + 1, |n.children|),
                      m.freqAcc + [0], m.pathLabels + [edge], m.childHasYielded + [false], m.prevLevel);
    assert PreStep(tree, f, base, m) == m1;
    RunSilentStep(tree, cfg, m, m1);
  }

  /** The post-step of a non-root node whose children have all run (the
      previous level is deeper): close its depth, whose accumulator holds x,
      add x into the parent's accumulator, and yield the node's triple if it
      passes the test and, in maximal mode, nothing below it was yielded. */
  lemma CloseNode(tree: Tree, cfg: Config, n: Node, p: string, base: seq<Frame>,
                  acc: seq<int>, labels: seq<string>, flags: seq<bool>, yielded: bool, x: int)
    requires SubtreeWF(tree, n) && Size(n) < Size(tree.root)
    requires StackWF(tree, base)
    requires |acc| >= 1 && |labels| == |acc| && |flags| == |acc| && Join(labels) == p
    ensures
      var L := |acc|;
      var edge := EdgeLabel(tree, n);
      var t := Triple(p, edge, x);
      var emit := Emittable(cfg, t) && !(cfg.onlyMaximal && yielded);
      var m2 := Machine(base + [Frame(n, edge, L, false)], acc + [x], labels + [edge],
                        if yielded then AllTrue(L + 1) else flags + [false], L + 1);
      StackWF(tree, m2.stack) &&
      Run(tree, cfg, m2) ==
        Emit(if emit then [t] else [],
             Run(tree, cfg, Machine(base, AddLast(acc, x), labels, if yielded || emit then AllTrue(L) else flags, L)))
  {
    var L := |acc|;
    var edge := EdgeLabel(tree, n);
    var post := Frame(n, edge, L, false);
    StackWFPush(tree, base, post);
    var m2 := Machine(base + [post], acc + [x], labels + [edge],
                      if yielded then AllTrue(L + 1) else flags + [false], L + 1);
    StepOnPost(tree, cfg, m2, base, post);
    ClosingPostStep(cfg, post, base, acc, labels, flags, yielded, x);
    var t := Triple(p, edge, x);
    var emit := Emittable(cfg, t) && !(cfg.onlyMaximal && yielded);
    var final := Machine(base, AddLast(acc, x), labels, if yielded || emit then AllTrue(L) else flags, L);
    RunStep(tree, cfg, m2, final, if emit then [t] else []);
  }

  lemma ClosingPostStep(cfg: Config, f: Frame, base: seq<Frame>,
                        acc: seq<int>, labels: seq<string>, flags: seq<bool>, yielded: bool, x: int)
    requires |acc| >= 1 && |labels| == |acc| && |flags| == |acc| && !f.pre && f.level == |acc|
    ensures
      var L := |acc|;
      var t := Triple(Join(labels), f.edgeLabel, x);
      var emit := Emittable(cfg, t) && !(cfg.onlyMaximal && yielded);
      PostStep(cfg, f, base, Machine(base + [f], acc + [x], labels + [f.edgeLabel],
                                     if yielded then AllTrue(L + 1) else flags + [false], L + 1))
      == Some((Machine(base, AddLast(acc, x), labels, if yielded || emit then AllTrue(L) else flags, L),
               if emit then [t] else []))
  {
    var L := |acc|;
    var fl := if yielded then AllTrue(L + 1) else flags + [false];
    assert DropLast(acc + [x]) == acc && Last(acc + [x]) == x;
    assert DropLast(labels + [f.edgeLabel]) == labels;
    assert DropLast(fl) == if yielded then AllTrue(L) else flags;
    assert Last(fl) == yielded;
  }

  /** The whole run from the pre-step of a non-root node n at level L (the
      per-depth lists hold L entries, spelling p): it yields Yield(n, p) in
      order, then n's leaf count is added into the parent's accumulator, the
      "has yielded" flags are all set when anything in the subtree was
      yielded, and the previous level becomes L. */
  lemma {:induction false} NodeRun(tree: Tree, cfg: Config, n: Node, p: string, base: seq<Frame>, m: Machine)
    requires SubtreeWF(tree, n) && Size(n) < Size(tree.root)
    requires StackWF(tree, base) && StackWF(tree, m.stack)
    requires m.stack == base + [Frame(n, EdgeLabel(tree, n), |m.freqAcc|, true)]
    requires |m.freqAcc| >= 1 && |m.pathLabels| == |m.freqAcc| && |m.childHasYielded| == |m.freqAcc|
    requires Join(m.pathLabels) == p
    requires m.prevLevel <= |m.freqAcc|
    ensures
      var Y := Yield(tree, cfg, n, p);
      var L := |m.freqAcc|;
      Run(tree, cfg, m) ==
        Emit(Y, Run(tree, cfg, Machine(base, AddLast(m.freqAcc, LeafCount(n)), m.pathLabels,
                                       if |Y| > 0 then AllTrue(L) else m.childHasYielded, L)))
    decreases n, |n.children| + 1
  {
    if |n.children| == 0 {
      LeafNodeRun(tree, cfg, n, p, base, m);
    } else {
      var L := |m.freqAcc|;
      var edge := EdgeLabel(tree, n);
      var post := Frame(n, edge, L, false);
      var m1 := Machine(base + [post] + ChildFrames(tree, n, L + 1, |n.children|),
                        m.freqAcc + [0], m.pathLabels + [edge], m.childHasYielded + [false], m.prevLevel);
      OpenNode(tree, cfg, n, base, m);
      JoinAppend(m.pathLabels, edge);
      ChildrenRun(tree, cfg, n, |n.children|, p + edge, base + [post], m1);
      InternalNodeRun(tree, cfg, n, p, base, m);
    }
  }

  lemma AddLastZero(acc: seq<int>, x: int)
    ensures AddLast(acc + [0], x) == acc + [x]
  {
    assert (acc + [0])[..|acc|] == acc;
  }

  /** NodeRun for a leaf. */
  lemma LeafNodeRun(tree: Tree, cfg: Config, n: Node, p: string, base: seq<Frame>, m: Machine)
    requires SubtreeWF(tree, n) && Size(n) < Size(tree.root) && |n.children| == 0
    requires StackWF(tree, base) && StackWF(tree, m.stack)
    requires m.stack == base + [Frame(n, EdgeLabel(tree, n), |m.freqAcc|, true)]
    requires |m.freqAcc| >= 1 && |m.pathLabels| == |m.freqAcc| && |m.childHasYielded| == |m.freqAcc|
    requires Join(m.pathLabels) == p
    requires m.prevLevel <= |m.freqAcc|
    ensures
      var Y := Yield(tree, cfg, n, p);
      var L := |m.freqAcc|;
      Run(tree, cfg, m) ==
        Emit(Y, Run(tree, cfg, Machine(base, AddLast(m.freqAcc, LeafCount(n)), m.pathLabels,
                                       if |Y| > 0 then AllTrue(L) else m.childHasYielded, L)))
  {
    var t := Triple(p, EdgeLabel(tree, n), 1);
    YieldSplit(tree, cfg, n, p);
    assert Yield(tree, cfg, n, p) == if Emittable(cfg, t) then [t] else [];
    LeafRun(tree, cfg, n, p, base, m);
  }

  /** An internal node's run, given the run of its children: open, children, close. */
  lemma InternalNodeRun(tree: Tree, cfg: Config, n: Node, p: string, base: seq<Frame>, m: Machine)
    requires SubtreeWF(tree, n) && Size(n) < Size(tree.root) && |n.children| > 0
    requires StackWF(tree, base) && StackWF(tree, m.stack)
    requires m.stack == base + [Frame(n, EdgeLabel(tree, n), |m.freqAcc|, true)]
    requires |m.freqAcc| >= 1 && |m.pathLabels| == |m.freqAcc| && |m.childHasYielded| == |m.freqAcc|
    requires Join(m.pathLabels) == p
    requires
      var L := |m.freqAcc|;
      var edge := EdgeLabel(tree, n);
      var YC := YieldChildren(tree, cfg, n, |n.children|, p + edge);
      var m1 := Machine(base + [Frame(n, edge, L, false)] + ChildFrames(tree, n, L + 1, |n.children|),
                        m.freqAcc + [0], m.pathLabels + [edge], m.childHasYielded + [false], m.prevLevel);
      && StackWF(tree, m1.stack)
      && Run(tree, cfg, m) == Run(tree, cfg, m1)
      && Run(tree, cfg, m1) ==
           Emit(YC, Run(tree, cfg, Machine(base + [Frame(n, edge, L, false)],
                                           AddLast(m.freqAcc + [0], LeafSum(n, |n.children|)), m.pathLabels + [edge],
                                           if |YC| > 0 then AllTrue(L + 1) else m.childHasYielded + [false], L + 1)))
    ensures
      var Y := Yield(tree, cfg, n, p);
      var L := |m.freqAcc|;
      Run(tree, cfg, m) ==
        Emit(Y, Run(tree, cfg, Machine(base, AddLast(m.freqAcc, LeafCount(n)), m.pathLabels,
                                       if |Y| > 0 then AllTrue(L) else m.childHasYielded, L)))
  {
    var L := |m.freqAcc|;
    var edge := EdgeLabel(tree, n);
    var YC := YieldChildren(tree, cfg, n, |n.children|, p + edge);
    var yielded := |YC| > 0;
    AddLastZero(m.freqAcc, LeafCount(n));
    var t := Triple(p, edge, LeafCount(n));
    var emit := Emittable(cfg, t) && !(cfg.onlyMaximal && yielded);
    CloseNode(tree, cfg, n, p, base, m.freqAcc, m.pathLabels, m.childHasYielded, yielded, LeafCount(n));
    YieldSplit(tree, cfg, n, p);
    Chain(Run(tree, cfg, m), Run(tree, cfg, Machine(base + [Frame(n, edge, L, false)] + ChildFrames(tree, n, L + 1, |n.children|),
                        m.freqAcc + [0], m.pathLabels + [edge], m.childHasYielded + [false], m.prevLevel)),
          Run(tree, cfg, Machine(base + [Frame(n, edge, L, false)], m.freqAcc + [LeafCount(n)], m.pathLabels + [edge],
                                 if yielded then AllTrue(L + 1) else m.childHasYielded + [false], L + 1)),
          Run(tree, cfg, Machine(base, AddLast(m.freqAcc, LeafCount(n)), m.pathLabels,
                                 if yielded || emit then AllTrue(L) else m.childHasYielded, L)),
          YC, if emit then [t] else []);
  }

  lemma Chain(a: Option<seq<Triple>>, b: Option<seq<Triple>>, c: Option<seq<Triple>>, d: Option<seq<Triple>>,
              e1: seq<Triple>, e2: seq<Triple>)
    requires a == b && b == Emit(e1, c) && c == Emit(e2, d)
    ensures a == Emit(e1 + e2, d)
  {
    EmitEmit(e1, e2, d);
  }

  /** The last child's pre-step frame is on top. */
  lemma ChildFramesLast(tree: Tree, n: Node, level: int, j: nat, base: seq<Frame>)
    requires SubtreeWF(tree, n) && 0 < j <= |n.children|
    ensures n.children[j - 1] == tree.root || NodeWF(tree, n.children[j - 1])
    ensures base + ChildFrames(tree, n, level, j)
         == (base + ChildFrames(tree, n, level, j - 1))
            + [Frame(n.children[j - 1], EdgeLabel(tree, n.children[j - 1]), level, true)]
  {
    ChildWF(tree, n, j - 1);
  }

  /** The whole run from the pre-step frames of n's first j children (the
      children at level K, the lists holding K entries that spell pe, the
      text above the children): it yields YieldChildren in order, adds the
      children's leaf counts into n's accumulator, sets the flags when
      anything was yielded, and leaves the previous level at K (unless there
      was nothing to run). */
  lemma {:induction false} ChildrenRun(tree: Tree, cfg: Config, n: Node, j: nat, pe: string, base: seq<Frame>, m: Machine)
    requires SubtreeWF(tree, n) && Size(n) <= Size(tree.root) && j <= |n.children|
    requires StackWF(tree, base) && StackWF(tree, m.stack)
    requires m.stack == base + ChildFrames(tree, n, |m.freqAcc|, j)
    requires |m.freqAcc| >= 1 && |m.pathLabels| == |m.freqAcc| && |m.childHasYielded| == |m.freqAcc|
    requires Join(m.pathLabels) == pe
    requires m.prevLevel <= |m.freqAcc|
    ensures
      var YC := YieldChildren(tree, cfg, n, j, pe);
      var K := |m.freqAcc|;
      Run(tree, cfg, m) ==
        Emit(YC, Run(tree, cfg, Machine(base, AddLast(m.freqAcc, LeafSum(n, j)), m.pathLabels,
                                        if |YC| > 0 then AllTrue(K) else m.childHasYielded,
                                        if j > 0 then K else m.prevLevel)))
    decreases n, j
  {
    if j == 0 {
      NoChildrenRun(tree, cfg, n, pe, base, m);
      EmitNothing(Run(tree, cfg, Machine(base, AddLast(m.freqAcc, LeafSum(n, 0)), m.pathLabels,
                                         m.childHasYielded, m.prevLevel)));
    } else {
      var K := |m.freqAcc|;
      var c := n.children[j - 1];
      ChildSizeLess(n, j - 1);
      ChildFramesLast(tree, n, K, j, base);
      var front := base + ChildFrames(tree, n, K, j - 1);
      StackWFPop(tree, front, Frame(c, EdgeLabel(tree, c), K, true));
      NodeRun(tree, cfg, c, pe, front, m);
      var Yc := Yield(tree, cfg, c, pe);
      ChildrenRun(tree, cfg, n, j - 1, pe, base,
                  Machine(front, AddLast(m.freqAcc, LeafCount(c)), m.pathLabels,
                          if |Yc| > 0 then AllTrue(K) else m.childHasYielded, K));
      ChildrenStep(tree, cfg, n, j, pe, base, m);
    }
  }

  lemma NoChildrenRun(tree: Tree, cfg: Config, n: Node, pe: string, base: seq<Frame>, m: Machine)
    requires SubtreeWF(tree, n) && StackWF(tree, base) && StackWF(tree, m.stack)
    requires m.stack == base + ChildFrames(tree, n, |m.freqAcc|, 0) && |m.freqAcc| >= 1
    ensures YieldChildren(tree, cfg, n, 0, pe) == []
    ensures Run(tree, cfg, m) ==
      Run(tree, cfg, Machine(base, AddLast(m.freqAcc, LeafSum(n, 0)), m.pathLabels, m.childHasYielded, m.prevLevel))
  {
    assert m.freqAcc[..|m.freqAcc| - 1] + [m.freqAcc[|m.freqAcc| - 1]] == m.freqAcc;
    assert Machine(base, AddLast(m.freqAcc, 0), m.pathLabels, m.childHasYielded, m.prevLevel) == m;
  }

  /** Child j-1's run followed by the run of the children before it is the
      run of the first j children. */
  lemma ChildrenStep(tree: Tree, cfg: Config, n: Node, j: nat, pe: string, base: seq<Frame>, m: Machine)
    requires SubtreeWF(tree, n) && 0 < j <= |n.children|
    requires StackWF(tree, base) && StackWF(tree, m.stack) && |m.freqAcc| >= 1
    requires
      var K := |m.freqAcc|;
      var c := n.children[j - 1];
      var Yc := Yield(tree, cfg, c, pe);
      var front := base + ChildFrames(tree, n, K, j - 1);
      var m1 := Machine(front, AddLast(m.freqAcc, LeafCount(c)), m.pathLabels,
                        if |Yc| > 0 then AllTrue(K) else m.childHasYielded, K);
      var Yr := YieldChildren(tree, cfg, n, j - 1, pe);
      && StackWF(tree, front)
      && Run(tree, cfg, m) == Emit(Yc, Run(tree, cfg, m1))
      && Run(tree, cfg, m1) ==
           Emit(Yr, Run(tree, cfg, Machine(base, AddLast(m1.freqAcc, LeafSum(n, j - 1)), m.pathLabels,
                                           if |Yr| > 0 then AllTrue(K) else m1.childHasYielded,
                                           if j - 1 > 0 then K else m1.prevLevel)))
    ensures
      var YC := YieldChildren(tree, cfg, n, j, pe);
      var K := |m.freqAcc|;
      Run(tree, cfg, m) ==
        Emit(YC, Run(tree, cfg, Machine(base, AddLast(m.freqAcc, LeafSum(n, j)), m.pathLabels,
                                        if |YC| > 0 then AllTrue(K) else m.childHasYielded, K)))
  {
    var K := |m.freqAcc|;
    var c := n.children[j - 1];
    var Yc := Yield(tree, cfg, c, pe);
    var Yr := YieldChildren(tree, cfg, n, j - 1, pe);
    var front := base + ChildFrames(tree, n, K, j - 1);
    var m1 := Machine(front, AddLast(m.freqAcc, LeafCount(c)), m.pathLabels,
                      if |Yc| > 0 then AllTrue(K) else m.childHasYielded, K);
    var m2 := Machine(base, AddLast(m1.freqAcc, LeafSum(n, j - 1)), m.pathLabels,
                      if |Yr| > 0 then AllTrue(K) else m1.childHasYielded,
                      if j - 1 > 0 then K else m1.prevLevel);
    var YC := YieldChildren(tree, cfg, n, j, pe);
    var target := Machine(base, AddLast(m.freqAcc, LeafSum(n, j)), m.pathLabels,
                          if |YC| > 0 then AllTrue(K) else m.childHasYielded, K);
    ChildrenUnfold(tree, cfg, n, j, pe);
    ChildrenTarget(tree, cfg, n, j, pe, base, m);
    Chain(Run(tree, cfg, m), Run(tree, cfg, m), Run(tree, cfg, m1), Run(tree, cfg, target), Yc, Yr);
  }

  /** The state after child j-1's run and then the earlier children's is the
      state after all j children. */
  lemma ChildrenTarget(tree: Tree, cfg: Config, n: Node, j: nat, pe: string, base: seq<Frame>, m: Machine)
    requires SubtreeWF(tree, n) && 0 < j <= |n.children| && |m.freqAcc| >= 1
    ensures
      var K := |m.freqAcc|;
      var c := n.children[j - 1];
      var Yc := Yield(tree, cfg, c, pe);
      var Yr := YieldChildren(tree, cfg, n, j - 1, pe);
      var YC := YieldChildren(tree, cfg, n, j, pe);
      var m1 := Machine(base + ChildFrames(tree, n, K, j - 1), AddLast(m.freqAcc, LeafCount(c)), m.pathLabels,
                        if |Yc| > 0 then AllTrue(K) else m.childHasYielded, K);
      Machine(base, AddLast(m1.freqAcc, LeafSum(n, j - 1)), m.pathLabels,
              if |Yr| > 0 then AllTrue(K) else m1.childHasYielded,
              if j - 1 > 0 then K else m1.prevLevel)
      == Machine(base, AddLast(m.freqAcc, LeafSum(n, j)), m.pathLabels,
                 if |YC| > 0 then AllTrue(K) else m.childHasYielded, K)
  {
    var K := |m.freqAcc|;
    var c := n.children[j - 1];
    ChildrenUnfold(tree, cfg, n, j, pe);
    ChildrenMachines(base, m.freqAcc, m.pathLabels, m.childHasYielded, K, LeafCount(c), LeafSum(n, j - 1),
                     Yield(tree, cfg, c, pe), YieldChildren(tree, cfg, n, j - 1, pe));
  }

  /** YieldChildren and LeafSum for j children, from child j-1 and the rest. */
  lemma ChildrenUnfold(tree: Tree, cfg: Config, n: Node, j: nat, pe: string)
    requires SubtreeWF(tree, n) && 0 < j <= |n.children|
    ensures YieldChildren(tree, cfg, n, j, pe)
         == Yield(tree, cfg, n.children[j - 1], pe) + YieldChildren(tree, cfg, n, j - 1, pe)
    ensures LeafSum(n, j) == LeafSum(n, j - 1) + LeafCount(n.children[j - 1])
  {
  }

  /** The state after child j-1 and then the earlier children is the state
      after all j of them: the two additions into the accumulator make one,
      and the flags are set when either part yielded. */
  lemma ChildrenMachines(base: seq<Frame>, acc: seq<int>, labels: seq<string>, flags: seq<bool>, K: nat,
                         a: int, b: int, Yc: seq<Triple>, Yr: seq<Triple>)
    requires |acc| > 0
    ensures Machine(base, AddLast(AddLast(acc, a), b), labels,
                    if |Yr| > 0 then AllTrue(K) else if |Yc| > 0 then AllTrue(K) else flags, K)
         == Machine(base, AddLast(acc, b + a), labels, if |Yc + Yr| > 0 then AllTrue(K) else flags, K)
  {
    AddLastTwice(acc, a, b);
  }

  lemma AddLastTwice(acc: seq<int>, a: int, b: int)
    requires |acc| > 0
    ensures AddLast(AddLast(acc, a), b) == AddLast(acc, b + a)
  {
    assert AddLast(acc, a)[..|acc| - 1] == acc[..|acc| - 1];
  }

  /** A run from the initial state never raises and yields EngineSpec. */
  lemma EngineRuns(tree: Tree, cfg: Config)
    requires TreeWF(tree)
    ensures StackWF(tree, Init(tree).stack)
    ensures Run(tree, cfg, Init(tree)) == Some(EngineSpec(tree, cfg))
  {
    var root := tree.root;
    var m := Init(tree);
    assert FrameWF(tree, m.stack[0]);
    YieldIsEntries(tree, cfg, root, "");
    var YC := YieldChildren(tree, cfg, root, |root.children|, "");
    YieldSplit(tree, cfg, root, "");
    assert "" + EdgeLabel(tree, root) == "";
    assert Yield(tree, cfg, root, "") == YC;
    if |root.children| == 0 {
      RootLeafRun(tree, cfg);
    } else {
      var cf := ChildFrames(tree, root, 1, |root.children|);
      ChildFramesWF(tree, root, 1, |root.children|);
      var m1 := Machine(cf, [0], [""], [false], -1);
      RootOpens(tree, cfg);
      assert m1.stack == [] + cf;
      assert Join([""]) == "";
      ChildrenRun(tree, cfg, root, |root.children|, "", [], m1);
      var final := Machine([], AddLast([0], LeafSum(root, |root.children|)), [""],
                           if |YC| > 0 then AllTrue(1) else [false], 1);
      assert Run(tree, cfg, final) == Some([]);
      assert YC + [] == YC;
    }
  }

  /** The root with no children: its pre-step empties the stack. */
  lemma RootLeafRun(tree: Tree, cfg: Config)
    requires TreeWF(tree) && |tree.root.children| == 0
    ensures StackWF(tree, Init(tree).stack)
    ensures Run(tree, cfg, Init(tree)) == Some([])
  {
    var m := Init(tree);
    assert FrameWF(tree, m.stack[0]);
    var m1 := m.(stack := []);
    assert Step(tree, cfg, m) == Some((m1, []));
    RunSilentStep(tree, cfg, m, m1);
  }

  /** The root with children: its pre-step pushes their frames at level 1
      and opens depth 1 (no post-step is pushed for the root). */
  lemma RootOpens(tree: Tree, cfg: Config)
    requires TreeWF(tree) && |tree.root.children| > 0
    ensures StackWF(tree, Init(tree).stack)
    ensures
      var m1 := Machine(ChildFrames(tree, tree.root, 1, |tree.root.children|), [0], [""], [false], -1);
      StackWF(tree, m1.stack) && Run(tree, cfg, Init(tree)) == Run(tree, cfg, m1)
  {
    var m := Init(tree);
    assert FrameWF(tree, m.stack[0]);
    var m1 := Machine(ChildFrames(tree, tree.root, 1, |tree.root.children|), [0], [""], [false], -1);
    assert m.stack == [] + [Frame(tree.root, "", 0, true)];
    StepOnPre(tree, cfg, m, [], Frame(tree.root, "", 0, true));
    assert [] + m1.stack == m1.stack;
    assert PreStep(tree, Frame(tree.root, "", 0, true), [], m) == m1;
    RunSilentStep(tree, cfg, m, m1);
  }

  /** A run that does not raise from a non-empty stack: its first iteration
      does not raise, and the rest of the run does not either. */
  lemma RunSome(tree: Tree, cfg: Config, m: Machine)
    requires m.stack != [] && StackWF(tree, m.stack) && Run(tree, cfg, m).Some?
    ensures Step(tree, cfg, m).Some?
    ensures StackWF(tree, Step(tree, cfg, m).value.0.stack)
    ensures Measure(Step(tree, cfg, m).value.0.stack) < Measure(m.stack)
    ensures Run(tree, cfg, Step(tree, cfg, m).value.0).Some?
    ensures Run(tree, cfg, m).value == Step(tree, cfg, m).value.1 + Run(tree, cfg, Step(tree, cfg, m).value.0).value
  {
    RunUnfold(tree, cfg, m);
  }

  /** One pass of the loop body of `_iter_substrings` on the loop variables:
      pop a frame, then run its pre-step or its post-step. It returns the new
      loop variables and what the pass yields, which is what Step computes;
      the caller has ruled out the IndexError. */
  method Iterate(tree: Tree, cfg: Config, stack: seq<Frame>, freqAcc: seq<int>, pathLabels: seq<string>,
                 childHasYielded: seq<bool>, prevLevel: int)
    returns (stack': seq<Frame>, freqAcc': seq<int>, pathLabels': seq<string>,
             childHasYielded': seq<bool>, prevLevel': int, yielded: seq<Triple>)
    requires stack != [] && StackWF(tree, stack)
    requires Step(tree, cfg, Machine(stack, freqAcc, pathLabels, childHasYielded, prevLevel)).Some?
    ensures Step(tree, cfg, Machine(stack, freqAcc, pathLabels, childHasYielded, prevLevel))
         == Some((Machine(stack', freqAcc', pathLabels', childHasYielded', prevLevel'), yielded))
  {
    var frame := stack[|stack| - 1];
    stack' := stack[..|stack| - 1];
    freqAcc', pathLabels', childHasYielded', prevLevel' := freqAcc, pathLabels, childHasYielded, prevLevel;
    yielded := [];
    if frame.pre {
      assert FrameWF(tree, stack[|stack| - 1]);
      if frame.node != tree.root {
        stack' := stack' + [Frame(frame.node, frame.edgeLabel, frame.level, false)];
      }
      if |frame.node.children| > 0 {
        stack' := stack' + ChildFrames(tree, frame.node, frame.level + 1, |frame.node.children|);
        freqAcc' := freqAcc' + [0];
        pathLabels' := pathLabels' + [frame.edgeLabel];
        childHasYielded' := childHasYielded' + [false];
      }
    } else {
      var freq := 0;
      var dominated := false;
      if frame.level < prevLevel {
        freq := freqAcc'[|freqAcc'| - 1];
        freqAcc' := freqAcc'[..|freqAcc'| - 1];
        pathLabels' := pathLabels'[..|pathLabels'| - 1];
        dominated := childHasYielded'[|childHasYielded'| - 1] && cfg.onlyMaximal;
        childHasYielded' := childHasYielded'[..|childHasYielded'| - 1];
      } else if |frame.node.children| == 0 {
        freq := 1;
      }
      freqAcc' := freqAcc'[..|freqAcc'| - 1] + [freqAcc'[|freqAcc'| - 1] + freq];
      var text := Join(pathLabels');
      var numChars := |text| + |frame.edgeLabel|;
      if freq >= cfg.minSupport && numChars >= cfg.minLength && !dominated && frame.edgeLabel != "" {
        childHasYielded' := AllTrue(|childHasYielded'|);
        yielded := [Triple(text, frame.edgeLabel, freq)];
      }
      prevLevel' := frame.level;
    }
  }

  /** `_iter_substrings(tree, min_support, min_length, only_maximal_prefixes)`:
      the explicit-stack traversal, yielding exactly EngineSpec. */
  method IterSubstrings(tree: Tree, minSupport: int, minLength: int, onlyMaximalPrefixes: bool)
    returns (out: seq<Triple>)
    requires TreeWF(tree)
    ensures out == EngineSpec(tree, Config(minSupport, minLength, onlyMaximalPrefixes))
  {
    var cfg := Config(minSupport, minLength, onlyMaximalPrefixes);
    var stack := [Frame(tree.root, "", 0, true)];
    var freqAcc: seq<int> := [];
    var pathLabels: seq<string> := [];
    var childHasYielded: seq<bool> := [];
    var prevLevel := -1;
    out := [];
    EngineRuns(tree, cfg);
    while stack != []
      invariant StackWF(tree, stack)
      invariant Run(tree, cfg, Machine(stack, freqAcc, pathLabels, childHasYielded, prevLevel)).Some?
      invariant out + Run(tree, cfg, Machine(stack, freqAcc, pathLabels, childHasYielded, prevLevel)).value
                == EngineSpec(tree, cfg)
      decreases Measure(stack)
    {
      RunSome(tree, cfg, Machine(stack, freqAcc, pathLabels, childHasYielded, prevLevel));
      var yielded;
      stack, freqAcc, pathLabels, childHasYielded, prevLevel, yielded :=
        Iterate(tree, cfg, stack, freqAcc, pathLabels, childHasYielded, prevLevel);
      out := out + yielded;
    }
  }
}
