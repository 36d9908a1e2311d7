/** What the usage marks of lock classes are for. A lock that an interrupt handler takes must never be held while
    interrupts are on, or the handler may spin for the code it interrupted. */
module LockUsage {
  import opened LockOrder
  import opened Lockdep

  /** One validated acquire or release: in which context the lock was held, and what was answered. */
  datatype Use = Use(classId: nat, irqCtx: bool, irqsOn: bool, verdict: Verdict)

  /** A lock of the class was held by an interrupt handler. */
  ghost predicate InHandler(h: seq<Use>, c: nat) {
    exists i | 0 <= i < |h| :: h[i].classId == c && h[i].irqCtx
  }

  /** A lock of the class was held where a handler could have come in. */
  ghost predicate Interruptible(h: seq<Use>, c: nat) {
    exists i | 0 <= i < |h| :: h[i].classId == c && !h[i].irqCtx && h[i].irqsOn
  }

  ghost predicate Clash(h: seq<Use>, c: nat) {
    InHandler(h, c) && Interruptible(h, c)
  }

  ghost predicate Caught(h: seq<Use>, c: nat) {
    exists i | 0 <= i < |h| :: h[i].classId == c && h[i].verdict == IrqInconsistent
  }

  /** Reports that come before the check of contexts and end it. */
  ghost predicate CutShort(h: seq<Use>, c: nat) {
    exists i | 0 <= i < |h| :: h[i].classId == c && (h[i].verdict == HeldOverflow || h[i].verdict == Recursion)
  }

  /** Whatever was caught did clash, and whatever clashes was caught, unless another report cut the check short. */
  ghost predicate Exact(h: seq<Use>) {
    forall c: nat :: (Caught(h, c) ==> Clash(h, c)) && (Clash(h, c) ==> Caught(h, c) || CutShort(h, c))
  }

  /** The marks of a class say how its locks were held so far. */
  ghost predicate Told(classes: seq<LockClass>, h: seq<Use>) {
    && (forall i | 0 <= i < |h| :: 1 <= h[i].classId <= |classes|)
    && forall c: nat | 1 <= c <= |classes| ::
         (classes[c - 1].inHardIrq <==> InHandler(h, c)) && (classes[c - 1].irqsOn <==> Interruptible(h, c))
  }

  /** A lock that is still held has left its mark. */
  ghost predicate Marks(classes: seq<LockClass>, held: seq<Held>) {
    forall i | 0 <= i < |held| ::
      && 1 <= held[i].classId <= |classes|
      && (held[i].irqCtx ==> classes[held[i].classId - 1].inHardIrq)
      && (!held[i].irqCtx && held[i].irqsOn ==> classes[held[i].classId - 1].irqsOn)
  }

  /** The marks after one more use. */
  function Noted(classes: seq<LockClass>, c: nat, irqCtx: bool, irqsOn: bool): (r: seq<LockClass>)
    requires 1 <= c <= |classes|
    ensures |r| == |classes|
  {
    if irqCtx || irqsOn then classes[c - 1 := Marked(classes[c - 1], irqCtx)] else classes
  }

  // ----- one more use -----

  lemma OneMore(h: seq<Use>, u: Use, c: nat)
    ensures InHandler(h + [u], c) <==> InHandler(h, c) || (u.classId == c && u.irqCtx)
    ensures Interruptible(h + [u], c) <==> Interruptible(h, c) || (u.classId == c && !u.irqCtx && u.irqsOn)
    ensures Caught(h + [u], c) <==> Caught(h, c) || (u.classId == c && u.verdict == IrqInconsistent)
    ensures CutShort(h + [u], c) <==>
            CutShort(h, c) || (u.classId == c && (u.verdict == HeldOverflow || u.verdict == Recursion))
  {
    var g := h + [u];
    assert g[|h|] == u && forall i | 0 <= i < |h| :: g[i] == h[i];
  }

  lemma ToldStep(classes: seq<LockClass>, h: seq<Use>, u: Use)
    requires Told(classes, h) && 1 <= u.classId <= |classes|
    ensures Told(Noted(classes, u.classId, u.irqCtx, u.irqsOn), h + [u])
  {
    hide InHandler, Interruptible;
    forall c: nat | 1 <= c <= |classes|
      ensures var d := Noted(classes, u.classId, u.irqCtx, u.irqsOn)[c - 1];
              (d.inHardIrq <==> InHandler(h + [u], c)) && (d.irqsOn <==> Interruptible(h + [u], c)) {
      OneMore(h, u, c);
    }
  }

  /** A class seen for the first time has no marks and no past. */
  lemma ToldGrows(classes: seq<LockClass>, cls: LockClass, h: seq<Use>)
    requires Told(classes, h) && !cls.inHardIrq && !cls.irqsOn
    ensures Told(classes + [cls], h)
  {
  }

  /** Marks are never taken away. */
  lemma MarksStay(classes: seq<LockClass>, c: nat, irqCtx: bool, irqsOn: bool, held: seq<Held>)
    requires 1 <= c <= |classes| && Marks(classes, held)
    ensures Marks(Noted(classes, c, irqCtx, irqsOn), held)
  {
  }

  lemma MarksPush(classes: seq<LockClass>, h: Held, held: seq<Held>)
    requires 1 <= h.classId <= |classes| && Marks(classes, held)
    ensures Marks(Noted(classes, h.classId, h.irqCtx, h.irqsOn), held + [h])
  {
    MarksStay(classes, h.classId, h.irqCtx, h.irqsOn, held);
  }

  lemma MarksDrop(classes: seq<LockClass>, held: seq<Held>, k: nat)
    requires k < |held| && Marks(classes, held)
    ensures Marks(classes, held[..k] + held[k + 1..])
  {
  }

  // ----- the verdicts -----

  /** Holding the lock now, in this context, is what the other mark forbids. */
  predicate Forbidden(cls: LockClass, irqCtx: bool, irqsOn: bool) {
    var m := if irqCtx || irqsOn then Marked(cls, irqCtx) else cls;
    m.inHardIrq && m.irqsOn
  }

  /** Of a class without both marks, an acquire that passes the checks before is reported if and only if marking
      the class for it would set both. */
  lemma IrqVerdict(g: set<Edge>, cls: LockClass, held: seq<Held>, instance: nat, classId: nat, irqCtx: bool,
      irqsOn: bool, trylock: bool)
    requires !(cls.inHardIrq && cls.irqsOn)
    ensures var v := AcquireVerdict(g, cls, held, instance, classId, irqCtx, irqsOn, trylock);
            v != HeldOverflow && v != Recursion ==> (v == IrqInconsistent <==> Forbidden(cls, irqCtx, irqsOn))
  {
  }

  /** Said of the past: in a handler, exactly what was ever interruptible; with interrupts on, exactly what a handler
      ever had. */
  lemma IrqHistory(classes: seq<LockClass>, h: seq<Use>, g: set<Edge>, held: seq<Held>, instance: nat, c: nat,
      irqCtx: bool, irqsOn: bool, trylock: bool)
    requires Told(classes, h) && 1 <= c <= |classes|
    ensures var v := AcquireVerdict(g, classes[c - 1], held, instance, c, irqCtx, irqsOn, trylock);
            v != HeldOverflow && v != Recursion ==>
              (v == IrqInconsistent <==>
                 if irqCtx then Interruptible(h, c) else irqsOn && InHandler(h, c))
  {
    hide InHandler, Interruptible;
  }

  /** A verdict that finds every new clash and no other. */
  ghost predicate Judged(cls: LockClass, u: Use) {
    || u.verdict == HeldOverflow || u.verdict == Recursion
    || (&& (u.verdict == IrqInconsistent ==> Forbidden(cls, u.irqCtx, u.irqsOn))
        && (Forbidden(cls, u.irqCtx, u.irqsOn) ==> u.verdict == IrqInconsistent || (cls.inHardIrq && cls.irqsOn)))
  }

  lemma AcquireJudged(g: set<Edge>, cls: LockClass, held: seq<Held>, instance: nat, c: nat, irqCtx: bool,
      irqsOn: bool, trylock: bool)
    ensures Judged(cls, Use(c, irqCtx, irqsOn,
                            AcquireVerdict(g, cls, held, instance, c, irqCtx, irqsOn, trylock)))
  {
  }

  /** A release with interrupts on is judged like an acquire, for the lock was held until then. */
  lemma ReleaseJudged(classes: seq<LockClass>, held: seq<Held>, k: nat, irqsOn: bool, v: Verdict)
    requires Marks(classes, held) && k < |held|
    requires v == ReleaseVerdict(classes[held[k].classId - 1], held[k], irqsOn)
    ensures Judged(classes[held[k].classId - 1], Use(held[k].classId, held[k].irqCtx, irqsOn, v))
    ensures Noted(classes, held[k].classId, held[k].irqCtx, irqsOn)
         == if !held[k].irqCtx && irqsOn
            then classes[held[k].classId - 1 := Marked(classes[held[k].classId - 1], false)] else classes
  {
  }

  lemma ExactStep(classes: seq<LockClass>, h: seq<Use>, u: Use)
    requires Told(classes, h) && Exact(h) && 1 <= u.classId <= |classes| && Judged(classes[u.classId - 1], u)
    ensures Exact(h + [u])
  {
    hide InHandler, Interruptible, Caught, CutShort;
    forall c: nat
      ensures (Caught(h + [u], c) ==> Clash(h + [u], c))
              && (Clash(h + [u], c) ==> Caught(h + [u], c) || CutShort(h + [u], c)) {
      OneMore(h, u, c);
    }
  }

  // ----- what follows -----

  /** As long as no report was made of a class, its locks were held by handlers only or with interrupts off only. */
  lemma NeverBoth(classes: seq<LockClass>, h: seq<Use>, c: nat)
    requires Told(classes, h) && Exact(h) && 1 <= c <= |classes|
    requires forall i | 0 <= i < |h| && h[i].classId == c :: h[i].verdict == Ok || h[i].verdict == Inversion
    ensures !Clash(h, c) && !(classes[c - 1].inHardIrq && classes[c - 1].irqsOn)
  {
    hide InHandler, Interruptible;
  }

  /** A handler that asks for a class some CPU holds where it can be interrupted never gets it unreported. */
  lemma HandlerReported(classes: seq<LockClass>, g: set<Edge>, other: seq<Held>, k: nat, held: seq<Held>,
      instance: nat, irqsOn: bool, trylock: bool)
    requires Marks(classes, other) && k < |other| && !other[k].irqCtx && other[k].irqsOn
    ensures AcquireVerdict(g, classes[other[k].classId - 1], held, instance, other[k].classId, true, irqsOn, trylock)
            in {HeldOverflow, Recursion, IrqInconsistent}
  {
  }

  /** Nor does anyone get, with interrupts on, a class some CPU holds in a handler. */
  lemma InterruptedReported(classes: seq<LockClass>, g: set<Edge>, other: seq<Held>, k: nat, held: seq<Held>,
      instance: nat, trylock: bool)
    requires Marks(classes, other) && k < |other| && other[k].irqCtx
    ensures AcquireVerdict(g, classes[other[k].classId - 1], held, instance, other[k].classId, false, true, trylock)
            in {HeldOverflow, Recursion, IrqInconsistent}
  {
  }
}
