/** The refresh protocol of a materialized view: committers, readers and refreshers around a dirty flag
    and a lock, as a state machine over their atomic steps. */
module ViewRefresh {
  import opened Basics

  /** Where a call of `readable` stands. `asOf` holds the commits acknowledged before it began. A
      recomputation reads its source range by range, each at the version current at that moment; the
      version it starts at counts as its first. */
  datatype Phase =
    | Waiting(asOf: set<nat>)
    | Locked(asOf: set<nat>)
    | Computing(asOf: set<nat>, base: nat, snaps: seq<nat>)
    | Failed(asOf: set<nat>)
    | Releasing(asOf: set<nat>, ok: bool)
    | Ready(asOf: set<nat>, sound: bool)   // may read the view; sound: not by the fast path during a refresh
    | Got(asOf: set<nat>, sound: bool, view: seq<nat>)
    | Errored(asOf: set<nat>)

  /** Commits are numbered from 1; `unmarked` ones have not yet set the flag. The stored view is the
      sequence of source versions its ranges were read at. */
  datatype State = State(version: nat, unmarked: set<nat>, dirty: bool, view: seq<nat>,
                         holder: Option<nat>, readers: map<nat, Phase>)

  const INITIAL := State(0, {}, true, [0], None, map[])

  datatype Event =
    | Commit                // a source write becomes durable
    | Mark(n: nat)          // its handler sets the flag and acknowledges it
    | Begin(r: nat)         // a reader loads the flag
    | Acquire(r: nat)
    | Swap(r: nat)          // clears the flag under the lock
    | Scan(r: nat)          // reads one more source range
    | Install(r: nat)       // replaces the stored view in one transaction
    | Fail(r: nat)
    | Remark(r: nat)        // sets the flag again after a failure
    | Release(r: nat)
    | Read(r: nat)

  function Marked(s: State): set<nat> { set n | 1 <= n <= s.version && n !in s.unmarked }

  /** The view contains the commits: every range was read at a version that has them. */
  predicate Covers(view: seq<nat>, ns: set<nat>) { forall i, n :: 0 <= i < |view| && n in ns ==> n <= view[i] }

  predicate Is(s: State, r: nat, p: Phase -> bool) { r in s.readers && p(s.readers[r]) }

  /** A refresh has cleared the flag and has not yet installed a view or set the flag again. */
  predicate InFlight(s: State) {
    s.holder.Some? && Is(s, s.holder.value, (p: Phase) => p.Computing? || p.Failed?)
  }

  function Enter(s: State, r: nat, p: Phase): State { s.(readers := s.readers[r := p]) }

  /** The next state, or None when the step cannot happen. */
  function Step(s: State, e: Event): Option<State> {
    match e
    case Commit => Some(s.(version := s.version + 1, unmarked := s.unmarked + {s.version + 1}))
    case Mark(n) => if n in s.unmarked then Some(s.(unmarked := s.unmarked - {n}, dirty := true)) else None
    case Begin(r) =>
      if r in s.readers then None
      else Some(Enter(s, r, if s.dirty then Waiting(Marked(s)) else Ready(Marked(s), !InFlight(s))))
    case Acquire(r) =>
      if s.holder.None? && r in s.readers && s.readers[r].Waiting?
      then Some(Enter(s, r, Locked(s.readers[r].asOf)).(holder := Some(r))) else None
    case Swap(r) =>
      if r !in s.readers || !s.readers[r].Locked? then None
      else if s.dirty then Some(Enter(s, r, Computing(s.readers[r].asOf, s.version, [s.version])).(dirty := false))
      else Some(Enter(s, r, Releasing(s.readers[r].asOf, true)))
    case Scan(r) =>
      if r in s.readers && s.readers[r].Computing?
      then Some(Enter(s, r, s.readers[r].(snaps := s.readers[r].snaps + [s.version]))) else None
    case Install(r) =>
      if r in s.readers && s.readers[r].Computing?
      then Some(Enter(s, r, Releasing(s.readers[r].asOf, true)).(view := s.readers[r].snaps)) else None
    case Fail(r) =>
      if r in s.readers && s.readers[r].Computing? then Some(Enter(s, r, Failed(s.readers[r].asOf))) else None
    case Remark(r) =>
      if r in s.readers && s.readers[r].Failed?
      then Some(Enter(s, r, Releasing(s.readers[r].asOf, false)).(dirty := true)) else None
    case Release(r) =>
      if r !in s.readers || !s.readers[r].Releasing? then None
      else
        var p := s.readers[r];
        Some(Enter(s, r, if p.ok then Ready(p.asOf, true) else Errored(p.asOf)).(holder := None))
    case Read(r) =>
      if r in s.readers && s.readers[r].Ready?
      then Some(Enter(s, r, Got(s.readers[r].asOf, s.readers[r].sound, s.view))) else None
  }

  function Run(es: seq<Event>): Option<State> {
    if es == [] then Some(INITIAL)
    else
      var s := Run(es[..|es| - 1]);
      if s.None? then None else Step(s.value, es[|es| - 1])
  }

  // ---- the invariant ----

  predicate InLock(p: Phase) { p.Locked? || p.Computing? || p.Failed? || p.Releasing? }

  ghost predicate GoodPhase(s: State, r: nat, p: Phase) {
    && (InLock(p) ==> s.holder == Some(r))
    && p.asOf <= Marked(s)
    && match p
       case Computing(asOf, base, snaps) =>
         && base <= s.version && (forall i :: 0 <= i < |s.view| ==> s.view[i] <= base)
         && snaps != [] && (forall i :: 0 <= i < |snaps| ==> base <= snaps[i] <= s.version)
         && (forall n :: n in asOf ==> n <= base)
         && (!s.dirty ==> forall n :: n in Marked(s) ==> n <= base)
       case Releasing(asOf, ok) => ok ==> Covers(s.view, asOf)
       case Ready(asOf, sound) => sound ==> Covers(s.view, asOf)
       case Got(asOf, sound, view) => sound ==> Covers(view, asOf)
       case _ => true
  }

  ghost predicate Inv(s: State) {
    && (forall n :: n in s.unmarked ==> 1 <= n <= s.version)
    && s.view != [] && (forall i :: 0 <= i < |s.view| ==> s.view[i] <= s.version)
    && (s.holder.Some? ==> s.holder.value in s.readers && InLock(s.readers[s.holder.value]))
    && (forall r :: r in s.readers ==> GoodPhase(s, r, s.readers[r]))
    && (!s.dirty && !InFlight(s) ==> Covers(s.view, Marked(s)))
  }

  lemma CommitMarksNothing(s: State)
    ensures Marked(s.(version := s.version + 1, unmarked := s.unmarked + {s.version + 1})) == Marked(s)
  {
  }

  /** A newer view covers what an older one covers. */
  lemma NewerCovers(old_: seq<nat>, base: nat, snaps: seq<nat>, ns: set<nat>)
    requires old_ != [] && Covers(old_, ns) && (forall i :: 0 <= i < |old_| ==> old_[i] <= base)
    requires forall i :: 0 <= i < |snaps| ==> base <= snaps[i]
    ensures Covers(snaps, ns)
  {
    forall n | n in ns ensures n <= base { assert n <= old_[0]; }
  }

  lemma CommitKeeps(s: State)
    requires Inv(s)
    ensures Inv(Step(s, Commit).value)
  {
    var t := Step(s, Commit).value;
    CommitMarksNothing(s);
    forall r | r in t.readers ensures GoodPhase(t, r, t.readers[r]) { assert GoodPhase(s, r, s.readers[r]); }
  }

  lemma MarkKeeps(s: State, n: nat)
    requires Inv(s) && n in s.unmarked
    ensures Inv(Step(s, Mark(n)).value)
  {
    var t := Step(s, Mark(n)).value;
    assert Marked(s) <= Marked(t);
    forall r | r in t.readers ensures GoodPhase(t, r, t.readers[r]) { assert GoodPhase(s, r, s.readers[r]); }
  }

  lemma InstallKeeps(s: State, r: nat)
    requires Inv(s) && Step(s, Install(r)).Some?
    ensures Inv(Step(s, Install(r)).value)
  {
    var t, p := Step(s, Install(r)).value, s.readers[r];
    assert GoodPhase(s, r, p);
    forall q | q in t.readers ensures GoodPhase(t, q, t.readers[q]) {
      assert GoodPhase(s, q, s.readers[q]);
      var asOf := s.readers[q].asOf;
      if Covers(s.view, asOf) { NewerCovers(s.view, p.base, p.snaps, asOf); }
    }
  }

  lemma BeginKeeps(s: State, r: nat)
    requires Inv(s) && Step(s, Begin(r)).Some?
    ensures Inv(Step(s, Begin(r)).value)
  {
    var t := Step(s, Begin(r)).value;
    assert Marked(t) == Marked(s);
    forall q | q in t.readers ensures GoodPhase(t, q, t.readers[q]) {
      if q != r { assert GoodPhase(s, q, s.readers[q]); }
    }
  }

  lemma RemarkOrReadKeeps(s: State, e: Event)
    requires Inv(s) && Step(s, e).Some? && (e.Remark? || e.Read?)
    ensures Inv(Step(s, e).value)
  {
    var t := Step(s, e).value;
    assert Marked(t) == Marked(s);
    assert GoodPhase(s, e.r, s.readers[e.r]);
    forall q | q in t.readers ensures GoodPhase(t, q, t.readers[q]) { assert GoodPhase(s, q, s.readers[q]); }
  }

  /** The steps inside a recomputation. */
  lemma ReaderKeeps(s: State, e: Event)
    requires Inv(s) && Step(s, e).Some? && (e.Scan? || e.Fail?)
    ensures Inv(Step(s, e).value)
  {
    var t := Step(s, e).value;
    assert Marked(t) == Marked(s);
    assert GoodPhase(s, e.r, s.readers[e.r]);
    forall q | q in t.readers ensures GoodPhase(t, q, t.readers[q]) { assert GoodPhase(s, q, s.readers[q]); }
  }

  lemma LockKeeps(s: State, e: Event)
    requires Inv(s) && Step(s, e).Some? && (e.Acquire? || e.Swap? || e.Release?)
    ensures Inv(Step(s, e).value)
  {
    var t := Step(s, e).value;
    assert Marked(t) == Marked(s);
    assert GoodPhase(s, e.r, s.readers[e.r]);
    forall q | q in t.readers ensures GoodPhase(t, q, t.readers[q]) { assert GoodPhase(s, q, s.readers[q]); }
  }

  lemma StepKeepsInv(s: State, e: Event)
    requires Inv(s) && Step(s, e).Some?
    ensures Inv(Step(s, e).value)
  {
    match e
    case Commit => CommitKeeps(s);
    case Mark(n) => MarkKeeps(s, n);
    case Install(r) => InstallKeeps(s, r);
    case Begin(r) => BeginKeeps(s, r);
    case Acquire(_) => LockKeeps(s, e);
    case Swap(_) => LockKeeps(s, e);
    case Release(_) => LockKeeps(s, e);
    case Remark(_) => RemarkOrReadKeeps(s, e);
    case Read(_) => RemarkOrReadKeeps(s, e);
    case _ => ReaderKeeps(s, e);
  }

  lemma {:induction false} RunKeepsInv(es: seq<Event>)
    requires Run(es).Some?
    ensures Inv(Run(es).value)
  {
    if es != [] {
      RunKeepsInv(es[..|es| - 1]);
      StepKeepsInv(Run(es[..|es| - 1]).value, es[|es| - 1]);
    }
  }

  // ---- what every interleaving guarantees ----

  /** A clear flag with no refresh in flight means that the stored view has every acknowledged commit. */
  lemma ClearFlagMeansFresh(es: seq<Event>)
    requires Run(es).Some? && !Run(es).value.dirty && !InFlight(Run(es).value)
    ensures Covers(Run(es).value.view, Marked(Run(es).value))
  {
    RunKeepsInv(es);
  }

  /** A reader that took the lock, or that found the flag clear with no refresh in flight, gets a view
      with every commit acknowledged before it began. */
  lemma ReaderSeesEarlierCommits(es: seq<Event>, r: nat)
    requires Run(es).Some? && r in Run(es).value.readers && Run(es).value.readers[r].Got? && Run(es).value.readers[r].sound
    ensures Covers(Run(es).value.readers[r].view, Run(es).value.readers[r].asOf)
  {
    RunKeepsInv(es);
    assert GoodPhase(Run(es).value, r, Run(es).value.readers[r]);
  }

  /** An installed view was read range by range at versions no older than those of the view it replaces. */
  lemma ViewsNeverGoBack(es: seq<Event>, e: Event)
    requires Run(es).Some? && Step(Run(es).value, e).Some?
    ensures var s := Run(es).value; var t := Step(s, e).value;
            t.view == s.view || forall i, j :: 0 <= i < |s.view| && 0 <= j < |t.view| ==> s.view[i] <= t.view[j]
  {
    RunKeepsInv(es);
    if e.Install? { assert GoodPhase(Run(es).value, e.r, Run(es).value.readers[e.r]); }
  }

  /** Recomputations exclude each other. */
  lemma OneRefreshAtATime(es: seq<Event>, q: nat, r: nat)
    requires Run(es).Some?
    requires var s := Run(es).value; q in s.readers && r in s.readers && InLock(s.readers[q]) && InLock(s.readers[r])
    ensures q == r
  {
    RunKeepsInv(es);
    var s := Run(es).value;
    assert GoodPhase(s, q, s.readers[q]) && GoodPhase(s, r, s.readers[r]);
  }

  predicate Installs(es: seq<Event>) { exists i :: 0 <= i < |es| && es[i].Install? }

  predicate Reads(es: seq<Event>, r: nat) { Read(r) in es }

  /** While reader `r`, which found the flag clear in `s`, has not read yet: its phase stays, every
      recomputation has the commits acknowledged before it, and so has the view once one is installed. */
  ghost predicate Pending(s: State, r: nat, t: State, installed: bool) {
    && Inv(t) && r in t.readers && t.readers[r] == Ready(Marked(s), !InFlight(s))
    && (forall q :: q in t.readers && t.readers[q].Computing? ==> Upto(Marked(s), t.readers[q].base))
    && (if installed then Covers(t.view, Marked(s)) else t.view == s.view)
  }

  predicate Upto(ns: set<nat>, v: nat) { forall n :: n in ns ==> n <= v }

  lemma PendingAtFirst(s: State, r: nat)
    requires Inv(s) && !s.dirty && r !in s.readers
    ensures Pending(s, r, Step(s, Begin(r)).value, false)
  {
    var t := Step(s, Begin(r)).value;
    BeginKeeps(s, r);
    forall q | q in t.readers && t.readers[q].Computing? ensures Upto(Marked(s), t.readers[q].base) {
      assert GoodPhase(s, q, s.readers[q]);
    }
  }

  /** A recomputation that has just begun reads versions that have every acknowledged commit. */
  lemma BasesStay(s: State, r: nat, t: State, installed: bool, e: Event, q: nat)
    requires Pending(s, r, t, installed) && Step(t, e).Some?
    requires q in Step(t, e).value.readers && Step(t, e).value.readers[q].Computing?
    ensures Upto(Marked(s), Step(t, e).value.readers[q].base)
  {
    assert GoodPhase(t, r, t.readers[r]);
  }

  lemma ViewStays(s: State, r: nat, t: State, installed: bool, e: Event)
    requires Pending(s, r, t, installed) && Step(t, e).Some?
    ensures var u := Step(t, e).value; if installed || e.Install? then Covers(u.view, Marked(s)) else u.view == s.view
  {
    if e.Install? { assert GoodPhase(t, e.r, t.readers[e.r]); }
  }

  lemma PendingStep(s: State, r: nat, t: State, installed: bool, e: Event)
    requires Pending(s, r, t, installed) && e != Read(r) && Step(t, e).Some?
    ensures Pending(s, r, Step(t, e).value, installed || e.Install?)
  {
    var u := Step(t, e).value;
    StepKeepsInv(t, e);
    ViewStays(s, r, t, installed, e);
    forall q | q in u.readers && u.readers[q].Computing? ensures Upto(Marked(s), u.readers[q].base) {
      BasesStay(s, r, t, installed, e, q);
    }
  }

  lemma {:induction false} StaysPending(es: seq<Event>, r: nat, mid: seq<Event>)
    requires Run(es).Some? && !Run(es).value.dirty && r !in Run(es).value.readers
    requires !Reads(mid, r) && Run(es + [Begin(r)] + mid).Some?
    ensures Pending(Run(es).value, r, Run(es + [Begin(r)] + mid).value, Installs(mid))
    decreases |mid|
  {
    var begun := es + [Begin(r)];
    if mid == [] {
      RunKeepsInv(es);
      RunSnoc(es, Begin(r));
      assert begun + mid == begun;
      PendingAtFirst(Run(es).value, r);
    } else {
      var init, e := mid[..|mid| - 1], mid[|mid| - 1];
      assert mid == init + [e] && begun + mid == begun + init + [e];
      RunSnoc(begun + init, e);
      StaysPending(es, r, init);
      PendingStep(Run(es).value, r, Run(begun + init).value, Installs(init), e);
      InstallsSnoc(init, e);
    }
  }

  lemma InstallsSnoc(es: seq<Event>, e: Event)
    ensures Installs(es + [e]) <==> Installs(es) || e.Install?
  {
    var all := es + [e];
    assert all[|es|] == e;
    if i :| 0 <= i < |es| && es[i].Install? { assert all[i].Install?; }
  }

  /** A reader that found the flag clear, and reads after any other steps, sees every commit
      acknowledged before it began exactly when a view was installed in between or the one stored when
      it loaded the flag already had them all. */
  lemma FastPathDuringRefresh(es: seq<Event>, r: nat, mid: seq<Event>)
    requires Run(es).Some? && !Run(es).value.dirty && r !in Run(es).value.readers
    requires !Reads(mid, r) && Run(es + [Begin(r)] + mid).Some?
    ensures var s := Run(es).value; var t := Run(es + [Begin(r)] + mid + [Read(r)]);
            && t.Some? && r in t.value.readers && t.value.readers[r].Got?
            && t.value.readers[r].asOf == Marked(s) && (t.value.readers[r].sound <==> !InFlight(s))
            && (Covers(t.value.readers[r].view, Marked(s)) <==> Installs(mid) || Covers(s.view, Marked(s)))
  {
    StaysPending(es, r, mid);
    RunSnoc(es + [Begin(r)] + mid, Read(r));
  }

  lemma RunSnoc(es: seq<Event>, e: Event)
    ensures Run(es + [e]) == if Run(es).None? then None else Step(Run(es).value, e)
  {
    assert (es + [e])[..|es|] == es;
  }

  const RECOMPUTING := State(1, {}, false, [0], Some(0), map[0 := Computing({1}, 1, [1])])

  /** Commit 1 is acknowledged, and reader 0 has cleared the flag and is recomputing. */
  lemma Recomputing()
    ensures Run([Commit, Mark(1), Begin(0), Acquire(0), Swap(0)]) == Some(RECOMPUTING)
  {
    var es := [Commit, Mark(1), Begin(0), Acquire(0), Swap(0)];
    var s1 := State(1, {1}, true, [0], None, map[]);
    var s2 := State(1, {}, true, [0], None, map[]);
    var s3 := State(1, {}, true, [0], None, map[0 := Waiting({1})]);
    var s4 := State(1, {}, true, [0], Some(0), map[0 := Locked({1})]);
    assert Marked(s2) == {1};
    assert INITIAL.unmarked + {1} == {1} && s1.unmarked - {1} == {};
    assert s3.readers[0 := Locked({1})] == s4.readers && s4.readers[0 := Computing({1}, 1, [1])] == RECOMPUTING.readers;
    assert es[..0] == [] && es[..1] == [] + [es[0]] && es[..2] == es[..1] + [es[1]] && es[..3] == es[..2] + [es[2]];
    assert es[..4] == es[..3] + [es[3]] && es == es[..4] + [es[4]];
    RunSnoc([], es[0]);
    assert Run(es[..1]) == Some(s1);
    RunSnoc(es[..1], es[1]);
    RunSnoc(es[..2], es[2]);
    assert Run(es[..3]) == Some(s3);
    RunSnoc(es[..3], es[3]);
    RunSnoc(es[..4], es[4]);
  }

  const STALE_START := [Commit, Mark(1), Begin(0), Acquire(0), Swap(0)]

  /** Reads do not always observe every committed write: while reader 0 recomputes, reader 1 finds the
      flag clear and gets a view without commit 1, which was acknowledged before it began. */
  lemma FastPathCanBeStale()
    ensures var t := Run(STALE_START + [Begin(1)] + [Read(1)]);
            t.Some? && 1 in t.value.readers && t.value.readers[1].Got?
            && !Covers(t.value.readers[1].view, t.value.readers[1].asOf)
  {
    Recomputing();
    RunSnoc(STALE_START, Begin(1));
    assert STALE_START + [Begin(1)] + [] == STALE_START + [Begin(1)];
    FastPathDuringRefresh(STALE_START, 1, []);
    assert 1 in Marked(RECOMPUTING) && RECOMPUTING.view[0] == 0;
  }
}
