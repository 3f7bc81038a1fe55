/** The chain indexer (core/chain_indexer.go) as interleaved steps of two threads. The notifier delivers head
    notifications under the lock. The updater takes on a section and finishes it under the lock, and processes it
    without; if the backend fails to reset, it also cuts the sections back without the lock. Cutting back
    (setValidSections) is modelled statement by statement. */
module ChainIndexer {
  import opened Types

  /** A header's content is fixed by its hash, so its parent is a function of the hash. */
  datatype Config = Config(sectionSize: nat, confirmsReq: nat, parentOf: Hash -> Hash)

  type Heads = map<uint64, Hash>

  /** The statement of setValidSections that comes next: the loop test, `storedSections--`, removing the head, and
      the assignment after the loop. */
  datatype Point = Test | Down | Remove | Set

  /** Where the notifier stands. While `Rolling` it holds the lock. */
  datatype Roll = Quiet | Rolling(target: uint64, at: Point)

  /** Where the update loop stands. While `Processing` or `Resetting` it does not hold the lock. */
  datatype Phase =
    | Idle
    | Processing(section: uint64, oldHead: Hash, next: nat, last: Hash)
    | Resetting(section: uint64, oldHead: Hash, at: Point)
    | Finished(section: uint64, oldHead: Hash, newHead: Option<Hash>)

  /** Section counters, and the section heads in the index database. */
  datatype State = State(stored: uint64, known: uint64, heads: Heads, phase: Phase, roll: Roll)

  /** `SectionHead`: the zero hash if there is none. */
  function SectionHead(heads: Heads, section: uint64): Hash {
    if section in heads then heads[section] else ZERO_HASH
  }

  /** `n - 1` in 64-bit arithmetic. */
  function Dec(n: uint64): (d: uint64)
    ensures (d + 1) % U64 == n
  {
    if n == 0 then MAX_UINT64 else n - 1
  }

  /******* Cutting back *******/

  datatype Thread = Notifier | Updater

  function Other(w: Thread): Thread {
    if w.Notifier? then Updater else Notifier
  }

  /** The thread is inside setValidSections. */
  predicate Cutting(s: State, w: Thread) {
    if w.Notifier? then s.roll.Rolling? else s.phase.Resetting?
  }

  /** The argument of that call; a failed reset cuts back to nothing. */
  function Target(s: State, w: Thread): uint64
    requires Cutting(s, w)
  {
    if w.Notifier? then s.roll.target else 0
  }

  function At(s: State, w: Thread): Point
    requires Cutting(s, w)
  {
    if w.Notifier? then s.roll.at else s.phase.at
  }

  /** The thread goes on to the given statement, or is done. */
  function GoTo(s: State, w: Thread, at: Option<Point>): State
    requires Cutting(s, w)
  {
    if w.Notifier? then s.(roll := if at.Some? then Rolling(s.roll.target, at.value) else Quiet)
    else if at.Some? then s.(phase := Resetting(s.phase.section, s.phase.oldHead, at.value))
    else s.(phase := Finished(s.phase.section, s.phase.oldHead, None))
  }

  /** One statement of setValidSections. */
  function CutStep(s: State, w: Thread): State {
    if !Cutting(s, w) then s
    else
      match At(s, w)
      case Test => GoTo(s, w, Some(if s.stored > Target(s, w) then Down else Set))
      case Down => GoTo(s.(stored := Dec(s.stored)), w, Some(Remove))
      case Remove => GoTo(s.(heads := s.heads - {s.stored}), w, Some(Test))
      case Set => GoTo(s.(stored := Target(s, w)), w, None)
  }

  /** Without the heads from `lo` up to but excluding `hi`. */
  function Cleared(heads: Heads, lo: nat, hi: nat): Heads {
    map i | i in heads && !(lo <= i < hi) :: heads[i]
  }

  /** What setValidSections does if nothing comes between: drop the heads from `sections` up. */
  function SetValid(s: State, sections: uint64): State {
    s.(stored := sections, heads := Cleared(s.heads, sections, s.stored))
  }

  /******* The steps *******/

  function Quotient(a: nat, b: nat): (q: nat)
    requires b > 0
    ensures q <= a && q * b <= a
  {
    a / b
  }

  lemma QuotientIsLargest(a: nat, b: nat)
    requires b > 0
    ensures a < (Quotient(a, b) + 1) * b
  {
    var q := a / b;
    assert a == b * q + a % b && (q + 1) * b == b * q + b;
  }

  /** A notification up to the point where a rollback begins to cut back; without checkpoints. */
  function NewHead(cfg: Config, s: State, head: uint64, reorg: bool): State
    requires cfg.sectionSize > 0
  {
    if s.roll.Rolling? then s
    else if reorg then
      var sections: uint64 := Quotient(head, cfg.sectionSize);
      var s1 := if sections < s.known then s.(known := sections) else s;
      if sections < s1.stored then s1.(roll := Rolling(sections, Test)) else s1
    else if head >= cfg.confirmsReq && (cfg.confirmsReq > 0 || head < MAX_UINT64) then
      var sections: uint64 := Quotient(head + 1 - cfg.confirmsReq, cfg.sectionSize);
      if sections > s.known then s.(known := sections) else s
    else s
  }

  /** The update loop takes on the next section and releases the lock. */
  function Begin(cfg: Config, s: State): State {
    if s.roll.Quiet? && s.phase.Idle? && s.known > s.stored then
      var oldHead := if s.stored > 0 then SectionHead(s.heads, s.stored - 1) else ZERO_HASH;
      s.(phase := Processing(s.stored, oldHead, s.stored * cfg.sectionSize, oldHead))
    else s
  }

  /** The backend refuses to reset: without the lock, all sections are about to be dropped. */
  function ResetFails(cfg: Config, s: State): State {
    if s.phase.Processing? && s.phase.next == s.phase.section * cfg.sectionSize
    then s.(phase := Resetting(s.phase.section, s.phase.oldHead, Test))
    else s
  }

  /** One header of the section: `read` is what the chain database has at this moment for the next
      number, if anything, and `accepted` whether the backend takes it. */
  function ProcessHeader(cfg: Config, s: State, read: Option<Hash>, accepted: bool): State {
    if s.phase.Processing? && s.phase.next < (s.phase.section + 1) * cfg.sectionSize then
      if read.None? || read.value == ZERO_HASH || cfg.parentOf(read.value) != s.phase.last || !accepted
      then s.(phase := Finished(s.phase.section, s.phase.oldHead, None))
      else s.(phase := s.phase.(next := s.phase.next + 1, last := read.value))
    else s
  }

  function Commit(cfg: Config, s: State, accepted: bool): State {
    if s.phase.Processing? && s.phase.next == (s.phase.section + 1) * cfg.sectionSize
    then s.(phase := Finished(s.phase.section, s.phase.oldHead, if accepted then Some(s.phase.last) else None))
    else s
  }

  /** With the lock again: mark the section complete if the section before it is still the one seen. */
  function Finish(s: State): State {
    if s.roll.Quiet? && s.phase.Finished? then
      var section := s.phase.section;
      if s.phase.newHead.Some? && section < MAX_UINT64 && s.phase.oldHead == SectionHead(s.heads, Dec(section))
      then SetValid(s.(heads := s.heads[section := s.phase.newHead.value]), section + 1).(phase := Idle)
      else s.(known := s.stored, phase := Idle)
    else s
  }

  datatype Event =
    | HeadEvent(head: uint64, reorg: bool)
    | CutEvent(thread: Thread)
    | BeginEvent
    | ResetFailsEvent
    | HeaderEvent(read: Option<Hash>, accepted: bool)
    | CommitEvent(accepted: bool)
    | FinishEvent

  function Apply(cfg: Config, s: State, e: Event): State
    requires cfg.sectionSize > 0
  {
    match e
    case HeadEvent(head, reorg) => NewHead(cfg, s, head, reorg)
    case CutEvent(thread) => CutStep(s, thread)
    case BeginEvent => Begin(cfg, s)
    case ResetFailsEvent => ResetFails(cfg, s)
    case HeaderEvent(read, accepted) => ProcessHeader(cfg, s, read, accepted)
    case CommitEvent(accepted) => Commit(cfg, s, accepted)
    case FinishEvent => Finish(s)
  }

  function Run(cfg: Config, s: State, events: seq<Event>): State
    requires cfg.sectionSize > 0
    decreases |events|
  {
    if events == [] then s else Run(cfg, Apply(cfg, s, events[0]), events[1..])
  }

  /** No call of setValidSections is under way. */
  predicate AtRest(s: State) {
    !Cutting(s, Notifier) && !Cutting(s, Updater)
  }

  /** A rollback and a failed reset cut back at the same time. */
  predicate Overlap(s: State) {
    Cutting(s, Notifier) && Cutting(s, Updater)
  }

  /** Both cut back to nothing, and at most the first section is left. */
  predicate Harmless(s: State) {
    s.roll.Rolling? && s.roll.target == 0 && s.heads.Keys <= {0}
  }

  /** In no state of the run do the two cut back at the same time, unless that is harmless. */
  ghost predicate Careful(cfg: Config, s: State, events: seq<Event>)
    requires cfg.sectionSize > 0
    decreases |events|
  {
    && (Overlap(s) ==> Harmless(s))
    && (events == [] || Careful(cfg, Apply(cfg, s, events[0]), events[1..]))
  }

  /******* The invariant *******/

  /** The hash `k` parent links above `h`. */
  function Ancestor(cfg: Config, h: Hash, k: nat): Hash
    decreases k
  {
    if k == 0 then h else Ancestor(cfg, cfg.parentOf(h), k - 1)
  }

  /** Section `i` is stored with a proper head, exactly `sectionSize` parent links above which lies the
      head of the section before (or nothing, for the first). */
  ghost predicate SectionOk(cfg: Config, heads: Heads, i: uint64) {
    && i in heads && heads[i] != ZERO_HASH
    && (i > 0 ==> i - 1 in heads)
    && Ancestor(cfg, heads[i], cfg.sectionSize) == if i == 0 then ZERO_HASH else heads[i - 1]
  }

  ghost predicate HeadsOk(cfg: Config, stored: nat, heads: Heads) {
    && (forall i {:trigger i in heads} :: i in heads ==> i < stored)
    && (forall i: uint64 {:trigger SectionOk(cfg, heads, i)} :: i < stored ==> SectionOk(cfg, heads, i))
  }

  /** A section under way was the next one when it was taken on; sections can only have been dropped
      since, and the head of the section before, if it is still there, is the one that was seen. */
  ghost predicate JobOk(stored: uint64, heads: Heads, section: nat, oldHead: Hash) {
    && stored <= section < MAX_UINT64
    && (section == 0 <==> oldHead == ZERO_HASH)
    && (section > 0 && section - 1 in heads ==> heads[section - 1] == oldHead)
  }

  ghost predicate PhaseOk(cfg: Config, s: State) {
    match s.phase
    case Idle => true
    case Resetting(_, _, _) => true
    case Processing(section, oldHead, next, last) =>
      && JobOk(s.stored, s.heads, section, oldHead)
      && section * cfg.sectionSize <= next <= (section + 1) * cfg.sectionSize
      && Ancestor(cfg, last, next - section * cfg.sectionSize) == oldHead
      && (next > section * cfg.sectionSize ==> last != ZERO_HASH)
    case Finished(section, oldHead, newHead) =>
      newHead.Some? ==>
        && JobOk(s.stored, s.heads, section, oldHead)
        && newHead.value != ZERO_HASH && Ancestor(cfg, newHead.value, cfg.sectionSize) == oldHead
  }

  /** How far a single call has got: the heads reach up to the counter, or one beyond just before that one goes. */
  ghost predicate CutOk(cfg: Config, s: State, target: uint64, at: Point) {
    && target <= s.stored
    && HeadsOk(cfg, if at.Remove? then s.stored + 1 else s.stored, s.heads)
    && (at.Down? ==> target < s.stored) && (at.Set? ==> target == s.stored)
  }

  /** At most one thread cuts back, and everything is as far as it says. */
  ghost predicate Alone(cfg: Config, s: State) {
    && !Overlap(s) && PhaseOk(cfg, s)
    && (s.roll.Rolling? ==> CutOk(cfg, s, s.roll.target, s.roll.at))
    && (s.phase.Resetting? ==> CutOk(cfg, s, 0, s.phase.at))
    && (AtRest(s) ==> HeadsOk(cfg, s.stored, s.heads))
  }

  ghost predicate Before(s: State, w: Thread, at: Point) {
    Cutting(s, w) && At(s, w) == at
  }

  /** One thread's part in a harmless overlap: it leaves the loop only when the first head is gone or the other
      thread is just about to remove it. */
  ghost predicate LeavesRight(s: State, w: Thread) {
    Before(s, w, Set) ==>
      && (0 in s.heads ==> Before(s, Other(w), Remove) && s.stored == 0)
      && (!Cutting(s, Other(w)) ==> s.stored == 0)
  }

  /** After a harmless overlap began. The counter may have wrapped below zero, but whoever finishes last leaves
      nothing stored. */
  ghost predicate Together(cfg: Config, s: State) {
    && (s.phase.Resetting? || (s.phase.Finished? && s.phase.newHead.None?))
    && (s.roll.Rolling? ==> s.roll.target == 0)
    && s.heads.Keys <= {0} && (0 in s.heads ==> SectionOk(cfg, s.heads, 0))
    && (0 in s.heads && s.stored == 0 ==> Before(s, Notifier, Remove) || Before(s, Updater, Remove))
    && LeavesRight(s, Notifier) && LeavesRight(s, Updater)
    && (AtRest(s) ==> s.stored == 0)
  }

  ghost predicate Inv(cfg: Config, s: State) {
    Alone(cfg, s) || Together(cfg, s)
  }

  /** Whenever no call is under way the heads are those of the stored sections and linked. */
  lemma RestIsLinked(cfg: Config, s: State)
    requires Inv(cfg, s) && AtRest(s)
    ensures HeadsOk(cfg, s.stored, s.heads)
  {
  }

  /******* Every step keeps it *******/

  lemma HeadsPrefix(cfg: Config, n: nat, heads: Heads, lo: nat)
    requires HeadsOk(cfg, n, heads) && lo <= n
    ensures HeadsOk(cfg, lo, Cleared(heads, lo, n))
  {
    var rest := Cleared(heads, lo, n);
    forall i: uint64 | i < lo
      ensures SectionOk(cfg, rest, i)
    {
      assert SectionOk(cfg, heads, i);
    }
  }

  lemma CutStepAlone(cfg: Config, s: State, w: Thread)
    requires Alone(cfg, s) && Cutting(s, w)
    ensures Alone(cfg, CutStep(s, w))
  {
    var at := At(s, w);
    assert CutOk(cfg, s, Target(s, w), at);
    if at.Remove? {
      HeadsPrefix(cfg, s.stored + 1, s.heads, s.stored);
      assert s.heads - {s.stored} == Cleared(s.heads, s.stored, s.stored + 1);
    }
  }

  lemma CutStepTogether(cfg: Config, s: State, w: Thread)
    requires Together(cfg, s) && Cutting(s, w)
    ensures Together(cfg, CutStep(s, w))
  {
    hide Ancestor;
    var s', o := CutStep(s, w), Other(w);
    assert Cutting(s', o) == Cutting(s, o) && (Cutting(s, o) ==> At(s', o) == At(s, o));
    assert LeavesRight(s, w) && LeavesRight(s, o);
    match At(s, w)
    case Test =>
    case Down =>
    case Remove =>
    case Set =>
  }

  /** An overlap begins from where one thread was alone. */
  lemma OverlapBegins(cfg: Config, s: State, s': State)
    requires Alone(cfg, s) && Overlap(s') && Harmless(s') && s'.stored == s.stored && s'.heads == s.heads
    requires s'.roll == s.roll || (s'.roll.at.Test? && s'.phase == s.phase && s.stored > 0 && s.roll.Quiet?)
    requires s'.phase == s.phase || s'.phase.at.Test?
    ensures Together(cfg, s')
  {
    hide Ancestor;
    if 0 in s.heads {
      assert SectionOk(cfg, s.heads, 0);
    }
    assert s.stored >= 2 ==> SectionOk(cfg, s.heads, 1);
    assert s.stored == 1 ==> SectionOk(cfg, s.heads, 0);
  }

  lemma HeadKeeps(cfg: Config, s: State, head: uint64, reorg: bool)
    requires Inv(cfg, s) && cfg.sectionSize > 0
    requires Overlap(NewHead(cfg, s, head, reorg)) ==> Harmless(NewHead(cfg, s, head, reorg))
    ensures Inv(cfg, NewHead(cfg, s, head, reorg))
  {
    hide Ancestor;
    var s' := NewHead(cfg, s, head, reorg);
    if Alone(cfg, s) && Overlap(s') {
      OverlapBegins(cfg, s, s');
    } else if Alone(cfg, s) {
      assert PhaseOk(cfg, s');
    }
  }

  lemma ResetFailsKeeps(cfg: Config, s: State)
    requires Inv(cfg, s) && (Overlap(ResetFails(cfg, s)) ==> Harmless(ResetFails(cfg, s)))
    ensures Inv(cfg, ResetFails(cfg, s))
  {
    var s' := ResetFails(cfg, s);
    if s' != s && Overlap(s') {
      OverlapBegins(cfg, s, s');
    }
  }

  /** The comparison of section heads tells exactly whether every earlier section is still stored. */
  lemma HeadComparisonIsExact(cfg: Config, s: State)
    requires Inv(cfg, s) && s.phase.Finished? && s.phase.newHead.Some? && s.roll.Quiet?
    ensures s.phase.oldHead == SectionHead(s.heads, Dec(s.phase.section)) <==> s.stored == s.phase.section
  {
    var section := s.phase.section;
    if s.stored == section && section > 0 {
      assert SectionOk(cfg, s.heads, section - 1);
    }
  }

  lemma FinishKeeps(cfg: Config, s: State)
    requires Inv(cfg, s)
    ensures Inv(cfg, Finish(s))
  {
    if s.roll.Quiet? && s.phase.Finished? {
      RestIsLinked(cfg, s);
      if s.phase.newHead.Some? {
        HeadComparisonIsExact(cfg, s);
        var s' := Finish(s);
        if s'.stored == s.phase.section + 1 {
          forall i: uint64 | i < s'.stored
            ensures SectionOk(cfg, s'.heads, i)
          {
            if i < s.stored {
              assert SectionOk(cfg, s.heads, i);
            } else if i > 0 {
              assert SectionOk(cfg, s.heads, i - 1);
            }
          }
        }
      }
    }
  }

  lemma BeginKeeps(cfg: Config, s: State)
    requires Inv(cfg, s)
    ensures Inv(cfg, Begin(cfg, s))
  {
    if s.stored > 0 && AtRest(s) {
      RestIsLinked(cfg, s);
      assert SectionOk(cfg, s.heads, s.stored - 1);
    }
    assert (s.stored + 1) * cfg.sectionSize == s.stored * cfg.sectionSize + cfg.sectionSize;
  }

  lemma ProcessHeaderKeeps(cfg: Config, s: State, read: Option<Hash>, accepted: bool)
    requires Inv(cfg, s)
    ensures Inv(cfg, ProcessHeader(cfg, s, read, accepted))
  {
  }

  lemma CommitKeeps(cfg: Config, s: State, accepted: bool)
    requires Inv(cfg, s) && cfg.sectionSize > 0
    ensures Inv(cfg, Commit(cfg, s, accepted))
  {
    if s.phase.Processing? {
      var section := s.phase.section;
      assert (section + 1) * cfg.sectionSize == section * cfg.sectionSize + cfg.sectionSize;
    }
  }

  lemma StepKeeps(cfg: Config, s: State, e: Event)
    requires Inv(cfg, s) && cfg.sectionSize > 0
    requires Overlap(Apply(cfg, s, e)) ==> Harmless(Apply(cfg, s, e))
    ensures Inv(cfg, Apply(cfg, s, e))
  {
    hide Alone, Together;
    match e
    case HeadEvent(head, reorg) => HeadKeeps(cfg, s, head, reorg);
    case CutEvent(thread) =>
      if Cutting(s, thread) {
        if Alone(cfg, s) {
          CutStepAlone(cfg, s, thread);
        } else {
          CutStepTogether(cfg, s, thread);
        }
      }
    case BeginEvent => BeginKeeps(cfg, s);
    case ResetFailsEvent => ResetFailsKeeps(cfg, s);
    case HeaderEvent(read, accepted) => ProcessHeaderKeeps(cfg, s, read, accepted);
    case CommitEvent(accepted) => CommitKeeps(cfg, s, accepted);
    case FinishEvent => FinishKeeps(cfg, s);
  }

  /** In every careful interleaving, section heads exist exactly for the stored sections and consecutive heads
      stay `sectionSize` parent links apart, whenever nothing is being cut back. */
  lemma {:induction false} RunsKeepSectionsLinked(cfg: Config, s: State, events: seq<Event>)
    requires Inv(cfg, s) && cfg.sectionSize > 0 && Careful(cfg, s, events)
    ensures Inv(cfg, Run(cfg, s, events))
    ensures var s' := Run(cfg, s, events);
            AtRest(s') ==> HeadsOk(cfg, s'.stored, s'.heads)
    decreases |events|
  {
    hide Inv;
    if events == [] {
    } else {
      assert Careful(cfg, Apply(cfg, s, events[0]), events[1..]);
      StepKeeps(cfg, s, events[0]);
      RunsKeepSectionsLinked(cfg, Apply(cfg, s, events[0]), events[1..]);
    }
    if AtRest(Run(cfg, s, events)) {
      RestIsLinked(cfg, Run(cfg, s, events));
    }
  }

  /** A section is marked complete only if all earlier ones are stored at that moment. */
  lemma CompletedOnlyOnTop(cfg: Config, s: State)
    requires Inv(cfg, s) && s.phase.Finished? && s.roll.Quiet?
    ensures Finish(s).stored > s.stored ==> Finish(s).stored == s.stored + 1 && s.stored == s.phase.section
    ensures s.phase.newHead.Some? && s.stored == s.phase.section ==>
              Finish(s).stored == s.stored + 1 && SectionHead(Finish(s).heads, s.stored) == s.phase.newHead.value
    ensures !(s.phase.newHead.Some? && s.stored == s.phase.section) ==>
              Finish(s).heads == s.heads && Finish(s).stored == s.stored && Finish(s).known == s.stored
  {
    if s.phase.newHead.Some? {
      HeadComparisonIsExact(cfg, s);
    }
  }

  /** A section is taken on exactly if the loop is idle, nobody holds the lock and more sections are known than
      stored; it is then the first that is not stored. */
  lemma TakesOnTheNext(cfg: Config, s: State)
    ensures Begin(cfg, s) != s <==> s.roll.Quiet? && s.phase.Idle? && s.known > s.stored
    ensures Begin(cfg, s) != s ==>
              var phase := Begin(cfg, s).phase;
              && phase.Processing? && phase.section == s.stored && phase.next == s.stored * cfg.sectionSize
              && phase.last == phase.oldHead == SectionHead(if s.stored > 0 then s.heads else map[], Dec(s.stored))
              && Begin(cfg, s).(phase := Idle) == s
  {
  }

  /** How many headers the backend took. */
  function Taken(events: seq<Event>): nat {
    if events == [] then 0
    else Taken(events[1..]) + if events[0].HeaderEvent? && events[0].accepted then 1 else 0
  }

  /** Whatever happens in between, a section gets a head only if the backend has taken every one of its headers and
      the commit. */
  lemma {:induction false} HeadNeedsBackend(cfg: Config, s: State, events: seq<Event>)
    requires cfg.sectionSize > 0 && s.phase.Processing? && s.phase.next <= (s.phase.section + 1) * cfg.sectionSize
    requires FinishEvent !in events
    ensures var s' := Run(cfg, s, events);
            s'.phase.Finished? && s'.phase.newHead.Some? ==>
              CommitEvent(true) in events && Taken(events) >= (s.phase.section + 1) * cfg.sectionSize - s.phase.next
    decreases |events|
  {
    if events != [] {
      var s1, rest := Apply(cfg, s, events[0]), events[1..];
      if s1.phase.Processing? {
        HeadNeedsBackend(cfg, s1, rest);
        assert CommitEvent(true) in rest ==> CommitEvent(true) in events;
      } else if s1.phase.Finished? && s1.phase.newHead.Some? {
        assert events[0] == CommitEvent(true);
      } else {
        NoHeadAnyMore(cfg, s1, rest);
      }
    }
  }

  lemma {:induction false} NoHeadAnyMore(cfg: Config, s: State, events: seq<Event>)
    requires cfg.sectionSize > 0 && FinishEvent !in events
    requires s.phase.Resetting? || (s.phase.Finished? && s.phase.newHead.None?)
    ensures var s' := Run(cfg, s, events);
            s'.phase.Finished? ==> s'.phase.newHead.None?
    decreases |events|
  {
    if events != [] {
      NoHeadAnyMore(cfg, Apply(cfg, s, events[0]), events[1..]);
    }
  }

  /** All sections together form one chain of parent links from the first block on. */
  lemma {:induction false} SectionsFormOneChain(cfg: Config, s: State, i: uint64, j: uint64)
    requires HeadsOk(cfg, s.stored, s.heads) && i <= j < s.stored
    ensures i in s.heads && j in s.heads
    ensures Ancestor(cfg, s.heads[j], (j - i) * cfg.sectionSize) == s.heads[i]
    decreases j
  {
    assert SectionOk(cfg, s.heads, j) && SectionOk(cfg, s.heads, i);
    if i < j {
      SectionsFormOneChain(cfg, s, i, j - 1);
      assert (j - i) * cfg.sectionSize == cfg.sectionSize + (j - 1 - i) * cfg.sectionSize;
      AncestorCompose(cfg, s.heads[j], cfg.sectionSize, (j - 1 - i) * cfg.sectionSize);
    }
  }

  lemma {:induction false} AncestorCompose(cfg: Config, h: Hash, a: nat, b: nat)
    ensures Ancestor(cfg, h, a + b) == Ancestor(cfg, Ancestor(cfg, h, a), b)
    decreases a
  {
    if a > 0 {
      AncestorCompose(cfg, cfg.parentOf(h), a - 1, b);
    }
  }

  /******* When an overlap is not harmless *******/

  predicate OnlyCuts(events: seq<Event>) {
    forall i :: 0 <= i < |events| ==> events[i].CutEvent?
  }

  lemma {:induction false} RunConcat(cfg: Config, s: State, p: seq<Event>, q: seq<Event>)
    requires cfg.sectionSize > 0
    ensures Run(cfg, s, p + q) == Run(cfg, Run(cfg, s, p), q)
    decreases |p|
  {
    hide Apply;
    if p == [] {
      assert p + q == q;
    } else {
      assert (p + q)[0] == p[0] && (p + q)[1..] == p[1..] + q;
      RunConcat(cfg, Apply(cfg, s, p[0]), p[1..], q);
    }
  }

  /** The call can run down to its target: it has not passed it. */
  ghost predicate CanReach(s: State, w: Thread) {
    && Cutting(s, w) && Target(s, w) <= s.stored
    && (At(s, w).Down? ==> Target(s, w) < s.stored) && (At(s, w).Set? ==> Target(s, w) == s.stored)
  }

  /** Where the loop ends if only this thread runs. */
  ghost function LoopDone(s: State, w: Thread): State
    requires Cutting(s, w)
  {
    var top := if At(s, w).Remove? then s.stored + 1 else s.stored;
    GoTo(s.(stored := Target(s, w), heads := Cleared(s.heads, Target(s, w), top)), w, Some(Set))
  }

  ghost function CallDone(s: State, w: Thread): State
    requires Cutting(s, w)
  {
    GoTo(LoopDone(s, w), w, None)
  }

  lemma {:induction false} RunLoop(cfg: Config, s: State, w: Thread) returns (events: seq<Event>)
    requires cfg.sectionSize > 0 && CanReach(s, w)
    ensures OnlyCuts(events) && Run(cfg, s, events) == LoopDone(s, w)
    decreases s.stored, At(s, w).Remove?, At(s, w).Test?
  {
    if At(s, w).Set? {
      events := [];
      assert LoopDone(s, w) == s;
    } else {
      var s' := CutStep(s, w);
      LoopStep(s, w);
      var rest := RunLoop(cfg, s', w);
      events := [CutEvent(w)] + rest;
      assert events[1..] == rest;
    }
  }

  lemma LoopStep(s: State, w: Thread)
    requires CanReach(s, w) && !At(s, w).Set?
    ensures CanReach(CutStep(s, w), w) && LoopDone(CutStep(s, w), w) == LoopDone(s, w)
  {
  }

  lemma RunCall(cfg: Config, s: State, w: Thread) returns (events: seq<Event>)
    requires cfg.sectionSize > 0 && CanReach(s, w)
    ensures OnlyCuts(events) && Run(cfg, s, events) == CallDone(s, w)
  {
    var loop := RunLoop(cfg, s, w);
    events := loop + [CutEvent(w)];
    RunConcat(cfg, s, loop, [CutEvent(w)]);
  }

  /** A rollback to `k > 0` that finishes last leaves `k` sections stored although the failed reset has removed
      every head. */
  lemma LateSet(cfg: Config, s: State) returns (events: seq<Event>)
    requires cfg.sectionSize > 0 && Overlap(s) && s.roll.target > 0 && CanReach(s, Notifier) && !s.phase.at.Set?
    ensures OnlyCuts(events) && AtRest(Run(cfg, s, events))
    ensures Run(cfg, s, events).stored == s.roll.target && 0 !in Run(cfg, s, events).heads
  {
    var loop := RunLoop(cfg, s, Notifier);
    var s1 := LoopDone(s, Notifier);
    var reset := RunCall(cfg, s1, Updater);
    var s2 := CallDone(s1, Updater);
    RunConcat(cfg, s, loop, reset);
    RunConcat(cfg, s, loop + reset, [CutEvent(Notifier)]);
    events := loop + reset + [CutEvent(Notifier)];
    assert Run(cfg, s2, [CutEvent(Notifier)]) == CutStep(s2, Notifier);
  }

  /** Two calls that decrement the counter one after the other skip a head. */
  lemma LeftBehind(cfg: Config, s: State, first: Thread, m: uint64) returns (events: seq<Event>)
    requires cfg.sectionSize > 0 && Overlap(s) && s.roll.target == 0 && Before(s, Other(first), Test)
    requires m in s.heads && m > 0 && s.stored == if At(s, first).Remove? then m else m + 1
    requires !At(s, first).Set?
    ensures OnlyCuts(events) && AtRest(Run(cfg, s, events))
    ensures Run(cfg, s, events).stored == 0 && m in Run(cfg, s, events).heads
    decreases s.stored, At(s, first).Test?
  {
    if At(s, first).Remove? {
      var o := Other(first);
      var s1 := CutStep(CutStep(s, o), o);
      TwoSteps(cfg, s, o);
      var a := RunCall(cfg, s1, o);
      var s2 := CallDone(s1, o);
      var b := RunCall(cfg, s2, first);
      RunConcat(cfg, s, [CutEvent(o), CutEvent(o)], a);
      RunConcat(cfg, s, [CutEvent(o), CutEvent(o)] + a, b);
      events := [CutEvent(o), CutEvent(o)] + a + b;
    } else {
      var s1 := CutStep(s, first);
      var rest := LeftBehind(cfg, s1, first, m);
      events := [CutEvent(first)] + rest;
      assert events[1..] == rest;
    }
  }

  lemma TwoSteps(cfg: Config, s: State, w: Thread)
    requires cfg.sectionSize > 0
    ensures Run(cfg, s, [CutEvent(w), CutEvent(w)]) == CutStep(CutStep(s, w), w)
  {
    assert [CutEvent(w), CutEvent(w)][1..] == [CutEvent(w)];
    assert Run(cfg, CutStep(s, w), [CutEvent(w)]) == CutStep(CutStep(s, w), w);
  }

  /** Whenever the two calls come to overlap and it is not harmless, some order of their statements ends with
      heads that do not match the counter. */
  lemma OverlapBreaks(cfg: Config, s: State, e: Event) returns (events: seq<Event>)
    requires Inv(cfg, s) && cfg.sectionSize > 0 && !Overlap(s)
    requires Overlap(Apply(cfg, s, e)) && !Harmless(Apply(cfg, s, e))
    ensures OnlyCuts(events) && AtRest(Run(cfg, Apply(cfg, s, e), events))
    ensures var s' := Run(cfg, Apply(cfg, s, e), events);
            !HeadsOk(cfg, s'.stored, s'.heads)
  {
    var s1 := Apply(cfg, s, e);
    assert e.HeadEvent? || e.ResetFailsEvent?;
    if s1.roll.target > 0 {
      events := LateSet(cfg, s1);
      NoFirstHead(cfg, Run(cfg, s1, events));
    } else {
      var first := if e.HeadEvent? then Updater else Notifier;
      assert CutOk(cfg, s, 0, At(s1, first));
      var i :| i in s.heads && i != 0;
      var m: uint64 := if At(s1, first).Remove? then s.stored else s.stored - 1;
      assert SectionOk(cfg, s.heads, m);
      events := LeftBehind(cfg, s1, first, m);
    }
  }

  lemma NoFirstHead(cfg: Config, s: State)
    requires s.stored > 0 && 0 !in s.heads
    ensures !HeadsOk(cfg, s.stored, s.heads)
  {
    assert !SectionOk(cfg, s.heads, 0);
  }

  lemma {:induction false} CutsStayCareful(cfg: Config, s: State, events: seq<Event>)
    requires cfg.sectionSize > 0 && OnlyCuts(events) && (Overlap(s) ==> Harmless(s))
    ensures Careful(cfg, s, events)
    decreases |events|
  {
    if events != [] {
      var s' := Apply(cfg, s, events[0]);
      assert events[0].CutEvent?;
      assert Overlap(s') ==> Overlap(s) && s'.roll.target == s.roll.target && s'.heads.Keys <= s.heads.Keys;
      CutsStayCareful(cfg, s', events[1..]);
    }
  }

  /** When the two calls come to overlap, every order of their statements ends well if and only if both cut back
      to nothing and at most the first section is left. */
  lemma OverlapEndsWellExactlyWhen(cfg: Config, s: State, e: Event)
    requires Inv(cfg, s) && cfg.sectionSize > 0 && !Overlap(s) && Overlap(Apply(cfg, s, e))
    ensures var s1 := Apply(cfg, s, e);
            Harmless(s1) <==>
            forall events :: OnlyCuts(events) && AtRest(Run(cfg, s1, events)) ==>
              HeadsOk(cfg, Run(cfg, s1, events).stored, Run(cfg, s1, events).heads)
  {
    hide Inv, HeadsOk, OnlyCuts, Run;
    var s1 := Apply(cfg, s, e);
    if Harmless(s1) {
      StepKeeps(cfg, s, e);
      forall events | OnlyCuts(events) && AtRest(Run(cfg, s1, events))
        ensures HeadsOk(cfg, Run(cfg, s1, events).stored, Run(cfg, s1, events).heads)
      {
        CutsStayCareful(cfg, s1, events);
        RunsKeepSectionsLinked(cfg, s1, events);
      }
    } else {
      var events := OverlapBreaks(cfg, s, e);
    }
  }

  /** From any state with several stored sections in which the next one is taken on: a rollback to `k` sections
      beside a failed reset can leave `k` sections stored without the first head. */
  lemma RollbackBesideFailedReset(cfg: Config, s: State, k: uint64) returns (events: seq<Event>)
    requires Alone(cfg, s) && AtRest(s) && s.phase.Processing? && s.phase.next == s.phase.section * cfg.sectionSize
    requires cfg.sectionSize > 0 && 0 < k < s.stored && k * cfg.sectionSize <= MAX_UINT64
    ensures var s' := Run(cfg, s, events);
            AtRest(s') && s'.stored == k && 0 !in s'.heads && !HeadsOk(cfg, s'.stored, s'.heads)
  {
    var start := [HeadEvent(k * cfg.sectionSize, true), ResetFailsEvent];
    var s1 := Apply(cfg, s, start[0]);
    assert Quotient(k * cfg.sectionSize, cfg.sectionSize) == k by { QuotientOf(k, cfg.sectionSize); }
    var s2 := Apply(cfg, s1, ResetFailsEvent);
    assert start[1..] == [ResetFailsEvent] && Run(cfg, s1, [ResetFailsEvent]) == s2;
    var rest := LateSet(cfg, s2);
    RunConcat(cfg, s, start, rest);
    events := start + rest;
    NoFirstHead(cfg, Run(cfg, s, events));
  }

  lemma QuotientOf(k: nat, b: nat)
    requires b > 0
    ensures Quotient(k * b, b) == k
  {
    hide Quotient;
    var q := Quotient(k * b, b);
    QuotientIsLargest(k * b, b);
    Times(k, q, b, k * b);
    Times(k + 1, q, b, k * b);
    assert (k + 1) * b == k * b + b;
  }

  /** Each hash is proper and its parent is the one before, starting from `last`. */
  ghost predicate LinkedFrom(cfg: Config, last: Hash, hashes: seq<Hash>) {
    forall i :: 0 <= i < |hashes| ==> LinkedAt(cfg, last, hashes, i)
  }

  ghost predicate LinkedAt(cfg: Config, last: Hash, hashes: seq<Hash>, i: nat)
    requires i < |hashes|
  {
    hashes[i] != ZERO_HASH && cfg.parentOf(hashes[i]) == if i == 0 then last else hashes[i - 1]
  }

  /** Headers that link up and that the backend takes are all processed. */
  lemma {:induction false} HeadersRun(cfg: Config, s: State, hashes: seq<Hash>) returns (events: seq<Event>)
    requires cfg.sectionSize > 0 && s.phase.Processing? && LinkedFrom(cfg, s.phase.last, hashes)
    requires s.phase.next + |hashes| <= (s.phase.section + 1) * cfg.sectionSize
    ensures var last := if hashes == [] then s.phase.last else hashes[|hashes| - 1];
            Run(cfg, s, events) == s.(phase := s.phase.(next := s.phase.next + |hashes|, last := last))
    decreases |hashes|
  {
    if hashes == [] {
      events := [];
    } else {
      var h, rest := hashes[0], hashes[1..];
      assert LinkedAt(cfg, s.phase.last, hashes, 0);
      var s1 := ProcessHeader(cfg, s, Some(h), true);
      assert LinkedFrom(cfg, h, rest) by {
        forall i | 0 <= i < |rest|
          ensures LinkedAt(cfg, h, rest, i)
        {
          assert LinkedAt(cfg, s.phase.last, hashes, i + 1);
        }
      }
      var more := HeadersRun(cfg, s1, rest);
      events := [HeaderEvent(Some(h), true)] + more;
      assert events[1..] == more;
    }
  }

  /** A section whose headers link up with the one before is taken on, processed and stored. */
  lemma SectionRun(cfg: Config, s: State, hashes: seq<Hash>) returns (events: seq<Event>)
    requires cfg.sectionSize > 0 && AtRest(s) && s.phase.Idle? && s.stored < s.known < MAX_UINT64
    requires |hashes| == cfg.sectionSize && MAX_UINT64 !in s.heads
    requires LinkedFrom(cfg, if s.stored > 0 then SectionHead(s.heads, s.stored - 1) else ZERO_HASH, hashes)
    ensures Run(cfg, s, events) ==
            s.(stored := s.stored + 1, heads := s.heads[s.stored := hashes[cfg.sectionSize - 1]])
  {
    var s1 := Begin(cfg, s);
    assert (s.stored + 1) * cfg.sectionSize == s.stored * cfg.sectionSize + cfg.sectionSize;
    var headers := HeadersRun(cfg, s1, hashes);
    var s2 := Run(cfg, s1, headers);
    var s3 := Commit(cfg, s2, true);
    var s4 := Finish(s3);
    SectionStored(cfg, s, s3);
    var ends := [CommitEvent(true), FinishEvent];
    assert ends[1..] == [FinishEvent];
    assert Run(cfg, s3, [FinishEvent]) == s4;
    assert Run(cfg, s2, ends) == s4;
    RunConcat(cfg, s1, headers, ends);
    events := [BeginEvent] + (headers + ends);
    assert events[1..] == headers + ends;
  }

  lemma SectionStored(cfg: Config, s: State, s3: State)
    requires AtRest(s) && s.stored < MAX_UINT64 && MAX_UINT64 !in s.heads && s3.phase.Finished?
    requires s3.phase.section == s.stored && s3.phase.newHead.Some? && s3 == s.(phase := s3.phase) && s.phase.Idle?
    requires s3.phase.oldHead == if s.stored > 0 then SectionHead(s.heads, s.stored - 1) else ZERO_HASH
    ensures Finish(s3) == s.(stored := s.stored + 1, heads := s.heads[s.stored := s3.phase.newHead.value])
  {
    var heads := s.heads[s.stored := s3.phase.newHead.value];
    assert Cleared(heads, s.stored + 1, s.stored) == heads;
  }

  /** It happens from the start: a run of an empty indexer that ends with one section stored and no head. */
  lemma IndexerCanBreak() returns (cfg: Config, events: seq<Event>)
    ensures cfg.sectionSize > 0
    ensures var s := Run(cfg, State(0, 0, map[], Idle, Quiet), events);
            AtRest(s) && s.stored == 1 && 0 !in s.heads && !HeadsOk(cfg, s.stored, s.heads)
  {
    cfg := Config(1, 0, (h: Hash) => if h > 0 then h - 1 else 0);
    var s0 := State(0, 0, map[], Idle, Quiet);
    var s1 := s0.(known := 3);
    assert Run(cfg, s0, [HeadEvent(2, false)]) == s1;
    var first := SectionRun(cfg, s1, [1]);
    var s2 := s1.(stored := 1, heads := map[0 := 1]);
    assert s1.heads[0 := 1] == map[0 := 1];
    var second := SectionRun(cfg, s2, [2]);
    var s3 := s2.(stored := 2, heads := map[0 := 1, 1 := 2]);
    assert s2.heads[1 := 2] == map[0 := 1, 1 := 2];
    var s4 := Begin(cfg, s3);
    assert Run(cfg, s3, [BeginEvent]) == s4;
    assert Ancestor(cfg, 1, 1) == Ancestor(cfg, 0, 0) && Ancestor(cfg, 2, 1) == Ancestor(cfg, 1, 0);
    var rest := RollbackBesideFailedReset(cfg, s4, 1);
    RunConcat(cfg, s0, [HeadEvent(2, false)], first);
    RunConcat(cfg, s0, [HeadEvent(2, false)] + first, second);
    RunConcat(cfg, s0, [HeadEvent(2, false)] + first + second, [BeginEvent]);
    RunConcat(cfg, s0, [HeadEvent(2, false)] + first + second + [BeginEvent], rest);
    events := [HeadEvent(2, false)] + first + second + [BeginEvent] + rest;
  }

  /******* Calls that nothing interrupts *******/

  /** A notification with the cutting back it starts. */
  function HeadDone(cfg: Config, s: State, head: uint64, reorg: bool): State
    requires cfg.sectionSize > 0
  {
    var s1 := NewHead(cfg, s, head, reorg);
    if s.roll.Quiet? && s1.roll.Rolling? then SetValid(s1, s1.roll.target).(roll := Quiet) else s1
  }

  /** What a notification does to a counter: after a reorganisation at `head` it counts only sections that lie
      entirely below, and no fewer than before if there were none too many. */
  ghost predicate RolledBack(cfg: Config, before: uint64, after: uint64, head: uint64) {
    && after * cfg.sectionSize <= head
    && (before * cfg.sectionSize <= head ==> after == before)
    && (before * cfg.sectionSize > head ==> (after + 1) * cfg.sectionSize > head)
  }

  /** Without a reorganisation it is the largest number of complete sections under enough confirmations, or what it
      was if that is more. */
  ghost predicate MovedOn(cfg: Config, before: uint64, after: uint64, head: uint64) {
    && before <= after && (after + 1) * cfg.sectionSize + cfg.confirmsReq > head + 1
    && (after != before ==> after * cfg.sectionSize + cfg.confirmsReq <= head + 1)
  }

  /** The counters after a notification. The one exception is the last 64-bit number without confirmations asked for,
      where `head + 1` wraps and nothing new is known. */
  lemma NotificationMovesCounters(cfg: Config, s: State, head: uint64, reorg: bool)
    requires cfg.sectionSize > 0 && s.roll.Quiet?
    ensures var d := HeadDone(cfg, s, head, reorg);
            && (reorg ==> RolledBack(cfg, s.stored, d.stored, head) && RolledBack(cfg, s.known, d.known, head))
            && (!reorg ==> d.stored == s.stored && d.heads == s.heads)
            && (!reorg && !(cfg.confirmsReq == 0 && head == MAX_UINT64) ==> MovedOn(cfg, s.known, d.known, head))
            && (!reorg && cfg.confirmsReq == 0 && head == MAX_UINT64 ==> d.known == s.known)
  {
    hide RolledBack, MovedOn, Cleared, Quotient;
    if reorg {
      RollsBack(cfg, s.stored, head);
      RollsBack(cfg, s.known, head);
    } else {
      MovesOn(cfg, s.known, head);
    }
  }

  lemma RollsBack(cfg: Config, n: uint64, head: uint64)
    requires cfg.sectionSize > 0
    ensures var q := Quotient(head, cfg.sectionSize);
            RolledBack(cfg, n, if q < n then q else n, head)
  {
    hide Quotient;
    QuotientIsLargest(head, cfg.sectionSize);
    Times(n, Quotient(head, cfg.sectionSize), cfg.sectionSize, head);
  }

  lemma MovesOn(cfg: Config, n: uint64, head: uint64)
    requires cfg.sectionSize > 0
    ensures head < cfg.confirmsReq ==> MovedOn(cfg, n, n, head)
    ensures head >= cfg.confirmsReq && (cfg.confirmsReq > 0 || head < MAX_UINT64) ==>
              var q := Quotient(head + 1 - cfg.confirmsReq, cfg.sectionSize);
              MovedOn(cfg, n, if q > n then q else n, head)
  {
    hide Quotient;
    if head < cfg.confirmsReq {
      assert (n + 1) * cfg.sectionSize > 0;
    } else {
      var a := head + 1 - cfg.confirmsReq;
      QuotientIsLargest(a, cfg.sectionSize);
      Times(n, Quotient(a, cfg.sectionSize), cfg.sectionSize, a);
    }
  }

  /** Comparing section counts is comparing their ends. */
  lemma Times(n: nat, q: nat, size: nat, a: nat)
    requires q * size <= a < (q + 1) * size
    ensures n <= q <==> n * size <= a
    ensures n >= q ==> (n + 1) * size > a
  {
    if n <= q {
      assert n * size <= q * size;
    } else {
      assert n * size >= (q + 1) * size;
    }
    if n >= q {
      assert (n + 1) * size >= (q + 1) * size;
    }
  }

  /** The statement-wise call, undisturbed, is the atomic one. */
  lemma HeadDoneIsRun(cfg: Config, s: State, head: uint64, reorg: bool) returns (events: seq<Event>)
    requires Inv(cfg, s) && AtRest(s) && cfg.sectionSize > 0
    ensures OnlyCuts(events) && Run(cfg, NewHead(cfg, s, head, reorg), events) == HeadDone(cfg, s, head, reorg)
    ensures Inv(cfg, HeadDone(cfg, s, head, reorg))
  {
    var s1 := NewHead(cfg, s, head, reorg);
    HeadKeeps(cfg, s, head, reorg);
    events := [];
    if s1.roll.Rolling? {
      events := RunCall(cfg, s1, Notifier);
    }
    CutsStayCareful(cfg, s1, events);
    RunsKeepSectionsLinked(cfg, s1, events);
  }

  /** A failed reset, undisturbed, drops every section. */
  lemma ResetDoneIsRun(cfg: Config, s: State) returns (events: seq<Event>)
    requires Inv(cfg, s) && AtRest(s) && ResetFails(cfg, s).phase.Resetting? && cfg.sectionSize > 0
    ensures var phase := Finished(s.phase.section, s.phase.oldHead, None);
            OnlyCuts(events) && Run(cfg, ResetFails(cfg, s), events) == SetValid(s, 0).(phase := phase)
  {
    events := RunCall(cfg, ResetFails(cfg, s), Updater);
  }

  /******* The object, under its lock *******/

  class Indexer {
    const cfg: Config
    var storedSections: uint64
    var knownSections: uint64
    var heads: Heads
    var phase: Phase

    constructor (cfg: Config)
      ensures this.cfg == cfg && Value() == State(0, 0, map[], Idle, Quiet)
    {
      this.cfg := cfg;
      storedSections, knownSections, heads, phase := 0, 0, map[], Idle;
    }

    /** While one of the methods below has the lock and no reset fails. */
    function Value(): State
      reads this
    {
      State(storedSections, knownSections, heads, phase, Quiet)
    }

    /** `setValidSections`: remove reorged sections one by one from the top. */
    method SetValidSections(sections: uint64)
      modifies this`storedSections, this`heads
      ensures Value() == SetValid(old(Value()), sections)
    {
      while storedSections > sections
        invariant storedSections <= old(storedSections)
        invariant old(storedSections) >= sections ==> storedSections >= sections
        invariant old(storedSections) < sections ==> storedSections == old(storedSections)
        invariant heads == Cleared(old(heads), storedSections, old(storedSections))
        decreases storedSections
      {
        storedSections := storedSections - 1;
        heads := heads - {storedSections};
      }
      storedSections := sections;
    }

    method OnNewHead(head: uint64, reorg: bool)
      requires cfg.sectionSize > 0 && Inv(cfg, Value()) && !phase.Resetting?
      modifies this`storedSections, this`knownSections, this`heads
      ensures Value() == HeadDone(cfg, old(Value()), head, reorg) && Inv(cfg, Value())
      ensures reorg ==>
                && RolledBack(cfg, old(storedSections), storedSections, head)
                && RolledBack(cfg, old(knownSections), knownSections, head)
      ensures !reorg && (cfg.confirmsReq > 0 || head < MAX_UINT64) ==>
                storedSections == old(storedSections) && MovedOn(cfg, old(knownSections), knownSections, head)
    {
      NotificationMovesCounters(cfg, Value(), head, reorg);
      var _ := HeadDoneIsRun(cfg, Value(), head, reorg);
      if reorg {
        var sections := Quotient(head, cfg.sectionSize);
        if sections < knownSections {
          knownSections := sections;
        }
        if sections < storedSections {
          SetValidSections(sections);
        }
        return;
      }
      if head >= cfg.confirmsReq && (cfg.confirmsReq > 0 || head < MAX_UINT64) {
        var sections := Quotient(head + 1 - cfg.confirmsReq, cfg.sectionSize);
        if sections > knownSections {
          knownSections := sections;
        }
      }
    }

    /** The part of the update loop that runs after the section was processed. */
    method FinishSection()
      requires phase.Finished? && Inv(cfg, Value())
      modifies this
      ensures Value() == Finish(old(Value())) && Inv(cfg, Value())
    {
      FinishKeeps(cfg, Value());
      if phase.newHead.Some? {
        HeadComparisonIsExact(cfg, Value());
      }
      var section := phase.section;
      if phase.newHead.Some? && phase.oldHead == SectionHead(heads, Dec(section)) {
        heads := heads[section := phase.newHead.value];
        SetValidSections(section + 1);
      } else {
        knownSections := storedSections;
      }
      phase := Idle;
    }
  }
}
