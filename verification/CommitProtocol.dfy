/** Concurrent compare-and-swap commits on one manifest store, one step per store access,
    with failing writes and crashes between any two steps. */
module CommitProtocol {
  import opened Common
  import opened Store
  import opened Versions
  import opened ManifestStore

  /** Where a committer is inside Commit. */
  datatype Pc =
    | Idle
    | Locked(m: Manifest, expected: int)
    | Checked(m: Manifest, expected: int)
    | ManifestWritten(m: Manifest, expected: int)

  datatype Commit = Commit(m: Manifest, expected: int)

  /** The mutex, the committers, the store, and the commits that returned nil so far. */
  datatype State = State(files: Files, lock: Option<int>, pcs: map<int, Pc>, successes: seq<Commit>)

  function PcOf(s: State, t: int): Pc {
    if t in s.pcs then s.pcs[t] else Idle
  }

  datatype Step =
    | Lock(t: int, m: Manifest, expected: int)
    | CheckPointer(t: int)
    | WriteManifest(t: int, ok: bool)
    | WritePointer(t: int, ok: bool)
    | Crash

  predicate Enabled(s: State, step: Step) {
    match step
    case Lock(t, _, _) => s.lock.None? && PcOf(s, t).Idle?
    case CheckPointer(t) => PcOf(s, t).Locked?
    case WriteManifest(t, _) => PcOf(s, t).Checked?
    case WritePointer(t, _) => PcOf(s, t).ManifestWritten?
    case Crash => true
  }

  function Released(s: State, t: int): State {
    s.(lock := None, pcs := s.pcs[t := Idle])
  }

  function Next(s: State, step: Step): State
    requires Enabled(s, step)
  {
    match step
    case Lock(t, m, expected) => s.(lock := Some(t), pcs := s.pcs[t := Locked(m, expected)])
    case CheckPointer(t) =>
      var pc := PcOf(s, t);
      if LatestPointer(s.files) == Some(pc.expected)
      then s.(pcs := s.pcs[t := Checked(pc.m, pc.expected)])
      else Released(s, t)
    case WriteManifest(t, ok) =>
      var pc := PcOf(s, t);
      if ok then s.(files := s.files[ManifestPath(pc.m.version) := ManifestContent(pc.m)],
                    pcs := s.pcs[t := ManifestWritten(pc.m, pc.expected)])
      else Released(s, t)
    case WritePointer(t, ok) =>
      var pc := PcOf(s, t);
      if ok then Released(s, t).(files := s.files[LatestPath := VersionContent(pc.m.version)],
                                 successes := s.successes + [Commit(pc.m, pc.expected)])
      else Released(s, t)
    case Crash => s.(lock := None, pcs := map[])
  }

  /** Committers propose a version above the one they expect. */
  predicate Growing(step: Step) {
    step.Lock? ==> step.m.version > step.expected
  }

  /** The version of the last successful commit, 0 before the first. */
  function LastVersion(successes: seq<Commit>): int {
    if successes == [] then 0 else successes[|successes| - 1].m.version
  }

  /** Every success expected the version of the one before it and went above it. */
  ghost predicate Chain(successes: seq<Commit>) {
    forall i :: 0 <= i < |successes| ==>
      && successes[i].expected == LastVersion(successes[..i])
      && successes[i].m.version > successes[i].expected
  }

  /** The manifests of all commits are on disk. */
  ghost predicate ManifestsStay(files: Files, successes: seq<Commit>) {
    forall i :: 0 <= i < |successes| ==> ReadManifest(files, successes[i].m.version) == Some(successes[i].m)
  }

  ghost predicate PointerNamesManifest(files: Files) {
    LatestPath in files ==>
      && files[LatestPath].VersionContent?
      && ReadManifest(files, files[LatestPath].version).Some?
  }

  ghost predicate PcOk(s: State, pc: Pc) {
    match pc
    case Idle => true
    case Locked(m, expected) => m.version > expected
    case Checked(m, expected) => m.version > expected == LastVersion(s.successes)
    case ManifestWritten(m, expected) =>
      m.version > expected == LastVersion(s.successes) && ReadManifest(s.files, m.version) == Some(m)
  }

  ghost predicate Inv(s: State) {
    && (forall t <- s.pcs.Keys :: !s.pcs[t].Idle? ==> s.lock == Some(t))
    && (forall t <- s.pcs.Keys :: PcOk(s, s.pcs[t]))
    && Chain(s.successes)
    && LatestPointer(s.files) == Some(LastVersion(s.successes))
    && PointerNamesManifest(s.files)
    && ManifestsStay(s.files, s.successes)
  }

  /** No pointer yet; manifests may lie about. */
  ghost predicate Init(s: State) {
    LatestPath !in s.files && s.lock == None && s.pcs == map[] && s.successes == []
  }

  /** Versions grow along a chain. */
  lemma {:induction false} ChainGrows(successes: seq<Commit>, i: nat, j: nat)
    requires Chain(successes) && i < j < |successes|
    ensures successes[i].m.version <= successes[j].expected
    ensures successes[i].expected < successes[j].expected
  {
    assert successes[j].expected == LastVersion(successes[..j]);
    assert successes[i].m.version > successes[i].expected;
    if i < j - 1 {
      ChainGrows(successes, i, j - 1);
      assert successes[j - 1].m.version > successes[j - 1].expected;
    }
  }

  lemma LastIsLargest(successes: seq<Commit>, i: nat)
    requires Chain(successes) && i < |successes|
    ensures successes[i].m.version <= LastVersion(successes)
  {
    var n := |successes| - 1;
    if i < n {
      ChainGrows(successes, i, n);
      assert successes[n].m.version > successes[n].expected;
    }
  }

  lemma ChainExtends(successes: seq<Commit>, next: Commit)
    requires Chain(successes) && next.expected == LastVersion(successes) && next.m.version > next.expected
    ensures Chain(successes + [next])
  {
    var more := successes + [next];
    forall i | 0 <= i < |more|
      ensures more[i].expected == LastVersion(more[..i]) && more[i].m.version > more[i].expected
    {
      if i < |successes| {
        assert more[..i] == successes[..i];
      } else {
        assert more[..i] == successes;
      }
    }
  }

  /** A manifest above all committed ones overwrites none of them. */
  lemma WriteKeepsManifests(files: Files, successes: seq<Commit>, m: Manifest)
    requires Chain(successes) && m.version > LastVersion(successes) && ManifestsStay(files, successes)
    ensures ManifestsStay(files[ManifestPath(m.version) := ManifestContent(m)], successes)
  {
    hide Chain, LastVersion;
    var after := files[ManifestPath(m.version) := ManifestContent(m)];
    forall i | 0 <= i < |successes| ensures ReadManifest(after, successes[i].m.version) == Some(successes[i].m) {
      LastIsLargest(successes, i);
    }
  }

  lemma ManifestKeepsInv(s: State, t: int)
    requires Inv(s) && Enabled(s, WriteManifest(t, true))
    ensures Inv(Next(s, WriteManifest(t, true)))
  {
    hide Chain, LastVersion, ManifestsStay;
    WriteKeepsManifests(s.files, s.successes, PcOf(s, t).m);
  }

  /** Moving the pointer touches no manifest. */
  lemma PointerKeepsManifests(files: Files, successes: seq<Commit>, next: Commit)
    requires ManifestsStay(files, successes) && ReadManifest(files, next.m.version) == Some(next.m)
    ensures ManifestsStay(files[LatestPath := VersionContent(next.m.version)], successes + [next])
  {
    var after, more := files[LatestPath := VersionContent(next.m.version)], successes + [next];
    forall i | 0 <= i < |more| ensures ReadManifest(after, more[i].m.version) == Some(more[i].m) {
      assert ReadManifest(after, more[i].m.version) == ReadManifest(files, more[i].m.version);
    }
  }

  lemma PointerKeepsInv(s: State, t: int)
    requires Inv(s) && Enabled(s, WritePointer(t, true))
    ensures Inv(Next(s, WritePointer(t, true)))
  {
    hide Chain, ManifestsStay;
    var pc := PcOf(s, t);
    ChainExtends(s.successes, Commit(pc.m, pc.expected));
    PointerKeepsManifests(s.files, s.successes, Commit(pc.m, pc.expected));
  }

  /** Every step keeps the invariant. */
  lemma StepKeepsInv(s: State, step: Step)
    requires Inv(s) && Enabled(s, step) && Growing(step)
    ensures Inv(Next(s, step))
  {
    hide Chain, LastVersion, ManifestsStay;
    match step {
      case WriteManifest(t, ok) =>
        if ok {
          ManifestKeepsInv(s, t);
        }
      case WritePointer(t, ok) =>
        if ok {
          PointerKeepsInv(s, t);
        }
      case _ =>
    }
  }

  // ---------- Whole runs ----------

  /** A run: states connected by enabled steps of committers that propose growing versions. */
  ghost predicate IsRun(states: seq<State>, steps: seq<Step>) {
    && |states| == |steps| + 1
    && Init(states[0])
    && forall i :: 0 <= i < |steps| ==>
         Enabled(states[i], steps[i]) && Growing(steps[i]) && states[i + 1] == Next(states[i], steps[i])
  }

  lemma {:induction false} RunKeepsInv(states: seq<State>, steps: seq<Step>, i: nat)
    requires IsRun(states, steps) && i < |states|
    ensures Inv(states[i])
  {
    if i > 0 {
      RunKeepsInv(states, steps, i - 1);
      StepKeepsInv(states[i - 1], steps[i - 1]);
    }
  }

  /** At most one commit succeeds per expected version, and the versions form one strictly
      increasing chain. */
  lemma OneSuccessPerVersion(states: seq<State>, steps: seq<Step>, n: nat, i: nat, j: nat)
    requires IsRun(states, steps) && n < |states|
    requires i < j < |states[n].successes|
    ensures var ok := states[n].successes;
      ok[i].expected < ok[i].m.version <= ok[j].expected < ok[j].m.version
  {
    RunKeepsInv(states, steps, n);
    ChainGrows(states[n].successes, i, j);
  }

  lemma {:induction false} SuccessesGrow(states: seq<State>, steps: seq<Step>, i: nat, j: nat)
    requires IsRun(states, steps) && i <= j < |states|
    ensures states[i].successes <= states[j].successes
  {
    if i < j {
      SuccessesGrow(states, steps, i, j - 1);
      assert states[j - 1 + 1] == Next(states[j - 1], steps[j - 1]);
    }
  }

  /** The manifest of a successful commit is never overwritten, whatever fails or crashes later. */
  lemma CommittedManifestsStay(states: seq<State>, steps: seq<Step>, i: nat, j: nat, k: nat)
    requires IsRun(states, steps) && i <= j < |states| && k < |states[i].successes|
    ensures var m := states[i].successes[k].m;
      ReadManifest(states[i].files, m.version) == Some(m) && ReadManifest(states[j].files, m.version) == Some(m)
  {
    SuccessesGrow(states, steps, i, j);
    RunKeepsInv(states, steps, i);
    RunKeepsInv(states, steps, j);
    assert states[j].successes[k] == states[i].successes[k];
  }

  /** At every point of a run the pointer is absent or names a written manifest. */
  lemma PointerAlwaysValid(states: seq<State>, steps: seq<Step>, i: nat)
    requires IsRun(states, steps) && i < |states|
    ensures PointerNamesManifest(states[i].files)
  {
    RunKeepsInv(states, steps, i);
  }

  /** At every point of a run ReadLatest gives the version of the last successful commit, and 0
      before the first. */
  lemma PointerIsLastCommit(states: seq<State>, steps: seq<Step>, i: nat)
    requires IsRun(states, steps) && i < |states|
    ensures LatestPointer(states[i].files) == Some(LastVersion(states[i].successes))
  {
    RunKeepsInv(states, steps, i);
  }

  /** At most one committer is inside Commit. */
  lemma MutualExclusion(states: seq<State>, steps: seq<Step>, i: nat, t: int, u: int)
    requires IsRun(states, steps) && i < |states|
    requires !PcOf(states[i], t).Idle? && !PcOf(states[i], u).Idle?
    ensures t == u
  {
    RunKeepsInv(states, steps, i);
  }

  // ---------- What is listed as newest ----------

  function CommittedVersions(successes: seq<Commit>): set<int> {
    set i | 0 <= i < |successes| :: successes[i].m.version
  }

  function WaitingAt(pc: Pc): set<int> {
    if pc.ManifestWritten? then {pc.m.version} else {}
  }

  function Waiting(pcs: map<int, Pc>): set<int> {
    set t <- pcs.Keys | pcs[t].ManifestWritten? :: pcs[t].m.version
  }

  /** Versions whose manifest is written while the pointer is not. */
  function InProgress(s: State): set<int> {
    Waiting(s.pcs)
  }

  /** Versions that a step leaves behind without a pointer: a failed pointer write or a crash. */
  function Abandoned(s: State, step: Step): set<int> {
    match step
    case WritePointer(t, ok) => if ok then {} else WaitingAt(PcOf(s, t))
    case Crash => InProgress(s)
    case _ => {}
  }

  ghost function AbandonedBy(states: seq<State>, steps: seq<Step>, n: nat): set<int>
    requires n <= |states| && n <= |steps|
  {
    if n == 0 then {} else AbandonedBy(states, steps, n - 1) + Abandoned(states[n - 1], steps[n - 1])
  }

  lemma OneMoves(pcs: map<int, Pc>, t: int, pc: Pc)
    ensures Waiting(pcs[t := pc]) + (if t in pcs then WaitingAt(pcs[t]) else {}) == Waiting(pcs) + WaitingAt(pc)
  {
    var moved := pcs[t := pc];
    forall v | v in Waiting(pcs) ensures v in Waiting(moved) || (t in pcs && v in WaitingAt(pcs[t])) {
      var u :| u in pcs.Keys && pcs[u].ManifestWritten? && pcs[u].m.version == v;
      assert u != t ==> moved[u] == pcs[u];
    }
    assert t in moved.Keys && moved[t] == pc;
  }

  lemma StepInProgress(s: State, step: Step)
    requires Enabled(s, step)
    ensures var s' := Next(s, step);
      match step
      case WriteManifest(t, ok) => InProgress(s') == InProgress(s) + if ok then {PcOf(s, t).m.version} else {}
      case WritePointer(t, ok) => InProgress(s') + {PcOf(s, t).m.version} == InProgress(s)
      case Crash => InProgress(s') == {}
      case _ => InProgress(s') == InProgress(s)
  {
    hide Waiting;
    if step.Crash? {
      NobodyWaits();
    } else {
      OneMoves(s.pcs, step.t, Next(s, step).pcs[step.t]);
    }
  }

  lemma NobodyWaits()
    ensures Waiting(map[]) == {}
  {
  }

  lemma OneMoreCommitted(successes: seq<Commit>, next: Commit)
    ensures CommittedVersions(successes + [next]) == CommittedVersions(successes) + {next.m.version}
  {
    var more := successes + [next];
    forall v | v in CommittedVersions(successes) ensures v in CommittedVersions(more) {
      var i :| 0 <= i < |successes| && successes[i].m.version == v;
      assert more[i] == successes[i];
    }
    assert more[|successes|] == next;
  }

  lemma StepVersions(s: State, step: Step, gone: set<int>)
    requires Enabled(s, step)
    requires VersionsOf(s.files) == gone + CommittedVersions(s.successes) + InProgress(s)
    ensures var s' := Next(s, step);
      VersionsOf(s'.files) == gone + Abandoned(s, step) + CommittedVersions(s'.successes) + InProgress(s')
  {
    StepInProgress(s, step);
    hide CommittedVersions, Waiting;
    var s' := Next(s, step);
    if step.WriteManifest? && step.ok {
      assert VersionsOf(s'.files) == VersionsOf(s.files) + {PcOf(s, step.t).m.version};
    } else {
      assert VersionsOf(s'.files) == VersionsOf(s.files);
    }
    if step.WritePointer? && step.ok {
      OneMoreCommitted(s.successes, Commit(PcOf(s, step.t).m, PcOf(s, step.t).expected));
    }
  }

  /** Every version on disk was there before, is committed, was abandoned, or is in progress. */
  lemma {:induction false} VersionsAccounted(states: seq<State>, steps: seq<Step>, n: nat)
    requires IsRun(states, steps) && n < |states|
    ensures VersionsOf(states[n].files) == VersionsOf(states[0].files) + AbandonedBy(states, steps, n)
      + CommittedVersions(states[n].successes) + InProgress(states[n])
  {
    hide Enabled, Growing, Next, Abandoned;
    if n > 0 {
      VersionsAccounted(states, steps, n - 1);
      var gone := VersionsOf(states[0].files) + AbandonedBy(states, steps, n - 1);
      StepVersions(states[n - 1], steps[n - 1], gone);
    }
  }

  /** After a first success, the newest version listed is that of the last commit exactly if no
      manifest waits for its pointer and no version from before or left without one lies above. */
  lemma NewestIsLastCommit(states: seq<State>, steps: seq<Step>, n: nat)
    requires IsRun(states, steps) && n < |states| && states[n].successes != []
    ensures VersionsOf(states[n].files) != {}
    ensures Newest(VersionsOf(states[n].files)) == LastVersion(states[n].successes) <==>
      && InProgress(states[n]) == {}
      && forall v <- VersionsOf(states[0].files) + AbandonedBy(states, steps, n) ::
           v <= LastVersion(states[n].successes)
  {
    hide IsRun, Chain, AbandonedBy;
    var s := states[n];
    var last := LastVersion(s.successes);
    RunKeepsInv(states, steps, n);
    VersionsAccounted(states, steps, n);
    assert s.successes[|s.successes| - 1].m.version in CommittedVersions(s.successes);
    forall v | v in InProgress(s) ensures v > last {
      var t :| t in s.pcs.Keys && s.pcs[t].ManifestWritten? && s.pcs[t].m.version == v;
      assert PcOk(s, s.pcs[t]);
    }
    forall v | v in CommittedVersions(s.successes) ensures v <= last {
      var i :| 0 <= i < |s.successes| && s.successes[i].m.version == v;
      LastIsLargest(s.successes, i);
    }
    if v :| v in InProgress(s) {
      assert v in VersionsOf(s.files);
    }
  }

  /** A failed pointer write leaves a version that is listed as newest, above the last commit. */
  lemma FailedPointerLeads(states: seq<State>, steps: seq<Step>, i: nat, t: int)
    requires IsRun(states, steps) && i < |steps| && steps[i] == WritePointer(t, false)
    ensures var s := states[i + 1];
      VersionsOf(s.files) != {} && Newest(VersionsOf(s.files)) > LastVersion(s.successes)
  {
    hide Chain;
    RunKeepsInv(states, steps, i);
    var pc := PcOf(states[i], t);
    assert PcOk(states[i], pc);
    assert states[i + 1].files == states[i].files;
    assert pc.m.version in VersionsOf(states[i].files);
  }

  // ---------- Commit as a sequence of steps ----------

  function Steps(s: State, steps: seq<Step>): Option<State>
    decreases |steps|
  {
    if steps == [] then Some(s)
    else if !Enabled(s, steps[0]) then None
    else Steps(Next(s, steps[0]), steps[1..])
  }

  /** The steps of one undisturbed call of Commit that ends in r. */
  function CallSteps(t: int, m: Manifest, expected: int, r: CommitResult): seq<Step> {
    match r
    case Conflict => [Lock(t, m, expected), CheckPointer(t)]
    case PointerUnreadable => [Lock(t, m, expected), CheckPointer(t)]
    case ManifestFailed => [Lock(t, m, expected), CheckPointer(t), WriteManifest(t, false)]
    case PointerFailed => [Lock(t, m, expected), CheckPointer(t), WriteManifest(t, true), WritePointer(t, false)]
    case Committed => [Lock(t, m, expected), CheckPointer(t), WriteManifest(t, true), WritePointer(t, true)]
  }

  /** The method Commit does what its steps do, and counts as a success exactly when it returns nil. */
  lemma CommitRefinesSteps(s: State, t: int, after: Files, m: Manifest, expected: int, r: CommitResult)
    requires s.lock.None? && PcOf(s, t).Idle? && CommitEffect(s.files, after, m, expected, r)
    ensures Steps(s, CallSteps(t, m, expected, r)).Some?
    ensures var s' := Steps(s, CallSteps(t, m, expected, r)).value;
      && s'.files == after && s'.lock == None && PcOf(s', t).Idle?
      && s'.successes == if r.Committed? then s.successes + [Commit(m, expected)] else s.successes
  {
    var calls := CallSteps(t, m, expected, r);
    var s1 := Next(s, calls[0]);
    assert Steps(s, calls) == Steps(s1, calls[1..]);
    var s2 := Next(s1, calls[1]);
    assert Steps(s1, calls[1..]) == Steps(s2, calls[2..]) by {
      assert calls[1..][1..] == calls[2..];
    }
    if |calls| > 2 {
      var s3 := Next(s2, calls[2]);
      assert Steps(s2, calls[2..]) == Steps(s3, calls[3..]) by {
        assert calls[2..][1..] == calls[3..];
      }
      if |calls| > 3 {
        assert calls[3..] == [calls[3]];
        assert Steps(s3, [calls[3]]) == Steps(Next(s3, calls[3]), []);
      }
    }
  }

  // ---------- Why versions must grow ----------

  /** The state after a commit of m over expected returned nil. */
  function AfterCommit(s: State, m: Manifest, expected: int): State {
    s.(files := s.files[ManifestPath(m.version) := ManifestContent(m)][LatestPath := VersionContent(m.version)],
       successes := s.successes + [Commit(m, expected)])
  }

  /** A run of growing commits from s on. */
  ghost predicate Continues(s: State, states: seq<State>, steps: seq<Step>) {
    && |states| == |steps| + 1
    && states[0] == s
    && forall i :: 0 <= i < |steps| ==>
         Enabled(states[i], steps[i]) && Growing(steps[i]) && states[i + 1] == Next(states[i], steps[i])
  }

  /** At most one success for every expected version, and all their manifests are on disk. */
  ghost predicate Guarantee(s: State) {
    && (forall i, j :: 0 <= i < j < |s.successes| ==> s.successes[i].expected != s.successes[j].expected)
    && ManifestsStay(s.files, s.successes)
  }

  /** The guarantee holds now and after whatever growing commits, failures and crashes follow. */
  ghost predicate SafeForever(s: State) {
    forall states, steps :: Continues(s, states, steps) ==> Guarantee(states[|states| - 1])
  }

  lemma InvGuarantees(s: State)
    requires Inv(s)
    ensures Guarantee(s)
  {
    hide Chain;
    forall i, j | 0 <= i < j < |s.successes| ensures s.successes[i].expected != s.successes[j].expected {
      ChainGrows(s.successes, i, j);
    }
  }

  lemma {:induction false} ContinuingKeepsInv(s: State, states: seq<State>, steps: seq<Step>, i: nat)
    requires Inv(s) && Continues(s, states, steps) && i < |states|
    ensures Inv(states[i])
  {
    hide Inv, Next, Enabled, Growing;
    if i > 0 {
      ContinuingKeepsInv(s, states, steps, i - 1);
      StepKeepsInv(states[i - 1], steps[i - 1]);
    }
  }

  lemma GrowingCommitKeepsInv(s: State, m: Manifest, expected: int)
    requires Inv(s) && s.lock.None? && LatestPointer(s.files) == Some(expected) && m.version > expected
    ensures Inv(AfterCommit(s, m, expected))
  {
    hide Chain, ManifestsStay;
    ChainExtends(s.successes, Commit(m, expected));
    WriteKeepsManifests(s.files, s.successes, m);
    PointerKeepsManifests(s.files[ManifestPath(m.version) := ManifestContent(m)], s.successes, Commit(m, expected));
  }

  /** Nobody is inside Commit. */
  predicate Quiet(s: State) {
    s.lock.None? && forall t <- s.pcs.Keys :: s.pcs[t].Idle?
  }

  /** One undisturbed growing commit, as a run. */
  lemma CommitContinues(s: State, m: Manifest, expected: int) returns (states: seq<State>, steps: seq<Step>)
    requires Quiet(s) && LatestPointer(s.files) == Some(expected) && m.version > expected
    ensures Continues(s, states, steps)
    ensures var last := states[|states| - 1];
      && Quiet(last) && last.files == AfterCommit(s, m, expected).files
      && last.successes == s.successes + [Commit(m, expected)]
  {
    steps := CallSteps(0, m, expected, Committed);
    var s1 := Next(s, steps[0]);
    var s2 := Next(s1, steps[1]);
    var s3 := Next(s2, steps[2]);
    states := [s, s1, s2, s3, Next(s3, steps[3])];
  }

  lemma ContinuesFurther(s: State, a: seq<State>, first: seq<Step>, b: seq<State>, second: seq<Step>)
    requires Continues(s, a, first) && Continues(a[|a| - 1], b, second)
    ensures Continues(s, a + b[1..], first + second)
  {
    hide Enabled, Growing, Next;
    var states, steps := a + b[1..], first + second;
    forall i | 0 <= i < |steps|
      ensures Enabled(states[i], steps[i]) && Growing(steps[i]) && states[i + 1] == Next(states[i], steps[i])
    {
      if i < |first| {
        assert states[i] == a[i] && states[i + 1] == a[i + 1];
      } else {
        assert states[i] == b[i - |first|] && states[i + 1] == b[i + 1 - |first|];
      }
    }
  }

  /** After a commit that did not grow, growing commits can expect the same version again. */
  lemma StagnationRepeats(s: State, m: Manifest, expected: int) returns (states: seq<State>, steps: seq<Step>)
    requires Quiet(s) && LatestPointer(s.files) == Some(expected) && m.version <= expected
    ensures Continues(AfterCommit(s, m, expected), states, steps)
    ensures !Guarantee(states[|states| - 1])
  {
    hide Continues, Enabled, Next;
    var after := AfterCommit(s, m, expected);
    states, steps := [after], [];
    if m.version < expected {
      states, steps := CommitContinues(after, m.(version := expected), m.version);
    } else {
      NoSteps(after);
    }
    var back := states[|states| - 1];
    var more, further := CommitContinues(back, m.(version := expected + 1), expected);
    ContinuesFurther(after, states, steps, more, further);
    LastOfBoth(states, more);
    states, steps := states + more[1..], steps + further;
    var ok := states[|states| - 1].successes;
    assert ok[|s.successes|].expected == expected && ok[|ok| - 1].expected == expected;
  }

  lemma NoSteps(s: State)
    ensures Continues(s, [s], [])
  {
  }

  lemma LastOfBoth(a: seq<State>, b: seq<State>)
    requires a != [] && |b| > 1
    ensures (a + b[1..])[|a + b[1..]| - 1] == b[|b| - 1]
  {
  }

  /** Growing is exactly what a commit must do: from any state with nobody inside Commit, a
      successful commit leaves the guarantee safe forever if and only if its version is above
      the one it expected. */
  lemma GrowingIsExact(s: State, m: Manifest, expected: int)
    requires Inv(s) && s.lock.None? && LatestPointer(s.files) == Some(expected)
    ensures SafeForever(AfterCommit(s, m, expected)) <==> m.version > expected
  {
    hide Inv, Guarantee, Enabled, Next;
    var after := AfterCommit(s, m, expected);
    if m.version > expected {
      GrowingCommitKeepsInv(s, m, expected);
      forall states, steps | Continues(after, states, steps) ensures Guarantee(states[|states| - 1]) {
        ContinuingKeepsInv(after, states, steps, |states| - 1);
        InvGuarantees(states[|states| - 1]);
      }
    } else {
      InvIsQuiet(s);
      var states, steps := StagnationRepeats(s, m, expected);
    }
  }

  lemma InvIsQuiet(s: State)
    requires Inv(s) && s.lock.None?
    ensures Quiet(s)
  {
  }
}
