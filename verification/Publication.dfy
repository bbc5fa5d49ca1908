/**
 Resumable publication of one bundle: versions are immutable, dist-tags move, and the entry package's `latest`
 must not reach the bundle before everything else is in place.
 */
module Publication {
  import opened Options

  const RELEASE_ENTRY_PACKAGE := "@deepseek-ai/dsh"
  const LATEST_DIST_TAG := "latest"

  datatype PackedPackage = PackedPackage(name: string, integrity: string)

  datatype Bundle = Bundle(version: string, distTag: string, packages: seq<PackedPackage>) {
    /** What loading or packing a bundle guarantees: some package, and no name twice. */
    ghost predicate Valid() {
      packages != [] && forall i, j :: 0 <= i < j < |packages| ==> packages[i].name != packages[j].name
    }
  }

  /** The registry: integrities by package and version, versions by package and dist-tag. */
  datatype Registry = Registry(
    versions: map<(string, string), string>,
    tags: map<(string, string), string>)
  {
    function Integrity(name: string, version: string): Option<string> {
      if (name, version) in versions then Some(versions[(name, version)]) else None
    }

    function DistTag(name: string, tag: string): Option<string> {
      if (name, tag) in tags then Some(tags[(name, tag)]) else None
    }

    /** `npm dist-tag ls` fails for a package the registry does not know. */
    predicate Knows(name: string) {
      exists k :: k in versions && k.0 == name
    }

    /**
     `npm publish --tag`. A registry may also point `latest` of a package without that tag at its first version;
     `adopts` says whether this one does.
     */
    function Published(name: string, version: string, integrity: string, tag: string, adopts: bool): Registry {
      var tagged := tags[(name, tag) := version];
      Registry(versions[(name, version) := integrity],
               if adopts && (name, LATEST_DIST_TAG) !in tagged
               then tagged[(name, LATEST_DIST_TAG) := version] else tagged)
    }

    function Tagged(name: string, tag: string, version: string): Registry {
      this.(tags := tags[(name, tag) := version])
    }
  }

  /** Why a run ends. */
  datatype Outcome = Verified | Conflict(name: string) | Rejected(name: string) | Unverified(name: string)

  /** Where a run of `publish` stands; every phase does one registry command. */
  datatype Phase =
    | ViewPackage(i: nat)
    | Upload(i: nat)
    | ListTags(i: nat)
    | AddTag(i: nat)
    | ListLatest
    | AddLatest
    | VerifyPackage(i: nat)
    | VerifyTag(i: nat)
    | VerifyLatest
    | Ended(outcome: Outcome)

  const Start := ViewPackage(0)

  /** The phase after package `i` is in place. */
  function AfterPackage(b: Bundle, i: nat): Phase {
    if i + 1 < |b.packages| then ViewPackage(i + 1) else ListLatest
  }

  function AfterVerified(b: Bundle, i: nat): Phase {
    if i + 1 < |b.packages| then VerifyPackage(i + 1) else VerifyLatest
  }

  ghost predicate InBundle(b: Bundle, phase: Phase) {
    match phase
    case ViewPackage(i) => i < |b.packages|
    case Upload(i) => i < |b.packages|
    case ListTags(i) => i < |b.packages|
    case AddTag(i) => i < |b.packages|
    case VerifyPackage(i) => i < |b.packages|
    case VerifyTag(i) => i < |b.packages|
    case _ => true
  }

  datatype State = State(registry: Registry, phase: Phase)

  /** One registry command of one run. */
  ghost function Step(b: Bundle, adopts: bool, s: State): (t: State)
    requires InBundle(b, s.phase)
    ensures b.packages != [] ==> InBundle(b, t.phase)
  {
    var r, version := s.registry, b.version;
    match s.phase
    case ViewPackage(i) =>
      var p := b.packages[i];
      (match r.Integrity(p.name, version)
       case None => State(r, Upload(i))
       case Some(existing) => State(r, if existing != p.integrity then Ended(Conflict(p.name)) else ListTags(i)))
    case Upload(i) =>
      var p := b.packages[i];
      if r.Integrity(p.name, version).Some? then State(r, Ended(Rejected(p.name)))
      else State(r.Published(p.name, version, p.integrity, b.distTag, adopts), ListTags(i))
    case ListTags(i) =>
      var p := b.packages[i];
      if !r.Knows(p.name) then State(r, Ended(Rejected(p.name)))
      else State(r, if r.DistTag(p.name, b.distTag) == Some(version) then AfterPackage(b, i) else AddTag(i))
    case AddTag(i) =>
      var p := b.packages[i];
      if r.Integrity(p.name, version).None? then State(r, Ended(Rejected(p.name)))
      else State(r.Tagged(p.name, b.distTag, version), AfterPackage(b, i))
    case ListLatest =>
      if !r.Knows(RELEASE_ENTRY_PACKAGE) then State(r, Ended(Rejected(RELEASE_ENTRY_PACKAGE)))
      else State(r, if r.DistTag(RELEASE_ENTRY_PACKAGE, LATEST_DIST_TAG) == Some(version)
                    then VerifyPackage(0) else AddLatest)
    case AddLatest =>
      if r.Integrity(RELEASE_ENTRY_PACKAGE, version).None? then State(r, Ended(Rejected(RELEASE_ENTRY_PACKAGE)))
      else State(r.Tagged(RELEASE_ENTRY_PACKAGE, LATEST_DIST_TAG, version), VerifyPackage(0))
    case VerifyPackage(i) =>
      var p := b.packages[i];
      State(r, if r.Integrity(p.name, version) == Some(p.integrity) then VerifyTag(i) else Ended(Unverified(p.name)))
    case VerifyTag(i) =>
      var p := b.packages[i];
      State(r, if r.Knows(p.name) && r.DistTag(p.name, b.distTag) == Some(version)
               then AfterVerified(b, i) else Ended(Unverified(p.name)))
    case VerifyLatest =>
      State(r, if r.Knows(RELEASE_ENTRY_PACKAGE) && r.DistTag(RELEASE_ENTRY_PACKAGE, LATEST_DIST_TAG) == Some(version)
               then Ended(Verified) else Ended(Unverified(RELEASE_ENTRY_PACKAGE)))
    case Ended(_) => s
  }

  // ----- what is in place -----

  ghost predicate InPlace(b: Bundle, r: Registry, i: nat)
    requires i < |b.packages|
  {
    && r.Integrity(b.packages[i].name, b.version) == Some(b.packages[i].integrity)
    && r.DistTag(b.packages[i].name, b.distTag) == Some(b.version)
  }

  /** Every manifest package exists with the manifest's integrity and dist-tag. */
  ghost predicate AllInPlace(b: Bundle, r: Registry) {
    forall i :: 0 <= i < |b.packages| ==> InPlace(b, r, i)
  }

  ghost predicate LatestMoved(b: Bundle, r: Registry) {
    r.DistTag("@deepseek-ai/dsh", "latest") == Some(b.version)
  }

  /** Packages `0..k` are in place. */
  ghost predicate Prefix(b: Bundle, r: Registry, k: nat) {
    k <= |b.packages| && forall i :: 0 <= i < k ==> InPlace(b, r, i)
  }

  /** What a run that stands at `phase` has already put in place. */
  ghost predicate Earned(b: Bundle, r: Registry, phase: Phase) {
    InBundle(b, phase) &&
    match phase
    case ViewPackage(i) => Prefix(b, r, i)
    case Upload(i) => Prefix(b, r, i)
    case ListTags(i) => Prefix(b, r, i) && r.Integrity(b.packages[i].name, b.version) == Some(b.packages[i].integrity)
    case AddTag(i) => Prefix(b, r, i) && r.Integrity(b.packages[i].name, b.version) == Some(b.packages[i].integrity)
    case ListLatest => AllInPlace(b, r)
    case AddLatest => AllInPlace(b, r)
    case VerifyPackage(i) => AllInPlace(b, r) && LatestMoved(b, r)
    case VerifyTag(i) => AllInPlace(b, r) && LatestMoved(b, r)
    case VerifyLatest => AllInPlace(b, r) && LatestMoved(b, r)
    case Ended(outcome) => outcome == Verified ==> AllInPlace(b, r) && LatestMoved(b, r)
  }

  /**
   The bundle's own dist-tag does not move `latest` of the entry package early: it is another tag, or no package
   follows the entry package.
   */
  ghost predicate MovesLatestLast(b: Bundle) {
    b.distTag != LATEST_DIST_TAG
    || forall i :: 0 <= i < |b.packages| - 1 ==> b.packages[i].name != RELEASE_ENTRY_PACKAGE
  }

  /** No stored version of the first `k` packages has another integrity. */
  ghost predicate Unopposed(b: Bundle, r: Registry, k: nat) {
    forall i :: 0 <= i < k <= |b.packages| && (b.packages[i].name, b.version) in r.versions ==>
                  r.versions[(b.packages[i].name, b.version)] == b.packages[i].integrity
  }

  /** Publishing the entry package moves its `latest`: by the bundle's own tag, or because the registry adopts it. */
  ghost predicate EntryMovesLatest(b: Bundle, adopts: bool, r: Registry) {
    b.distTag == LATEST_DIST_TAG
    || (adopts && (RELEASE_ENTRY_PACKAGE, b.version) !in r.versions
        && (RELEASE_ENTRY_PACKAGE, LATEST_DIST_TAG) !in r.tags)
  }

  ghost predicate MovesEarlyAt(b: Bundle, adopts: bool, r: Registry, i: int) {
    && 0 <= i < |b.packages| && b.packages[i].name == RELEASE_ENTRY_PACKAGE
    && Unopposed(b, r, i + 1) && EntryMovesLatest(b, adopts, r)
    && exists j :: i < j < |b.packages| && !InPlace(b, r, j)
  }

  /** A run gets as far as the entry package, moves `latest` with it, and still has a package to put in place. */
  ghost predicate MovesEarly(b: Bundle, adopts: bool, r: Registry) {
    exists i :: MovesEarlyAt(b, adopts, r, i)
  }

  /** `latest` of the entry package is on the bundle only when everything is in place, and will not move early. */
  ghost predicate Guarded(b: Bundle, adopts: bool, r: Registry) {
    (LatestMoved(b, r) ==> AllInPlace(b, r)) && !MovesEarly(b, adopts, r)
  }

  /** No stored integrity changes, and what points at the bundle keeps pointing at it. */
  ghost predicate Grows(b: Bundle, r: Registry, r': Registry) {
    && (forall k :: k in r.versions ==> k in r'.versions && r'.versions[k] == r.versions[k])
    && (forall k :: k in r.tags ==> k in r'.tags)
    && (forall k :: k in r.tags && r.tags[k] == b.version ==> r'.tags[k] == b.version)
  }

  lemma GrowsKeeps(b: Bundle, r: Registry, r': Registry, phase: Phase)
    requires Grows(b, r, r') && Earned(b, r, phase)
    ensures Earned(b, r', phase)
  {
    assert forall i :: 0 <= i < |b.packages| && InPlace(b, r, i) ==> InPlace(b, r', i);
  }

  lemma StepGrows(b: Bundle, adopts: bool, s: State)
    requires InBundle(b, s.phase)
    ensures Grows(b, s.registry, Step(b, adopts, s).registry)
  {
  }

  /** Every command keeps what the run has earned. */
  lemma StepEarns(b: Bundle, adopts: bool, s: State)
    requires b.Valid() && Earned(b, s.registry, s.phase)
    ensures Earned(b, Step(b, adopts, s).registry, Step(b, adopts, s).phase)
  {
    var t := Step(b, adopts, s);
    StepGrows(b, adopts, s);
    GrowsKeeps(b, s.registry, t.registry, s.phase);
  }

  lemma GrowsNotEarly(b: Bundle, adopts: bool, r: Registry, r': Registry)
    requires Grows(b, r, r') && !MovesEarly(b, adopts, r)
    ensures !MovesEarly(b, adopts, r')
  {
    forall i | MovesEarlyAt(b, adopts, r', i) ensures MovesEarlyAt(b, adopts, r, i) {
      var j :| i < j < |b.packages| && !InPlace(b, r', j);
      assert !InPlace(b, r, j);
    }
  }

  /** A command that moves `latest` finds everything else in place. */
  lemma MoveIsLate(b: Bundle, adopts: bool, s: State)
    requires b.Valid() && Earned(b, s.registry, s.phase) && Guarded(b, adopts, s.registry)
    requires !LatestMoved(b, s.registry) && LatestMoved(b, Step(b, adopts, s).registry)
    ensures AllInPlace(b, Step(b, adopts, s).registry)
  {
    var t := Step(b, adopts, s);
    StepGrows(b, adopts, s);
    assert forall i :: 0 <= i < |b.packages| && InPlace(b, s.registry, i) ==> InPlace(b, t.registry, i);
    if !s.phase.AddLatest? {
      assert s.phase.Upload? || s.phase.AddTag?;
      var i := s.phase.i;
      assert forall j :: 0 <= j < i ==> InPlace(b, s.registry, j);
      assert b.packages[i].name == RELEASE_ENTRY_PACKAGE && EntryMovesLatest(b, adopts, s.registry);
      forall j | 0 <= j <= i && (b.packages[j].name, b.version) in s.registry.versions
        ensures s.registry.versions[(b.packages[j].name, b.version)] == b.packages[j].integrity
      {
        assert j < i ==> InPlace(b, s.registry, j);
      }
      assert !MovesEarlyAt(b, adopts, s.registry, i);
      forall j | 0 <= j < |b.packages| ensures InPlace(b, t.registry, j) {
        assert j != i ==> InPlace(b, s.registry, j);
      }
    }
  }

  /** Every command keeps `latest` guarded. */
  lemma StepGuards(b: Bundle, adopts: bool, s: State)
    requires b.Valid() && Earned(b, s.registry, s.phase) && Guarded(b, adopts, s.registry)
    ensures Guarded(b, adopts, Step(b, adopts, s).registry)
  {
    var t := Step(b, adopts, s);
    StepGrows(b, adopts, s);
    GrowsNotEarly(b, adopts, s.registry, t.registry);
    if LatestMoved(b, t.registry) && !LatestMoved(b, s.registry) {
      MoveIsLate(b, adopts, s);
    }
    assert forall i :: 0 <= i < |b.packages| && InPlace(b, s.registry, i) ==> InPlace(b, t.registry, i);
  }

  // ----- any number of runs, stopped and restarted at any command, possibly at the same time -----

  datatype System = System(registry: Registry, phases: seq<Phase>)

  /** Run `k` does its next command, or is stopped where it stands and started again. */
  ghost predicate Moves(b: Bundle, adopts: bool, s: System, t: System, k: nat) {
    && k < |s.phases| && InBundle(b, s.phases[k])
    && (var next := Step(b, adopts, State(s.registry, s.phases[k]));
        t == System(next.registry, s.phases[k := next.phase]) || t == s.(phases := s.phases[k := Start]))
  }

  ghost predicate MovesSome(b: Bundle, adopts: bool, s: System, t: System) {
    exists k: nat :: Moves(b, adopts, s, t, k)
  }

  ghost predicate IsHistory(b: Bundle, adopts: bool, history: seq<System>) {
    && |history| > 0
    && (forall k :: 0 <= k < |history[0].phases| ==> history[0].phases[k] == Start)
    && (forall i :: 0 <= i < |history| - 1 ==> MovesSome(b, adopts, history[i], history[i + 1]))
  }

  ghost predicate AllEarned(b: Bundle, s: System) {
    forall k :: 0 <= k < |s.phases| ==> Earned(b, s.registry, s.phases[k])
  }

  lemma MoveKeeps(b: Bundle, adopts: bool, s: System, t: System, k: nat)
    requires b.Valid() && Moves(b, adopts, s, t, k) && AllEarned(b, s)
    ensures AllEarned(b, t) && Grows(b, s.registry, t.registry)
    ensures Guarded(b, adopts, s.registry) ==> Guarded(b, adopts, t.registry)
  {
    var now := State(s.registry, s.phases[k]);
    StepGrows(b, adopts, now);
    StepEarns(b, adopts, now);
    if Guarded(b, adopts, s.registry) {
      StepGuards(b, adopts, now);
    }
    hide Step, Earned, Grows, Guarded;
    forall j | 0 <= j < |t.phases| ensures Earned(b, t.registry, t.phases[j]) {
      if t.registry != s.registry {
        GrowsKeeps(b, s.registry, t.registry, s.phases[j]);
      }
      StartEarned(b, t.registry);
    }
    GrowsSelf(b, s.registry);
  }

  lemma StartEarned(b: Bundle, r: Registry)
    requires b.Valid()
    ensures Earned(b, r, Start)
  {
  }

  lemma GrowsSelf(b: Bundle, r: Registry)
    ensures Grows(b, r, r)
  {
  }

  lemma GrowsTransitive(b: Bundle, r: Registry, s: Registry, t: Registry)
    requires Grows(b, r, s) && Grows(b, s, t)
    ensures Grows(b, r, t)
  {
  }

  /**
   However many runs there are, wherever each is stopped and restarted: `latest` is on the bundle only while every
   manifest package is in place, and no stored integrity has changed.
   */
  lemma {:induction false} LatestIsSafe(b: Bundle, adopts: bool, history: seq<System>, i: nat)
    requires b.Valid() && IsHistory(b, adopts, history) && i < |history|
    requires Guarded(b, adopts, history[0].registry)
    ensures LatestMoved(b, history[i].registry) ==> AllInPlace(b, history[i].registry)
    ensures Grows(b, history[0].registry, history[i].registry)
    ensures AllEarned(b, history[i]) && Guarded(b, adopts, history[i].registry)
  {
    hide Earned, Grows, Moves, MovesEarly;
    if i == 0 {
      forall k | 0 <= k < |history[0].phases| ensures Earned(b, history[0].registry, history[0].phases[k]) {
        StartEarned(b, history[0].registry);
      }
      GrowsSelf(b, history[0].registry);
    } else {
      LatestIsSafe(b, adopts, history, i - 1);
      assert MovesSome(b, adopts, history[i - 1], history[i - 1 + 1]);
      var k :| Moves(b, adopts, history[i - 1], history[i], k);
      MoveKeeps(b, adopts, history[i - 1], history[i], k);
      GrowsTransitive(b, history[0].registry, history[i - 1].registry, history[i].registry);
    }
  }

  // ----- one undisturbed run -----

  ghost function After(b: Bundle, adopts: bool, s: State, n: nat): (t: State)
    requires InBundle(b, s.phase) && b.Valid()
    ensures InBundle(b, t.phase)
  {
    if n == 0 then s else Step(b, adopts, After(b, adopts, s, n - 1))
  }

  /** Commands left at most. */
  ghost function Left(b: Bundle, phase: Phase): nat
    requires InBundle(b, phase)
  {
    var n := |b.packages|;
    match phase
    case ViewPackage(i) => 4 * (n - i) + 2 * n + 4
    case Upload(i) => 4 * (n - i) + 2 * n + 3
    case ListTags(i) => 4 * (n - i) + 2 * n + 2
    case AddTag(i) => 4 * (n - i) + 2 * n + 1
    case ListLatest => 2 * n + 3
    case AddLatest => 2 * n + 2
    case VerifyPackage(i) => 2 * (n - i) + 1
    case VerifyTag(i) => 2 * (n - i)
    case VerifyLatest => 1
    case Ended(_) => 0
  }

  lemma StepDescends(b: Bundle, adopts: bool, s: State)
    requires b.Valid() && InBundle(b, s.phase)
    ensures Left(b, Step(b, adopts, s).phase) < Left(b, s.phase) || s.phase.Ended?
  {
  }

  lemma {:induction false} RunEnds(b: Bundle, adopts: bool, s: State, n: nat)
    requires b.Valid() && InBundle(b, s.phase)
    ensures Left(b, After(b, adopts, s, n).phase) + n <= Left(b, s.phase) || After(b, adopts, s, n).phase.Ended?
  {
    hide Step, Left;
    if n > 0 {
      RunEnds(b, adopts, s, n - 1);
      StepDescends(b, adopts, After(b, adopts, s, n - 1));
      if After(b, adopts, s, n - 1).phase.Ended? {
        EndedStep(b, adopts, After(b, adopts, s, n - 1));
      }
    }
  }

  /** Tags point at stored versions. */
  ghost predicate Sound(r: Registry) {
    forall k :: k in r.tags ==> (k.0, r.tags[k]) in r.versions
  }

  ghost predicate Lists(b: Bundle, name: string) {
    exists i :: 0 <= i < |b.packages| && b.packages[i].name == name
  }

  /** No stored version of a package has another integrity, and the entry package is or comes to be stored. */
  ghost predicate Compatible(b: Bundle, r: Registry) {
    && (forall i :: 0 <= i < |b.packages| ==>
                      (b.packages[i].name, b.version) in r.versions ==>
                        r.versions[(b.packages[i].name, b.version)] == b.packages[i].integrity)
    && (Lists(b, RELEASE_ENTRY_PACKAGE) || (RELEASE_ENTRY_PACKAGE, b.version) in r.versions)
  }

  /** Nothing stands in the way of the phase: only an uninterrupted run's own view of the registry. */
  ghost predicate Clear(b: Bundle, s: State) {
    && InBundle(b, s.phase) && Compatible(b, s.registry)
    && (s.phase.Upload? ==> (b.packages[s.phase.i].name, b.version) !in s.registry.versions)
    && (s.phase.Ended? ==> s.phase.outcome == Verified)
  }

  lemma InPlaceStored(b: Bundle, r: Registry)
    requires AllInPlace(b, r) && Compatible(b, r)
    ensures (RELEASE_ENTRY_PACKAGE, b.version) in r.versions && r.Knows(RELEASE_ENTRY_PACKAGE)
  {
    if Lists(b, RELEASE_ENTRY_PACKAGE) {
      var i :| 0 <= i < |b.packages| && b.packages[i].name == RELEASE_ENTRY_PACKAGE;
      assert InPlace(b, r, i);
    }
  }

  lemma StepClears(b: Bundle, adopts: bool, s: State)
    requires b.Valid() && Earned(b, s.registry, s.phase) && Clear(b, s)
    ensures Clear(b, Step(b, adopts, s))
  {
    if s.phase.ListLatest? || s.phase.AddLatest? || s.phase.VerifyLatest? {
      InPlaceStored(b, s.registry);
    } else if s.phase.ListTags? {
      assert (b.packages[s.phase.i].name, b.version) in s.registry.versions;
    } else if s.phase.VerifyPackage? || s.phase.VerifyTag? {
      assert InPlace(b, s.registry, s.phase.i);
    }
  }

  /** Where each stored version of the bundle's number came from. */
  ghost predicate Stems(b: Bundle, r0: Registry, r: Registry) {
    && Grows(b, r0, r) && Sound(r)
    && forall k :: k in r.versions && k !in r0.versions ==> k.1 == b.version && Lists(b, k.0)
  }

  lemma StepStems(b: Bundle, adopts: bool, r0: Registry, s: State)
    requires b.Valid() && InBundle(b, s.phase) && Stems(b, r0, s.registry)
    ensures Stems(b, r0, Step(b, adopts, s).registry)
  {
    var t := Step(b, adopts, s);
    StepGrows(b, adopts, s);
    GrowsTransitive(b, r0, s.registry, t.registry);
  }

  lemma {:induction false} RunKeeps(b: Bundle, adopts: bool, r: Registry, n: nat)
    requires b.Valid() && Sound(r)
    ensures var s := After(b, adopts, State(r, Start), n);
            && Earned(b, s.registry, s.phase) && Stems(b, r, s.registry) && (Compatible(b, r) ==> Clear(b, s))
  {
    if n == 0 {
      StartEarned(b, r);
      GrowsSelf(b, r);
    } else {
      hide Step, Earned, Stems, Clear, Compatible;
      RunKeeps(b, adopts, r, n - 1);
      var s := After(b, adopts, State(r, Start), n - 1);
      StepEarns(b, adopts, s);
      StepStems(b, adopts, r, s);
      if Compatible(b, r) {
        StepClears(b, adopts, s);
      }
    }
  }

  /**
   A run that is let finish, from whatever an earlier stop left behind, reaches the verified state exactly when
   the registry is compatible with the bundle.
   */
  lemma RunVerifiesIff(b: Bundle, adopts: bool, r: Registry)
    requires b.Valid() && Sound(r)
    ensures var s := After(b, adopts, State(r, Start), Left(b, Start));
            && s.phase.Ended?
            && (s.phase.outcome == Verified <==> Compatible(b, r))
            && (s.phase.outcome == Verified ==> AllInPlace(b, s.registry) && LatestMoved(b, s.registry))
  {
    var s := After(b, adopts, State(r, Start), Left(b, Start));
    RunEnds(b, adopts, State(r, Start), Left(b, Start));
    RunKeeps(b, adopts, r, Left(b, Start));
    if s.phase.outcome == Verified {
      VerifiedWasCompatible(b, r, s.registry);
    }
  }

  lemma EndedStep(b: Bundle, adopts: bool, s: State)
    requires s.phase.Ended?
    ensures Step(b, adopts, s) == s
  {
  }

  lemma {:induction false} EndedStays(b: Bundle, adopts: bool, s: State, n: nat, m: nat)
    requires b.Valid() && InBundle(b, s.phase) && n <= m && After(b, adopts, s, n).phase.Ended?
    ensures After(b, adopts, s, m) == After(b, adopts, s, n)
  {
    hide Step;
    if n < m {
      EndedStays(b, adopts, s, n, m - 1);
      EndedStep(b, adopts, After(b, adopts, s, n));
    }
  }

  /** Wherever a run has ended, its outcome is the one `RunVerifiesIff` tells. */
  lemma OutcomeIff(b: Bundle, adopts: bool, r: Registry, n: nat)
    requires b.Valid() && Sound(r) && After(b, adopts, State(r, Start), n).phase.Ended?
    ensures var s := After(b, adopts, State(r, Start), n);
            && (s.phase.outcome == Verified <==> Compatible(b, r))
            && (s.phase.outcome == Verified ==> AllInPlace(b, s.registry) && LatestMoved(b, s.registry))
  {
    hide Compatible, AllInPlace, Sound;
    var last := Left(b, Start);
    RunVerifiesIff(b, adopts, r);
    EndedStays(b, adopts, State(r, Start), if n <= last then n else last, if n <= last then last else n);
  }

  lemma VerifiedWasCompatible(b: Bundle, r: Registry, r': Registry)
    requires Stems(b, r, r') && AllInPlace(b, r') && LatestMoved(b, r')
    ensures Compatible(b, r)
  {
    forall i | 0 <= i < |b.packages| && (b.packages[i].name, b.version) in r.versions
      ensures r.versions[(b.packages[i].name, b.version)] == b.packages[i].integrity
    {
      assert InPlace(b, r', i);
    }
    var latest := (RELEASE_ENTRY_PACKAGE, LATEST_DIST_TAG);
    assert latest in r'.tags && (RELEASE_ENTRY_PACKAGE, b.version) in r'.versions;
  }

  // ----- a run from wherever stopped runs have left the registry -----

  lemma StepCompatible(b: Bundle, adopts: bool, s: State)
    requires b.Valid() && InBundle(b, s.phase) && Compatible(b, s.registry)
    ensures Compatible(b, Step(b, adopts, s).registry)
  {
  }

  /** What is stored when a run ends, or is stopped, is compatible exactly when what it found was. */
  lemma StemsCompatible(b: Bundle, r: Registry, r': Registry)
    requires Stems(b, r, r') && Compatible(b, r')
    ensures Compatible(b, r)
  {
  }

  lemma {:induction false} HistoryStems(b: Bundle, adopts: bool, history: seq<System>, i: nat)
    requires b.Valid() && IsHistory(b, adopts, history) && Sound(history[0].registry) && i < |history|
    ensures Stems(b, history[0].registry, history[i].registry)
    ensures Compatible(b, history[0].registry) ==> Compatible(b, history[i].registry)
  {
    hide Step, Compatible, Sound, InBundle;
    if i == 0 {
      GrowsSelf(b, history[0].registry);
    } else {
      hide Stems;
      HistoryStems(b, adopts, history, i - 1);
      assert MovesSome(b, adopts, history[i - 1], history[i - 1 + 1]);
      var k: nat :| Moves(b, adopts, history[i - 1], history[i], k);
      var s := State(history[i - 1].registry, history[i - 1].phases[k]);
      StepStems(b, adopts, history[0].registry, s);
      if Compatible(b, s.registry) {
        StepCompatible(b, adopts, s);
      }
    }
  }

  /**
   After any number of stopped and restarted runs, the next run that is let finish reaches the verified state
   exactly when the registry was compatible at the very beginning.
   */
  lemma RerunVerifiesIff(b: Bundle, adopts: bool, history: seq<System>, i: nat)
    requires b.Valid() && IsHistory(b, adopts, history) && Sound(history[0].registry) && i < |history|
    ensures var s := After(b, adopts, State(history[i].registry, Start), Left(b, Start));
            && s.phase.Ended?
            && (s.phase.outcome == Verified <==> Compatible(b, history[0].registry))
            && (s.phase.outcome == Verified ==> AllInPlace(b, s.registry) && LatestMoved(b, s.registry))
  {
    hide After, Left, Compatible, Grows, IsHistory, AllInPlace, LatestMoved;
    HistoryStems(b, adopts, history, i);
    RunVerifiesIff(b, adopts, history[i].registry);
    if Compatible(b, history[i].registry) {
      StemsCompatible(b, history[0].registry, history[i].registry);
    }
  }

  // ----- when a run moves `latest` too early -----

  /** In this state of the run, `latest` is on the bundle only if everything is in place. */
  ghost predicate SafeAt(b: Bundle, adopts: bool, r: Registry, n: nat)
    requires b.Valid()
  {
    var s := After(b, adopts, State(r, Start), n).registry;
    LatestMoved(b, s) ==> AllInPlace(b, s)
  }

  lemma {:induction false} RunGuards(b: Bundle, adopts: bool, r: Registry, n: nat)
    requires b.Valid() && Guarded(b, adopts, r)
    ensures var s := After(b, adopts, State(r, Start), n);
            Earned(b, s.registry, s.phase) && Guarded(b, adopts, s.registry)
  {
    hide Step, Earned, Guarded;
    if n == 0 {
      StartEarned(b, r);
    } else {
      RunGuards(b, adopts, r, n - 1);
      var s := After(b, adopts, State(r, Start), n - 1);
      StepEarns(b, adopts, s);
      StepGuards(b, adopts, s);
    }
  }

  /** Nothing is known or tagged differently, except of this package. */
  ghost predicate OnlyOf(name: string, r: Registry, r': Registry) {
    forall other :: other != name ==> Same(other, r, r')
  }

  ghost predicate Same(name: string, r: Registry, r': Registry) {
    forall x :: r.Integrity(name, x) == r'.Integrity(name, x) && r.DistTag(name, x) == r'.DistTag(name, x)
  }

  /** A package that nothing opposes is put in place, and the run goes on with the next. */
  lemma PackageDone(b: Bundle, adopts: bool, s: State, i: nat) returns (m: nat)
    requires b.Valid() && i < |b.packages| && s.phase == ViewPackage(i)
    requires s.registry.Integrity(b.packages[i].name, b.version) in {None, Some(b.packages[i].integrity)}
    ensures var t := After(b, adopts, s, m);
            t.phase == AfterPackage(b, i) && OnlyOf(b.packages[i].name, s.registry, t.registry)
  {
    hide Step, After;
    var name, integrity := b.packages[i].name, b.packages[i].integrity;
    NothingDone(b, adopts, s);
    ViewStep(b, adopts, s.registry, i);
    OneMore(b, adopts, s, 0);
    m := 1;
    var r := s.registry;
    if r.Integrity(name, b.version) == None {
      OneMore(b, adopts, s, 1);
      m, r := 2, r.Published(name, b.version, integrity, b.distTag, adopts);
    }
    assert After(b, adopts, s, m) == State(r, ListTags(i)) && OnlyOf(name, s.registry, r);
    assert (name, b.version) in r.versions;
    ListStep(b, adopts, r, ListTags(i), name, b.distTag);
    OneMore(b, adopts, s, m);
    OneMore(b, adopts, s, m + 1);
    m := if r.DistTag(name, b.distTag) == Some(b.version) then m + 1 else m + 2;
  }

  lemma {:induction false} AfterAfter(b: Bundle, adopts: bool, s: State, n: nat, m: nat)
    requires b.Valid() && InBundle(b, s.phase)
    ensures After(b, adopts, After(b, adopts, s, n), m) == After(b, adopts, s, n + m)
  {
    hide Step;
    if m > 0 {
      AfterAfter(b, adopts, s, n, m - 1);
      assert n + m - 1 == n + (m - 1);
    }
  }

  /** What the packages before `i` are named has changed, and nothing else. */
  ghost predicate OnlyBefore(b: Bundle, i: nat, r: Registry, r': Registry) {
    i <= |b.packages| &&
    forall name :: (forall j :: 0 <= j < i ==> b.packages[j].name != name) ==> Same(name, r, r')
  }

  lemma OnlyOfIsSame(b: Bundle, i: nat, r: Registry, r': Registry, r'': Registry)
    requires i < |b.packages| && OnlyBefore(b, i, r, r') && OnlyOf(b.packages[i].name, r', r'')
    ensures OnlyBefore(b, i + 1, r, r'')
  {
    forall name | forall j :: 0 <= j < i + 1 ==> b.packages[j].name != name ensures Same(name, r, r'') {
      assert b.packages[i].name != name;
      assert Same(name, r, r') && Same(name, r', r'');
    }
  }

  lemma {:induction false} ReachesPackage(b: Bundle, adopts: bool, r: Registry, i: nat) returns (n: nat)
    requires b.Valid() && i < |b.packages| && Unopposed(b, r, i)
    ensures var s := After(b, adopts, State(r, Start), n);
            s.phase == ViewPackage(i) && OnlyBefore(b, i, r, s.registry)
  {
    hide Step, After, OnlyOf;
    if i == 0 {
      n := 0;
      NothingDone(b, adopts, State(r, Start));
    } else {
      var m := ReachesPackage(b, adopts, r, i - 1);
      var s := After(b, adopts, State(r, Start), m);
      assert Same(b.packages[i - 1].name, r, s.registry);
      var more := PackageDone(b, adopts, s, i - 1);
      n := m + more;
      AfterAfter(b, adopts, State(r, Start), m, more);
      OnlyOfIsSame(b, i - 1, r, s.registry, After(b, adopts, State(r, Start), n).registry);
    }
  }

  /** From the entry package on, `latest` is moved within three commands, and later packages are as they were. */
  lemma EntryMoves(b: Bundle, adopts: bool, s: State, i: nat) returns (m: nat)
    requires b.Valid() && i < |b.packages| && s.phase == ViewPackage(i) && b.packages[i].name == RELEASE_ENTRY_PACKAGE
    requires s.registry.Integrity(RELEASE_ENTRY_PACKAGE, b.version) in {None, Some(b.packages[i].integrity)}
    requires EntryMovesLatest(b, adopts, s.registry)
    ensures var t := After(b, adopts, s, m);
            LatestMoved(b, t.registry) && OnlyOf(RELEASE_ENTRY_PACKAGE, s.registry, t.registry)
  {
    hide Step, After;
    var name, integrity := b.packages[i].name, b.packages[i].integrity;
    NothingDone(b, adopts, s);
    ViewStep(b, adopts, s.registry, i);
    OneMore(b, adopts, s, 0);
    OneMore(b, adopts, s, 1);
    if s.registry.Integrity(name, b.version) == None {
      m := 2;
    } else {
      assert b.distTag == LATEST_DIST_TAG;
      assert (name, b.version) in s.registry.versions;
      ListStep(b, adopts, s.registry, ListTags(i), name, b.distTag);
      OneMore(b, adopts, s, 2);
      m := if LatestMoved(b, s.registry) then 1 else 3;
    }
  }

  lemma EarlyIsUnsafe(b: Bundle, adopts: bool, r: Registry) returns (n: nat)
    requires b.Valid() && MovesEarly(b, adopts, r)
    ensures !SafeAt(b, adopts, r, n)
  {
    hide Step, After;
    var i :| MovesEarlyAt(b, adopts, r, i);
    var j :| i < j < |b.packages| && !InPlace(b, r, j);
    var m := ReachesPackage(b, adopts, r, i);
    var s := After(b, adopts, State(r, Start), m);
    assert Same(RELEASE_ENTRY_PACKAGE, r, s.registry) && Same(b.packages[j].name, r, s.registry);
    SameEntry(b, adopts, r, s.registry, i);
    var more := EntryMoves(b, adopts, s, i);
    n := m + more;
    AfterAfter(b, adopts, State(r, Start), m, more);
    var t := After(b, adopts, State(r, Start), n).registry;
    assert Same(b.packages[j].name, s.registry, t);
    assert !InPlace(b, s.registry, j) && !InPlace(b, t, j);
  }

  lemma SameEntry(b: Bundle, adopts: bool, r: Registry, r': Registry, i: nat)
    requires i < |b.packages| && b.packages[i].name == RELEASE_ENTRY_PACKAGE && Same(RELEASE_ENTRY_PACKAGE, r, r')
    requires Unopposed(b, r, i + 1) && EntryMovesLatest(b, adopts, r)
    ensures r'.Integrity(RELEASE_ENTRY_PACKAGE, b.version) in {None, Some(b.packages[i].integrity)}
    ensures EntryMovesLatest(b, adopts, r')
  {
    assert r.Integrity(RELEASE_ENTRY_PACKAGE, b.version) == r'.Integrity(RELEASE_ENTRY_PACKAGE, b.version);
    assert r.DistTag(RELEASE_ENTRY_PACKAGE, LATEST_DIST_TAG) == r'.DistTag(RELEASE_ENTRY_PACKAGE, LATEST_DIST_TAG);
  }

  /** An undisturbed run keeps `latest` safe throughout exactly when the registry it finds is guarded. */
  lemma GuardedIff(b: Bundle, adopts: bool, r: Registry)
    requires b.Valid()
    ensures (forall n :: SafeAt(b, adopts, r, n)) <==> Guarded(b, adopts, r)
  {
    hide Step, MovesEarly;
    if Guarded(b, adopts, r) {
      forall n: nat ensures SafeAt(b, adopts, r, n) {
        RunGuards(b, adopts, r, n);
      }
    } else if LatestMoved(b, r) && !AllInPlace(b, r) {
      assert !SafeAt(b, adopts, r, 0);
    } else {
      var n := EarlyIsUnsafe(b, adopts, r);
    }
  }

  // ----- which bundles are safe on every established registry -----

  /** The entry's `latest` is not on the bundle too early, and on a registry that adopts tags it is on something. */
  ghost predicate Established(b: Bundle, adopts: bool, r: Registry) {
    && (LatestMoved(b, r) ==> AllInPlace(b, r))
    && (adopts ==> r.DistTag(RELEASE_ENTRY_PACKAGE, LATEST_DIST_TAG).Some?)
  }

  /** A registry that knows nothing but an older release of the entry package. */
  ghost function Older(version: string): Registry {
    var other := version + "-older";
    Registry(map[(RELEASE_ENTRY_PACKAGE, other) := "sha512-"], map[(RELEASE_ENTRY_PACKAGE, LATEST_DIST_TAG) := other])
  }

  lemma OlderLacks(b: Bundle, adopts: bool)
    ensures forall name :: (name, b.version) !in Older(b.version).versions
    ensures Established(b, adopts, Older(b.version))
  {
    assert |b.version + "-older"| > |b.version|;
  }

  /**
   The order of the loop protects `latest` on every established registry exactly for the bundles whose own dist-tag is
   another tag, or whose last package is the entry package, or which leave it out.
   */
  lemma GuardsIff(b: Bundle, adopts: bool)
    requires b.Valid()
    ensures (forall r :: Established(b, adopts, r) ==> Guarded(b, adopts, r)) <==> MovesLatestLast(b)
  {
    if MovesLatestLast(b) {
      forall r | Established(b, adopts, r) ensures Guarded(b, adopts, r) {
        forall i ensures !MovesEarlyAt(b, adopts, r, i) {
          assert MovesEarlyAt(b, adopts, r, i) ==> b.distTag == LATEST_DIST_TAG;
        }
      }
    } else {
      var i :| 0 <= i < |b.packages| - 1 && b.packages[i].name == RELEASE_ENTRY_PACKAGE;
      var r := Older(b.version);
      OlderLacks(b, adopts);
      assert !InPlace(b, r, |b.packages| - 1);
      assert MovesEarlyAt(b, adopts, r, i);
    }
  }

  /** A first publication to a registry that adopts tags: safe exactly when no package follows the entry package. */
  lemma FirstPublicationIff(b: Bundle)
    requires b.Valid()
    ensures Guarded(b, true, Registry(map[], map[]))
        <==> forall i :: 0 <= i < |b.packages| - 1 ==> b.packages[i].name != RELEASE_ENTRY_PACKAGE
  {
    var r := Registry(map[], map[]);
    assert forall j :: 0 <= j < |b.packages| ==> !InPlace(b, r, j);
    forall i | 0 <= i < |b.packages| - 1 && b.packages[i].name == RELEASE_ENTRY_PACKAGE
      ensures MovesEarlyAt(b, true, r, i)
    {
      assert !InPlace(b, r, |b.packages| - 1);
    }
  }

  // ----- what a run leaves alone -----

  /** A tag that publishing the bundle may move. */
  ghost predicate IsOwnTag(b: Bundle, adopts: bool, name: string, tag: string) {
    || (Lists(b, name) && (tag == b.distTag || (adopts && tag == LATEST_DIST_TAG)))
    || (name == RELEASE_ENTRY_PACKAGE && tag == LATEST_DIST_TAG)
  }

  /** Other tags stay as they are, and only the bundle's versions are added, with its integrities. */
  ghost predicate LeavesAlone(b: Bundle, adopts: bool, r: Registry, r': Registry) {
    && (forall name, tag :: !IsOwnTag(b, adopts, name, tag) ==> r'.DistTag(name, tag) == r.DistTag(name, tag))
    && (forall name, version :: r'.Integrity(name, version) != r.Integrity(name, version) ==>
          r.Integrity(name, version) == None && version == b.version
          && PackedPackage(name, r'.Integrity(name, version).value) in b.packages)
  }

  lemma StepLeavesAlone(b: Bundle, adopts: bool, s: State)
    requires b.Valid() && InBundle(b, s.phase)
    ensures LeavesAlone(b, adopts, s.registry, Step(b, adopts, s).registry)
  {
  }

  lemma LeavesAloneOn(b: Bundle, adopts: bool, r: Registry, r': Registry, r'': Registry)
    requires LeavesAlone(b, adopts, r, r') && LeavesAlone(b, adopts, r', r'')
    ensures LeavesAlone(b, adopts, r, r'')
  {
    hide IsOwnTag;
  }

  lemma {:induction false} RunLeavesAlone(b: Bundle, adopts: bool, s: State, n: nat)
    requires b.Valid() && InBundle(b, s.phase)
    ensures LeavesAlone(b, adopts, s.registry, After(b, adopts, s, n).registry)
  {
    hide Step, LeavesAlone;
    if n == 0 {
      NothingDone(b, adopts, s);
      LeavesItself(b, adopts, s.registry);
    } else {
      RunLeavesAlone(b, adopts, s, n - 1);
      StepLeavesAlone(b, adopts, After(b, adopts, s, n - 1));
      OneMore(b, adopts, s, n - 1);
      LeavesAloneOn(b, adopts, s.registry, After(b, adopts, s, n - 1).registry, After(b, adopts, s, n).registry);
    }
  }

  lemma LeavesItself(b: Bundle, adopts: bool, r: Registry)
    ensures LeavesAlone(b, adopts, r, r)
  {
  }

  // ----- the code -----

  /** A phase that lists the tags of package `i` or of the entry package, for `ensureDistTag` on this name and tag. */
  ghost predicate IsListing(b: Bundle, listing: Phase, name: string, tag: string) {
    (listing == ListLatest && name == RELEASE_ENTRY_PACKAGE && tag == LATEST_DIST_TAG)
    || (listing.ListTags? && listing.i < |b.packages| && name == b.packages[listing.i].name && tag == b.distTag)
  }

  ghost function Adding(listing: Phase): Phase {
    if listing.ListTags? then AddTag(listing.i) else AddLatest
  }

  ghost function AfterTag(b: Bundle, listing: Phase): Phase {
    if listing.ListTags? then AfterPackage(b, listing.i) else VerifyPackage(0)
  }

  lemma ListStep(b: Bundle, adopts: bool, r: Registry, listing: Phase, name: string, tag: string)
    requires b.Valid() && IsListing(b, listing, name, tag)
    ensures InBundle(b, listing) && InBundle(b, Adding(listing))
    ensures Step(b, adopts, State(r, listing))
         == State(r, if !r.Knows(name) then Ended(Rejected(name))
                     else if r.DistTag(name, tag) == Some(b.version) then AfterTag(b, listing) else Adding(listing))
    ensures Step(b, adopts, State(r, Adding(listing)))
         == if r.Integrity(name, b.version).None? then State(r, Ended(Rejected(name)))
            else State(r.Tagged(name, tag, b.version), AfterTag(b, listing))
  {
  }

  lemma ViewStep(b: Bundle, adopts: bool, r: Registry, i: nat)
    requires b.Valid() && i < |b.packages|
    ensures var p := b.packages[i];
            var stored := r.Integrity(p.name, b.version);
            && Step(b, adopts, State(r, ViewPackage(i)))
               == State(r, if stored == None then Upload(i)
                           else if stored.value != p.integrity then Ended(Conflict(p.name)) else ListTags(i))
            && (stored == None ==>
                  Step(b, adopts, State(r, Upload(i)))
                  == State(r.Published(p.name, b.version, p.integrity, b.distTag, adopts), ListTags(i)))
  {
  }

  lemma VerifyStep(b: Bundle, adopts: bool, r: Registry, i: nat)
    requires b.Valid() && i < |b.packages|
    ensures var p := b.packages[i];
            && Step(b, adopts, State(r, VerifyPackage(i)))
               == State(r, if r.Integrity(p.name, b.version) == Some(p.integrity)
                           then VerifyTag(i) else Ended(Unverified(p.name)))
            && Step(b, adopts, State(r, VerifyTag(i)))
               == State(r, if r.Knows(p.name) && r.DistTag(p.name, b.distTag) == Some(b.version)
                           then AfterVerified(b, i) else Ended(Unverified(p.name)))
  {
  }

  lemma VerifyLatestStep(b: Bundle, adopts: bool, r: Registry)
    ensures Step(b, adopts, State(r, VerifyLatest))
         == State(r, if r.Knows(RELEASE_ENTRY_PACKAGE) && LatestMoved(b, r)
                     then Ended(Verified) else Ended(Unverified(RELEASE_ENTRY_PACKAGE)))
  {
  }

  lemma NothingDone(b: Bundle, adopts: bool, s: State)
    requires b.Valid() && InBundle(b, s.phase)
    ensures After(b, adopts, s, 0) == s
  {
  }

  lemma OneMore(b: Bundle, adopts: bool, s: State, n: nat)
    requires b.Valid() && InBundle(b, s.phase)
    ensures After(b, adopts, s, n + 1) == Step(b, adopts, After(b, adopts, s, n))
  {
  }

  /** The npm client's commands on the remote registry. */
  class Remote {
    const adopts: bool
    var registry: Registry

    constructor (registry: Registry, adopts: bool)
      ensures this.registry == registry && this.adopts == adopts
    {
      this.registry := registry;
      this.adopts := adopts;
    }

    method View(name: string, version: string) returns (integrity: Option<string>)
      ensures integrity == registry.Integrity(name, version)
    {
      integrity := registry.Integrity(name, version);
    }

    /** Fails, and changes nothing, when the version is already stored. */
    method Upload(name: string, version: string, integrity: string, tag: string) returns (ok: bool)
      modifies this
      ensures ok <==> old(registry).Integrity(name, version) == None
      ensures registry == if ok then old(registry).Published(name, version, integrity, tag, adopts) else old(registry)
    {
      ok := registry.Integrity(name, version) == None;
      if ok {
        registry := registry.Published(name, version, integrity, tag, adopts);
      }
    }

    /** Fails for an unknown package; otherwise gives the version a tag points at. */
    method ListTag(name: string, tag: string) returns (ok: bool, version: Option<string>)
      ensures ok <==> exists version :: (name, version) in registry.versions
      ensures ok ==> version == registry.DistTag(name, tag)
    {
      ok, version := registry.Knows(name), registry.DistTag(name, tag);
      assert registry.Knows(name) <==> exists k: string :: (name, k) in registry.versions by {
        assert forall k :: k in registry.versions ==> k == (k.0, k.1);
      }
    }

    /** Fails, and changes nothing, when the version is not stored. */
    method AddTag(name: string, tag: string, version: string) returns (ok: bool)
      modifies this
      ensures ok <==> old(registry).Integrity(name, version).Some?
      ensures registry == if ok then old(registry).Tagged(name, tag, version) else old(registry)
    {
      ok := registry.Integrity(name, version).Some?;
      if ok {
        registry := registry.Tagged(name, tag, version);
      }
    }
  }

  /** Publishes one bundle to the registry it was packed for. */
  class RegistryPublication {
    const bundle: Bundle
    const remote: Remote

    constructor (bundle: Bundle, remote: Remote)
      ensures this.bundle == bundle && this.remote == remote
    {
      this.bundle := bundle;
      this.remote := remote;
    }

    /** The run that began at `s` has come to this registry and this phase. */
    ghost predicate Reached(s: State, n: nat, phase: Phase)
      reads remote
    {
      bundle.Valid() && InBundle(bundle, s.phase) &&
      After(bundle, remote.adopts, s, n) == State(remote.registry, phase)
    }

    /** `ensureDistTag` on a package's tag of the bundle, or on the entry package's `latest`. */
    method EnsureDistTag(name: string, tag: string, ghost s: State, ghost before: nat, ghost listing: Phase)
      returns (ok: bool, ghost n: nat)
      requires Reached(s, before, listing) && IsListing(bundle, listing, name, tag)
      modifies remote
      ensures Reached(s, n, if ok then AfterTag(bundle, listing) else Ended(Rejected(name)))
      ensures remote.registry == old(remote.registry)
          || (ok && remote.registry == old(remote.registry).Tagged(name, tag, bundle.version))
      ensures ok ==> remote.registry.DistTag(name, tag) == Some(bundle.version)
    {
      hide Step, After, IsListing, AfterTag, Adding;
      ghost var adopts := remote.adopts;
      ListStep(bundle, adopts, remote.registry, listing, name, tag);
      OneMore(bundle, adopts, s, before);
      var listed, current := remote.ListTag(name, tag);
      n := before + 1;
      if !listed {
        return false, n;
      }
      if current == Some(bundle.version) {
        return true, n;
      }
      OneMore(bundle, adopts, s, n);
      ok := remote.AddTag(name, tag, bundle.version);
      n := n + 1;
    }

    /**
     `publish`: verified exactly when the registry, as whatever an earlier run left it, is compatible with the
     bundle; and then everything is in place.
     */
    method Publish() returns (outcome: Outcome)
      requires bundle.Valid()
      modifies remote
      ensures Sound(old(remote.registry)) ==>
                && (outcome == Verified <==> Compatible(bundle, old(remote.registry)))
                && (outcome == Verified ==> AllInPlace(bundle, remote.registry) && LatestMoved(bundle, remote.registry))
      ensures LeavesAlone(bundle, remote.adopts, old(remote.registry), remote.registry)
    {
      ghost var n;
      ghost var r := remote.registry;
      outcome, n := PublishSteps();
      RunLeavesAlone(bundle, remote.adopts, State(r, Start), n);
      if Sound(r) {
        OutcomeIff(bundle, remote.adopts, r, n);
      }
    }

    /** The body of `publish`: ends as an undisturbed run of single commands from the registry as it was found. */
    method PublishSteps() returns (outcome: Outcome, ghost n: nat)
      requires bundle.Valid()
      modifies remote
      ensures After(bundle, remote.adopts, State(old(remote.registry), Start), n)
           == State(remote.registry, Ended(outcome))
    {
      hide Step, After;
      ghost var s, adopts := State(remote.registry, Start), remote.adopts;
      n := 0;
      NothingDone(bundle, adopts, s);
      for i := 0 to |bundle.packages|
        invariant Reached(s, n, if i < |bundle.packages| then ViewPackage(i) else ListLatest)
      {
        var pkg := bundle.packages[i];
        ViewStep(bundle, adopts, remote.registry, i);
        OneMore(bundle, adopts, s, n);
        OneMore(bundle, adopts, s, n + 1);
        var existing := remote.View(pkg.name, bundle.version);
        n := n + 1;
        if existing == None {
          n := n + 1;
          var uploaded := remote.Upload(pkg.name, bundle.version, pkg.integrity, bundle.distTag);
          assert uploaded;
        } else if existing.value != pkg.integrity {
          return Conflict(pkg.name), n;
        }
        var tagged;
        tagged, n := EnsureDistTag(pkg.name, bundle.distTag, s, n, ListTags(i));
        if !tagged {
          return Rejected(pkg.name), n;
        }
      }
      var moved;
      moved, n := EnsureDistTag(RELEASE_ENTRY_PACKAGE, LATEST_DIST_TAG, s, n, ListLatest);
      if !moved {
        return Rejected(RELEASE_ENTRY_PACKAGE), n;
      }
      outcome, n := VerifyRemote(s, n);
    }

    /** `verifyRemote`, then `verifyReleaseEntryDistTag`. */
    method VerifyRemote(ghost s: State, ghost before: nat) returns (outcome: Outcome, ghost n: nat)
      requires Reached(s, before, VerifyPackage(0))
      ensures Reached(s, n, Ended(outcome))
      ensures outcome == Verified <==>
                && AllInPlace(bundle, remote.registry)
                && remote.registry.Knows(RELEASE_ENTRY_PACKAGE) && LatestMoved(bundle, remote.registry)
    {
      hide Step, After;
      ghost var adopts := remote.adopts;
      n := before;
      for i := 0 to |bundle.packages|
        invariant Reached(s, n, if i < |bundle.packages| then VerifyPackage(i) else VerifyLatest)
        invariant Prefix(bundle, remote.registry, i)
      {
        var pkg := bundle.packages[i];
        VerifyStep(bundle, adopts, remote.registry, i);
        OneMore(bundle, adopts, s, n);
        OneMore(bundle, adopts, s, n + 1);
        var integrity := remote.View(pkg.name, bundle.version);
        n := n + 1;
        if integrity != Some(pkg.integrity) {
          assert !InPlace(bundle, remote.registry, i);
          return Unverified(pkg.name), n;
        }
        var listed, tag := remote.ListTag(pkg.name, bundle.distTag);
        n := n + 1;
        if !listed || tag != Some(bundle.version) {
          assert !InPlace(bundle, remote.registry, i);
          return Unverified(pkg.name), n;
        }
      }
      VerifyLatestStep(bundle, adopts, remote.registry);
      OneMore(bundle, adopts, s, n);
      var listed, latest := remote.ListTag(RELEASE_ENTRY_PACKAGE, LATEST_DIST_TAG);
      n := n + 1;
      outcome := if listed && latest == Some(bundle.version) then Verified else Unverified(RELEASE_ENTRY_PACKAGE);
    }
  }
}
