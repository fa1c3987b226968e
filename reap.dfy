/**
 * The reap half of the system: list the jobs carrying the owner label, and
 * delete, in listing order, every one created no later than `now - age`,
 * first deleting the pods its selector picks out when cascading is on. The
 * pass stops at the first failure.
 */
module Reaper {
  import opened Wrappers
  import opened Cluster

  datatype ReapOptions = ReapOptions(deleteDependents: bool, age: int)

  /**
   * Which remote calls fail: the job listing, the pod listing for the jobs
   * named in `listPods`, and the deletion of the pods and jobs named.
   */
  datatype Faults = Faults(listJobs: bool, listPods: set<string>, deletePods: set<string>, deleteJobs: set<string>)

  function NoFaults(): Faults {
    Faults(false, {}, {}, {})
  }

  /** How a pass ended; every failure names the job being reaped when it happened. */
  datatype Status =
    | Done
    | ListJobsFailed
    | SelectorFailed(job: string)
    | PodListFailed(job: string)
    | PodDeleteFailed(job: string, pod: string)
    | JobDeleteFailed(job: string)

  /** The process exit code of a pass. */
  function ExitCode(s: Status): (code: int)
    ensures code == 0 <==> s.Done?
    ensures code == 1 <==> s.ListJobsFailed?
    ensures code != 0 && code != 1 ==> code == 3
  {
    match s
    case Done => 0
    case ListJobsFailed => 1
    case _ => 3
  }

  /** The state after one step of the pass, and whether the pass goes on (`Done`). */
  datatype Step = Step(store: Store, status: Status)

  /** The end of a pass: the namespace, the status, and the jobs deleted, in order. */
  datatype Outcome = Outcome(store: Store, status: Status, reaped: seq<Job>)

  /** The jobs of a listing that are old enough: created not after the cutoff. */
  function Eligible(listed: seq<Job>, cutoff: int): (r: seq<Job>)
    ensures forall j :: j in r <==> j in listed && j.creationTimestamp <= cutoff
  {
    if listed == [] then []
    else (if listed[0].creationTimestamp > cutoff then [] else [listed[0]]) + Eligible(listed[1..], cutoff)
  }

  lemma {:induction false} EligibleUnique(listed: seq<Job>, cutoff: int)
    requires UniqueNames(listed, JobName)
    ensures UniqueNames(Eligible(listed, cutoff), JobName)
  {
    if listed != [] {
      EligibleUnique(listed[1..], cutoff);
      var rest := Eligible(listed[1..], cutoff);
      forall x | x in rest ensures x.name != listed[0].name {
        var k :| 1 <= k < |listed| && listed[k] == x;
      }
    }
  }

  /** A job owned by this system and old enough to be reaped. */
  predicate Expired(j: Job, cutoff: int) {
    Owned(j) && j.creationTimestamp <= cutoff
  }

  /** The jobs a pass may reap, in listing order: owned, and created not after the cutoff. */
  function ExpiredJobs(jobs: seq<Job>, cutoff: int): (r: seq<Job>)
    ensures forall j :: j in r <==> j in jobs && Expired(j, cutoff)
  {
    Eligible(JobsMatching(jobs, OwnerSelector()), cutoff)
  }

  lemma ExpiredJobsUnique(jobs: seq<Job>, cutoff: int)
    requires UniqueNames(jobs, JobName)
    ensures UniqueNames(ExpiredJobs(jobs, cutoff), JobName)
  {
    JobsMatchingUnique(jobs, OwnerSelector());
    EligibleUnique(JobsMatching(jobs, OwnerSelector()), cutoff);
  }

  /** Pod `p` is one of the dependents of job `j`: `j`'s selector converts and picks `p` out. */
  predicate DependsOn(p: Pod, j: Job) {
    match AsSelector(j.selector)
    case Some(sel) => Matches(sel, p.labels)
    case None => false
  }

  ghost function JobNames(jobs: seq<Job>): set<string> {
    set j | j in jobs :: j.name
  }

  ghost function PodNames(pods: seq<Pod>): set<string> {
    set p | p in pods :: p.name
  }

  /** The names of the pods of `pods` that depend on some job of `jobs`. */
  ghost function DependentNames(pods: seq<Pod>, jobs: seq<Job>): set<string> {
    set p, j | p in pods && j in jobs && DependsOn(p, j) :: p.name
  }

  /** Deletes the listed pods one at a time, stopping at the first refusal. */
  function DeletePods(st: Store, job: string, victims: seq<Pod>, f: Faults): (r: Step)
    ensures r.store.jobs == st.jobs
    ensures r.status.Done? || (r.status.PodDeleteFailed? && r.status.job == job && r.status.pod in f.deletePods)
    ensures forall p :: p in r.store.pods ==> p in st.pods
    ensures |r.store.pods| <= |st.pods|
    decreases |victims|
  {
    if victims == [] then Step(st, Done)
    else if victims[0].name in f.deletePods then Step(st, PodDeleteFailed(job, victims[0].name))
    else DeletePods(st.(pods := Without(st.pods, PodName, {victims[0].name})), job, victims[1..], f)
  }

  function DeleteJob(st: Store, j: Job, f: Faults): (r: Step)
    ensures r.status.Done? <==> j.name !in f.deleteJobs
    ensures !r.status.Done? ==> r.store == st && r.status == JobDeleteFailed(j.name)
    ensures r.store.pods == st.pods
    ensures forall k :: k in r.store.jobs ==> k in st.jobs
    ensures r.status.Done? ==> forall k :: k in r.store.jobs ==> k.name != j.name
    ensures r.status.Done? ==> forall k :: k in st.jobs && k.name != j.name ==> k in r.store.jobs
  {
    if j.name in f.deleteJobs then Step(st, JobDeleteFailed(j.name))
    else Step(st.(jobs := Without(st.jobs, JobName, {j.name})), Done)
  }

  /**
   * Reaps one eligible job: with cascading, converts its selector, lists the
   * pods it selects and deletes them; then deletes the job. A failed pod
   * listing aborts the pass.
   */
  function ReapJob(st: Store, j: Job, cascade: bool, f: Faults): (r: Step)
    ensures !r.status.Done? ==> r.store.jobs == st.jobs && !r.status.ListJobsFailed? && r.status.job == j.name
    ensures !cascade ==> r.store.pods == st.pods
    ensures cascade && j.selector.Unconvertible? ==> r == Step(st, SelectorFailed(j.name))
  {
    if !cascade then DeleteJob(st, j, f)
    else match AsSelector(j.selector)
      case None => Step(st, SelectorFailed(j.name))
      case Some(sel) =>
        if j.name in f.listPods then Step(st, PodListFailed(j.name))
        else
          var s := DeletePods(st, j.name, PodsMatching(st.pods, sel), f);
          if s.status.Done? then DeleteJob(s.store, j, f) else s
  }

  /**
   * `ReapJob` as reap.go writes it: the error of the pod listing is not looked
   * at, and the pass goes on with the empty list that the failed call leaves.
   */
  function ReapJobAsWritten(st: Store, j: Job, cascade: bool, f: Faults): (r: Step)
    ensures !r.status.PodListFailed?
    ensures j.name !in f.listPods ==> r == ReapJob(st, j, cascade, f)
  {
    if !cascade then DeleteJob(st, j, f)
    else match AsSelector(j.selector)
      case None => Step(st, SelectorFailed(j.name))
      case Some(sel) =>
        var victims := if j.name in f.listPods then [] else PodsMatching(st.pods, sel);
        var s := DeletePods(st, j.name, victims, f);
        if s.status.Done? then DeleteJob(s.store, j, f) else s
  }

  /** The loop over the listed jobs: young jobs are skipped, the first failure ends the pass. */
  function ReapLoop(st: Store, listed: seq<Job>, cutoff: int, cascade: bool, f: Faults): (r: Outcome)
    ensures !r.status.ListJobsFailed?
    ensures forall j :: j in r.reaped ==> j in listed && j.creationTimestamp <= cutoff
    decreases |listed|
  {
    if listed == [] then Outcome(st, Done, [])
    else if listed[0].creationTimestamp > cutoff then ReapLoop(st, listed[1..], cutoff, cascade, f)
    else
      var s := ReapJob(st, listed[0], cascade, f);
      if !s.status.Done? then Outcome(s.store, s.status, [])
      else
        var rest := ReapLoop(s.store, listed[1..], cutoff, cascade, f);
        rest.(reaped := [listed[0]] + rest.reaped)
  }

  /** One turn of the loop: how `ReapLoop` continues from the first listed job. */
  lemma ReapLoopHead(st: Store, listed: seq<Job>, cutoff: int, cascade: bool, f: Faults)
    requires listed != []
    ensures var r, s := ReapLoop(st, listed, cutoff, cascade, f), ReapJob(st, listed[0], cascade, f);
      if listed[0].creationTimestamp > cutoff then r == ReapLoop(st, listed[1..], cutoff, cascade, f)
      else if !s.status.Done? then r.store == s.store && r.status == s.status
      else
        var rest := ReapLoop(s.store, listed[1..], cutoff, cascade, f);
        r.store == rest.store && r.status == rest.status
  {
  }

  /** A whole pass over the namespace `st` at time `now`. */
  function Reap(st: Store, opts: ReapOptions, now: int, f: Faults): (r: Outcome)
    ensures r.status.ListJobsFailed? <==> f.listJobs
    ensures f.listJobs ==> r.store == st && r.reaped == []
    ensures forall j :: j in r.reaped ==> j in st.jobs && Expired(j, now - opts.age)
  {
    if f.listJobs then Outcome(st, ListJobsFailed, [])
    else ReapLoop(st, JobsMatching(st.jobs, OwnerSelector()), now - opts.age, opts.deleteDependents, f)
  }

  // Properties of one step

  lemma {:induction false} DeletePodsEffect(st: Store, job: string, victims: seq<Pod>, f: Faults)
    ensures var r := DeletePods(st, job, victims, f);
      && r.store.jobs == st.jobs
      && (forall p :: p in r.store.pods ==> p in st.pods)
      && (forall p :: p in st.pods && p.name !in PodNames(victims) ==> p in r.store.pods)
      && (r.status.Done? ==> r.store.pods == Without(st.pods, PodName, PodNames(victims)))
      && (!r.status.Done? ==> r.status.PodDeleteFailed? && r.status.job == job)
      && (!r.status.Done? ==> exists k :: RefusedAt(st, victims, f, k, r))
    decreases |victims|
  {
    if victims == [] {
      assert PodNames(victims) == {};
      WithoutNothing(st.pods, PodName);
    } else if victims[0].name in f.deletePods {
      DeletePodsRefusal(st, job, victims, f);
    } else {
      var v := victims[0].name;
      var st1 := st.(pods := Without(st.pods, PodName, {v}));
      DeletePodsEffect(st1, job, victims[1..], f);
      assert PodNames(victims) == {v} + PodNames(victims[1..]) by {
        assert victims == [victims[0]] + victims[1..];
      }
      WithoutWithout(st.pods, PodName, {v}, PodNames(victims[1..]));
      DeletePodsRefusal(st, job, victims, f);
    }
  }

  /** A deletion that fails stops at the first refused pod. */
  lemma {:induction false} DeletePodsRefusal(st: Store, job: string, victims: seq<Pod>, f: Faults)
    ensures var r := DeletePods(st, job, victims, f);
      !r.status.Done? ==> exists k :: RefusedAt(st, victims, f, k, r)
    decreases |victims|
  {
    var r := DeletePods(st, job, victims, f);
    if victims != [] && !r.status.Done? {
      if victims[0].name in f.deletePods {
        assert PodNames(victims[..0]) == {};
        WithoutNothing(st.pods, PodName);
        assert RefusedAt(st, victims, f, 0, r);
      } else {
        var v := victims[0].name;
        var st1 := st.(pods := Without(st.pods, PodName, {v}));
        DeletePodsRefusal(st1, job, victims[1..], f);
        var k :| RefusedAt(st1, victims[1..], f, k, r);
        RefusedAtCons(st, victims, f, k, r);
      }
    }
  }

  /** A refusal among the pods after the first, once the first is deleted, is one among all of them. */
  lemma RefusedAtCons(st: Store, victims: seq<Pod>, f: Faults, k: int, r: Step)
    requires victims != [] && victims[0].name !in f.deletePods
    requires RefusedAt(st.(pods := Without(st.pods, PodName, {victims[0].name})), victims[1..], f, k, r)
    ensures RefusedAt(st, victims, f, k + 1, r)
  {
    var v, tail := victims[0].name, victims[1..];
    assert victims[..k + 1] == [victims[0]] + tail[..k];
    assert PodNames(victims[..k + 1]) == {v} + PodNames(tail[..k]);
    WithoutWithout(st.pods, PodName, {v}, PodNames(tail[..k]));
    assert victims[k + 1] == tail[k];
  }

  /**
   * A deletion of `victims` that stopped at the `k`-th one: that pod was the
   * first refused, the ones before it are gone and every other pod is kept.
   */
  ghost predicate RefusedAt(st: Store, victims: seq<Pod>, f: Faults, k: int, r: Step) {
    && 0 <= k < |victims|
    && r.status.PodDeleteFailed?
    && victims[k].name == r.status.pod
    && victims[k].name in f.deletePods
    && (forall i :: 0 <= i < k ==> victims[i].name !in f.deletePods)
    && r.store.pods == Without(st.pods, PodName, PodNames(victims[..k]))
  }

  /** The pods a converted job selector lists are exactly that job's dependents. */
  lemma ListedPodsAreDependents(pods: seq<Pod>, j: Job, sel: Selector)
    requires AsSelector(j.selector) == Some(sel)
    ensures PodNames(PodsMatching(pods, sel)) == DependentNames(pods, [j])
  {
    var listed := PodsMatching(pods, sel);
    forall n | n in DependentNames(pods, [j]) ensures n in PodNames(listed) {
      var p, e :| p in pods && e in [j] && DependsOn(p, e) && p.name == n;
      assert p in listed;
    }
    forall n | n in PodNames(listed) ensures n in DependentNames(pods, [j]) {
      var p :| p in listed && p.name == n;
      assert DependsOn(p, j);
    }
  }

  /**
   * Reaping one job removes that job only when every step succeeded; with
   * cascading its dependents go first, and a failure leaves the job in place.
   */
  lemma ReapJobEffect(st: Store, j: Job, cascade: bool, f: Faults)
    ensures var r := ReapJob(st, j, cascade, f);
      && (r.status.Done? ==> r.store.jobs == Without(st.jobs, JobName, {j.name}))
      && (!r.status.Done? ==> r.store.jobs == st.jobs && !r.status.ListJobsFailed? && r.status.job == j.name)
      && (!cascade ==> r.store.pods == st.pods)
      && (forall p :: p in r.store.pods ==> p in st.pods)
      && (forall p :: p in st.pods && p.name !in DependentNames(st.pods, [j]) ==> p in r.store.pods)
      && (cascade && r.status.Done? ==> r.store.pods == Without(st.pods, PodName, DependentNames(st.pods, [j])))
  {
    if cascade && AsSelector(j.selector).Some? && j.name !in f.listPods {
      var sel := AsSelector(j.selector).value;
      DeletePodsEffect(st, j.name, PodsMatching(st.pods, sel), f);
      ListedPodsAreDependents(st.pods, j, sel);
    }
  }

  /** Without its pod-listing check, a failed listing lets the job go while its pods stay. */
  lemma PodListFailureOrphansPodsAsWritten()
    ensures var dependent := Pod("backup-x1", map["job-name" := "backup"]);
      var job := Job("backup", map[OwnerLabel := OwnerValue], 0, MatchLabels(map["job-name" := "backup"]));
      var r := ReapJobAsWritten(Store([job], [dependent]), job, true, Faults(false, {"backup"}, {}, {}));
      && DependsOn(dependent, job)
      && r.status.Done?
      && job !in r.store.jobs
      && dependent in r.store.pods
  {
    var dependent := Pod("backup-x1", map["job-name" := "backup"]);
    var job := Job("backup", map[OwnerLabel := OwnerValue], 0, MatchLabels(map["job-name" := "backup"]));
    assert Matches(Requires(map["job-name" := "backup"]), dependent.labels);
  }

  /**
   * With the listing checked, a cascading reap that succeeds leaves no pod of
   * the job behind, and a failed listing keeps both the job and its pods.
   */
  lemma ReapJobLeavesNoDependents(st: Store, j: Job, f: Faults)
    ensures var r := ReapJob(st, j, true, f);
      && (r.status.Done? ==> forall p :: p in r.store.pods ==> !DependsOn(p, j))
      && (r.status.Done? ==> forall k :: k in r.store.jobs ==> k.name != j.name)
      && (AsSelector(j.selector).Some? && j.name in f.listPods ==> r == Step(st, PodListFailed(j.name)))
  {
    ReapJobEffect(st, j, true, f);
    var r := ReapJob(st, j, true, f);
    if r.status.Done? {
      forall p | p in r.store.pods ensures !DependsOn(p, j) {
        assert p.name !in DependentNames(st.pods, [j]);
      }
    }
  }

  // Properties of the loop

  lemma {:induction false} ReapLoopOrder(st: Store, listed: seq<Job>, cutoff: int, cascade: bool, f: Faults)
    ensures var r, e := ReapLoop(st, listed, cutoff, cascade, f), Eligible(listed, cutoff);
      && r.reaped <= e
      && (r.status.Done? ==> r.reaped == e)
      && (!r.status.Done? ==> |r.reaped| < |e| && !r.status.ListJobsFailed? && r.status.job == e[|r.reaped|].name)
    decreases |listed|
  {
    if listed != [] {
      var h := listed[0];
      var r, e := ReapLoop(st, listed, cutoff, cascade, f), Eligible(listed, cutoff);
      var e' := Eligible(listed[1..], cutoff);
      if h.creationTimestamp > cutoff {
        assert e == e';
        ReapLoopOrder(st, listed[1..], cutoff, cascade, f);
      } else {
        assert e == [h] + e';
        var s := ReapJob(st, h, cascade, f);
        ReapJobEffect(st, h, cascade, f);
        if s.status.Done? {
          var rest := ReapLoop(s.store, listed[1..], cutoff, cascade, f);
          ReapLoopOrder(s.store, listed[1..], cutoff, cascade, f);
          assert r.reaped == [h] + rest.reaped;
          assert r.status == rest.status;
          if !r.status.Done? {
            assert e[|r.reaped|] == e'[|rest.reaped|];
          }
        } else {
          assert r.reaped == [];
        }
      }
    }
  }

  lemma {:induction false} ReapLoopJobs(st: Store, listed: seq<Job>, cutoff: int, cascade: bool, f: Faults)
    ensures var r := ReapLoop(st, listed, cutoff, cascade, f);
      r.store.jobs == Without(st.jobs, JobName, JobNames(r.reaped))
    decreases |listed|
  {
    var r := ReapLoop(st, listed, cutoff, cascade, f);
    if listed == [] {
      assert JobNames(r.reaped) == {};
      WithoutNothing(st.jobs, JobName);
    } else {
      var h := listed[0];
      if h.creationTimestamp > cutoff {
        ReapLoopJobs(st, listed[1..], cutoff, cascade, f);
      } else {
        var s := ReapJob(st, h, cascade, f);
        ReapJobEffect(st, h, cascade, f);
        if s.status.Done? {
          var rest := ReapLoop(s.store, listed[1..], cutoff, cascade, f);
          ReapLoopJobs(s.store, listed[1..], cutoff, cascade, f);
          WithoutWithout(st.jobs, JobName, {h.name}, JobNames(rest.reaped));
          assert JobNames(r.reaped) == {h.name} + JobNames(rest.reaped) by {
            assert r.reaped == [h] + rest.reaped;
          }
        } else {
          assert JobNames(r.reaped) == {};
          WithoutNothing(st.jobs, JobName);
        }
      }
    }
  }

  /** Dependents of a list of jobs: those of its first job and those of the rest. */
  lemma DependentNamesCons(pods: seq<Pod>, h: Job, rest: seq<Job>)
    ensures DependentNames(pods, [h] + rest) == DependentNames(pods, [h]) + DependentNames(pods, rest)
  {
  }

  /** Fewer pods and fewer jobs have fewer dependents. */
  lemma DependentNamesMonotone(pods: seq<Pod>, pods': seq<Pod>, jobs: seq<Job>, jobs': seq<Job>)
    requires forall p :: p in pods' ==> p in pods
    requires forall j :: j in jobs' ==> j in jobs
    ensures DependentNames(pods', jobs') <= DependentNames(pods, jobs)
  {
  }

  /**
   * Deleting the dependents of one job and then those of the others, listed
   * afresh, deletes the dependents of all of them as listed at the start.
   */
  lemma DependentsInTwoRounds(pods: seq<Pod>, h: Job, rest: seq<Job>)
    ensures var a := DependentNames(pods, [h]);
      Without(Without(pods, PodName, a), PodName, DependentNames(Without(pods, PodName, a), rest))
        == Without(pods, PodName, DependentNames(pods, [h] + rest))
  {
    var a := DependentNames(pods, [h]);
    var left := Without(pods, PodName, a);
    var b := DependentNames(left, rest);
    var later := DependentNames(pods, rest);
    assert a + b == DependentNames(pods, [h] + rest) by {
      DependentNamesCons(pods, h, rest);
      DependentNamesMonotone(pods, left, rest, rest);
      forall n | n in later ensures n in a + b {
        var p, e :| p in pods && e in rest && DependsOn(p, e) && p.name == n;
        if n !in a {
          assert p in left;
        }
      }
    }
    WithoutWithout(pods, PodName, a, b);
  }

  lemma {:induction false} ReapLoopPods(st: Store, listed: seq<Job>, cutoff: int, cascade: bool, f: Faults)
    ensures var r, e := ReapLoop(st, listed, cutoff, cascade, f), Eligible(listed, cutoff);
      && (!cascade ==> r.store.pods == st.pods)
      && (forall p :: p in r.store.pods ==> p in st.pods)
      && (forall p :: p in st.pods && p.name !in DependentNames(st.pods, e) ==> p in r.store.pods)
      && (cascade && r.status.Done? ==> r.store.pods == Without(st.pods, PodName, DependentNames(st.pods, e)))
    decreases |listed|
  {
    var r, e := ReapLoop(st, listed, cutoff, cascade, f), Eligible(listed, cutoff);
    if listed == [] {
      assert DependentNames(st.pods, e) == {};
      WithoutNothing(st.pods, PodName);
    } else {
      var h := listed[0];
      if h.creationTimestamp > cutoff {
        assert e == Eligible(listed[1..], cutoff);
        ReapLoopPods(st, listed[1..], cutoff, cascade, f);
      } else {
        var e' := Eligible(listed[1..], cutoff);
        assert e == [h] + e';
        DependentNamesCons(st.pods, h, e');
        var s := ReapJob(st, h, cascade, f);
        ReapJobEffect(st, h, cascade, f);
        if s.status.Done? {
          ReapLoopPods(s.store, listed[1..], cutoff, cascade, f);
          DependentNamesMonotone(st.pods, s.store.pods, e', e');
          if cascade {
            DependentsInTwoRounds(st.pods, h, e');
          }
        }
      }
    }
  }

  /**
   * A loop that fails keeps every pod that depends on none of the jobs up to
   * and including the failing one.
   */
  lemma {:induction false} ReapLoopFailureKeepsPods(st: Store, listed: seq<Job>, cutoff: int, cascade: bool, f: Faults)
    ensures var r, e := ReapLoop(st, listed, cutoff, cascade, f), Eligible(listed, cutoff);
      !r.status.Done? ==>
        && |r.reaped| < |e|
        && KeptUnlessDependent(st.pods, r.store.pods, e[..|r.reaped| + 1])
    decreases |listed|
  {
    var r, e := ReapLoop(st, listed, cutoff, cascade, f), Eligible(listed, cutoff);
    ReapLoopOrder(st, listed, cutoff, cascade, f);
    if listed != [] && !r.status.Done? {
      var h := listed[0];
      var e' := Eligible(listed[1..], cutoff);
      if h.creationTimestamp > cutoff {
        assert e == e';
        ReapLoopFailureKeepsPods(st, listed[1..], cutoff, cascade, f);
      } else {
        assert e == [h] + e';
        var s := ReapJob(st, h, cascade, f);
        ReapJobKeepsPods(st, h, cascade, f);
        if s.status.Done? {
          var rest := ReapLoop(s.store, listed[1..], cutoff, cascade, f);
          ReapLoopFailureKeepsPods(s.store, listed[1..], cutoff, cascade, f);
          assert r.reaped == [h] + rest.reaped && r.store == rest.store;
          var upto := e'[..|rest.reaped| + 1];
          assert e[..|r.reaped| + 1] == [h] + upto;
          KeptInTwoRounds(st.pods, s.store.pods, r.store.pods, h, upto);
        } else {
          assert r.reaped == [] && r.store == s.store;
          assert e[..1] == [h];
        }
      }
    }
  }

  /** Reaping one job keeps every pod that does not depend on it and adds none. */
  lemma ReapJobKeepsPods(st: Store, j: Job, cascade: bool, f: Faults)
    ensures var r := ReapJob(st, j, cascade, f);
      && (forall p :: p in r.store.pods ==> p in st.pods)
      && KeptUnlessDependent(st.pods, r.store.pods, [j])
  {
    ReapJobEffect(st, j, cascade, f);
  }

  /** Every pod of `before` whose name is not that of a dependent of `jobs` is still in `after`. */
  ghost predicate KeptUnlessDependent(before: seq<Pod>, after: seq<Pod>, jobs: seq<Job>) {
    forall p :: p in before && p.name !in DependentNames(before, jobs) ==> p in after
  }

  /**
   * A pod that survives reaping `h` unless it depends on `h`, and then the
   * rest unless it depends on one of `rest`, survives unless it depends on one
   * of `[h] + rest`.
   */
  lemma KeptInTwoRounds(pods: seq<Pod>, mid: seq<Pod>, last: seq<Pod>, h: Job, rest: seq<Job>)
    requires forall p :: p in mid ==> p in pods
    requires KeptUnlessDependent(pods, mid, [h])
    requires KeptUnlessDependent(mid, last, rest)
    ensures KeptUnlessDependent(pods, last, [h] + rest)
  {
    DependentNamesCons(pods, h, rest);
    DependentNamesMonotone(pods, mid, rest, rest);
  }

  // Properties of a whole pass

  /** Exit code 1 comes from a failed listing and from nothing else, and then nothing was deleted. */
  lemma ReapExitCodes(st: Store, opts: ReapOptions, now: int, f: Faults)
    ensures var r := Reap(st, opts, now, f);
      && (ExitCode(r.status) == 1 <==> f.listJobs)
      && (f.listJobs ==> r.store == st && r.reaped == [])
  {
    if !f.listJobs {
      ReapLoopOrder(st, JobsMatching(st.jobs, OwnerSelector()), now - opts.age, opts.deleteDependents, f);
    }
  }

  /** A pass removes exactly the names of the jobs it reaped, a prefix of the expired jobs. */
  lemma ReapRemovesReaped(st: Store, opts: ReapOptions, now: int, f: Faults)
    ensures var r := Reap(st, opts, now, f);
      && r.store.jobs == Without(st.jobs, JobName, JobNames(r.reaped))
      && r.reaped <= ExpiredJobs(st.jobs, now - opts.age)
      && (r.status.Done? ==> r.reaped == ExpiredJobs(st.jobs, now - opts.age))
      && (ExitCode(r.status) == 3 ==>
            var e := ExpiredJobs(st.jobs, now - opts.age);
            |r.reaped| < |e| && r.status.job == e[|r.reaped|].name)
  {
    var r := Reap(st, opts, now, f);
    if f.listJobs {
      assert JobNames(r.reaped) == {};
      WithoutNothing(st.jobs, JobName);
    } else {
      var listed, cutoff := JobsMatching(st.jobs, OwnerSelector()), now - opts.age;
      assert r == ReapLoop(st, listed, cutoff, opts.deleteDependents, f);
      assert ExpiredJobs(st.jobs, cutoff) == Eligible(listed, cutoff);
      ReapLoopOrder(st, listed, cutoff, opts.deleteDependents, f);
      ReapLoopJobs(st, listed, cutoff, opts.deleteDependents, f);
    }
  }

  /** No pass removes a job that is foreign to this system or too young, nor adds one. */
  lemma ReapSparesUnexpired(st: Store, opts: ReapOptions, now: int, f: Faults)
    requires UniqueNames(st.jobs, JobName)
    ensures var r, cutoff := Reap(st, opts, now, f), now - opts.age;
      && (forall j :: j in r.store.jobs ==> j in st.jobs)
      && (forall j :: j in st.jobs && !Expired(j, cutoff) ==> j in r.store.jobs)
  {
    var r, cutoff := Reap(st, opts, now, f), now - opts.age;
    ReapRemovesReaped(st, opts, now, f);
    var gone := JobNames(r.reaped);
    forall j | j in st.jobs && !Expired(j, cutoff) ensures j in r.store.jobs {
      if j.name in gone {
        var x :| x in r.reaped && x.name == j.name;
        assert x in ExpiredJobs(st.jobs, cutoff);
        SameNameSameObject(st.jobs, JobName, x, j);
      }
    }
  }

  /** A pass that completes removes exactly the expired jobs. */
  lemma ReapDoneRemovesExpired(st: Store, opts: ReapOptions, now: int, f: Faults)
    requires UniqueNames(st.jobs, JobName)
    ensures var r, cutoff := Reap(st, opts, now, f), now - opts.age;
      r.status.Done? ==> forall j :: j in st.jobs ==> (j in r.store.jobs <==> !Expired(j, cutoff))
  {
    var r, cutoff := Reap(st, opts, now, f), now - opts.age;
    ReapSparesUnexpired(st, opts, now, f);
    ReapRemovesReaped(st, opts, now, f);
    if r.status.Done? {
      forall j | j in st.jobs && Expired(j, cutoff) ensures j !in r.store.jobs {
        assert j in r.reaped;
        assert j.name in JobNames(r.reaped);
      }
    }
  }

  /**
   * After a pass that fails with exit code 3 the jobs it reaped are gone, and
   * the failing job and every expired job listed after it are still there.
   */
  lemma ReapFailFast(st: Store, opts: ReapOptions, now: int, f: Faults)
    requires UniqueNames(st.jobs, JobName)
    ensures var r, e := Reap(st, opts, now, f), ExpiredJobs(st.jobs, now - opts.age);
      ExitCode(r.status) == 3 ==>
        && (forall j :: j in r.reaped ==> j !in r.store.jobs)
        && (forall k :: |r.reaped| <= k < |e| ==> e[k] in r.store.jobs)
        && |r.reaped| < |e|
        && (forall p :: p in st.pods && p.name !in DependentNames(st.pods, e[..|r.reaped| + 1]) ==> p in r.store.pods)
  {
    var r, e := Reap(st, opts, now, f), ExpiredJobs(st.jobs, now - opts.age);
    ExpiredJobsUnique(st.jobs, now - opts.age);
    assert UniqueNames(e, JobName);
    ReapRemovesReaped(st, opts, now, f);
    ReapFailureKeepsPods(st, opts, now, f);
    if ExitCode(r.status) == 3 {
      var gone := JobNames(r.reaped);
      forall j | j in r.reaped ensures j !in r.store.jobs {
        assert j.name in gone;
      }
      forall k | |r.reaped| <= k < |e| ensures e[k] in r.store.jobs {
        assert e[k] in st.jobs;
        LaterNotReaped(e, r.reaped, k);
      }
    }
  }

  /** `ReapLoopFailureKeepsPods` for a whole pass that fails with exit code 3. */
  lemma ReapFailureKeepsPods(st: Store, opts: ReapOptions, now: int, f: Faults)
    ensures var r, e := Reap(st, opts, now, f), ExpiredJobs(st.jobs, now - opts.age);
      ExitCode(r.status) == 3 ==>
        && |r.reaped| < |e|
        && forall p :: p in st.pods && p.name !in DependentNames(st.pods, e[..|r.reaped| + 1]) ==> p in r.store.pods
  {
    if !f.listJobs {
      var listed, cutoff := JobsMatching(st.jobs, OwnerSelector()), now - opts.age;
      assert Reap(st, opts, now, f) == ReapLoop(st, listed, cutoff, opts.deleteDependents, f);
      assert ExpiredJobs(st.jobs, cutoff) == Eligible(listed, cutoff);
      ReapLoopFailureKeepsPods(st, listed, cutoff, opts.deleteDependents, f);
    }
  }

  /** In a listing with unique names, no job after a prefix shares a name with the prefix. */
  lemma LaterNotReaped(e: seq<Job>, reaped: seq<Job>, k: int)
    requires UniqueNames(e, JobName) && reaped <= e && |reaped| <= k < |e|
    ensures e[k].name !in JobNames(reaped)
  {
    forall i | 0 <= i < |reaped| ensures reaped[i].name != e[k].name {
      assert reaped[i] == e[i] && JobName(e[i]) != JobName(e[k]);
    }
  }

  /**
   * Which pods a pass removes: none without cascading; otherwise only pods
   * that depend on an expired job, and on success all of them.
   */
  lemma ReapPods(st: Store, opts: ReapOptions, now: int, f: Faults)
    ensures var r := Reap(st, opts, now, f);
      var e := ExpiredJobs(st.jobs, now - opts.age);
      && (!opts.deleteDependents ==> r.store.pods == st.pods)
      && (forall p :: p in r.store.pods ==> p in st.pods)
      && (forall p :: p in st.pods && p.name !in DependentNames(st.pods, e) ==> p in r.store.pods)
      && (opts.deleteDependents && r.status.Done? ==>
            r.store.pods == Without(st.pods, PodName, DependentNames(st.pods, e)))
      && (opts.deleteDependents && r.status.Done? ==>
            forall p, j :: p in r.store.pods && j in e ==> !DependsOn(p, j))
  {
    var r := Reap(st, opts, now, f);
    var e := ExpiredJobs(st.jobs, now - opts.age);
    if !f.listJobs {
      ReapLoopPods(st, JobsMatching(st.jobs, OwnerSelector()), now - opts.age, opts.deleteDependents, f);
      if opts.deleteDependents && r.status.Done? {
        forall p, j | p in r.store.pods && j in e ensures !DependsOn(p, j) {
          assert p.name !in DependentNames(st.pods, e);
        }
      }
    }
  }

  lemma {:induction false} DeletePodsWithoutFaults(st: Store, job: string, victims: seq<Pod>)
    ensures DeletePods(st, job, victims, NoFaults()).status.Done?
    decreases |victims|
  {
    if victims != [] {
      DeletePodsWithoutFaults(st.(pods := Without(st.pods, PodName, {victims[0].name})), job, victims[1..]);
    }
  }

  lemma {:induction false} ReapLoopWithoutFaults(st: Store, listed: seq<Job>, cutoff: int, cascade: bool)
    requires cascade ==> forall j :: j in listed && j.creationTimestamp <= cutoff ==> j.selector.MatchLabels?
    ensures ReapLoop(st, listed, cutoff, cascade, NoFaults()).status.Done?
    decreases |listed|
  {
    if listed != [] {
      var h := listed[0];
      if h.creationTimestamp > cutoff {
        ReapLoopWithoutFaults(st, listed[1..], cutoff, cascade);
      } else {
        if cascade {
          DeletePodsWithoutFaults(st, h.name, PodsMatching(st.pods, AsSelector(h.selector).value));
        }
        assert ReapJob(st, h, cascade, NoFaults()).status.Done?;
        ReapLoopWithoutFaults(ReapJob(st, h, cascade, NoFaults()).store, listed[1..], cutoff, cascade);
      }
    }
  }

  /** When no remote call fails and every selector converts, a pass always completes. */
  lemma ReapWithoutFaults(st: Store, opts: ReapOptions, now: int)
    requires opts.deleteDependents ==>
      forall j :: j in st.jobs && Expired(j, now - opts.age) ==> j.selector.MatchLabels?
    ensures Reap(st, opts, now, NoFaults()).status.Done?
  {
    ReapLoopWithoutFaults(st, JobsMatching(st.jobs, OwnerSelector()), now - opts.age, opts.deleteDependents);
  }

  /** The inner loop of reap.go: deletes the listed dependents of `job` one by one. */
  method DeleteDependents(ns: Namespace, job: string, pods: seq<Pod>, f: Faults) returns (status: Status)
    modifies ns
    ensures ns.State() == DeletePods(old(ns.State()), job, pods, f).store
    ensures status == DeletePods(old(ns.State()), job, pods, f).status
    ensures old(ns.Valid()) ==> ns.Valid()
  {
    for k := 0 to |pods|
      invariant DeletePods(old(ns.State()), job, pods, f) == DeletePods(ns.State(), job, pods[k..], f)
      invariant old(ns.Valid()) ==> ns.Valid()
    {
      assert pods[k..][0] == pods[k] && pods[k..][1..] == pods[k + 1..];
      var ok := ns.DeletePod(pods[k].name, pods[k].name in f.deletePods);
      if !ok {
        return PodDeleteFailed(job, pods[k].name);
      }
    }
    assert pods[|pods|..] == [];
    return Done;
  }

  /** The body of the loop of reap.go for one eligible job. */
  method ReapOne(ns: Namespace, job: Job, cascade: bool, f: Faults) returns (status: Status)
    modifies ns
    ensures ns.State() == ReapJob(old(ns.State()), job, cascade, f).store
    ensures status == ReapJob(old(ns.State()), job, cascade, f).status
    ensures old(ns.Valid()) ==> ns.Valid()
  {
    if cascade {
      var sel := AsSelector(job.selector);
      if sel.None? {
        return SelectorFailed(job.name);
      }
      var pods := ns.ListPods(sel.value);
      if job.name in f.listPods {
        return PodListFailed(job.name);
      }
      status := DeleteDependents(ns, job.name, pods, f);
      if !status.Done? {
        return;
      }
    }
    var ok := ns.DeleteJob(job.name, job.name in f.deleteJobs);
    if !ok {
      return JobDeleteFailed(job.name);
    }
    return Done;
  }

  /**
   * The reap command against the namespace `ns`, once its client exists: the
   * listing, the cutoff, and the fail-fast delete loop.
   */
  method ReapAction(ns: Namespace, opts: ReapOptions, now: int, f: Faults) returns (status: Status)
    modifies ns
    ensures ns.State() == Reap(old(ns.State()), opts, now, f).store
    ensures status == Reap(old(ns.State()), opts, now, f).status
    ensures old(ns.Valid()) ==> ns.Valid()
  {
    var jobs := ns.ListJobs(OwnerSelector());
    if f.listJobs {
      return ListJobsFailed;
    }
    var cutoff := now - opts.age;
    ghost var total := ReapLoop(ns.State(), jobs, cutoff, opts.deleteDependents, f);
    assert total == Reap(old(ns.State()), opts, now, f);
    for i := 0 to |jobs|
      invariant total.store == ReapLoop(ns.State(), jobs[i..], cutoff, opts.deleteDependents, f).store
      invariant total.status == ReapLoop(ns.State(), jobs[i..], cutoff, opts.deleteDependents, f).status
      invariant old(ns.Valid()) ==> ns.Valid()
    {
      var job := jobs[i];
      ghost var here := ns.State();
      ReapLoopHead(here, jobs[i..], cutoff, opts.deleteDependents, f);
      assert jobs[i..][0] == job && jobs[i..][1..] == jobs[i + 1..];
      if job.creationTimestamp > cutoff {
        continue;
      }
      status := ReapOne(ns, job, opts.deleteDependents, f);
      if !status.Done? {
        assert ns.State() == total.store && status == total.status;
        return;
      }
    }
    assert jobs[|jobs|..] == [];
    assert ns.State() == total.store && total.status == Done;
    return Done;
  }
}
