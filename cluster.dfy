/**
 * The orchestrator as the launcher and the reaper see it: jobs and pods with
 * names and labels, label selectors, and one namespace of the cluster whose
 * create, list and delete calls change its job and pod collections.
 */
module Cluster {
  import opened Wrappers

  type Labels = map<string, string>

  /** The label every launched job carries and the reaper lists by. */
  const OwnerLabel := "cronetes"
  const OwnerValue := "true"

  /**
   * A job's pod selector as stored on the job. Only its match-labels part is
   * modelled; a selector whose requirements cannot be converted is `Unconvertible`.
   */
  datatype LabelSelector = MatchLabels(matchLabels: Labels) | Unconvertible

  /** A converted selector: the labels (and values) an object must carry. */
  datatype Selector = Requires(required: Labels)

  datatype Job = Job(name: string, labels: Labels, creationTimestamp: int, selector: LabelSelector)

  datatype Pod = Pod(name: string, labels: Labels)

  /** The value of one namespace: its jobs and its pods, in listing order. */
  datatype Store = Store(jobs: seq<Job>, pods: seq<Pod>)

  function JobName(j: Job): string { j.name }

  function PodName(p: Pod): string { p.name }

  /** Converting a job's selector into one that can be used to list pods. */
  function AsSelector(ls: LabelSelector): (r: Option<Selector>)
    ensures r.None? <==> ls.Unconvertible?
    ensures r.Some? ==> r.value.required == ls.matchLabels
  {
    match ls
    case MatchLabels(m) => Some(Requires(m))
    case Unconvertible => None
  }

  /** Every required label is present with the required value. */
  predicate Matches(sel: Selector, labels: Labels) {
    forall k :: k in sel.required ==> k in labels && labels[k] == sel.required[k]
  }

  function OwnerSelector(): Selector {
    Requires(map[OwnerLabel := OwnerValue])
  }

  /** A job that carries the owner label; only these are listed by the reaper. */
  predicate Owned(j: Job)
    ensures Owned(j) <==> OwnerLabel in j.labels && j.labels[OwnerLabel] == OwnerValue
  {
    Matches(OwnerSelector(), j.labels)
  }

  /** The jobs a label-selector listing returns, in store order. */
  function JobsMatching(jobs: seq<Job>, sel: Selector): (r: seq<Job>)
    ensures forall j :: j in r <==> j in jobs && Matches(sel, j.labels)
    ensures |r| <= |jobs|
  {
    if jobs == [] then []
    else (if Matches(sel, jobs[0].labels) then [jobs[0]] else []) + JobsMatching(jobs[1..], sel)
  }

  /** The pods a label-selector listing returns, in store order. */
  function PodsMatching(pods: seq<Pod>, sel: Selector): (r: seq<Pod>)
    ensures forall p :: p in r <==> p in pods && Matches(sel, p.labels)
    ensures |r| <= |pods|
  {
    if pods == [] then []
    else (if Matches(sel, pods[0].labels) then [pods[0]] else []) + PodsMatching(pods[1..], sel)
  }

  /** The objects of `s` whose name is not in `names`, in their original order. */
  function Without<T(!new)>(s: seq<T>, nameOf: T -> string, names: set<string>): (r: seq<T>)
    ensures forall x :: x in r <==> x in s && nameOf(x) !in names
    ensures |r| <= |s|
  {
    if s == [] then []
    else (if nameOf(s[0]) in names then [] else [s[0]]) + Without(s[1..], nameOf, names)
  }

  lemma {:induction false} WithoutNothing<T(!new)>(s: seq<T>, nameOf: T -> string)
    ensures Without(s, nameOf, {}) == s
  {
    if s != [] {
      WithoutNothing(s[1..], nameOf);
      assert [s[0]] + s[1..] == s;
    }
  }

  /** Removing two sets of names one after the other removes their union. */
  lemma {:induction false} WithoutWithout<T(!new)>(s: seq<T>, nameOf: T -> string, a: set<string>, b: set<string>)
    ensures Without(Without(s, nameOf, a), nameOf, b) == Without(s, nameOf, a + b)
  {
    if s != [] {
      var w1 := Without(s[1..], nameOf, a);
      WithoutWithout(s[1..], nameOf, a, b);
      if nameOf(s[0]) in a {
        assert Without(s, nameOf, a) == w1;
      } else {
        var w := Without(s, nameOf, a);
        assert w == [s[0]] + w1;
        assert w[0] == s[0] && w[1..] == w1;
        assert Without(w, nameOf, b) == (if nameOf(s[0]) in b then [] else [s[0]]) + Without(w1, nameOf, b);
      }
    }
  }

  /** No two objects share a name, as the orchestrator guarantees within one namespace. */
  ghost predicate UniqueNames<T>(s: seq<T>, nameOf: T -> string) {
    forall i, j :: 0 <= i < j < |s| ==> nameOf(s[i]) != nameOf(s[j])
  }

  lemma {:induction false} WithoutKeepsUnique<T(!new)>(s: seq<T>, nameOf: T -> string, names: set<string>)
    requires UniqueNames(s, nameOf)
    ensures UniqueNames(Without(s, nameOf, names), nameOf)
  {
    if s != [] {
      WithoutKeepsUnique(s[1..], nameOf, names);
      var rest := Without(s[1..], nameOf, names);
      forall x | x in rest ensures nameOf(x) != nameOf(s[0]) {
        var k :| 1 <= k < |s| && s[k] == x;
      }
    }
  }

  /** With unique names, two objects of `s` that share a name are the same object. */
  lemma SameNameSameObject<T>(s: seq<T>, nameOf: T -> string, x: T, y: T)
    requires UniqueNames(s, nameOf) && x in s && y in s && nameOf(x) == nameOf(y)
    ensures x == y
  {
    var i :| 0 <= i < |s| && s[i] == x;
    var j :| 0 <= j < |s| && s[j] == y;
  }

  /** A listing of a namespace with unique names has unique names. */
  lemma {:induction false} JobsMatchingUnique(jobs: seq<Job>, sel: Selector)
    requires UniqueNames(jobs, JobName)
    ensures UniqueNames(JobsMatching(jobs, sel), JobName)
  {
    if jobs != [] {
      JobsMatchingUnique(jobs[1..], sel);
      var rest := JobsMatching(jobs[1..], sel);
      forall x | x in rest ensures x.name != jobs[0].name {
        var k :| 1 <= k < |jobs| && jobs[k] == x;
      }
    }
  }

  /**
   * One namespace of the cluster, reached through the client the process was
   * configured with. Failures of the remote calls are decided by the caller
   * (`rejected`, `fails`) rather than by a real server.
   */
  class Namespace {
    var jobs: seq<Job>
    var pods: seq<Pod>

    ghost predicate Valid()
      reads this
    {
      UniqueNames(jobs, JobName) && UniqueNames(pods, PodName)
    }

    function State(): Store
      reads this
    {
      Store(jobs, pods)
    }

    /** A namespace as the server holds it: names are unique among its jobs and among its pods. */
    constructor (jobs: seq<Job>, pods: seq<Pod>)
      requires UniqueNames(jobs, JobName) && UniqueNames(pods, PodName)
      ensures State() == Store(jobs, pods) && Valid()
    {
      this.jobs := jobs;
      this.pods := pods;
    }

    predicate HasJob(name: string)
      reads this
    {
      exists j :: j in jobs && j.name == name
    }

    method ListJobs(sel: Selector) returns (r: seq<Job>)
      ensures r == JobsMatching(jobs, sel)
      ensures forall j :: j in r ==> j in jobs && Matches(sel, j.labels)
    {
      r := JobsMatching(jobs, sel);
    }

    method ListPods(sel: Selector) returns (r: seq<Pod>)
      ensures r == PodsMatching(pods, sel)
      ensures forall p :: p in r ==> p in pods && Matches(sel, p.labels)
    {
      r := PodsMatching(pods, sel);
    }

    /**
     * Submits a job. The server refuses a name already in use and stamps the
     * stored job with the time of creation.
     */
    method CreateJob(job: Job, now: int, rejected: bool) returns (ok: bool)
      modifies this
      ensures ok <==> !rejected && !old(HasJob(job.name))
      ensures jobs == if ok then old(jobs) + [job.(creationTimestamp := now)] else old(jobs)
      ensures pods == old(pods)
      ensures old(Valid()) ==> Valid()
    {
      ok := !rejected && !HasJob(job.name);
      if ok {
        ghost var before := jobs;
        jobs := jobs + [job.(creationTimestamp := now)];
        forall i | 0 <= i < |before| ensures before[i].name != job.name {
          assert before[i] in before;
        }
      }
    }

    method DeleteJob(name: string, fails: bool) returns (ok: bool)
      modifies this
      ensures ok == !fails
      ensures jobs == if ok then Without(old(jobs), JobName, {name}) else old(jobs)
      ensures pods == old(pods)
      ensures old(Valid()) ==> Valid()
    {
      ok := !fails;
      if ok {
        if Valid() { WithoutKeepsUnique(jobs, JobName, {name}); }
        jobs := Without(jobs, JobName, {name});
      }
    }

    method DeletePod(name: string, fails: bool) returns (ok: bool)
      modifies this
      ensures ok == !fails
      ensures pods == if ok then Without(old(pods), PodName, {name}) else old(pods)
      ensures jobs == old(jobs)
      ensures old(Valid()) ==> Valid()
    {
      ok := !fails;
      if ok {
        if Valid() { WithoutKeepsUnique(pods, PodName, {name}); }
        pods := Without(pods, PodName, {name});
      }
    }
  }
}
