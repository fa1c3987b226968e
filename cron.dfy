/**
 * The launch half of the system: on each firing of a schedule, the job
 * template of that schedule is copied, optionally renamed with a random
 * slug, tagged with the owner label and submitted to the namespace.
 */
module Cron {
  import opened Wrappers
  import opened Hex
  import opened Cluster

  /** One configured schedule and the job it launches. */
  datatype CronItem = CronItem(schedule: string, job: Job)

  datatype CronOptions = CronOptions(randomSlug: bool)

  /** How one firing ended. Both failures end only that firing. */
  datatype Firing = CloneFailed | CreateFailed(name: string) | Created(name: string)

  /** The deep copy of a template; `fails` stands for the cloner rejecting the value. */
  function DeepCopy(template: Job, fails: bool): (r: Option<Job>)
    ensures r.None? <==> fails
    ensures r.Some? ==> r.value == template
  {
    if fails then None else Some(template)
  }

  /**
   * The job a firing submits: a copy of the template, renamed with the slug of
   * `random` when random slugs are on, whose labels are the template's with
   * the owner label set to "true".
   */
  function Launched(template: Job, randomSlug: bool, random: seq<byte>): (j: Job)
    requires |random| == SlugBytes
    ensures !randomSlug ==> j.name == template.name
    ensures randomSlug ==> j.name == template.name + "-" + Slug(random)
    ensures randomSlug ==>
      && |j.name| == |template.name| + 13
      && j.name[..|template.name|] == template.name
      && j.name[|template.name|] == '-'
      && forall i :: |template.name| < i < |j.name| ==> IsHexDigit(j.name[i])
    ensures Owned(j)
    ensures j.labels.Keys == template.labels.Keys + {OwnerLabel}
    ensures forall k :: k in template.labels && k != OwnerLabel ==> j.labels[k] == template.labels[k]
    ensures j.creationTimestamp == template.creationTimestamp && j.selector == template.selector
  {
    var named := if randomSlug then template.(name := template.name + "-" + Slug(random)) else template;
    named.(labels := named.labels[OwnerLabel := OwnerValue])
  }

  /**
   * Two firings of the same schedule give jobs that agree on everything but
   * the name; with random slugs on, the names agree exactly when the random
   * bytes do, and with them off the random bytes play no part.
   */
  lemma FiringsDifferOnlyInName(template: Job, randomSlug: bool, r1: seq<byte>, r2: seq<byte>)
    requires |r1| == SlugBytes && |r2| == SlugBytes
    ensures var j1, j2 := Launched(template, randomSlug, r1), Launched(template, randomSlug, r2);
      && j1.labels == j2.labels
      && j1.creationTimestamp == j2.creationTimestamp
      && j1.selector == j2.selector
      && (randomSlug ==> (j1.name == j2.name <==> r1 == r2))
      && (!randomSlug ==> j1 == j2)
  {
    if randomSlug {
      var n := |template.name| + 1;
      var j1, j2 := Launched(template, true, r1), Launched(template, true, r2);
      assert j1.name[n..] == Slug(r1);
      assert j2.name[n..] == Slug(r2);
      SlugInjective(r1, r2);
    }
  }

  /**
   * One firing of `item`: clone, rename, label, create. A failed clone makes no
   * create call; a refused create leaves the namespace as it was.
   */
  method Fire(ns: Namespace, item: CronItem, opts: CronOptions, random: seq<byte>, now: int,
              cloneFails: bool, createRejected: bool)
    returns (r: Firing)
    requires |random| == SlugBytes
    modifies ns
    ensures var job := Launched(item.job, opts.randomSlug, random);
      && (cloneFails ==> r == CloneFailed)
      && (!cloneFails ==> r == if createRejected || old(ns.HasJob(job.name)) then CreateFailed(job.name) else Created(job.name))
      && ns.jobs == if r.Created? then old(ns.jobs) + [job.(creationTimestamp := now)] else old(ns.jobs)
    ensures ns.pods == old(ns.pods)
    ensures old(ns.Valid()) ==> ns.Valid()
  {
    var cc := DeepCopy(item.job, cloneFails);
    if cc.None? {
      return CloneFailed;
    }
    var copy := cc.value;
    if opts.randomSlug {
      copy := copy.(name := copy.name + "-" + Slug(random));
    }
    var labels := copy.labels;
    labels := labels[OwnerLabel := OwnerValue];
    copy := copy.(labels := labels);
    var ok := ns.CreateJob(copy, now, createRejected);
    if !ok {
      return CreateFailed(copy.name);
    }
    return Created(copy.name);
  }
}
