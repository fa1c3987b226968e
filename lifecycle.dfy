/**
 * How the two commands meet: a job the launcher created is listed by the
 * reaper and lives until it is older than the reaper's age.
 */
module Lifecycle {
  import opened Hex
  import opened Cluster
  import opened Cron
  import opened Reaper

  /**
   * A job launched at time `created` and reaped at time `now` by a pass in
   * which no call fails: the pass completes, and the job is still there
   * exactly when it was created after `now - age`.
   */
  lemma LaunchedJobLifetime(st: Store, template: Job, randomSlug: bool, random: seq<byte>, created: int,
                            opts: ReapOptions, now: int)
    requires |random| == SlugBytes
    requires UniqueNames(st.jobs + [Launched(template, randomSlug, random).(creationTimestamp := created)], JobName)
    requires opts.deleteDependents ==>
      template.selector.MatchLabels? && forall j :: j in st.jobs ==> j.selector.MatchLabels?
    ensures var job := Launched(template, randomSlug, random).(creationTimestamp := created);
      var r := Reap(Store(st.jobs + [job], st.pods), opts, now, NoFaults());
      && r.status.Done?
      && (job in r.store.jobs <==> created > now - opts.age)
  {
    var job := Launched(template, randomSlug, random).(creationTimestamp := created);
    var launched := Store(st.jobs + [job], st.pods);
    assert job in launched.jobs;
    ReapWithoutFaults(launched, opts, now);
    ReapDoneRemovesExpired(launched, opts, now, NoFaults());
  }
}
