/** CollectWorkflowJobs of pkg/garbagecollector/garbagecollector.go: one sweep over
    the jobs whose workflow may be gone. */
module GarbageCollector {
  import opened Prelude
  import opened JobLabels

  datatype Job = Job(id: string, namespace: string, labels: map<string, string>)

  /** A workflow, by namespace and name. */
  type Key = (string, string)

  /** The reply to a Get. */
  datatype Lookup = Found | NotFound | Failure

  /** The key of the collected map: path.Join of two clean path elements. */
  function Join(key: Key): string {
    key.0 + "/" + key.1
  }

  lemma JoinInjective(a: Key, b: Key)
    requires '/' !in a.0 && '/' !in b.0 && Join(a) == Join(b)
    ensures a == b
  {
    var x := Join(a);
    assert x[|a.0|] == '/' && x[|b.0|] == '/';
    assert forall i :: 0 <= i < |a.0| ==> x[i] == a.0[i] && x[i] in a.0;
    assert forall i :: 0 <= i < |b.0| ==> x[i] == b.0[i] && x[i] in b.0;
    assert |a.0| == |b.0|;
    assert a.0 == x[..|a.0|] && b.0 == x[..|b.0|];
    assert a.1 == x[|a.0| + 1..] && b.1 == x[|b.0| + 1..];
  }

  predicate HasWorkflowName(job: Job) {
    WORKFLOW_LABEL_KEY in job.labels && job.labels[WORKFLOW_LABEL_KEY] != ""
  }

  predicate IsOf(job: Job, key: Key) {
    job.namespace == key.0 && WORKFLOW_LABEL_KEY in job.labels && job.labels[WORKFLOW_LABEL_KEY] == key.1
  }

  function KeyOf(job: Job): Key
    requires HasWorkflowName(job)
  {
    (job.namespace, job.labels[WORKFLOW_LABEL_KEY])
  }

  /** What the sweep is answered: by the workflow cache, by the API, and to the
      deletion of a job collection asked for at each listed job. */
  datatype Replies = Replies(cache: Key -> Lookup, api: Key -> Lookup, refused: nat -> bool)

  /** A workflow found neither in the cache nor through the API. */
  predicate Missing(r: Replies, key: Key) {
    r.cache(key) == NotFound && r.api(key) == NotFound
  }

  predicate AsksFor(listing: seq<Job>, r: Replies, key: Key, i: nat)
    requires i < |listing|
  {
    HasWorkflowName(listing[i]) && KeyOf(listing[i]) == key && Missing(r, key)
  }

  /** The jobs of the workflow are deleted: asked for at some job, and not refused. */
  predicate Collected(listing: seq<Job>, r: Replies, key: Key) {
    exists i :: 0 <= i < |listing| && AsksFor(listing, r, key, i) && !r.refused(i)
  }

  /** Job i adds an error: it has no workflow name, a lookup failed, or a deletion
      not already made for its workflow was refused. */
  predicate Errs(listing: seq<Job>, r: Replies, i: nat)
    requires i < |listing|
  {
    if !HasWorkflowName(listing[i]) then true
    else
      var key := KeyOf(listing[i]);
      || r.cache(key) == Failure
      || (r.cache(key) == NotFound && r.api(key) == Failure)
      || (Missing(r, key) && r.refused(i) && !Collected(listing[..i], r, key))
  }

  class Cluster {
    var jobs: set<Job>

    /** DeleteCollection with the label selector of one workflow. */
    method DeleteCollection(key: Key, refused: bool) returns (failed: bool)
      modifies this
      ensures failed == refused
      ensures jobs == if refused then old(jobs) else set j | j in old(jobs) && !IsOf(j, key)
    {
      if !refused {
        jobs := set j | j in jobs && !IsOf(j, key);
      }
      failed := refused;
    }
  }

  /** The workflow that the labels of the job name, if they name one. */
  function Named(job: Job): Option<Key> {
    if WORKFLOW_LABEL_KEY in job.labels && |job.labels[WORKFLOW_LABEL_KEY]| > 0
    then Some((job.namespace, job.labels[WORKFLOW_LABEL_KEY])) else None
  }

  lemma NamedIs(job: Job, key: Key)
    ensures Named(job).Some? <==> HasWorkflowName(job)
    ensures HasWorkflowName(job) ==> Named(job) == Some(KeyOf(job))
    ensures key.1 != "" ==> (IsOf(job, key) <==> Named(job) == Some(key))
  {
  }

  /** A workflow's jobs are deleted if and only if cache and API both say that it is not
      there, and the deletion asked for at one of its listed jobs is not refused. */
  lemma CollectedIff(listing: seq<Job>, r: Replies, key: Key)
    ensures Collected(listing, r, key) <==>
      && r.cache(key) == NotFound && r.api(key) == NotFound
      && exists i :: 0 <= i < |listing| && Named(listing[i]) == Some(key) && !r.refused(i)
  {
    forall i | 0 <= i < |listing|
      ensures AsksFor(listing, r, key, i)
              <==> Named(listing[i]) == Some(key) && r.cache(key) == NotFound && r.api(key) == NotFound
    {
      NamedIs(listing[i], key);
    }
  }

  /** The sweep reports an error if and only if some listed job names no workflow, or a
      lookup for its workflow failed (of the API only if the cache does not have it), or
      the workflow is not there and the deletion was refused at this job and at all
      before it. */
  lemma SomeErrsIff(listing: seq<Job>, r: Replies)
    ensures SomeErrs(listing, r, |listing|) <==>
      exists i :: 0 <= i < |listing| &&
        match Named(listing[i])
        case None => true
        case Some(key) =>
          || r.cache(key) == Failure
          || (r.cache(key) == NotFound && r.api(key) == Failure)
          || (r.cache(key) == NotFound && r.api(key) == NotFound
              && forall k :: 0 <= k <= i && Named(listing[k]) == Some(key) ==> r.refused(k))
  {
    hide Collected;
    forall i | 0 <= i < |listing|
      ensures Errs(listing, r, i) <==>
        match Named(listing[i])
        case None => true
        case Some(key) =>
          || r.cache(key) == Failure
          || (r.cache(key) == NotFound && r.api(key) == Failure)
          || (r.cache(key) == NotFound && r.api(key) == NotFound
              && forall k :: 0 <= k <= i && Named(listing[k]) == Some(key) ==> r.refused(k))
    {
      if Named(listing[i]).Some? {
        var key := Named(listing[i]).value;
        NamedIs(listing[i], key);
        CollectedIff(listing[..i], r, key);
        forall k | 0 <= k < i ensures listing[..i][k] == listing[k] {
        }
      }
    }
  }

  lemma CollectedGrows(listing: seq<Job>, r: Replies, i: nat)
    requires i < |listing|
    ensures forall key :: Collected(listing[..i + 1], r, key) <==>
              Collected(listing[..i], r, key) || (AsksFor(listing, r, key, i) && !r.refused(i))
  {
    var shorter, longer := listing[..i], listing[..i + 1];
    assert longer[i] == listing[i];
    forall key | Collected(shorter, r, key) ensures Collected(longer, r, key) {
      var k :| 0 <= k < i && AsksFor(shorter, r, key, k) && !r.refused(k);
      assert AsksFor(longer, r, key, k);
    }
    forall key | AsksFor(listing, r, key, i) && !r.refused(i) ensures Collected(longer, r, key) {
      assert AsksFor(longer, r, key, i);
    }
    forall key | Collected(longer, r, key)
      ensures Collected(shorter, r, key) || (AsksFor(listing, r, key, i) && !r.refused(i))
    {
      var k :| 0 <= k <= i && AsksFor(longer, r, key, k) && !r.refused(k);
      if k < i {
        assert AsksFor(shorter, r, key, k);
      }
    }
  }

  /** The sweep over what the API server listed; calls are the successful deletions
      in order. Namespaces contain no slash. */
  method CollectListed(cluster: Cluster, listing: seq<Job>, r: Replies) returns (failed: bool, calls: seq<Key>)
    requires forall i :: 0 <= i < |listing| ==> '/' !in listing[i].namespace
    modifies cluster
    ensures cluster.jobs == set j | j in old(cluster.jobs) && !exists key :: key in calls && IsOf(j, key)
    ensures forall key :: key in calls <==> Collected(listing, r, key)
    ensures NoDup(calls)
    ensures failed <==> SomeErrs(listing, r, |listing|)
  {
    hide SomeErrs;
    NoErrsYet(listing, r);
    var errs, collected: set<string> := 0, {};
    calls := [];
    for i := 0 to |listing|
      invariant cluster.jobs == set j | j in old(cluster.jobs) && !exists key :: key in calls && IsOf(j, key)
      invariant forall key :: key in calls <==> Collected(listing[..i], r, key)
      invariant forall key :: key in calls ==> '/' !in key.0
      invariant collected == set key | key in calls :: Join(key)
      invariant NoDup(calls)
      invariant errs >= 0 && (errs > 0 <==> SomeErrs(listing, r, i))
    {
      CollectedGrows(listing, r, i);
      SomeErrsGrows(listing, r, i);
      var job := listing[i];
      if !HasWorkflowName(job) {
        errs := errs + 1;
        continue;
      }
      var key := KeyOf(job);
      CollectedByKey(calls, collected, key);
      if Join(key) in collected {
        assert Missing(r, key);
        continue;
      }
      if r.cache(key) != NotFound {
        if r.cache(key) == Failure {
          errs := errs + 1;
        }
        continue;
      }
      if r.api(key) != Found {
        if r.api(key) != NotFound {
          errs := errs + 1;
          continue;
        }
        var refused := cluster.DeleteCollection(key, r.refused(i));
        if refused {
          errs := errs + 1;
          continue;
        }
        CallAdded(calls, key);
        collected := collected + {Join(key)};
        calls := calls + [key];
      }
    }
    assert listing[..|listing|] == listing;
    failed := errs > 0;
  }

  /** One of the first n jobs adds an error. */
  predicate SomeErrs(listing: seq<Job>, r: Replies, n: nat)
    requires n <= |listing|
  {
    exists k :: 0 <= k < n && Errs(listing, r, k)
  }

  lemma NoErrsYet(listing: seq<Job>, r: Replies)
    ensures !SomeErrs(listing, r, 0)
  {
  }

  lemma SomeErrsGrows(listing: seq<Job>, r: Replies, n: nat)
    requires n < |listing|
    ensures SomeErrs(listing, r, n + 1) <==> SomeErrs(listing, r, n) || Errs(listing, r, n)
  {
    if Errs(listing, r, n) {
      assert SomeErrs(listing, r, n + 1);
    }
  }

  lemma CallAdded(calls: seq<Key>, key: Key)
    ensures (set k | k in calls + [key] :: Join(k)) == (set k | k in calls :: Join(k)) + {Join(key)}
  {
    assert key in calls + [key];
  }

  lemma CollectedByKey(calls: seq<Key>, collected: set<string>, key: Key)
    requires forall k :: k in calls ==> '/' !in k.0
    requires collected == set k | k in calls :: Join(k)
    requires '/' !in key.0
    ensures Join(key) in collected <==> key in calls
  {
    if Join(key) in collected {
      var k :| k in calls && Join(k) == Join(key);
      JoinInjective(k, key);
    }
  }

  /** CollectWorkflowJobs: the listing holds the jobs that carry the label, unless
      it fails. */
  method CollectWorkflowJobs(cluster: Cluster, listing: Option<seq<Job>>, r: Replies)
    returns (failed: bool, calls: seq<Key>)
    requires listing.Some? ==> forall i :: 0 <= i < |listing.value| ==> '/' !in listing.value[i].namespace
    modifies cluster
    ensures NoDup(calls) && forall key :: key in calls ==> r.cache(key) == NotFound && r.api(key) == NotFound
    ensures cluster.jobs == set j | j in old(cluster.jobs) && !exists key :: key in calls && IsOf(j, key)
    ensures listing.Some? && !failed ==> forall j, key ::
      j in listing.value && Named(j) == Some(key) && r.cache(key) == NotFound && r.api(key) == NotFound ==> key in calls
    ensures failed <==> listing.None? || SomeErrs(listing.value, r, |listing.value|)
  {
    if listing.None? {
      assert cluster.jobs == set j | j in cluster.jobs;
      return true, [];
    }
    failed, calls := CollectListed(cluster, listing.value, r);
    if !failed {
      forall j, key | j in listing.value && Named(j) == Some(key) && Missing(r, key)
        ensures key in calls
      {
        WithoutErrorsAllCollected(listing.value, r, j, key);
      }
    }
  }

  /** Refusals are errors until the workflow is collected, so without errors every
      missing workflow of the listing is. */
  lemma WithoutErrorsAllCollected(listing: seq<Job>, r: Replies, job: Job, key: Key)
    requires job in listing && HasWorkflowName(job) && KeyOf(job) == key && Missing(r, key)
    requires forall i :: 0 <= i < |listing| ==> !Errs(listing, r, i)
    ensures Collected(listing, r, key)
  {
    var i :| 0 <= i < |listing| && listing[i] == job;
    assert !Errs(listing, r, i);
    if r.refused(i) {
      assert Collected(listing[..i], r, key);
      var k :| 0 <= k < i && AsksFor(listing[..i], r, key, k) && !r.refused(k);
      assert AsksFor(listing, r, key, k);
    } else {
      assert AsksFor(listing, r, key, i);
    }
  }

  // ------------------------------------------------------- safety and completeness

  /** A listing of exactly the labelled jobs of the cluster. */
  ghost predicate ListsLabelled(listing: seq<Job>, jobs: set<Job>) {
    forall j :: j in listing <==> j in jobs && WORKFLOW_LABEL_KEY in j.labels
  }

  /** What a sweep with these calls leaves. */
  function Swept(jobs: set<Job>, calls: seq<Key>): set<Job> {
    set j | j in jobs && !exists key :: key in calls && IsOf(j, key)
  }

  /** The jobs of a workflow that is in the cache or known to the API, and the jobs
      without a workflow name, survive every sweep. */
  lemma LiveJobsSurvive(jobs: set<Job>, listing: seq<Job>, r: Replies, calls: seq<Key>, j: Job)
    requires forall key :: key in calls <==> Collected(listing, r, key)
    requires j in jobs
    requires Named(j).Some? ==> r.cache(Named(j).value) != NotFound || r.api(Named(j).value) != NotFound
    ensures j in Swept(jobs, calls)
  {
    forall key | key in calls ensures !IsOf(j, key) {
      var i :| 0 <= i < |listing| && AsksFor(listing, r, key, i) && !r.refused(i);
    }
  }

  /** A sweep without errors over an exact listing leaves exactly the jobs of the
      workflows that are not missing. */
  lemma ErrorFreeSweepIsExact(jobs: set<Job>, listing: seq<Job>, r: Replies, calls: seq<Key>)
    requires ListsLabelled(listing, jobs)
    requires forall key :: key in calls <==> Collected(listing, r, key)
    requires forall i :: 0 <= i < |listing| ==> !Errs(listing, r, i)
    ensures Swept(jobs, calls)
            == set j | j in jobs && !(Named(j).Some? && r.cache(Named(j).value) == NotFound == r.api(Named(j).value))
  {
    hide Errs, Collected;
    forall j | j in jobs
      ensures j in Swept(jobs, calls)
              <==> !(Named(j).Some? && r.cache(Named(j).value) == NotFound == r.api(Named(j).value))
    {
      if HasWorkflowName(j) && Missing(r, KeyOf(j)) {
        WithoutErrorsAllCollected(listing, r, j, KeyOf(j));
        assert IsOf(j, KeyOf(j));
      } else {
        LiveJobsSurvive(jobs, listing, r, calls, j);
      }
    }
  }
}
