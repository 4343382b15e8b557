/** manageDaemonSetJob as a method over the DaemonSetJob and the cluster, against
    the exact post-state that DaemonSetJob.dfy describes
    (pkg/controller/daemonsetjob.go, job_control.go). */
module DaemonSetController {
  import opened Prelude
  import opened DaemonSetConditions
  import opened DaemonSetJob
  import W = WorkflowTypes

  method GetJobStatus(job: NodeJob) returns (status: JobStatus)
    ensures status == StatusOf(job.conditions)
    ensures status == JobHasFailed <==> SaysFirst(job.conditions, W.JobFailed, W.JobComplete)
    ensures status == Succeeded <==> SaysFirst(job.conditions, W.JobComplete, W.JobFailed)
  {
    hide SaysFirst;
    StatusOfIff(job.conditions);
    assert job.conditions[0..] == job.conditions;
    for i := 0 to |job.conditions|
      invariant StatusOf(job.conditions) == StatusOf(job.conditions[i..])
    {
      assert job.conditions[i..][1..] == job.conditions[i + 1..];
      var c := job.conditions[i];
      if c.kind == W.JobFailed && c.isTrue {
        return JobHasFailed;
      }
      if c.kind == W.JobComplete && c.isTrue {
        return Succeeded;
      }
    }
    status := Active;
  }

  method GetJobsStatus(jobs: seq<NodeJob>) returns (active: nat, succeeded: nat, failed: nat)
    ensures active == Count(jobs, Active) && succeeded == Count(jobs, Succeeded) && failed == Count(jobs, JobHasFailed)
  {
    active, succeeded, failed := 0, 0, 0;
    for i := 0 to |jobs|
      invariant active == Count(jobs[..i], Active) && succeeded == Count(jobs[..i], Succeeded)
      invariant failed == Count(jobs[..i], JobHasFailed)
    {
      assert jobs[..i + 1][..i] == jobs[..i];
      var status := GetJobStatus(jobs[i]);
      match status {
        case JobHasFailed => failed := failed + 1;
        case Succeeded => succeeded := succeeded + 1;
        case Active => active := active + 1;
      }
    }
    assert jobs[..|jobs|] == jobs;
  }

  // -------------------------------------------------------------------- grouping

  ghost function IdsOf(jobs: seq<NodeJob>): set<string> {
    set i | 0 <= i < |jobs| :: jobs[i].id
  }

  ghost predicate IsGrouping(byNode: map<string, NodeJob>, listing: seq<NodeJob>) {
    forall n :: if n in byNode then FirstOn(listing, n) == Some(byNode[n]) else FirstOn(listing, n) == None
  }

  ghost function DuplicateIds(listing: seq<NodeJob>): set<string> {
    set i | 0 <= i < |listing| && !IsFirst(listing, i) :: listing[i].id
  }

  ghost predicate IsDuplicate(listing: seq<NodeJob>, id: string) {
    exists i :: 0 <= i < |listing| && !IsFirst(listing, i) && listing[i].id == id
  }

  lemma {:induction false} FirstOnAppend(listing: seq<NodeJob>, job: NodeJob, n: string)
    ensures FirstOn(listing + [job], n)
            == if FirstOn(listing, n).Some? then FirstOn(listing, n)
               else if job.nodeName == n then Some(job) else None
  {
    if listing == [] {
      assert listing + [job] == [job];
    } else {
      FirstOnAppend(listing[1..], job, n);
      assert (listing + [job])[1..] == listing[1..] + [job];
    }
  }

  lemma DuplicateAppend(listing: seq<NodeJob>, job: NodeJob, id: string)
    ensures IsDuplicate(listing + [job], id) <==>
            IsDuplicate(listing, id) || (HasListed(listing, job.nodeName) && job.id == id)
  {
    var longer := listing + [job];
    if IsDuplicate(listing, id) {
      var i :| 0 <= i < |listing| && !IsFirst(listing, i) && listing[i].id == id;
      var j :| 0 <= j < i && listing[j].nodeName == listing[i].nodeName;
      assert longer[j].nodeName == longer[i].nodeName && longer[i].id == id;
    }
    if HasListed(listing, job.nodeName) && job.id == id {
      var j :| 0 <= j < |listing| && listing[j].nodeName == job.nodeName;
      assert longer[j].nodeName == longer[|listing|].nodeName;
    }
    if IsDuplicate(longer, id) {
      var i :| 0 <= i < |longer| && !IsFirst(longer, i) && longer[i].id == id;
      var j :| 0 <= j < i && longer[j].nodeName == longer[i].nodeName;
      assert listing[j].nodeName == longer[i].nodeName;
      if i < |listing| {
        assert listing[j].nodeName == listing[i].nodeName && listing[i].id == id;
      }
    }
  }

  /** The first loop: the first job of each node, and the others. */
  method GroupByNode(listing: seq<NodeJob>) returns (byNode: map<string, NodeJob>, duplicates: seq<NodeJob>)
    ensures IsGrouping(byNode, listing)
    ensures forall id :: id in IdsOf(duplicates) <==> IsDuplicate(listing, id)
    ensures IdsOf(duplicates) <= IdsOf(listing)
  {
    hide FirstOn, IsGrouping, IsDuplicate;
    byNode, duplicates := map[], [];
    NothingGrouped();
    assert listing[..0] == [];
    for i := 0 to |listing|
      invariant IsGrouping(byNode, listing[..i])
      invariant forall id :: id in IdsOf(duplicates) <==> IsDuplicate(listing[..i], id)
    {
      assert listing[..i + 1] == listing[..i] + [listing[i]];
      GroupingNext(byNode, listing[..i], listing[i]);
      IdsAppend(duplicates, listing[i]);
      if listing[i].nodeName in byNode {
        duplicates := duplicates + [listing[i]];
      } else {
        byNode := byNode[listing[i].nodeName := listing[i]];
      }
    }
    assert listing[..|listing|] == listing;
    DuplicatesAreListed(listing);
  }

  lemma NothingGrouped()
    ensures IsGrouping(map[], []) && forall id :: !IsDuplicate([], id)
  {
  }

  lemma DuplicatesAreListed(listing: seq<NodeJob>)
    ensures forall id :: IsDuplicate(listing, id) ==> id in IdsOf(listing)
  {
  }

  lemma GroupingNext(byNode: map<string, NodeJob>, listing: seq<NodeJob>, job: NodeJob)
    requires IsGrouping(byNode, listing)
    ensures IsGrouping(if job.nodeName in byNode then byNode else byNode[job.nodeName := job], listing + [job])
    ensures forall id :: IsDuplicate(listing + [job], id) <==>
              IsDuplicate(listing, id) || (job.nodeName in byNode && job.id == id)
  {
    hide IsDuplicate;
    forall n ensures FirstOn(listing + [job], n)
      == if FirstOn(listing, n).Some? then FirstOn(listing, n) else if job.nodeName == n then Some(job) else None
    {
      FirstOnAppend(listing, job, n);
    }
    forall id ensures IsDuplicate(listing + [job], id) <==>
      IsDuplicate(listing, id) || (HasListed(listing, job.nodeName) && job.id == id)
    {
      DuplicateAppend(listing, job, id);
    }
    assert FirstOn(listing, job.nodeName).Some? <==> job.nodeName in byNode;
  }

  lemma IdsAppend(jobs: seq<NodeJob>, job: NodeJob)
    ensures IdsOf(jobs + [job]) == IdsOf(jobs) + {job.id}
  {
    var longer := jobs + [job];
    forall id | id in IdsOf(jobs) + {job.id} ensures id in IdsOf(longer) {
      if id in IdsOf(jobs) {
        var i :| 0 <= i < |jobs| && jobs[i].id == id;
        assert longer[i].id == id;
      } else {
        assert longer[|jobs|].id == id;
      }
    }
  }

  // --------------------------------------------------------------------- the API

  /** The API server. asked and askedNodes record the requests of a pass, made by
      an owner over the jobs that were there before. */
  class Cluster {
    const refused: set<string>
    const newId: string -> Option<string>
    var jobs: set<NodeJob>
    ghost var asked: set<string>
    ghost var askedNodes: set<string>

    /** The jobs are the old ones without those deleted, and the new ones. */
    ghost predicate Tracks(before: set<NodeJob>, o: Owner)
      reads this
    {
      jobs == Without(before, asked - refused) + NewJobs(o, askedNodes, newId)
    }

    ghost predicate SomeFailed()
      reads this
    {
      asked * refused != {} || exists n :: n in askedNodes && newId(n).None?
    }

    method DeleteJob(job: NodeJob, ghost before: set<NodeJob>, ghost o: Owner) returns (failed: bool)
      requires Tracks(before, o)
      requires forall n :: newId(n) != Some(job.id)
      modifies this`jobs, this`asked
      ensures Tracks(before, o) && asked == old(asked) + {job.id}
      ensures failed || old(SomeFailed()) <==> SomeFailed()
    {
      failed := job.id in refused;
      if !failed {
        jobs := Without(jobs, {job.id});
      }
      asked := asked + {job.id};
      assert !failed ==> asked - refused == (old(asked) - refused) + {job.id};
      assert failed ==> asked - refused == old(asked) - refused;
      assert failed ==> job.id in asked * refused;
      assert !failed ==> asked * refused == old(asked) * refused;
    }

    method CreateJob(node: string, made: NodeJob, ghost before: set<NodeJob>, ghost o: Owner) returns (failed: bool)
      requires Tracks(before, o)
      requires newId(node).Some? ==> made == MakeJob(o, newId(node).value, node)
      modifies this`jobs, this`askedNodes
      ensures Tracks(before, o) && askedNodes == old(askedNodes) + {node}
      ensures failed || old(SomeFailed()) <==> SomeFailed()
    {
      failed := newId(node).None?;
      if !failed {
        jobs := jobs + {made};
      }
      askedNodes := askedNodes + {node};
    }
  }

  /** The labels of a job template, and the hash of its spec. */
  datatype JobTemplate = JobTemplate(labels: Labels, md5: string)

  const NO_TEMPLATE := JobTemplate(map[], "")

  /** The copy of the DaemonSetJob one pass works on. */
  class DaemonSetJobObject {
    const name: string
    const annotations: Labels
    /** The job template, or None for a nil one, which validation accepts. */
    const jobTemplate: Option<JobTemplate>
    const status: DaemonSetJobStatus
    /** The selector's map, or None for a nil one. */
    var matchLabels: Option<Labels>

    constructor (name: string, annotations: Labels, jobTemplate: Option<JobTemplate>, matchLabels: Option<Labels>,
                 status: DaemonSetJobStatus)
      ensures this.jobTemplate == jobTemplate && this.matchLabels == matchLabels && this.status == status
      ensures jobTemplate.Some? ==>
        Value() == Owner(name, matchLabels.GetOr(map[]), jobTemplate.value.labels, annotations, jobTemplate.value.md5)
    {
      this.name, this.annotations, this.jobTemplate := name, annotations, jobTemplate;
      this.matchLabels, this.status := matchLabels, status;
    }

    function Value(): Owner
      reads this
    {
      var t := jobTemplate.GetOr(NO_TEMPLATE);
      Owner(name, matchLabels.GetOr(map[]), t.labels, annotations, t.md5)
    }

    /** CreateJobFromDaemonSetJob up to the API call; getJobLabelsSetFromDaemonSetJob
        writes into the selector's own map, and panics if that is nil. */
    method MakeNodeJob(id: string, nodeName: string) returns (job: Option<NodeJob>)
      requires jobTemplate.Some?
      modifies this`matchLabels
      ensures old(matchLabels).None? ==> job == None && matchLabels == None
      ensures old(matchLabels).Some? ==>
        job == Some(MakeJob(old(Value()), id, nodeName)) && matchLabels == Some(JobLabels(old(Value())))
    {
      if matchLabels.None? {
        return None;
      }
      matchLabels := Some(matchLabels.value + jobTemplate.value.labels);
      matchLabels := Some(matchLabels.value[DAEMONSETJOB_LABEL_KEY := name]);
      var objAnnotations := annotations[DAEMONSETJOB_MD5_ANNOTATION_KEY := jobTemplate.value.md5];
      job := Some(NodeJob(id, nodeName, matchLabels.value, objAnnotations, []));
    }
  }

  lemma WritingSelectorAgain(o: Owner)
    ensures JobLabels(o.(selector := JobLabels(o))) == JobLabels(o)
  {
  }

  // -------------------------------------------------------------------- the pass

  class Controller {
    const cluster: Cluster

    constructor (cluster: Cluster)
      ensures this.cluster == cluster
    {
      this.cluster := cluster;
    }

    method DeleteAll(jobs: seq<NodeJob>, ghost before: set<NodeJob>, ghost o: Owner, hadErrors: bool)
      returns (errors: bool)
      requires cluster.Tracks(before, o) && (hadErrors <==> cluster.SomeFailed())
      requires forall n, i :: 0 <= i < |jobs| ==> cluster.newId(n) != Some(jobs[i].id)
      modifies cluster`jobs, cluster`asked
      ensures cluster.Tracks(before, o) && (errors <==> cluster.SomeFailed())
      ensures cluster.asked == old(cluster.asked) + IdsOf(jobs)
    {
      errors := hadErrors;
      assert jobs[..0] == [] && IdsOf([]) == {};
      for i := 0 to |jobs|
        invariant cluster.Tracks(before, o) && (errors <==> cluster.SomeFailed())
        invariant cluster.asked == old(cluster.asked) + IdsOf(jobs[..i])
      {
        assert jobs[..i + 1] == jobs[..i] + [jobs[i]];
        IdsAppend(jobs[..i], jobs[i]);
        var failed := cluster.DeleteJob(jobs[i], before, o);
        errors := errors || failed;
      }
      assert jobs[..|jobs|] == jobs;
    }

    /** What the pass does on one selected node, given the first job listed on it.
        drop tells whether the node leaves jobsByNodeName: it stays there if its
        job is stale and still active, for the continue skips the removal. */
    method ManageNode(o: DaemonSetJobObject, node: string, job: Option<NodeJob>, ghost before: set<NodeJob>, ghost owner: Owner)
      returns (drop: bool, counted: bool, touched: bool, failed: bool, panicked: bool)
      requires SameJobs(o.Value(), owner) && cluster.Tracks(before, owner) && o.jobTemplate.Some?
      requires job.Some? ==> forall n :: cluster.newId(n) != Some(job.value.id)
      modifies o`matchLabels, cluster`jobs, cluster`asked, cluster`askedNodes
      ensures SameJobs(o.Value(), owner) && cluster.Tracks(before, owner)
      ensures o.matchLabels.Some? == old(o.matchLabels.Some?)
      ensures panicked <==> o.matchLabels.None? && job.None?
      ensures failed || old(cluster.SomeFailed()) <==> cluster.SomeFailed()
      ensures cluster.asked == old(cluster.asked) + (if job.Some? && Done(job.value, owner.md5) then {job.value.id} else {})
      ensures cluster.askedNodes == old(cluster.askedNodes) + (if job.None? && !panicked then {node} else {})
      ensures drop <==> job.None? || !Waiting(job.value, owner.md5)
      ensures counted <==> job.Some? && IsCurrent(job.value, owner.md5)
      ensures touched <==> Touches(job, owner.md5)
    {
      drop, counted, touched, failed, panicked := true, false, false, false, false;
      if job.None? {
        var made := o.MakeNodeJob(cluster.newId(node).GetOr(""), node);
        WritingSelectorAgain(owner);
        if made.None? {
          touched, panicked := true, true;
          return;
        }
        failed := cluster.CreateJob(node, made.value, before, owner);
        touched := true;
      } else if !IsCurrent(job.value, o.jobTemplate.value.md5) {
        var status := GetJobStatus(job.value);
        match status {
          case JobHasFailed =>
            touched := true;
          case Succeeded =>
            failed := cluster.DeleteJob(job.value, before, owner);
            touched := true;
          case Active =>
            drop := false;
        }
      } else {
        counted := true;
      }
    }

    /** The loop over the nodes: rest is what is left of jobsByNodeName. */
    method ManageNodes(o: DaemonSetJobObject, listing: seq<NodeJob>, byNode: map<string, NodeJob>, nodes: seq<string>,
                       ghost before: set<NodeJob>, ghost owner: Owner, hadErrors: bool)
      returns (rest: map<string, NodeJob>, allJobs: seq<NodeJob>, toBeUpdated: bool, errors: bool, panicked: bool)
      requires IsGrouping(byNode, listing) && NoDup(nodes) && FreshNames(listing, cluster.newId)
      requires o.Value() == owner && cluster.askedNodes == {} && o.jobTemplate.Some?
      requires cluster.Tracks(before, owner) && (hadErrors <==> cluster.SomeFailed())
      modifies o`matchLabels, cluster`jobs, cluster`asked, cluster`askedNodes
      ensures cluster.Tracks(before, owner) && (errors <==> cluster.SomeFailed())
      ensures panicked <==> old(o.matchLabels).None? && FirstMissing(listing, nodes) < |nodes|
      ensures panicked ==> cluster.askedNodes == {}
      ensures !panicked ==> cluster.askedNodes == CreateRequests(listing, Elements(nodes))
      ensures var seen := if panicked then nodes[..FirstMissing(listing, nodes)] else nodes;
        forall id :: id in cluster.asked <==> id in old(cluster.asked) || Outdated(listing, Elements(seen), owner.md5, id)
      ensures !panicked ==>
        && rest == Leftover(byNode, Elements(nodes), owner.md5)
        && allJobs == Counted(listing, nodes, owner.md5)
        && (toBeUpdated <==> SomeTouched(listing, Elements(nodes), owner.md5))
    {
      hide IsCurrent, StatusOf, SameJobs, Waiting, Done, Touches, FirstOn, Outdated, SomeTouched, Leftover,
           CreateRequests, Elements, IsGrouping, FreshNames;
      rest, allJobs, toBeUpdated, errors, panicked := byNode, [], false, hadErrors, false;
      NoNodes(listing, byNode, owner.md5);
      SameAsItself(owner);
      assert nodes[..0] == [];
      for i := 0 to |nodes|
        invariant SameJobs(o.Value(), owner) && !panicked
        invariant o.matchLabels.Some? == old(o.matchLabels.Some?)
        invariant o.matchLabels.None? ==> forall j :: 0 <= j < i ==> FirstOn(listing, nodes[j]).Some?
        invariant cluster.Tracks(before, owner) && (errors <==> cluster.SomeFailed())
        invariant cluster.askedNodes == CreateRequests(listing, Elements(nodes[..i]))
        invariant forall id :: id in cluster.asked <==>
          id in old(cluster.asked) || Outdated(listing, Elements(nodes[..i]), owner.md5, id)
        invariant rest == Leftover(byNode, Elements(nodes[..i]), owner.md5)
        invariant allJobs == Counted(listing, nodes[..i], owner.md5)
        invariant toBeUpdated <==> SomeTouched(listing, Elements(nodes[..i]), owner.md5)
      {
        var node := nodes[i];
        NextNode(listing, byNode, nodes, owner.md5, i);
        var job := if node in rest then Some(rest[node]) else None;
        assert job == FirstOn(listing, node);
        ListedIsFresh(listing, node, cluster.newId);
        var drop, counted, touched, failed;
        drop, counted, touched, failed, panicked := ManageNode(o, node, job, before, owner);
        errors, toBeUpdated := errors || failed, toBeUpdated || touched;
        if panicked {
          FirstMissingIs(listing, nodes, i);
          NothingMissing(listing, nodes[..i]);
          return;
        }
        if counted {
          allJobs := allJobs + [job.value];
        }
        if drop {
          rest := rest - {node};
        }
      }
      assert nodes[..|nodes|] == nodes;
      if o.matchLabels.None? {
        FirstMissingIs(listing, nodes, |nodes|);
      }
    }

    /** The last loop: what is left of jobsByNodeName is deleted, in any order. */
    method DeleteRest(rest: map<string, NodeJob>, ghost before: set<NodeJob>, ghost owner: Owner, hadErrors: bool)
      returns (errors: bool)
      requires cluster.Tracks(before, owner) && (hadErrors <==> cluster.SomeFailed())
      requires forall n, m :: n in rest ==> cluster.newId(m) != Some(rest[n].id)
      modifies cluster`jobs, cluster`asked
      ensures cluster.Tracks(before, owner) && (errors <==> cluster.SomeFailed())
      ensures forall id :: id in cluster.asked <==> id in old(cluster.asked) || exists n :: n in rest && rest[n].id == id
    {
      errors := hadErrors;
      var left := rest.Keys;
      while left != {}
        invariant left <= rest.Keys
        invariant cluster.Tracks(before, owner) && (errors <==> cluster.SomeFailed())
        invariant forall id :: id in cluster.asked <==>
          id in old(cluster.asked) || exists n :: n in rest && n !in left && rest[n].id == id
      {
        var node :| node in left;
        var failed := cluster.DeleteJob(rest[node], before, owner);
        errors := errors || failed;
        left := left - {node};
      }
    }

    /** manageDaemonSetJob. listing is what the job lister returned (nothing, if it
        failed: its error is not looked at); nodes are the selected nodes, or
        None if their lister failed, which ends the pass after the deletion of
        duplicates. updated tells whether the status is written back. Without a job
        template the pass panics before it lists anything; without a label map it
        panics at the first node that has no job. */
    method ManageDaemonSetJob(o: DaemonSetJobObject, listing: seq<NodeJob>, nodes: Option<seq<string>>, now: int)
      returns (updated: bool, failed: bool, panicked: bool)
      requires DistinctIds(listing) && FreshNames(listing, cluster.newId)
      requires nodes.Some? ==> NoDup(nodes.value)
      requires cluster.asked == {} && cluster.askedNodes == {}
      modifies o`matchLabels, o.status, cluster`jobs, cluster`asked, cluster`askedNodes
      ensures panicked <==>
        || o.jobTemplate.None?
        || (nodes.Some? && old(o.matchLabels).None? && CreateRequests(listing, Elements(nodes.value)) != {})
      ensures o.jobTemplate.None? ==>
        !updated && unchanged(o) && unchanged(o.status) && unchanged(cluster)
      ensures panicked && o.jobTemplate.Some? ==>
        var seen := Elements(nodes.value[..FirstMissing(listing, nodes.value)]);
        && !updated && unchanged(o.status)
        && cluster.jobs
           == Without(old(cluster.jobs), DuplicateIds(listing) + OutdatedIds(listing, seen, old(o.Value()).md5) - cluster.refused)
      ensures nodes.None? && o.jobTemplate.Some? ==>
        && failed && !updated && unchanged(o.status)
        && cluster.jobs == Without(old(cluster.jobs), DuplicateIds(listing) - cluster.refused)
      ensures nodes.Some? && !panicked ==>
        var selected := Elements(nodes.value);
        var deletions := DeleteRequests(listing, selected, old(o.Value()).md5);
        var creations := CreateRequests(listing, selected);
        && cluster.jobs == Without(old(cluster.jobs), deletions - cluster.refused)
                           + NewJobs(old(o.Value()), creations, cluster.newId)
        && (failed <==> deletions * cluster.refused != {} || exists n :: n in creations && cluster.newId(n).None?)
      ensures nodes.Some? && !panicked ==>
        var counted := Counted(listing, nodes.value, old(o.Value()).md5);
        && o.status.active == Count(counted, Active) && o.status.succeeded == Count(counted, Succeeded)
        && o.status.failed == Count(counted, JobHasFailed)
        && o.status.Value() == UpdateAll(old(o.status.Value()),
                                         Call(now, Count(counted, Active) == 0, Count(counted, JobHasFailed) > 0))
        && (updated <==>
             || SomeTouched(listing, Elements(nodes.value), old(o.Value()).md5)
             || o.status.active != old(o.status.active) || o.status.succeeded != old(o.status.succeeded)
             || o.status.failed != old(o.status.failed) || o.status.active == 0)
    {
      hide Counted, Update, Search, Count, Outdated, SomeTouched, Keepable, DistinctIds, FreshNames, NoDup;
      if o.jobTemplate.None? {
        return false, false, true;
      }
      ghost var before, owner := cluster.jobs, o.Value();
      assert cluster.Tracks(before, owner) by {
        assert Without(before, {}) == before;
      }
      var byNode, duplicates := GroupByNode(listing);
      DuplicatesAreFresh(listing, duplicates, cluster.newId);
      failed := DeleteAll(duplicates, before, owner, false);
      updated, panicked := false, false;
      assert IdsOf(duplicates) == DuplicateIds(listing);
      if nodes.None? {
        return false, true, false;
      }
      var rest, allJobs, toBeUpdated, nodeErrors;
      rest, allJobs, toBeUpdated, nodeErrors, panicked :=
        ManageNodes(o, listing, byNode, nodes.value, before, owner, failed);
      FirstMissingIff(listing, nodes.value);
      if panicked {
        failed := false;
        ghost var seen := Elements(nodes.value[..FirstMissing(listing, nodes.value)]);
        OutdatedAreListed(listing, seen, owner.md5);
        assert cluster.asked == DuplicateIds(listing) + OutdatedIds(listing, seen, owner.md5);
        return;
      }
      RestIsFresh(listing, byNode, rest, Elements(nodes.value), owner.md5, cluster.newId);
      failed := DeleteRest(rest, before, owner, nodeErrors);
      AllRequests(listing, byNode, nodes.value, owner.md5);
      assert cluster.asked == DeleteRequests(listing, Elements(nodes.value), owner.md5);
      updated := UpdateStatus(o.status, allJobs, now, toBeUpdated);
    }

    /** The end of the pass: the counts, and the conditions they imply. */
    method UpdateStatus(status: DaemonSetJobStatus, allJobs: seq<NodeJob>, now: int, toBeUpdated: bool) returns (updated: bool)
      modifies status
      ensures status.active == Count(allJobs, Active) && status.succeeded == Count(allJobs, Succeeded)
      ensures status.failed == Count(allJobs, JobHasFailed)
      ensures status.Value() == UpdateAll(old(status.Value()),
                                          Call(now, Count(allJobs, Active) == 0, Count(allJobs, JobHasFailed) > 0))
      ensures updated <==>
        || toBeUpdated || status.active == 0 || status.active != old(status.active)
        || status.succeeded != old(status.succeeded) || status.failed != old(status.failed)
    {
      updated := toBeUpdated;
      var active, succeeded, failedJobs := GetJobsStatus(allJobs);
      if active != status.active || succeeded != status.succeeded || failedJobs != status.failed {
        status.active, status.succeeded, status.failed := active, succeeded, failedJobs;
        updated := true;
      }
      status.UpdateConditions(now, active == 0, failedJobs > 0);
      updated := updated || active == 0;
    }
  }

  lemma DuplicatesAreFresh(listing: seq<NodeJob>, duplicates: seq<NodeJob>, newId: string -> Option<string>)
    requires FreshNames(listing, newId) && IdsOf(duplicates) <= IdsOf(listing)
    ensures forall n, i :: 0 <= i < |duplicates| ==> newId(n) != Some(duplicates[i].id)
  {
    forall n, i | 0 <= i < |duplicates| ensures newId(n) != Some(duplicates[i].id) {
      assert duplicates[i].id in IdsOf(duplicates);
      var k :| 0 <= k < |listing| && listing[k].id == duplicates[i].id;
    }
  }

  lemma RestIsFresh(listing: seq<NodeJob>, byNode: map<string, NodeJob>, rest: map<string, NodeJob>,
                    nodes: set<string>, md5: string, newId: string -> Option<string>)
    requires IsGrouping(byNode, listing) && FreshNames(listing, newId) && rest == Leftover(byNode, nodes, md5)
    ensures forall n, m :: n in rest ==> newId(m) != Some(rest[n].id)
  {
    forall n, m | n in rest ensures newId(m) != Some(rest[n].id) {
      ListedIsFresh(listing, n, newId);
    }
  }

  /** The three loops together ask for what RequestsByNode says. */
  lemma AllRequests(listing: seq<NodeJob>, byNode: map<string, NodeJob>, nodes: seq<string>, md5: string)
    requires IsGrouping(byNode, listing) && DistinctIds(listing)
    ensures var left := Leftover(byNode, Elements(nodes), md5);
      forall id :: id in DeleteRequests(listing, Elements(nodes), md5) <==>
        || IsDuplicate(listing, id)
        || Outdated(listing, Elements(nodes), md5, id)
        || exists n :: n in left && left[n].id == id
  {
    hide IsCurrent, StatusOf, FirstOn, IsDuplicate, DeleteRequests, Elements;
    RequestsByNode(listing, byNode, Elements(nodes), md5);
    var selected, left := Elements(nodes), Leftover(byNode, Elements(nodes), md5);
    forall n | n in byNode && !(n in selected && Keepable(byNode[n], md5))
      ensures Outdated(listing, selected, md5, byNode[n].id) || (n in left && left[n].id == byNode[n].id)
    {
      assert FirstOn(listing, n) == Some(byNode[n]);
    }
  }

  predicate Waiting(job: NodeJob, md5: string) {
    !IsCurrent(job, md5) && StatusOf(job.conditions) == Active
  }

  predicate Done(job: NodeJob, md5: string) {
    !IsCurrent(job, md5) && StatusOf(job.conditions) == Succeeded
  }

  /** A job is created, or the one there is stale and no longer active. */
  predicate Touches(job: Option<NodeJob>, md5: string) {
    job.None? || (!IsCurrent(job.value, md5) && StatusOf(job.value.conditions) != Active)
  }

  /** Two owners, before and after writes to the selector, that make equal jobs. */
  ghost predicate SameJobs(o: Owner, o': Owner) {
    JobLabels(o) == JobLabels(o') && o.name == o'.name && o.templateLabels == o'.templateLabels
    && o.annotations == o'.annotations && o.md5 == o'.md5
    && JobLabels(o.(selector := JobLabels(o))) == JobLabels(o)
  }

  lemma SameAsItself(o: Owner)
    ensures SameJobs(o, o)
  {
    WritingSelectorAgain(o);
  }

  /** id is of the first job of one of the nodes, stale and succeeded. */
  ghost predicate Outdated(listing: seq<NodeJob>, nodes: set<string>, md5: string, id: string) {
    exists n :: n in nodes && FirstOn(listing, n).Some?
                && FirstOn(listing, n).value.id == id && Done(FirstOn(listing, n).value, md5)
  }

  ghost function OutdatedIds(listing: seq<NodeJob>, nodes: set<string>, md5: string): set<string> {
    set i | 0 <= i < |listing| && Outdated(listing, nodes, md5, listing[i].id) :: listing[i].id
  }

  lemma OutdatedAreListed(listing: seq<NodeJob>, nodes: set<string>, md5: string)
    ensures forall id :: id in OutdatedIds(listing, nodes, md5) <==> Outdated(listing, nodes, md5, id)
  {
    hide Done;
    forall id | Outdated(listing, nodes, md5, id) ensures id in OutdatedIds(listing, nodes, md5) {
      var n :| n in nodes && FirstOn(listing, n).Some?
               && FirstOn(listing, n).value.id == id && Done(FirstOn(listing, n).value, md5);
      var i :| 0 <= i < |listing| && listing[i] == FirstOn(listing, n).value;
    }
  }

  /** The position of the first node without a job, or the number of nodes. */
  function FirstMissing(listing: seq<NodeJob>, nodes: seq<string>): (k: nat)
    ensures k <= |nodes|
  {
    if nodes == [] || FirstOn(listing, nodes[0]).None? then 0 else 1 + FirstMissing(listing, nodes[1..])
  }

  lemma {:induction false} FirstMissingIs(listing: seq<NodeJob>, nodes: seq<string>, i: nat)
    requires i <= |nodes| && forall j :: 0 <= j < i ==> FirstOn(listing, nodes[j]).Some?
    requires i < |nodes| ==> FirstOn(listing, nodes[i]).None?
    ensures FirstMissing(listing, nodes) == i
  {
    hide FirstOn;
    if i > 0 {
      FirstMissingIs(listing, nodes[1..], i - 1);
    }
  }

  lemma NothingMissing(listing: seq<NodeJob>, nodes: seq<string>)
    requires forall j :: 0 <= j < |nodes| ==> FirstOn(listing, nodes[j]).Some?
    ensures CreateRequests(listing, Elements(nodes)) == {}
  {
    hide FirstOn;
    forall n | n in nodes ensures HasListed(listing, n) {
      var j :| 0 <= j < |nodes| && nodes[j] == n;
    }
  }

  lemma {:induction false} FirstMissingIff(listing: seq<NodeJob>, nodes: seq<string>)
    ensures FirstMissing(listing, nodes) < |nodes| <==> CreateRequests(listing, Elements(nodes)) != {}
  {
    hide FirstOn, HasListed;
    if nodes != [] {
      FirstMissingIff(listing, nodes[1..]);
      assert Elements(nodes) == {nodes[0]} + Elements(nodes[1..]);
      assert nodes[0] in Elements(nodes);
      if FirstOn(listing, nodes[0]).None? {
        assert nodes[0] in CreateRequests(listing, Elements(nodes));
      } else {
        assert CreateRequests(listing, Elements(nodes)) == CreateRequests(listing, Elements(nodes[1..]));
      }
    }
  }

  ghost predicate SomeTouched(listing: seq<NodeJob>, nodes: set<string>, md5: string) {
    exists n :: n in nodes && Touches(FirstOn(listing, n), md5)
  }

  /** The first job listed on the node is of another spec, and has the status. */
  predicate HasStale(listing: seq<NodeJob>, md5: string, node: string, status: JobStatus) {
    exists i :: 0 <= i < |listing| && listing[i].nodeName == node
                && (forall j :: 0 <= j < i ==> listing[j].nodeName != node)
                && !(DAEMONSETJOB_MD5_ANNOTATION_KEY in listing[i].annotations
                     && listing[i].annotations[DAEMONSETJOB_MD5_ANNOTATION_KEY] == md5)
                && StatusOf(listing[i].conditions) == status
  }

  lemma StaleIff(listing: seq<NodeJob>, md5: string, node: string, status: JobStatus)
    ensures HasStale(listing, md5, node, status) <==>
      FirstOn(listing, node).Some? && !IsCurrent(FirstOn(listing, node).value, md5)
      && StatusOf(FirstOn(listing, node).value.conditions) == status
  {
    hide FirstOn, StatusOf;
    if HasListed(listing, node) {
      var i := FirstOnHasIndex(listing, node);
      FirstIsFirstOn(listing, i);
      forall k | 0 <= k < |listing| && listing[k].nodeName == node && (forall j :: 0 <= j < k ==> listing[j].nodeName != node)
        ensures k == i
      {
      }
    }
  }

  /** What makes a pass write the status back, whatever it counts: a selected node that
      has no job, or whose first one is stale and has succeeded or failed. */
  lemma TouchedIff(listing: seq<NodeJob>, nodes: set<string>, md5: string)
    ensures SomeTouched(listing, nodes, md5) <==>
      exists n :: n in nodes
                  && (!HasListed(listing, n)
                      || HasStale(listing, md5, n, Succeeded) || HasStale(listing, md5, n, JobHasFailed))
  {
    hide FirstOn, StatusOf, IsCurrent, HasStale, HasListed;
    forall n
      ensures Touches(FirstOn(listing, n), md5)
              <==> !HasListed(listing, n) || HasStale(listing, md5, n, Succeeded) || HasStale(listing, md5, n, JobHasFailed)
    {
      StaleIff(listing, md5, n, Succeeded);
      StaleIff(listing, md5, n, JobHasFailed);
    }
  }

  /** What a pass that panics for want of a label map has deleted on the nodes before:
      their stale jobs that have succeeded. */
  lemma OutdatedIff(listing: seq<NodeJob>, nodes: set<string>, md5: string, id: string)
    ensures Outdated(listing, nodes, md5, id) <==>
      exists n :: n in nodes && HasStale(listing, md5, n, Succeeded)
                  && FirstOn(listing, n).Some? && FirstOn(listing, n).value.id == id
  {
    hide FirstOn, StatusOf, IsCurrent, HasStale;
    forall n ensures HasStale(listing, md5, n, Succeeded) <==>
      FirstOn(listing, n).Some? && Done(FirstOn(listing, n).value, md5)
    {
      StaleIff(listing, md5, n, Succeeded);
    }
  }

  /** What is left of jobsByNodeName after the loop went over nodes. */
  ghost function Leftover(byNode: map<string, NodeJob>, nodes: set<string>, md5: string): map<string, NodeJob> {
    map n | n in byNode && (n !in nodes || Waiting(byNode[n], md5)) :: byNode[n]
  }

  lemma NoNodes(listing: seq<NodeJob>, byNode: map<string, NodeJob>, md5: string)
    ensures CreateRequests(listing, Elements([])) == {} && Leftover(byNode, Elements([]), md5) == byNode
    ensures !SomeTouched(listing, Elements([]), md5) && forall id :: !Outdated(listing, Elements([]), md5, id)
  {
  }

  /** How the things the loop accumulates grow by one node. */
  lemma NextNode(listing: seq<NodeJob>, byNode: map<string, NodeJob>, nodes: seq<string>, md5: string, i: nat)
    requires i < |nodes| && NoDup(nodes) && IsGrouping(byNode, listing)
    ensures var n, done, next := nodes[i], Elements(nodes[..i]), Elements(nodes[..i + 1]);
      var job := FirstOn(listing, n);
      && n !in done
      && CreateRequests(listing, next) == CreateRequests(listing, done) + (if job.None? then {n} else {})
      && (forall id :: Outdated(listing, next, md5, id) <==>
           Outdated(listing, done, md5, id) || (job.Some? && job.value.id == id && Done(job.value, md5)))
      && Leftover(byNode, next, md5)
         == (if job.None? || !Waiting(job.value, md5) then Leftover(byNode, done, md5) - {n}
             else Leftover(byNode, done, md5))
      && (n in Leftover(byNode, done, md5) <==> job.Some?)
      && (job.Some? ==> Leftover(byNode, done, md5)[n] == job.value)
      && Counted(listing, nodes[..i + 1], md5)
         == Counted(listing, nodes[..i], md5) + (if CountsOn(listing, md5, n) then [job.value] else [])
      && (SomeTouched(listing, next, md5) <==> SomeTouched(listing, done, md5) || Touches(job, md5))
  {
    hide FirstOn, IsCurrent, StatusOf;
    var n, done, next := nodes[i], Elements(nodes[..i]), Elements(nodes[..i + 1]);
    assert nodes[..i + 1] == nodes[..i] + [n] && nodes[..i + 1][..i] == nodes[..i];
    assert next == done + {n};
    assert n !in done;
  }

  lemma ListedIsFresh(listing: seq<NodeJob>, node: string, newId: string -> Option<string>)
    requires FreshNames(listing, newId)
    ensures FirstOn(listing, node).Some? ==> forall n :: newId(n) != Some(FirstOn(listing, node).value.id)
  {
  }

  /** The requests of a pass, node by node. */
  lemma RequestsByNode(listing: seq<NodeJob>, byNode: map<string, NodeJob>, nodes: set<string>, md5: string)
    requires IsGrouping(byNode, listing) && DistinctIds(listing)
    ensures forall id :: id in DeleteRequests(listing, nodes, md5) <==>
      || IsDuplicate(listing, id)
      || exists n :: n in byNode && byNode[n].id == id && !(n in nodes && Keepable(byNode[n], md5))
  {
    forall id | id in DeleteRequests(listing, nodes, md5)
      ensures IsDuplicate(listing, id)
              || exists n :: n in byNode && byNode[n].id == id && !(n in nodes && Keepable(byNode[n], md5))
    {
      var i :| 0 <= i < |listing| && !Keeps(listing, nodes, md5, i) && listing[i].id == id;
      FirstOnIsFirst(listing, i);
      if IsFirst(listing, i) {
        assert byNode[listing[i].nodeName] == listing[i];
      }
    }
    forall id | IsDuplicate(listing, id) ensures id in DeleteRequests(listing, nodes, md5) {
      var i :| 0 <= i < |listing| && !IsFirst(listing, i) && listing[i].id == id;
      assert !Keeps(listing, nodes, md5, i);
    }
    forall n | n in byNode && !(n in nodes && Keepable(byNode[n], md5))
      ensures byNode[n].id in DeleteRequests(listing, nodes, md5)
    {
      var i :| 0 <= i < |listing| && listing[i] == byNode[n];
      FirstOnIsFirst(listing, i);
      assert !Keeps(listing, nodes, md5, i);
    }
  }
}
