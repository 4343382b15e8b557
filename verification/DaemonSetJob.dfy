/** The reconciler of DaemonSetJobs: one pass of manageDaemonSetJob over the jobs
    that carry the DaemonSetJob's label and the selected nodes
    (pkg/controller/daemonsetjob.go, job_control.go, common.go). */
module DaemonSetJob {
  import opened Prelude
  import opened DaemonSetConditions
  import W = WorkflowTypes

  type Labels = W.Labels
  type JobCondition = W.JobCondition

  const DAEMONSETJOB_LABEL_KEY := "kubernetes.io/DaemonSetJob"
  const DAEMONSETJOB_MD5_ANNOTATION_KEY := "workflow.k8s.io/jobspec-md5"

  /** id stands for the namespace and name a job is deleted by. */
  datatype NodeJob = NodeJob(
    id: string,
    nodeName: string,
    labels: Labels,
    annotations: Labels,
    conditions: seq<JobCondition>)

  datatype JobStatus = Active | Succeeded | JobHasFailed

  /** The fields of a DaemonSetJob with a job template that its jobs are made from.
      md5 is the hash of the template's spec that generateMD5JobSpec returns. */
  datatype Owner = Owner(
    name: string,
    selector: Labels,
    templateLabels: Labels,
    annotations: Labels,
    md5: string)

  // ----------------------------------------------------------------- single jobs

  /** getJobStatus: the first true condition of the two kinds decides. */
  function StatusOf(conditions: seq<JobCondition>): JobStatus {
    if conditions == [] then Active
    else if conditions[0].kind == W.JobFailed && conditions[0].isTrue then JobHasFailed
    else if conditions[0].kind == W.JobComplete && conditions[0].isTrue then Succeeded
    else StatusOf(conditions[1..])
  }

  /** cond is true and says that the job has failed, or completed. */
  predicate Says(cond: JobCondition, kind: W.JobConditionType) {
    cond.isTrue && cond.kind == kind
  }

  /** A true condition of the one kind stands before any true one of the other. */
  predicate SaysFirst(conditions: seq<JobCondition>, kind: W.JobConditionType, other: W.JobConditionType) {
    exists i :: 0 <= i < |conditions| && Says(conditions[i], kind)
                && forall j :: 0 <= j < i ==> !Says(conditions[j], other)
  }

  /** What the status means on the conditions: failed if a true Failed stands before any
      true Complete, succeeded the other way round, active if there is neither. */
  lemma {:induction false} StatusOfIff(conditions: seq<JobCondition>)
    ensures StatusOf(conditions) == JobHasFailed <==> SaysFirst(conditions, W.JobFailed, W.JobComplete)
    ensures StatusOf(conditions) == Succeeded <==> SaysFirst(conditions, W.JobComplete, W.JobFailed)
    ensures StatusOf(conditions) == Active <==>
      forall c :: c in conditions ==> !(c.isTrue && (c.kind == W.JobFailed || c.kind == W.JobComplete))
  {
    hide SaysFirst;
    if conditions == [] {
      assert !SaysFirst([], W.JobFailed, W.JobComplete) && !SaysFirst([], W.JobComplete, W.JobFailed) by {
        NothingSaid();
      }
    } else {
      StatusOfIff(conditions[1..]);
      StatusSkips(conditions, W.JobFailed, W.JobComplete);
      StatusSkips(conditions, W.JobComplete, W.JobFailed);
      assert conditions == [conditions[0]] + conditions[1..];
    }
  }

  lemma NothingSaid()
    ensures forall kind, other :: !SaysFirst([], kind, other)
  {
  }

  /** A first condition that says neither makes no difference. */
  lemma StatusSkips(conditions: seq<JobCondition>, kind: W.JobConditionType, other: W.JobConditionType)
    requires conditions != [] && kind != other
    ensures SaysFirst(conditions, kind, other) <==>
      Says(conditions[0], kind) || (!Says(conditions[0], other) && SaysFirst(conditions[1..], kind, other))
  {
    var rest := conditions[1..];
    if SaysFirst(conditions, kind, other) {
      var i :| 0 <= i < |conditions| && Says(conditions[i], kind) && forall j :: 0 <= j < i ==> !Says(conditions[j], other);
      if i > 0 {
        assert rest[i - 1] == conditions[i];
        assert forall j :: 0 <= j < i - 1 ==> rest[j] == conditions[j + 1];
      }
    }
    if !Says(conditions[0], other) && SaysFirst(rest, kind, other) {
      var i :| 0 <= i < |rest| && Says(rest[i], kind) && forall j :: 0 <= j < i ==> !Says(rest[j], other);
      assert conditions[i + 1] == rest[i];
      forall j | 0 <= j < i + 1 ensures !Says(conditions[j], other) {
        if j > 0 {
          assert rest[j - 1] == conditions[j];
        }
      }
    }
  }

  /** compareJobSpecMD5Hash */
  predicate IsCurrent(job: NodeJob, md5: string) {
    DAEMONSETJOB_MD5_ANNOTATION_KEY in job.annotations && job.annotations[DAEMONSETJOB_MD5_ANNOTATION_KEY] == md5
  }

  /** What the pass keeps on a selected node: a job of the current spec, or one of
      an older spec that failed. */
  predicate Keepable(job: NodeJob, md5: string) {
    IsCurrent(job, md5) || StatusOf(job.conditions) == JobHasFailed
  }

  predicate HasLabel(job: NodeJob, name: string) {
    DAEMONSETJOB_LABEL_KEY in job.labels && job.labels[DAEMONSETJOB_LABEL_KEY] == name
  }

  function JobLabels(o: Owner): Labels {
    (o.selector + o.templateLabels)[DAEMONSETJOB_LABEL_KEY := o.name]
  }

  /** CreateJobFromDaemonSetJob */
  function MakeJob(o: Owner, id: string, nodeName: string): NodeJob {
    NodeJob(id, nodeName, JobLabels(o), o.annotations[DAEMONSETJOB_MD5_ANNOTATION_KEY := o.md5], [])
  }

  /** A created job carries the node, the label and the hash the next pass looks
      for, whatever labels and annotations the owner has. */
  lemma MadeJobsAreKept(o: Owner, id: string, nodeName: string)
    ensures var j := MakeJob(o, id, nodeName);
      j.nodeName == nodeName && HasLabel(j, o.name) && IsCurrent(j, o.md5) && Keepable(j, o.md5)
  {
  }

  /** All of what a created job is made of: the selector's labels, over them the
      template's, and over both the name of the DaemonSetJob; its annotations, with the
      hash; and no condition yet. */
  lemma MadeJobIs(o: Owner, id: string, nodeName: string)
    ensures var j := MakeJob(o, id, nodeName);
      && j.id == id && j.nodeName == nodeName && j.conditions == []
      && j.labels.Keys == o.selector.Keys + o.templateLabels.Keys + {"kubernetes.io/DaemonSetJob"}
      && (forall k :: k in j.labels ==>
           j.labels[k] == if k == "kubernetes.io/DaemonSetJob" then o.name
                          else if k in o.templateLabels then o.templateLabels[k] else o.selector[k])
      && j.annotations.Keys == o.annotations.Keys + {"workflow.k8s.io/jobspec-md5"}
      && (forall k :: k in j.annotations ==>
           j.annotations[k] == if k == "workflow.k8s.io/jobspec-md5" then o.md5 else o.annotations[k])
  {
  }

  // ------------------------------------------------------- what a pass asks for

  ghost predicate IsFirst(listing: seq<NodeJob>, i: nat)
    requires i < |listing|
  {
    forall j :: 0 <= j < i ==> listing[j].nodeName != listing[i].nodeName
  }

  ghost predicate Keeps(listing: seq<NodeJob>, nodes: set<string>, md5: string, i: nat)
    requires i < |listing|
  {
    IsFirst(listing, i) && listing[i].nodeName in nodes && Keepable(listing[i], md5)
  }

  /** Every listed job is asked to be deleted, but the kept ones. */
  ghost function DeleteRequests(listing: seq<NodeJob>, nodes: set<string>, md5: string): set<string> {
    set i | 0 <= i < |listing| && !Keeps(listing, nodes, md5, i) :: listing[i].id
  }

  predicate HasListed(listing: seq<NodeJob>, node: string) {
    exists i :: 0 <= i < |listing| && listing[i].nodeName == node
  }

  /** A job is asked for on every selected node that has none, not even one that
      the same pass deletes. */
  function CreateRequests(listing: seq<NodeJob>, nodes: set<string>): set<string> {
    set n | n in nodes && !HasListed(listing, n)
  }

  function Without(jobs: set<NodeJob>, ids: set<string>): set<NodeJob> {
    set j | j in jobs && j.id !in ids
  }

  /** newId gives the name of the job created on a node, or None for an error. */
  function NewJobs(o: Owner, nodes: set<string>, newId: string -> Option<string>): set<NodeJob> {
    set n | n in nodes && newId(n).Some? :: MakeJob(o, newId(n).value, n)
  }

  ghost predicate DistinctIds(listing: seq<NodeJob>) {
    forall i, j :: 0 <= i < j < |listing| ==> listing[i].id != listing[j].id
  }

  /** The API server does not reuse the name of a listed job. */
  ghost predicate FreshNames(listing: seq<NodeJob>, newId: string -> Option<string>) {
    forall n, i :: 0 <= i < |listing| ==> newId(n) != Some(listing[i].id)
  }

  // ------------------------------------------------------------------ the counts

  /** The job the grouping keeps for a node: the first one listed, or None. */
  function FirstOn(listing: seq<NodeJob>, node: string): (r: Option<NodeJob>)
    ensures r.Some? ==> r.value in listing && r.value.nodeName == node
    ensures r.Some? <==> HasListed(listing, node)
  {
    if listing == [] then None
    else if listing[0].nodeName == node then Some(listing[0])
    else
      assert forall i :: 0 <= i < |listing[1..]| ==> listing[1..][i] == listing[i + 1];
      FirstOn(listing[1..], node)
  }

  lemma {:induction false} FirstIsFirstOn(listing: seq<NodeJob>, i: nat)
    requires i < |listing| && IsFirst(listing, i)
    ensures FirstOn(listing, listing[i].nodeName) == Some(listing[i])
  {
    if i > 0 {
      var rest := listing[1..];
      assert forall k :: 0 <= k < |rest| ==> rest[k] == listing[k + 1];
      FirstIsFirstOn(rest, i - 1);
    }
  }

  /** The first index of a node. */
  lemma {:induction false} FirstOnHasIndex(listing: seq<NodeJob>, node: string) returns (i: nat)
    requires HasListed(listing, node)
    ensures i < |listing| && listing[i].nodeName == node && IsFirst(listing, i)
  {
    i := 0;
    while listing[i].nodeName != node
      invariant i < |listing|
      invariant forall j :: 0 <= j < i ==> listing[j].nodeName != node
      decreases |listing| - i
    {
      i := i + 1;
    }
  }

  lemma FirstOnIsFirst(listing: seq<NodeJob>, i: nat)
    requires i < |listing|
    ensures IsFirst(listing, i) ==> FirstOn(listing, listing[i].nodeName) == Some(listing[i])
    ensures DistinctIds(listing) && FirstOn(listing, listing[i].nodeName) == Some(listing[i]) ==> IsFirst(listing, i)
  {
    if IsFirst(listing, i) {
      FirstIsFirstOn(listing, i);
    } else {
      var k := FirstOnHasIndex(listing, listing[i].nodeName);
      FirstIsFirstOn(listing, k);
    }
  }

  predicate CountsOn(listing: seq<NodeJob>, md5: string, node: string) {
    FirstOn(listing, node).Some? && IsCurrent(FirstOn(listing, node).value, md5)
  }

  /** The jobs the status counts, in the order of the nodes. */
  function Counted(listing: seq<NodeJob>, nodes: seq<string>, md5: string): seq<NodeJob> {
    if nodes == [] then []
    else
      var n := nodes[|nodes| - 1];
      Counted(listing, nodes[..|nodes| - 1], md5)
      + if CountsOn(listing, md5, n) then [FirstOn(listing, n).value] else []
  }

  function Count(jobs: seq<NodeJob>, status: JobStatus): nat {
    if jobs == [] then 0
    else Count(jobs[..|jobs| - 1], status) + if StatusOf(jobs[|jobs| - 1].conditions) == status then 1 else 0
  }

  lemma {:induction false} CountsAddUp(jobs: seq<NodeJob>)
    ensures Count(jobs, Active) + Count(jobs, Succeeded) + Count(jobs, JobHasFailed) == |jobs|
  {
    if jobs != [] {
      CountsAddUp(jobs[..|jobs| - 1]);
    }
  }

  lemma {:induction false} CountedLength(listing: seq<NodeJob>, nodes: seq<string>, md5: string)
    requires NoDup(nodes)
    ensures |Counted(listing, nodes, md5)| == |set n | n in nodes && CountsOn(listing, md5, n)|
  {
    hide CountsOn, FirstOn;
    if nodes != [] {
      var init, n := nodes[..|nodes| - 1], nodes[|nodes| - 1];
      CountedLength(listing, init, md5);
      var before := set m | m in init && CountsOn(listing, md5, m);
      assert nodes == init + [n] && n !in init;
      assert (set m | m in nodes && CountsOn(listing, md5, m))
             == before + if CountsOn(listing, md5, n) then {n} else {};
    }
  }

  /** Active + Succeeded + Failed is the number of selected nodes whose kept job
      has the current hash. */
  lemma CountedIsCurrentNodes(listing: seq<NodeJob>, nodes: seq<string>, md5: string)
    requires NoDup(nodes)
    ensures var c := Counted(listing, nodes, md5);
      Count(c, Active) + Count(c, Succeeded) + Count(c, JobHasFailed) == |set n | n in nodes && CountsOn(listing, md5, n)|
  {
    CountsAddUp(Counted(listing, nodes, md5));
    CountedLength(listing, nodes, md5);
  }

  /** The node's first listed job has the current hash and the status. */
  predicate HasCurrent(listing: seq<NodeJob>, md5: string, node: string, status: JobStatus) {
    exists i :: 0 <= i < |listing| && listing[i].nodeName == node
                && (forall j :: 0 <= j < i ==> listing[j].nodeName != node)
                && DAEMONSETJOB_MD5_ANNOTATION_KEY in listing[i].annotations
                && listing[i].annotations[DAEMONSETJOB_MD5_ANNOTATION_KEY] == md5
                && StatusOf(listing[i].conditions) == status
  }

  lemma CountsIffCurrent(listing: seq<NodeJob>, md5: string, node: string, status: JobStatus)
    ensures CountsOn(listing, md5, node) && StatusOf(FirstOn(listing, node).value.conditions) == status
            <==> HasCurrent(listing, md5, node, status)
  {
    hide FirstOn, StatusOf;
    if HasListed(listing, node) {
      var i := FirstOnHasIndex(listing, node);
      FirstIsFirstOn(listing, i);
      assert FirstOn(listing, node) == Some(listing[i]);
      forall k | 0 <= k < |listing| && listing[k].nodeName == node && (forall j :: 0 <= j < k ==> listing[j].nodeName != node)
        ensures k == i
      {
      }
    }
  }

  lemma CountNextCurrent(listing: seq<NodeJob>, nodes: seq<string>, md5: string, status: JobStatus)
    requires nodes != []
    ensures var init, n := nodes[..|nodes| - 1], nodes[|nodes| - 1];
      Count(Counted(listing, nodes, md5), status)
      == Count(Counted(listing, init, md5), status) + if HasCurrent(listing, md5, n, status) then 1 else 0
  {
    hide CountsOn, FirstOn, HasCurrent, StatusOf;
    var n, counted := nodes[|nodes| - 1], Counted(listing, nodes[..|nodes| - 1], md5);
    CountsIffCurrent(listing, md5, n, status);
    CountsIsListed(listing, md5, n);
    if CountsOn(listing, md5, n) {
      var c := counted + [FirstOn(listing, n).value];
      assert c[..|c| - 1] == counted;
    } else {
      assert counted + [] == counted;
    }
  }

  /** The nodes whose first listed job is of the current spec and has the status. */
  function CurrentNodes(listing: seq<NodeJob>, nodes: seq<string>, md5: string, status: JobStatus): set<string> {
    set n | n in nodes && HasCurrent(listing, md5, n, status)
  }

  lemma CurrentNextNode(listing: seq<NodeJob>, nodes: seq<string>, md5: string, status: JobStatus)
    requires nodes != [] && NoDup(nodes)
    ensures var init, n := nodes[..|nodes| - 1], nodes[|nodes| - 1];
      |CurrentNodes(listing, nodes, md5, status)|
      == |CurrentNodes(listing, init, md5, status)| + if HasCurrent(listing, md5, n, status) then 1 else 0
  {
    hide HasCurrent, NoDup;
    var init, n := nodes[..|nodes| - 1], nodes[|nodes| - 1];
    LastIsNew(nodes);
    var before := CurrentNodes(listing, init, md5, status);
    if HasCurrent(listing, md5, n, status) {
      assert CurrentNodes(listing, nodes, md5, status) == before + {n};
    } else {
      assert CurrentNodes(listing, nodes, md5, status) == before;
    }
  }

  lemma LastIsNew(nodes: seq<string>)
    requires nodes != [] && NoDup(nodes)
    ensures var init, n := nodes[..|nodes| - 1], nodes[|nodes| - 1];
      n !in init && forall m :: m in nodes <==> m in init || m == n
  {
    assert nodes == nodes[..|nodes| - 1] + [nodes[|nodes| - 1]];
  }

  /** Each of the three numbers is that of the selected nodes whose first listed job is
      of the current spec and has the status. */
  lemma {:induction false} CountsAre(listing: seq<NodeJob>, nodes: seq<string>, md5: string, status: JobStatus)
    requires NoDup(nodes)
    ensures Count(Counted(listing, nodes, md5), status) == |CurrentNodes(listing, nodes, md5, status)|
  {
    hide Count, Counted, HasCurrent, CurrentNodes;
    if nodes == [] {
      NoneCountedAtAll(listing, md5, status);
    } else {
      CountsAre(listing, nodes[..|nodes| - 1], md5, status);
      CountNextCurrent(listing, nodes, md5, status);
      CurrentNextNode(listing, nodes, md5, status);
    }
  }

  lemma NoneCountedAtAll(listing: seq<NodeJob>, md5: string, status: JobStatus)
    ensures Count(Counted(listing, [], md5), status) == 0 == |CurrentNodes(listing, [], md5, status)|
  {
    assert CurrentNodes(listing, [], md5, status) == {};
  }

  lemma CountsIsListed(listing: seq<NodeJob>, md5: string, node: string)
    ensures CountsOn(listing, md5, node) ==> FirstOn(listing, node).Some?
  {
  }

  /** The job that counts for the node is still active. */
  predicate ActiveOn(listing: seq<NodeJob>, md5: string, node: string) {
    CountsOn(listing, md5, node) && StatusOf(FirstOn(listing, node).value.conditions) == Active
  }

  lemma CountNextNode(listing: seq<NodeJob>, nodes: seq<string>, md5: string)
    requires nodes != []
    ensures var init, n := nodes[..|nodes| - 1], nodes[|nodes| - 1];
      Count(Counted(listing, nodes, md5), Active)
      == Count(Counted(listing, init, md5), Active) + if ActiveOn(listing, md5, n) then 1 else 0
  {
    hide FirstOn, StatusOf, IsCurrent;
    var n, before := nodes[|nodes| - 1], Counted(listing, nodes[..|nodes| - 1], md5);
    if CountsOn(listing, md5, n) {
      var c := before + [FirstOn(listing, n).value];
      assert c[..|c| - 1] == before;
    } else {
      assert before + [] == before;
    }
  }

  /** The pass reports completion exactly if no selected node's first listed job is
      current and active; nodes that just get their job, or wait for a stale one,
      do not hold it back. */
  lemma {:induction false} CompleteFlagIff(listing: seq<NodeJob>, nodes: seq<string>, md5: string)
    ensures Count(Counted(listing, nodes, md5), Active) == 0 <==> forall n :: n in nodes ==> !ActiveOn(listing, md5, n)
  {
    hide ActiveOn, Counted, Count;
    if nodes == [] {
      NoneCounted(listing, md5);
    } else {
      var init, n := nodes[..|nodes| - 1], nodes[|nodes| - 1];
      CompleteFlagIff(listing, init, md5);
      CountNextNode(listing, nodes, md5);
      assert nodes == init + [n];
    }
  }

  lemma NoneCounted(listing: seq<NodeJob>, md5: string)
    ensures Count(Counted(listing, [], md5), Active) == 0
  {
  }

  /** The job that counts for the node has finished. */
  predicate DoneOn(listing: seq<NodeJob>, md5: string, node: string) {
    CountsOn(listing, md5, node) && StatusOf(FirstOn(listing, node).value.conditions) != Active
  }

  /** With nothing listed, a pass asks for a job on every selected node, counts none
      of them, and reports completion in the same breath. */
  lemma CompleteOnCreation(nodes: seq<string>, md5: string)
    ensures CreateRequests([], Elements(nodes)) == Elements(nodes)
    ensures Count(Counted([], nodes, md5), Active) == 0
  {
    CompleteFlagIff([], nodes, md5);
  }

  /** The job of every selected node has finished exactly if completion is reported
      and the first job listed for each node is of the current spec; a reported
      completion alone says nothing while jobs are missing, or of an older spec. */
  lemma AllDoneIff(listing: seq<NodeJob>, nodes: seq<string>, md5: string)
    ensures (forall n :: n in nodes ==> DoneOn(listing, md5, n)) <==>
      Count(Counted(listing, nodes, md5), Active) == 0 && forall n :: n in nodes ==> CountsOn(listing, md5, n)
  {
    hide Count, Counted, FirstOn, StatusOf;
    CompleteFlagIff(listing, nodes, md5);
    forall n | n in nodes ensures DoneOn(listing, md5, n) <==> CountsOn(listing, md5, n) && !ActiveOn(listing, md5, n) {
    }
  }
}
