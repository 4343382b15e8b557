/** Convergence of a DaemonSetJob: passes over fixed nodes, a fixed spec and jobs
    that do not change status, with a label map, and calls that succeed and are
    visible in the next listing. */
module DaemonSetConvergence {
  import opened Prelude
  import opened DaemonSetJob
  import W = WorkflowTypes

  function Own(jobs: set<NodeJob>, name: string): set<NodeJob> {
    set j | j in jobs && HasLabel(j, name)
  }

  ghost predicate UniqueIds(jobs: set<NodeJob>) {
    forall j, k :: j in jobs && k in jobs && j.id == k.id ==> j == k
  }

  /** Some order of the jobs that carry the label. */
  ghost predicate ExactListing(listing: seq<NodeJob>, jobs: set<NodeJob>, name: string) {
    Elements(listing) == Own(jobs, name) && NoDup(listing)
  }

  /** The API server creates every job, under a name of its own. */
  ghost predicate GoodNames(newId: string -> Option<string>, jobs: set<NodeJob>) {
    && (forall n :: newId(n).Some?)
    && (forall n, j :: j in jobs ==> newId(n) != Some(j.id))
    && (forall n, m :: n != m ==> newId(n) != newId(m))
  }

  /** What manageDaemonSetJob leaves of the cluster's jobs when no call fails and it
      does not panic. */
  ghost function PassResult(
    jobs: set<NodeJob>, listing: seq<NodeJob>, nodes: set<string>, o: Owner, newId: string -> Option<string>): set<NodeJob>
  {
    Without(jobs, DeleteRequests(listing, nodes, o.md5)) + NewJobs(o, CreateRequests(listing, nodes), newId)
  }

  ghost function KeptJobs(listing: seq<NodeJob>, nodes: set<string>, md5: string): set<NodeJob> {
    set i | 0 <= i < |listing| && Keeps(listing, nodes, md5, i) :: listing[i]
  }

  lemma ExactIds(listing: seq<NodeJob>, jobs: set<NodeJob>, name: string)
    requires ExactListing(listing, jobs, name) && UniqueIds(jobs)
    ensures DistinctIds(listing)
  {
    forall i, j | 0 <= i < j < |listing| ensures listing[i].id != listing[j].id {
      assert listing[i] in Elements(listing) && listing[j] in Elements(listing);
    }
  }

  /** One pass leaves, of the label's jobs, exactly the first listed job of each
      selected node if it is current or failed, and one new job per selected
      node that had none; jobs without the label are untouched. */
  lemma PassLeavesExactly(
    jobs: set<NodeJob>, listing: seq<NodeJob>, nodes: set<string>, o: Owner, newId: string -> Option<string>)
    requires ExactListing(listing, jobs, o.name) && UniqueIds(jobs) && GoodNames(newId, jobs)
    ensures var after := PassResult(jobs, listing, nodes, o, newId);
      && Own(after, o.name) == KeptJobs(listing, nodes, o.md5) + NewJobs(o, CreateRequests(listing, nodes), newId)
      && after - Own(after, o.name) == jobs - Own(jobs, o.name)
      && UniqueIds(after)
  {
    hide Keepable;
    var after, new' := PassResult(jobs, listing, nodes, o, newId), NewJobs(o, CreateRequests(listing, nodes), newId);
    ExactIds(listing, jobs, o.name);
    NewJobsAreOwn(o, CreateRequests(listing, nodes), newId);
    forall i | 0 <= i < |listing|
      ensures listing[i] in Own(jobs, o.name)
      ensures listing[i].id in DeleteRequests(listing, nodes, o.md5) <==> !Keeps(listing, nodes, o.md5, i)
    {
      assert listing[i] in Elements(listing);
      RequestedIffNotKept(listing, nodes, o.md5, i);
    }
    forall j | j in jobs ensures j in after <==> !HasLabel(j, o.name) || j in KeptJobs(listing, nodes, o.md5) {
      NewIsFresh(o, CreateRequests(listing, nodes), newId, jobs, j);
      if HasLabel(j, o.name) {
        assert j in Elements(listing);
        var i :| 0 <= i < |listing| && listing[i] == j;
      } else {
        forall i | 0 <= i < |listing| ensures listing[i].id != j.id {
          assert listing[i] in Own(jobs, o.name) && listing[i] != j;
        }
      }
    }
    NewIdsDiffer(o, CreateRequests(listing, nodes), newId, jobs);
  }

  lemma RequestedIffNotKept(listing: seq<NodeJob>, nodes: set<string>, md5: string, i: nat)
    requires DistinctIds(listing) && i < |listing|
    ensures listing[i].id in DeleteRequests(listing, nodes, md5) <==> !Keeps(listing, nodes, md5, i)
  {
    if listing[i].id in DeleteRequests(listing, nodes, md5) {
      var k :| 0 <= k < |listing| && !Keeps(listing, nodes, md5, k) && listing[k].id == listing[i].id;
      assert k == i;
    }
  }

  lemma NewJobsAreOwn(o: Owner, nodes: set<string>, newId: string -> Option<string>)
    ensures forall j :: j in NewJobs(o, nodes, newId) ==>
      HasLabel(j, o.name) && j.nodeName in nodes && Keepable(j, o.md5) && newId(j.nodeName) == Some(j.id)
  {
    forall j | j in NewJobs(o, nodes, newId)
      ensures HasLabel(j, o.name) && j.nodeName in nodes && Keepable(j, o.md5) && newId(j.nodeName) == Some(j.id)
    {
      var n :| n in nodes && newId(n).Some? && j == MakeJob(o, newId(n).value, n);
      MadeJobsAreKept(o, newId(n).value, n);
    }
  }

  lemma NewIsFresh(o: Owner, nodes: set<string>, newId: string -> Option<string>, jobs: set<NodeJob>, j: NodeJob)
    requires GoodNames(newId, jobs) && j in jobs
    ensures j !in NewJobs(o, nodes, newId)
  {
    NewJobsAreOwn(o, nodes, newId);
  }

  lemma NewIdsDiffer(o: Owner, nodes: set<string>, newId: string -> Option<string>, jobs: set<NodeJob>)
    requires GoodNames(newId, jobs) && UniqueIds(jobs)
    ensures UniqueIds(jobs + NewJobs(o, nodes, newId))
  {
    var new' := NewJobs(o, nodes, newId);
    NewJobsAreOwn(o, nodes, newId);
    forall j, k | j in new' && k in new' && j.id == k.id ensures j == k {
      var n :| n in nodes && newId(n).Some? && j == MakeJob(o, newId(n).value, n);
      var m :| m in nodes && newId(m).Some? && k == MakeJob(o, newId(m).value, m);
      assert newId(n) == newId(m);
    }
  }

  /** Which of the label's jobs a pass leaves: the first one listed on a selected node,
      if it has the current hash, or has failed, that is, a true Failed stands before any
      true Complete among its conditions. So a stale job that succeeded goes, and one
      that failed stays. */
  lemma JobSurvivesIff(
    jobs: set<NodeJob>, listing: seq<NodeJob>, nodes: set<string>, o: Owner, newId: string -> Option<string>, i: nat)
    requires ExactListing(listing, jobs, o.name) && UniqueIds(jobs) && GoodNames(newId, jobs) && i < |listing|
    ensures listing[i] in PassResult(jobs, listing, nodes, o, newId) <==>
      && listing[i].nodeName in nodes && (forall j :: 0 <= j < i ==> listing[j].nodeName != listing[i].nodeName)
      && ((DAEMONSETJOB_MD5_ANNOTATION_KEY in listing[i].annotations
           && listing[i].annotations[DAEMONSETJOB_MD5_ANNOTATION_KEY] == o.md5)
          || SaysFirst(listing[i].conditions, W.JobFailed, W.JobComplete))
  {
    hide ExactListing, UniqueIds, GoodNames, StatusOf, PassResult, NewJobs, HasLabel, SaysFirst;
    var job, after := listing[i], PassResult(jobs, listing, nodes, o, newId);
    StatusOfIff(job.conditions);
    PassLeavesExactly(jobs, listing, nodes, o, newId);
    ListedIsOwn(listing, jobs, o.name, i);
    NewIsFresh(o, CreateRequests(listing, nodes), newId, jobs, job);
    KeptIffKeeps(listing, jobs, nodes, o, i);
    assert job in after <==> job in Own(after, o.name);
  }

  lemma ListedIsOwn(listing: seq<NodeJob>, jobs: set<NodeJob>, name: string, i: nat)
    requires ExactListing(listing, jobs, name) && i < |listing|
    ensures listing[i] in jobs && HasLabel(listing[i], name)
  {
    assert listing[i] in Elements(listing);
  }

  lemma KeptIffKeeps(listing: seq<NodeJob>, jobs: set<NodeJob>, nodes: set<string>, o: Owner, i: nat)
    requires ExactListing(listing, jobs, o.name) && i < |listing|
    ensures listing[i] in KeptJobs(listing, nodes, o.md5) <==> Keeps(listing, nodes, o.md5, i)
  {
    hide Keepable;
    if listing[i] in KeptJobs(listing, nodes, o.md5) {
      var k :| 0 <= k < |listing| && Keeps(listing, nodes, o.md5, k) && listing[k] == listing[i];
      assert k == i;
    }
  }

  // ----------------------------------------------------------------- convergence

  /** The label's jobs are one per node, on selected nodes, and not to be replaced. */
  ghost predicate Tidy(jobs: set<NodeJob>, nodes: set<string>, o: Owner) {
    && (forall j :: j in Own(jobs, o.name) ==> j.nodeName in nodes && Keepable(j, o.md5))
    && forall j, k :: j in Own(jobs, o.name) && k in Own(jobs, o.name) && j.nodeName == k.nodeName ==> j == k
  }

  ghost predicate Covered(jobs: set<NodeJob>, nodes: set<string>, o: Owner) {
    forall n :: n in nodes ==> exists j :: j in Own(jobs, o.name) && j.nodeName == n
  }

  lemma KeptAreFirst(listing: seq<NodeJob>, nodes: set<string>, md5: string)
    ensures forall j :: j in KeptJobs(listing, nodes, md5) ==>
      j.nodeName in nodes && Keepable(j, md5) && HasListed(listing, j.nodeName)
    ensures var kept := KeptJobs(listing, nodes, md5);
      forall j, k :: j in kept && k in kept && j.nodeName == k.nodeName ==> j == k
  {
    forall j, k | j in KeptJobs(listing, nodes, md5) && k in KeptJobs(listing, nodes, md5) && j.nodeName == k.nodeName
      ensures j == k
    {
      var a :| 0 <= a < |listing| && Keeps(listing, nodes, md5, a) && listing[a] == j;
      var b :| 0 <= b < |listing| && Keeps(listing, nodes, md5, b) && listing[b] == k;
    }
  }

  /** Any pass tidies. */
  lemma PassTidies(
    jobs: set<NodeJob>, listing: seq<NodeJob>, nodes: set<string>, o: Owner, newId: string -> Option<string>)
    requires ExactListing(listing, jobs, o.name) && UniqueIds(jobs) && GoodNames(newId, jobs)
    ensures Tidy(PassResult(jobs, listing, nodes, o, newId), nodes, o)
    ensures UniqueIds(PassResult(jobs, listing, nodes, o, newId))
  {
    hide Keepable, PassResult, KeptJobs;
    PassLeavesExactly(jobs, listing, nodes, o, newId);
    KeptAreFirst(listing, nodes, o.md5);
    NewJobsAreOwn(o, CreateRequests(listing, nodes), newId);
    forall j, k | j in NewJobs(o, CreateRequests(listing, nodes), newId)
                  && k in NewJobs(o, CreateRequests(listing, nodes), newId) && j.nodeName == k.nodeName
      ensures j == k
    {
    }
  }

  /** Among tidy jobs a pass deletes nothing, and covers the nodes that lack a job. */
  lemma TidyPassCovers(
    jobs: set<NodeJob>, listing: seq<NodeJob>, nodes: set<string>, o: Owner, newId: string -> Option<string>)
    requires ExactListing(listing, jobs, o.name) && GoodNames(newId, jobs)
    requires Tidy(jobs, nodes, o)
    ensures DeleteRequests(listing, nodes, o.md5) == {}
    ensures Covered(PassResult(jobs, listing, nodes, o, newId), nodes, o)
  {
    hide Keepable, HasLabel;
    forall i | 0 <= i < |listing| ensures Keeps(listing, nodes, o.md5, i) {
      forall j | 0 <= j <= i ensures listing[j] in Own(jobs, o.name) {
        assert listing[j] in Elements(listing);
      }
    }
    var after := PassResult(jobs, listing, nodes, o, newId);
    NewJobsAreOwn(o, CreateRequests(listing, nodes), newId);
    forall n | n in nodes ensures exists j :: j in Own(after, o.name) && j.nodeName == n {
      if HasListed(listing, n) {
        var i :| 0 <= i < |listing| && listing[i].nodeName == n;
        assert listing[i] in Elements(listing);
        assert listing[i] in Own(after, o.name);
      } else {
        var j := MakeJob(o, newId(n).value, n);
        assert n in CreateRequests(listing, nodes) && j in NewJobs(o, CreateRequests(listing, nodes), newId);
        assert j in Own(after, o.name) && j.nodeName == n;
      }
    }
  }

  /** Once tidy and covered, a pass asks for nothing. */
  lemma SettledPassIsIdle(
    jobs: set<NodeJob>, listing: seq<NodeJob>, nodes: set<string>, o: Owner, newId: string -> Option<string>)
    requires ExactListing(listing, jobs, o.name) && GoodNames(newId, jobs)
    requires Tidy(jobs, nodes, o) && Covered(jobs, nodes, o)
    ensures DeleteRequests(listing, nodes, o.md5) == {} && CreateRequests(listing, nodes) == {}
    ensures PassResult(jobs, listing, nodes, o, newId) == jobs
  {
    hide Keepable, HasLabel;
    TidyPassCovers(jobs, listing, nodes, o, newId);
    forall n | n in nodes ensures HasListed(listing, n) {
      var j :| j in Own(jobs, o.name) && j.nodeName == n;
      assert j in Elements(listing);
      var i :| 0 <= i < |listing| && listing[i] == j;
    }
  }

  /** From any jobs whatever: two passes leave every selected node with exactly one
      of the label's jobs, current or failed, and no other; a third does nothing. */
  lemma ConvergesInTwoPasses(
    jobs0: set<NodeJob>, listing0: seq<NodeJob>, newId0: string -> Option<string>,
    listing1: seq<NodeJob>, newId1: string -> Option<string>,
    listing2: seq<NodeJob>, newId2: string -> Option<string>, nodes: set<string>, o: Owner)
    requires UniqueIds(jobs0) && ExactListing(listing0, jobs0, o.name) && GoodNames(newId0, jobs0)
    requires var jobs1 := PassResult(jobs0, listing0, nodes, o, newId0);
      ExactListing(listing1, jobs1, o.name) && GoodNames(newId1, jobs1)
    requires var jobs2 := PassResult(PassResult(jobs0, listing0, nodes, o, newId0), listing1, nodes, o, newId1);
      ExactListing(listing2, jobs2, o.name) && GoodNames(newId2, jobs2)
    ensures var jobs2 := PassResult(PassResult(jobs0, listing0, nodes, o, newId0), listing1, nodes, o, newId1);
      && Tidy(jobs2, nodes, o) && Covered(jobs2, nodes, o)
      && DeleteRequests(listing2, nodes, o.md5) == {} && CreateRequests(listing2, nodes) == {}
      && PassResult(jobs2, listing2, nodes, o, newId2) == jobs2
  {
    hide PassResult, Tidy, Covered, ExactListing, GoodNames, UniqueIds, DeleteRequests, CreateRequests;
    var jobs1 := PassResult(jobs0, listing0, nodes, o, newId0);
    PassTidies(jobs0, listing0, nodes, o, newId0);
    PassTidies(jobs1, listing1, nodes, o, newId1);
    TidyPassCovers(jobs1, listing1, nodes, o, newId1);
    SettledPassIsIdle(PassResult(jobs1, listing1, nodes, o, newId1), listing2, nodes, o, newId2);
  }

  /** One pass is enough exactly if no selected node has a first listed job that is
      to be replaced: such a job is only deleted, and its node left without. */
  lemma OnePassEnoughIff(
    jobs: set<NodeJob>, listing: seq<NodeJob>, nodes: set<string>, o: Owner, newId: string -> Option<string>)
    requires ExactListing(listing, jobs, o.name) && UniqueIds(jobs) && GoodNames(newId, jobs)
    ensures Covered(PassResult(jobs, listing, nodes, o, newId), nodes, o)
            <==> forall n :: n in nodes && HasListed(listing, n) ==> Keepable(FirstOn(listing, n).value, o.md5)
  {
    hide Keepable, PassResult, HasLabel;
    var after := PassResult(jobs, listing, nodes, o, newId);
    PassLeavesExactly(jobs, listing, nodes, o, newId);
    NewJobsAreOwn(o, CreateRequests(listing, nodes), newId);
    ExactIds(listing, jobs, o.name);
    forall n | n in nodes
      ensures (exists j :: j in Own(after, o.name) && j.nodeName == n)
              <==> (HasListed(listing, n) ==> Keepable(FirstOn(listing, n).value, o.md5))
    {
      NodeCoveredIff(listing, nodes, o, newId, n);
    }
  }

  lemma NodeCoveredIff(listing: seq<NodeJob>, nodes: set<string>, o: Owner, newId: string -> Option<string>, n: string)
    requires DistinctIds(listing) && n in nodes && newId(n).Some?
    ensures var left := KeptJobs(listing, nodes, o.md5) + NewJobs(o, CreateRequests(listing, nodes), newId);
      (exists j: NodeJob :: j in left && j.nodeName == n)
      <==> (HasListed(listing, n) ==> Keepable(FirstOn(listing, n).value, o.md5))
  {
    hide Keepable;
    var kept, new' := KeptJobs(listing, nodes, o.md5), NewJobs(o, CreateRequests(listing, nodes), newId);
    NewJobsAreOwn(o, CreateRequests(listing, nodes), newId);
    if HasListed(listing, n) {
      var first := FirstOn(listing, n).value;
      var i :| 0 <= i < |listing| && listing[i] == first;
      FirstOnIsFirst(listing, i);
      if Keepable(first, o.md5) {
        assert Keeps(listing, nodes, o.md5, i);
        assert first in kept;
      }
      forall j: NodeJob | j in kept + new' && j.nodeName == n ensures Keepable(first, o.md5) {
        assert j in kept;
        var k :| 0 <= k < |listing| && Keeps(listing, nodes, o.md5, k) && listing[k] == j;
        FirstOnIsFirst(listing, k);
      }
    } else {
      var j := MakeJob(o, newId(n).value, n);
      assert j in new' && j.nodeName == n;
    }
  }

  // ------------------------------------------------------------ several DaemonSetJobs

  /** A pass leaves the jobs of every DaemonSetJob of another name as they are, and so
      what it has converged to. */
  lemma OtherNamesUntouched(
    jobs: set<NodeJob>, listing: seq<NodeJob>, nodes: set<string>, o: Owner, newId: string -> Option<string>,
    otherNodes: set<string>, other: Owner)
    requires ExactListing(listing, jobs, o.name) && UniqueIds(jobs) && GoodNames(newId, jobs) && other.name != o.name
    ensures var after := PassResult(jobs, listing, nodes, o, newId);
      && Own(after, other.name) == Own(jobs, other.name)
      && (Tidy(after, otherNodes, other) <==> Tidy(jobs, otherNodes, other))
      && (Covered(after, otherNodes, other) <==> Covered(jobs, otherNodes, other))
  {
    hide PassResult, Keepable, ExactListing, GoodNames, UniqueIds, NewJobs;
    var after := PassResult(jobs, listing, nodes, o, newId);
    PassLeavesExactly(jobs, listing, nodes, o, newId);
    forall j | HasLabel(j, other.name) ensures j in after <==> j in jobs {
      assert !HasLabel(j, o.name);
      assert j in after - Own(after, o.name) <==> j in jobs - Own(jobs, o.name);
    }
    assert Own(after, other.name) == Own(jobs, other.name);
  }

  /** The names are all that keeps them apart, for the lister is asked in no namespace:
      of two DaemonSetJobs of one name, in two namespaces and with different job specs,
      a pass of the second deletes all that a pass of the first has just created. */
  lemma SameNameDeletes(
    jobs: set<NodeJob>, listing: seq<NodeJob>, nodes: set<string>, o: Owner, newId: string -> Option<string>,
    listing': seq<NodeJob>, nodes': set<string>, o': Owner, newId': string -> Option<string>)
    requires o'.name == o.name && o'.md5 != o.md5
    requires UniqueIds(jobs) && ExactListing(listing, jobs, o.name) && GoodNames(newId, jobs)
    requires var jobs1 := PassResult(jobs, listing, nodes, o, newId);
      ExactListing(listing', jobs1, o.name) && GoodNames(newId', jobs1)
    ensures var jobs1 := PassResult(jobs, listing, nodes, o, newId);
      var made := NewJobs(o, CreateRequests(listing, nodes), newId);
      made <= jobs1 && made !! PassResult(jobs1, listing', nodes', o', newId')
  {
    hide ExactListing, GoodNames, UniqueIds;
    var jobs1, made := PassResult(jobs, listing, nodes, o, newId), NewJobs(o, CreateRequests(listing, nodes), newId);
    PassTidies(jobs, listing, nodes, o, newId);
    PassTidies(jobs1, listing', nodes', o', newId');
    forall j | j in made ensures HasLabel(j, o.name) && !Keepable(j, o'.md5) {
      var n :| n in CreateRequests(listing, nodes) && newId(n).Some? && j == MakeJob(o, newId(n).value, n);
    }
  }
}
