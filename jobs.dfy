/** Resolving the job to fetch logs for (get_job_by_name, get_job_id).

    The run's job list comes from the hosting service as JSON; here it is a
    sequence of records holding the two fields the script reads. */
module Jobs {
  import opened Wrappers

  /** A job of a workflow run: its display name and numeric id. */
  datatype Job = Job(name: string, id: int)

  /** Some job in the list has exactly this name. */
  predicate HasJobNamed(jobs: seq<Job>, target: string)
  {
    exists j :: 0 <= j < |jobs| && jobs[j].name == target
  }

  /** k is the position of the first job named target. */
  predicate IsFirstMatch(jobs: seq<Job>, target: string, k: int)
  {
    0 <= k < |jobs| && jobs[k].name == target &&
    forall j :: 0 <= j < k ==> jobs[j].name != target
  }

  /** The first job in list order whose name equals target (case-sensitive,
      whole-string comparison), or None when there is none. */
  function FirstJobNamed(jobs: seq<Job>, target: string): (r: Option<Job>)
    ensures r.Some? ==> exists k :: IsFirstMatch(jobs, target, k) && jobs[k] == r.value
    ensures r.None? <==> !HasJobNamed(jobs, target)
  {
    if jobs == [] then None
    else if jobs[0].name == target then
      assert IsFirstMatch(jobs, target, 0);
      Some(jobs[0])
    else
      var r := FirstJobNamed(jobs[1..], target);
      if r.Some? then
        var k :| IsFirstMatch(jobs[1..], target, k) && jobs[1..][k] == r.value;
        assert IsFirstMatch(jobs, target, k + 1);
        r
      else
        assert !HasJobNamed(jobs, target) by {
          forall j | 0 <= j < |jobs| ensures jobs[j].name != target {
            if j > 0 { assert jobs[j] == jobs[1..][j - 1]; }
          }
        }
        r
  }

  /** At most one position is the first match. */
  lemma FirstMatchUnique(jobs: seq<Job>, target: string, k1: int, k2: int)
    requires IsFirstMatch(jobs, target, k1) && IsFirstMatch(jobs, target, k2)
    ensures k1 == k2
  {
  }

  /** Whatever position is the first match, FirstJobNamed returns the job there;
      with duplicates, later jobs of the same name are never chosen. */
  lemma FirstJobNamedAt(jobs: seq<Job>, target: string, k: int)
    requires IsFirstMatch(jobs, target, k)
    ensures FirstJobNamed(jobs, target) == Some(jobs[k])
  {
    var r := FirstJobNamed(jobs, target);
    assert HasJobNamed(jobs, target);
    var k' :| IsFirstMatch(jobs, target, k') && jobs[k'] == r.value;
    FirstMatchUnique(jobs, target, k, k');
  }

  /** The script's linear scan: return the first job whose name equals job_name,
      falling off the end (None) when no job matches. */
  method GetJobByName(jobName: string, jobList: seq<Job>) returns (r: Option<Job>)
    ensures r.Some? ==> exists k :: IsFirstMatch(jobList, jobName, k) && jobList[k] == r.value
    ensures r.None? <==> !HasJobNamed(jobList, jobName)
    ensures r == FirstJobNamed(jobList, jobName)
  {
    var i := 0;
    while i < |jobList|
      invariant 0 <= i <= |jobList|
      invariant forall j :: 0 <= j < i ==> jobList[j].name != jobName
    {
      if jobList[i].name == jobName {
        assert IsFirstMatch(jobList, jobName, i);
        FirstJobNamedAt(jobList, jobName, i);
        return Some(jobList[i]);
      }
      i := i + 1;
    }
    return None;
  }

  /** The id get_job_id returns: the id of the first job named jobName. The script
      reads the id field of the lookup's result, which fails when no job matches,
      so a match is required. */
  function JobId(jobs: seq<Job>, jobName: string): (id: int)
    requires HasJobNamed(jobs, jobName)
    ensures exists k :: IsFirstMatch(jobs, jobName, k) && jobs[k].id == id
  {
    FirstJobNamed(jobs, jobName).value.id
  }

  /** Two jobs named "build" (id 1) and "test" (id 2): "test" resolves to 2, and
      "deploy" resolves to nothing. */
  lemma ResolveExample()
    ensures FirstJobNamed([Job("build", 1), Job("test", 2)], "test") == Some(Job("test", 2)) &&
            JobId([Job("build", 1), Job("test", 2)], "test") == 2
    ensures FirstJobNamed([Job("build", 1), Job("test", 2)], "deploy") == None
  {
    var jobs := [Job("build", 1), Job("test", 2)];
    assert IsFirstMatch(jobs, "test", 1);
    FirstJobNamedAt(jobs, "test", 1);
  }
}
