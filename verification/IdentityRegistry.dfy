/** The registry of libvirt domains: which domain owns a host task. */
module IdentityRegistry {
  import opened Machine

  datatype DomainSource = Xml | Lifecycle
  datatype TaskIdentity = TaskIdentity(task: int, start: Option<nat>)
  datatype VcpuThread = VcpuThread(tid: int, vcpu: int)

  datatype Domain = Domain(name: string, uuid: string, qmpSocket: Option<string>, pids: seq<int>, tids: seq<int>,
                           vcpus: seq<VcpuThread>, identities: seq<TaskIdentity>, source: DomainSource)

  // --- Queries about one domain ---

  predicate HasTask(d: Domain, task: int) {
    || task in d.pids
    || task in d.tids
    || (exists i :: 0 <= i < |d.vcpus| && d.vcpus[i].tid == task)
    || (exists i :: 0 <= i < |d.identities| && d.identities[i].task == task)
  }

  datatype StartMatch = Match | PidReuse | Unverified

  /** The recorded start times of a task, in order. */
  function Recorded(ids: seq<TaskIdentity>, task: int): seq<Option<nat>> {
    if ids == [] then []
    else (if ids[0].task == task then [ids[0].start] else []) + Recorded(ids[1..], task)
  }

  /** `task_start_time_matches` on the recorded start times: the first known one decides. */
  function Judge(starts: seq<Option<nat>>, observed: Option<nat>): StartMatch {
    if starts == [] then if observed.Some? then Unverified else Match
    else JudgeFrom(starts, observed)
  }

  function JudgeFrom(starts: seq<Option<nat>>, observed: Option<nat>): StartMatch {
    if starts == [] then if observed.None? then Match else Unverified
    else match starts[0]
      case None => JudgeFrom(starts[1..], observed)
      case Some(expected) =>
        if observed.None? then Unverified else if expected == observed.value then Match else PidReuse
  }

  function StartMatchOf(d: Domain, task: int, observed: Option<nat>): StartMatch {
    Judge(Recorded(d.identities, task), observed)
  }

  /** The first recorded start time that is known, if any. */
  ghost predicate FirstKnown(starts: seq<Option<nat>>, k: nat) {
    k < |starts| && starts[k].Some? && forall i :: 0 <= i < k ==> starts[i].None?
  }

  /** The first known start time must be the observed one; with none known, none may be observed. */
  lemma {:induction false} JudgeMeaning(starts: seq<Option<nat>>, observed: Option<nat>)
    ensures (forall i :: 0 <= i < |starts| ==> starts[i].None?) ==>
              Judge(starts, observed) == if observed.None? then Match else Unverified
    ensures forall k: nat :: FirstKnown(starts, k) ==>
              Judge(starts, observed) == if observed.None? then Unverified
                    else if observed == starts[k] then Match else PidReuse
  {
    if starts != [] && starts[0].None? {
      var rest := starts[1..];
      JudgeMeaning(rest, observed);
      assert JudgeFrom(rest, observed) == Judge(rest, observed);
      assert forall i :: 0 <= i < |rest| ==> rest[i] == starts[i + 1];
      forall k: nat | FirstKnown(starts, k) ensures k > 0 && FirstKnown(rest, k - 1) {
      }
    }
  }

  datatype VcpuLookup = KnownVcpu(vcpu: int) | UnknownVcpu | AmbiguousVcpu

  /** The vCPUs recorded for a thread, in order. */
  function VcpusOf(vcpus: seq<VcpuThread>, tid: int): seq<int> {
    if vcpus == [] then []
    else (if vcpus[0].tid == tid then [vcpus[0].vcpu] else []) + VcpusOf(vcpus[1..], tid)
  }

  function LookupVcpu(vcpus: seq<int>): VcpuLookup {
    if vcpus == [] then UnknownVcpu
    else if forall i :: 0 <= i < |vcpus| ==> vcpus[i] == vcpus[0] then KnownVcpu(vcpus[0])
    else AmbiguousVcpu
  }

  /** Everything about a domain that the identity of one of its tasks depends on. */
  datatype View = View(name: string, uuid: string, qmpSocket: Option<string>, source: DomainSource,
                       starts: seq<Option<nat>>, vcpus: seq<int>)

  function ViewOf(d: Domain, task: int): View {
    View(d.name, d.uuid, d.qmpSocket, d.source, Recorded(d.identities, task), VcpusOf(d.vcpus, task))
  }

  // --- Lookup ---

  predicate Matches(d: Domain, task: int, observed: Option<nat>) {
    HasTask(d, task) && StartMatchOf(d, task, observed) == Match
  }

  predicate Reuses(d: Domain, task: int, observed: Option<nat>) {
    HasTask(d, task) && StartMatchOf(d, task, observed) == PidReuse
  }

  function Matching(domains: seq<Domain>, task: int, observed: Option<nat>): seq<Domain> {
    if domains == [] then []
    else
      var n := |domains| - 1;
      Matching(domains[..n], task, observed) + if Matches(domains[n], task, observed) then [domains[n]] else []
  }

  datatype Lookup = NoDomain | Owner(domain: Domain) | AmbiguousTask | ReusedPid | UnverifiedTask

  /** `lookup_task_with_start_time`. */
  function LookupTask(domains: seq<Domain>, task: int, observed: Option<nat>): Lookup {
    var matching := Matching(domains, task, observed);
    if |matching| == 1 then Owner(matching[0])
    else if |matching| > 1 then AmbiguousTask
    else if exists i :: 0 <= i < |domains| && Reuses(domains[i], task, observed) then ReusedPid
    else if exists i :: 0 <= i < |domains| && HasTask(domains[i], task) then UnverifiedTask
    else NoDomain
  }

  lemma {:induction false} MatchingElements(domains: seq<Domain>, task: int, observed: Option<nat>)
    ensures forall d :: d in Matching(domains, task, observed) <==> d in domains && Matches(d, task, observed)
  {
    hide Matches;
    if domains != [] {
      var n := |domains| - 1;
      MatchingElements(domains[..n], task, observed);
      assert forall d :: d in domains <==> d == domains[n] || d in domains[..n];
    }
  }

  lemma {:induction false} MatchingCount(domains: seq<Domain>, task: int, observed: Option<nat>)
    ensures |Matching(domains, task, observed)| == 0 <==>
            forall i :: 0 <= i < |domains| ==> !Matches(domains[i], task, observed)
    ensures |Matching(domains, task, observed)| > 1 <==>
            exists i, j ::
              0 <= i < j < |domains| && Matches(domains[i], task, observed) && Matches(domains[j], task, observed)
  {
    hide Matches;
    if domains != [] {
      var n := |domains| - 1;
      MatchingCount(domains[..n], task, observed);
      assert forall i :: 0 <= i < n ==> domains[..n][i] == domains[i];
    }
  }

  /** A thread has an owner exactly when one domain has it with an agreeing start time; with two it is ambiguous; with
      none it was reused, or is unverified, or no domain has it. */
  lemma LookupMeaning(domains: seq<Domain>, task: int, observed: Option<nat>)
    ensures var r := LookupTask(domains, task, observed);
            && (r.Owner? ==> r.domain in domains && Matches(r.domain, task, observed))
            && (r == AmbiguousTask <==> exists i, j ::
                  0 <= i < j < |domains| && Matches(domains[i], task, observed) && Matches(domains[j], task, observed))
            && (r.Owner? || r == AmbiguousTask <==>
                exists i :: 0 <= i < |domains| && Matches(domains[i], task, observed))
            && (r == ReusedPid <==>
                && (forall i :: 0 <= i < |domains| ==> !Matches(domains[i], task, observed))
                && (exists i :: 0 <= i < |domains| && Reuses(domains[i], task, observed)))
            && (r == NoDomain <==> forall i :: 0 <= i < |domains| ==> !HasTask(domains[i], task))
  {
    MatchingCount(domains, task, observed);
    MatchingElements(domains, task, observed);
    var matching := Matching(domains, task, observed);
    assert |matching| == 1 ==> matching[0] in matching;
    hide HasTask, StartMatchOf, Matching;
  }

  /** The loop over the domains: collect the matches, then explain an empty result. */
  method FindTask(domains: seq<Domain>, task: int, observed: Option<nat>) returns (r: Lookup)
    ensures r == LookupTask(domains, task, observed)
  {
    hide HasTask, StartMatchOf;
    var matching := [];
    var reused, present := false, false;
    var i := 0;
    while i < |domains|
      invariant 0 <= i <= |domains|
      invariant matching == Matching(domains[..i], task, observed)
      invariant reused <==> exists j :: 0 <= j < i && Reuses(domains[j], task, observed)
      invariant present <==> exists j :: 0 <= j < i && HasTask(domains[j], task)
    {
      var d := domains[i];
      assert domains[..i + 1][..i] == domains[..i];
      if HasTask(d, task) {
        present := true;
        var status := StartMatchOf(d, task, observed);
        if status == Match {
          matching := matching + [d];
        } else if status == PidReuse {
          reused := true;
        }
      }
      i := i + 1;
    }
    assert domains[..i] == domains;
    r := if |matching| == 1 then Owner(matching[0]) else if |matching| > 1 then AmbiguousTask
         else if reused then ReusedPid else if present then UnverifiedTask else NoDomain;
  }

  // --- Updates ---

  function TasksOf(d: Domain): set<int> {
    (set t | t in d.pids) + (set t | t in d.tids)
    + (set i | 0 <= i < |d.vcpus| :: d.vcpus[i].tid) + (set i | 0 <= i < |d.identities| :: d.identities[i].task)
  }

  function KeepTasks(tasks: seq<int>, gone: set<int>): seq<int> {
    if tasks == [] then []
    else (if tasks[0] in gone then [] else [tasks[0]]) + KeepTasks(tasks[1..], gone)
  }

  function KeepVcpus(vcpus: seq<VcpuThread>, gone: set<int>): seq<VcpuThread> {
    if vcpus == [] then []
    else (if vcpus[0].tid in gone then [] else [vcpus[0]]) + KeepVcpus(vcpus[1..], gone)
  }

  function KeepIdentities(ids: seq<TaskIdentity>, gone: set<int>): seq<TaskIdentity> {
    if ids == [] then []
    else (if ids[0].task in gone then [] else [ids[0]]) + KeepIdentities(ids[1..], gone)
  }

  /** The domain without the tasks another one has claimed. */
  function Strip(d: Domain, gone: set<int>): Domain {
    d.(pids := KeepTasks(d.pids, gone), tids := KeepTasks(d.tids, gone),
       vcpus := KeepVcpus(d.vcpus, gone), identities := KeepIdentities(d.identities, gone))
  }

  predicate OwnsNothing(d: Domain) {
    d.pids == [] && d.tids == [] && d.vcpus == [] && d.identities == []
  }

  /** The domain as an upsert of `d` leaves it, before `d` itself moves in. */
  function Yield(existing: Domain, d: Domain): Domain {
    if existing.uuid == d.uuid then existing else Strip(existing, TasksOf(d))
  }

  /** Other domains lose the tasks of `d`; those left with none disappear. */
  function StripAll(domains: seq<Domain>, d: Domain): seq<Domain> {
    if domains == [] then []
    else
      var n := |domains| - 1;
      var last := Yield(domains[n], d);
      StripAll(domains[..n], d) + if last.uuid != d.uuid && OwnsNothing(last) then [] else [last]
  }

  /** Position of the first domain with the uuid, or the number of domains. */
  function FirstIndex(domains: seq<Domain>, uuid: string): (k: nat)
    ensures k <= |domains|
    ensures k < |domains| ==> domains[k].uuid == uuid
    ensures forall i :: 0 <= i < k ==> domains[i].uuid != uuid
  {
    if domains == [] then 0
    else
      var n := |domains| - 1;
      var k := FirstIndex(domains[..n], uuid);
      if k < n then k else if domains[n].uuid == uuid then n else n + 1
  }

  /** `d` takes the place of the first domain with its uuid, or goes last. */
  function Replace(domains: seq<Domain>, d: Domain): seq<Domain> {
    var k := FirstIndex(domains, d.uuid);
    if k < |domains| then domains[k := d] else domains + [d]
  }

  function Upserted(domains: seq<Domain>, d: Domain): seq<Domain> {
    Replace(StripAll(domains, d), d)
  }

  function Removed(domains: seq<Domain>, uuid: string): seq<Domain> {
    if domains == [] then []
    else
      var n := |domains| - 1;
      Removed(domains[..n], uuid) + if domains[n].uuid == uuid then [] else [domains[n]]
  }

  class Registry {
    var domains: seq<Domain>

    constructor (initial: seq<Domain>)
      ensures domains == initial
    {
      domains := initial;
    }

    method UpsertDomain(d: Domain)
      modifies this
      ensures domains == Upserted(old(domains), d)
    {
      hide TasksOf, Strip, OwnsNothing;
      var tasks := TasksOf(d);
      var kept := [];
      var i := 0;
      while i < |domains|
        invariant 0 <= i <= |domains| && domains == old(domains)
        invariant kept == StripAll(domains[..i], d)
      {
        assert domains[..i + 1][..i] == domains[..i];
        var existing := domains[i];
        if existing.uuid != d.uuid {
          existing := Strip(existing, tasks);
        }
        if existing.uuid == d.uuid || !OwnsNothing(existing) {
          kept := kept + [existing];
        }
        i := i + 1;
      }
      assert domains[..i] == domains;
      var k := 0;
      while k < |kept| && kept[k].uuid != d.uuid
        invariant 0 <= k <= |kept| && domains == old(domains)
        invariant forall j :: 0 <= j < k ==> kept[j].uuid != d.uuid
      {
        k := k + 1;
      }
      domains := if k < |kept| then kept[k := d] else kept + [d];
    }

    method RemoveDomain(uuid: string) returns (removed: bool)
      modifies this
      ensures domains == Removed(old(domains), uuid)
      ensures removed == (|domains| != |old(domains)|)
    {
      var kept := [];
      var i := 0;
      while i < |domains|
        invariant 0 <= i <= |domains| && domains == old(domains)
        invariant kept == Removed(domains[..i], uuid)
      {
        assert domains[..i + 1][..i] == domains[..i];
        if domains[i].uuid != uuid {
          kept := kept + [domains[i]];
        }
        i := i + 1;
      }
      assert domains[..i] == domains;
      removed := |kept| != |domains|;
      domains := kept;
    }
  }

  // --- What updates preserve about a task they do not name ---

  lemma {:induction false} KeepTasksElements(tasks: seq<int>, gone: set<int>, t: int)
    ensures t in KeepTasks(tasks, gone) <==> t in tasks && t !in gone
  {
    if tasks != [] { KeepTasksElements(tasks[1..], gone, t); }
  }

  lemma {:induction false} KeepVcpusElements(vcpus: seq<VcpuThread>, gone: set<int>, v: VcpuThread)
    ensures v in KeepVcpus(vcpus, gone) <==> v in vcpus && v.tid !in gone
  {
    if vcpus != [] { KeepVcpusElements(vcpus[1..], gone, v); }
  }

  lemma {:induction false} KeepIdentitiesElements(ids: seq<TaskIdentity>, gone: set<int>, t: TaskIdentity)
    ensures t in KeepIdentities(ids, gone) <==> t in ids && t.task !in gone
  {
    if ids != [] { KeepIdentitiesElements(ids[1..], gone, t); }
  }

  lemma {:induction false} RecordedKept(ids: seq<TaskIdentity>, gone: set<int>, task: int)
    requires task !in gone
    ensures Recorded(KeepIdentities(ids, gone), task) == Recorded(ids, task)
  {
    if ids != [] {
      RecordedKept(ids[1..], gone, task);
      var rest := KeepIdentities(ids[1..], gone);
      if ids[0].task !in gone {
        assert ([ids[0]] + rest)[1..] == rest;
      } else {
        assert [] + rest == rest;
      }
    }
  }

  lemma {:induction false} VcpusKept(vcpus: seq<VcpuThread>, gone: set<int>, task: int)
    requires task !in gone
    ensures VcpusOf(KeepVcpus(vcpus, gone), task) == VcpusOf(vcpus, task)
  {
    if vcpus != [] {
      VcpusKept(vcpus[1..], gone, task);
      var rest := KeepVcpus(vcpus[1..], gone);
      if vcpus[0].tid !in gone {
        assert ([vcpus[0]] + rest)[1..] == rest;
      } else {
        assert [] + rest == rest;
      }
    }
  }

  /** A task that was not claimed sees the stripped domain as it saw the domain. */
  lemma StripKeepsView(d: Domain, gone: set<int>, task: int)
    requires task !in gone
    ensures HasTask(Strip(d, gone), task) == HasTask(d, task)
    ensures ViewOf(Strip(d, gone), task) == ViewOf(d, task)
  {
    var s := Strip(d, gone);
    KeepTasksElements(d.pids, gone, task);
    KeepTasksElements(d.tids, gone, task);
    RecordedKept(d.identities, gone, task);
    VcpusKept(d.vcpus, gone, task);
    forall v: VcpuThread ensures v in s.vcpus <==> v in d.vcpus && v.tid !in gone {
      KeepVcpusElements(d.vcpus, gone, v);
    }
    forall t: TaskIdentity ensures t in s.identities <==> t in d.identities && t.task !in gone {
      KeepIdentitiesElements(d.identities, gone, t);
    }
    HasTaskByMembers(d, task);
    HasTaskByMembers(s, task);
  }

  lemma HasTaskByMembers(d: Domain, task: int)
    ensures HasTask(d, task) <==>
              task in d.pids || task in d.tids || (exists v :: v in d.vcpus && v.tid == task)
              || (exists t :: t in d.identities && t.task == task)
  {
    if exists v :: v in d.vcpus && v.tid == task {
      var v :| v in d.vcpus && v.tid == task;
      var i :| 0 <= i < |d.vcpus| && d.vcpus[i] == v;
    }
    if exists t :: t in d.identities && t.task == task {
      var t :| t in d.identities && t.task == task;
      var i :| 0 <= i < |d.identities| && d.identities[i] == t;
    }
    if exists i :: 0 <= i < |d.vcpus| && d.vcpus[i].tid == task {
      var i :| 0 <= i < |d.vcpus| && d.vcpus[i].tid == task;
      assert d.vcpus[i] in d.vcpus;
    }
    if exists i :: 0 <= i < |d.identities| && d.identities[i].task == task {
      var i :| 0 <= i < |d.identities| && d.identities[i].task == task;
      assert d.identities[i] in d.identities;
    }
  }

  lemma OwnTasks(d: Domain, task: int)
    ensures HasTask(d, task) <==> task in TasksOf(d)
  {
  }

  /** How a task sees its matching domains other than those of `uuid`. */
  ghost function Seen(domains: seq<Domain>, task: int, observed: Option<nat>, uuid: string): seq<View> {
    if domains == [] then []
    else
      var n := |domains| - 1;
      Seen(domains[..n], task, observed, uuid)
      + if Matches(domains[n], task, observed) && domains[n].uuid != uuid then [ViewOf(domains[n], task)] else []
  }

  /** How many domains of `uuid` match the host task. */
  ghost function Count(domains: seq<Domain>, task: int, observed: Option<nat>, uuid: string): nat {
    if domains == [] then 0
    else
      var n := |domains| - 1;
      Count(domains[..n], task, observed, uuid)
      + if Matches(domains[n], task, observed) && domains[n].uuid == uuid then 1 else 0
  }

  lemma {:induction false} MatchingSplits(domains: seq<Domain>, task: int, observed: Option<nat>, uuid: string)
    ensures |Matching(domains, task, observed)|
         == |Seen(domains, task, observed, uuid)| + Count(domains, task, observed, uuid)
    ensures Count(domains, task, observed, uuid) == 0 ==>
              forall i :: 0 <= i < |Matching(domains, task, observed)| ==>
                Matching(domains, task, observed)[i].uuid != uuid
                && ViewOf(Matching(domains, task, observed)[i], task) == Seen(domains, task, observed, uuid)[i]
  {
    hide Matches, ViewOf;
    if domains != [] {
      MatchingSplits(domains[..|domains| - 1], task, observed, uuid);
    }
  }

  lemma {:induction false} MatchingOnly(domains: seq<Domain>, task: int, observed: Option<nat>, uuid: string)
    requires forall d :: d in Matching(domains, task, observed) ==> d.uuid != uuid
    ensures Count(domains, task, observed, uuid) == 0
  {
    hide Matches;
    if domains != [] {
      var n := |domains| - 1;
      forall d | d in Matching(domains[..n], task, observed) ensures d.uuid != uuid {
        assert d in Matching(domains, task, observed);
      }
      MatchingOnly(domains[..n], task, observed, uuid);
      if Matches(domains[n], task, observed) {
        assert domains[n] in Matching(domains, task, observed);
      }
    }
  }

  lemma YieldKeeps(existing: Domain, d: Domain, task: int, observed: Option<nat>)
    requires task !in TasksOf(d)
    ensures Matches(Yield(existing, d), task, observed) == Matches(existing, task, observed)
    ensures ViewOf(Yield(existing, d), task) == ViewOf(existing, task)
    ensures OwnsNothing(Yield(existing, d)) ==> !Matches(existing, task, observed)
  {
    hide TasksOf, Judge;
    StripKeepsView(existing, TasksOf(d), task);
    assert HasTask(Yield(existing, d), task) == HasTask(existing, task);
  }

  lemma {:induction false} StripAllSeen(domains: seq<Domain>, d: Domain, task: int, observed: Option<nat>)
    requires task !in TasksOf(d)
    ensures Seen(StripAll(domains, d), task, observed, d.uuid) == Seen(domains, task, observed, d.uuid)
    ensures Count(StripAll(domains, d), task, observed, d.uuid) == Count(domains, task, observed, d.uuid)
  {
    if domains != [] {
      var n := |domains| - 1;
      StripAllSeen(domains[..n], d, task, observed);
      YieldKeeps(domains[n], d, task, observed);
      YieldUuid(domains[n], d);
      hide TasksOf, Matches, ViewOf, Yield, OwnsNothing;
      var front, last := StripAll(domains[..n], d), Yield(domains[n], d);
      assert (front + [last])[..|front|] == front;
      assert front + [] == front;
    }
  }

  lemma YieldUuid(existing: Domain, d: Domain)
    ensures Yield(existing, d).uuid == existing.uuid
  {
  }

  lemma {:induction false} UpdateSeen(domains: seq<Domain>, k: nat, d: Domain, task: int, observed: Option<nat>)
    requires k < |domains| && domains[k].uuid == d.uuid && !HasTask(d, task)
    ensures Seen(domains[k := d], task, observed, d.uuid) == Seen(domains, task, observed, d.uuid)
    ensures Count(domains[k := d], task, observed, d.uuid) <= Count(domains, task, observed, d.uuid)
  {
    hide HasTask, StartMatchOf, ViewOf;
    var n := |domains| - 1;
    if k < n {
      assert domains[k := d][..n] == domains[..n][k := d];
      UpdateSeen(domains[..n], k, d, task, observed);
    } else {
      assert domains[k := d][..n] == domains[..n];
    }
  }

  lemma ReplaceSeen(domains: seq<Domain>, d: Domain, task: int, observed: Option<nat>)
    requires !HasTask(d, task)
    ensures Seen(Replace(domains, d), task, observed, d.uuid) == Seen(domains, task, observed, d.uuid)
    ensures Count(Replace(domains, d), task, observed, d.uuid) <= Count(domains, task, observed, d.uuid)
  {
    hide HasTask, StartMatchOf, ViewOf;
    var k := FirstIndex(domains, d.uuid);
    if k < |domains| {
      UpdateSeen(domains, k, d, task, observed);
    } else {
      assert (domains + [d])[..|domains|] == domains;
    }
  }

  lemma {:induction false} RemovedSeen(domains: seq<Domain>, uuid: string, task: int, observed: Option<nat>)
    ensures Seen(Removed(domains, uuid), task, observed, uuid) == Seen(domains, task, observed, uuid)
    ensures Count(Removed(domains, uuid), task, observed, uuid) == 0
  {
    hide Matches, ViewOf;
    if domains != [] {
      var n := |domains| - 1;
      RemovedSeen(domains[..n], uuid, task, observed);
      var front := Removed(domains[..n], uuid);
      assert (front + [domains[n]])[..|front|] == front;
      assert front + [] == front;
    }
  }

  /** The owner of a task, as that task sees it, or no owner. */
  datatype Ownership = Unowned | OwnedBy(view: View) | Unsafe

  ghost function OwnershipOf(domains: seq<Domain>, task: int, observed: Option<nat>): Ownership {
    match LookupTask(domains, task, observed)
    case NoDomain => Unowned
    case Owner(d) => OwnedBy(ViewOf(d, task))
    case _ => Unsafe
  }

  /** Registries that agree on the matches outside `uuid`, and none of `uuid`, own alike. */
  lemma SameOwner(before: seq<Domain>, after: seq<Domain>, task: int, observed: Option<nat>, uuid: string)
    requires LookupTask(before, task, observed).Owner? && LookupTask(before, task, observed).domain.uuid != uuid
    requires Seen(after, task, observed, uuid) == Seen(before, task, observed, uuid)
    requires Count(after, task, observed, uuid) <= Count(before, task, observed, uuid)
    ensures OwnershipOf(after, task, observed) == OwnershipOf(before, task, observed)
  {
    hide Matches, ViewOf, Matching, Seen, Count, HasTask;
    MatchingOnly(before, task, observed, uuid);
    MatchingSplits(before, task, observed, uuid);
    MatchingSplits(after, task, observed, uuid);
  }

  /** An upsert leaves alone the owner of any task it neither names nor owned. */
  lemma UpsertKeepsOwner(domains: seq<Domain>, d: Domain, task: int, observed: Option<nat>)
    requires task !in TasksOf(d)
    requires LookupTask(domains, task, observed).Owner? && LookupTask(domains, task, observed).domain.uuid != d.uuid
    ensures OwnershipOf(Upserted(domains, d), task, observed) == OwnershipOf(domains, task, observed)
  {
    OwnTasks(d, task);
    hide TasksOf, HasTask, Seen, Count, LookupTask, OwnershipOf, StripAll, Replace;
    StripAllSeen(domains, d, task, observed);
    ReplaceSeen(StripAll(domains, d), d, task, observed);
    SameOwner(domains, Upserted(domains, d), task, observed, d.uuid);
  }

  /** So does a removal. */
  lemma RemoveKeepsOwner(domains: seq<Domain>, uuid: string, task: int, observed: Option<nat>)
    requires LookupTask(domains, task, observed).Owner? && LookupTask(domains, task, observed).domain.uuid != uuid
    ensures OwnershipOf(Removed(domains, uuid), task, observed) == OwnershipOf(domains, task, observed)
  {
    hide Seen, Count, LookupTask, OwnershipOf, Removed;
    RemovedSeen(domains, uuid, task, observed);
    SameOwner(domains, Removed(domains, uuid), task, observed, uuid);
  }

  ghost predicate NobodyHas(domains: seq<Domain>, task: int) {
    forall i :: 0 <= i < |domains| ==> !HasTask(domains[i], task)
  }

  lemma NoDomainMeansNobody(domains: seq<Domain>, task: int, observed: Option<nat>)
    ensures LookupTask(domains, task, observed) == NoDomain <==> NobodyHas(domains, task)
  {
    hide HasTask, StartMatchOf, Matching;
    MatchingElements(domains, task, observed);
    var matching := Matching(domains, task, observed);
    assert matching != [] ==> matching[0] in matching;
  }

  lemma {:induction false} StripAllNobody(domains: seq<Domain>, d: Domain, task: int)
    requires task !in TasksOf(d) && NobodyHas(domains, task)
    ensures NobodyHas(StripAll(domains, d), task)
  {
    if domains != [] {
      var n := |domains| - 1;
      StripAllNobody(domains[..n], d, task);
      StripKeepsView(domains[n], TasksOf(d), task);
    }
  }

  lemma {:induction false} RemovedNobody(domains: seq<Domain>, uuid: string, task: int)
    requires NobodyHas(domains, task)
    ensures NobodyHas(Removed(domains, uuid), task)
  {
    hide HasTask;
    if domains != [] {
      RemovedNobody(domains[..|domains| - 1], uuid, task);
    }
  }

  /** A task no domain has stays without one until an upsert names it. */
  lemma UpsertKeepsUnowned(domains: seq<Domain>, d: Domain, task: int, observed: Option<nat>)
    requires OwnershipOf(domains, task, observed) == Unowned && task !in TasksOf(d)
    ensures OwnershipOf(Upserted(domains, d), task, observed) == Unowned
  {
    OwnTasks(d, task);
    hide HasTask, TasksOf, StripAll, Matching;
    NoDomainMeansNobody(domains, task, observed);
    StripAllNobody(domains, d, task);
    NoDomainMeansNobody(Upserted(domains, d), task, observed);
  }

  lemma RemoveKeepsUnowned(domains: seq<Domain>, uuid: string, task: int, observed: Option<nat>)
    requires OwnershipOf(domains, task, observed) == Unowned
    ensures OwnershipOf(Removed(domains, uuid), task, observed) == Unowned
  {
    hide HasTask, Removed, Matching, NobodyHas;
    NoDomainMeansNobody(domains, task, observed);
    RemovedNobody(domains, uuid, task);
    NoDomainMeansNobody(Removed(domains, uuid), task, observed);
  }

  // --- What an upsert claims ---

  ghost predicate UniqueUuids(domains: seq<Domain>) {
    forall i, j :: 0 <= i < j < |domains| ==> domains[i].uuid != domains[j].uuid
  }

  lemma StripDrops(d: Domain, gone: set<int>, task: int)
    requires task in gone
    ensures !HasTask(Strip(d, gone), task)
  {
    var s := Strip(d, gone);
    KeepTasksElements(d.pids, gone, task);
    KeepTasksElements(d.tids, gone, task);
    forall v: VcpuThread ensures v in s.vcpus <==> v in d.vcpus && v.tid !in gone {
      KeepVcpusElements(d.vcpus, gone, v);
    }
    forall t: TaskIdentity ensures t in s.identities <==> t in d.identities && t.task !in gone {
      KeepIdentitiesElements(d.identities, gone, t);
    }
    HasTaskByMembers(s, task);
  }

  lemma {:induction false} StripAllClaims(domains: seq<Domain>, d: Domain, task: int)
    requires task in TasksOf(d)
    ensures forall e :: e in StripAll(domains, d) && HasTask(e, task) ==> e.uuid == d.uuid
  {
    if domains != [] {
      var n := |domains| - 1;
      StripAllClaims(domains[..n], d, task);
      StripDrops(domains[n], TasksOf(d), task);
      hide HasTask, TasksOf, Strip;
    }
  }

  lemma {:induction false} StripAllUuids(domains: seq<Domain>, d: Domain)
    requires UniqueUuids(domains)
    ensures UniqueUuids(StripAll(domains, d))
    ensures forall e :: e in StripAll(domains, d) ==> exists i :: 0 <= i < |domains| && domains[i].uuid == e.uuid
  {
    if domains != [] {
      var n := |domains| - 1;
      var front := StripAll(domains[..n], d);
      StripAllUuids(domains[..n], d);
      YieldUuid(domains[n], d);
      hide Yield, OwnsNothing;
      forall e | e in front
        ensures e.uuid != domains[n].uuid && exists i :: 0 <= i < |domains| && domains[i].uuid == e.uuid
      {
        var i :| 0 <= i < n && domains[..n][i].uuid == e.uuid;
        assert domains[i].uuid == e.uuid;
      }
      assert forall i :: 0 <= i < |front| ==> front[i] in front;
    }
  }

  lemma {:induction false} RemovedElements(domains: seq<Domain>, uuid: string)
    ensures forall e :: e in Removed(domains, uuid) <==> e in domains && e.uuid != uuid
  {
    if domains != [] {
      var n := |domains| - 1;
      RemovedElements(domains[..n], uuid);
      assert forall e :: e in domains <==> e in domains[..n] || e == domains[n];
    }
  }

  /** Updates keep the uuids unique. */
  lemma {:induction false} RemoveKeepsUnique(domains: seq<Domain>, uuid: string)
    requires UniqueUuids(domains)
    ensures UniqueUuids(Removed(domains, uuid))
  {
    if domains != [] {
      var n := |domains| - 1;
      var front := Removed(domains[..n], uuid);
      RemoveKeepsUnique(domains[..n], uuid);
      RemovedElements(domains[..n], uuid);
      forall i | 0 <= i < |front| ensures front[i].uuid != domains[n].uuid {
        assert front[i] in front;
      }
    }
  }

  lemma UpsertKeepsUnique(domains: seq<Domain>, d: Domain)
    requires UniqueUuids(domains)
    ensures UniqueUuids(Upserted(domains, d)) && d in Upserted(domains, d)
  {
    StripAllUuids(domains, d);
    hide StripAll;
    var kept := StripAll(domains, d);
    var k := FirstIndex(kept, d.uuid);
    if k < |kept| {
      assert Upserted(domains, d)[k] == d;
    }
  }

  lemma {:induction false} CountUnique(domains: seq<Domain>, task: int, observed: Option<nat>, uuid: string)
    requires UniqueUuids(domains)
    ensures Count(domains, task, observed, uuid) <= 1
    ensures (forall i :: 0 <= i < |domains| ==> domains[i].uuid != uuid) ==> Count(domains, task, observed, uuid) == 0
  {
    hide Matches;
    if domains != [] {
      CountUnique(domains[..|domains| - 1], task, observed, uuid);
    }
  }

  /** From unique uuids, no other domain has a task of a domain just upserted. */
  lemma UpsertExcludes(domains: seq<Domain>, d: Domain, task: int)
    requires UniqueUuids(domains) && task in TasksOf(d)
    ensures d in Upserted(domains, d) && HasTask(d, task)
    ensures forall e :: e in Upserted(domains, d) && HasTask(e, task) ==> e == d
  {
    OwnTasks(d, task);
    UpsertKeepsUnique(domains, d);
    StripAllClaims(domains, d, task);
    UpsertElements(domains, d);
    hide TasksOf, HasTask, Upserted, StripAll, UniqueUuids;
    forall e | e in Upserted(domains, d) && HasTask(e, task) ensures e == d {
      SameUuid(Upserted(domains, d), e, d);
    }
  }

  /** A domain just upserted owns each of its tasks whose start time agrees. */
  lemma UpsertOwns(domains: seq<Domain>, d: Domain, task: int, observed: Option<nat>)
    requires UniqueUuids(domains) && task in TasksOf(d)
    ensures StartMatchOf(d, task, observed) == Match ==> LookupTask(Upserted(domains, d), task, observed) == Owner(d)
    ensures StartMatchOf(d, task, observed) != Match ==> !LookupTask(Upserted(domains, d), task, observed).Owner?
  {
    UpsertKeepsUnique(domains, d);
    UpsertExcludes(domains, d, task);
    hide TasksOf, HasTask, StartMatchOf, Upserted, Matching, Count, Seen, UniqueUuids;
    var after := Upserted(domains, d);
    var matching := Matching(after, task, observed);
    MatchingElements(after, task, observed);
    MatchingSplits(after, task, observed, d.uuid);
    CountUnique(after, task, observed, d.uuid);
    NoneSeen(after, task, observed, d.uuid);
    assert matching != [] ==> matching[0] in matching;
  }

  lemma SameUuid(domains: seq<Domain>, a: Domain, b: Domain)
    requires UniqueUuids(domains) && a in domains && b in domains && a.uuid == b.uuid
    ensures a == b
  {
  }

  /** `e` is `o` without the threads in `gone`, and not all are gone. */
  ghost predicate Reduced(o: Domain, gone: set<int>, e: Domain) {
    && e.name == o.name && e.uuid == o.uuid && e.qmpSocket == o.qmpSocket && e.source == o.source
    && (forall t :: t in e.pids <==> t in o.pids && t !in gone)
    && (forall t :: t in e.tids <==> t in o.tids && t !in gone)
    && (forall v :: v in e.vcpus <==> v in o.vcpus && v.tid !in gone)
    && (forall t :: t in e.identities <==> t in o.identities && t.task !in gone)
    && exists t :: HasTask(e, t)
  }

  lemma StripReduces(o: Domain, gone: set<int>)
    ensures !OwnsNothing(Strip(o, gone)) ==> Reduced(o, gone, Strip(o, gone))
    ensures OwnsNothing(Strip(o, gone)) <==> forall t :: HasTask(o, t) ==> t in gone
  {
    var e := Strip(o, gone);
    forall t ensures (t in e.pids <==> t in o.pids && t !in gone) && (t in e.tids <==> t in o.tids && t !in gone) {
      KeepTasksElements(o.pids, gone, t);
      KeepTasksElements(o.tids, gone, t);
    }
    forall v: VcpuThread ensures v in e.vcpus <==> v in o.vcpus && v.tid !in gone {
      KeepVcpusElements(o.vcpus, gone, v);
    }
    forall t: TaskIdentity ensures t in e.identities <==> t in o.identities && t.task !in gone {
      KeepIdentitiesElements(o.identities, gone, t);
    }
    forall t ensures HasTask(e, t) <==> HasTask(o, t) && t !in gone {
      HasTaskByMembers(e, t);
      HasTaskByMembers(o, t);
    }
    SomeTask(e);
    hide Strip, HasTask, OwnsNothing;
  }

  lemma SomeTask(d: Domain)
    ensures OwnsNothing(d) <==> forall t :: !HasTask(d, t)
  {
    if d.pids != [] { assert HasTask(d, d.pids[0]); }
    if d.tids != [] { assert HasTask(d, d.tids[0]); }
    if d.vcpus != [] { assert HasTask(d, d.vcpus[0].tid); }
    if d.identities != [] { assert HasTask(d, d.identities[0].task); }
  }

  lemma {:induction false} StripAllElements(domains: seq<Domain>, d: Domain)
    ensures forall o :: o in domains && o.uuid != d.uuid && (exists t :: HasTask(o, t) && t !in TasksOf(d)) ==>
              exists e :: e in StripAll(domains, d) && Reduced(o, TasksOf(d), e)
    ensures forall e :: e in StripAll(domains, d) && e.uuid != d.uuid ==>
              exists o :: o in domains && Reduced(o, TasksOf(d), e)
  {
    hide TasksOf, HasTask, Reduced, Strip, OwnsNothing;
    if domains != [] {
      var n := |domains| - 1;
      StripAllElements(domains[..n], d);
      StripReduces(domains[n], TasksOf(d));
      var front, all := StripAll(domains[..n], d), StripAll(domains, d);
      assert forall o :: o in domains <==> o in domains[..n] || o == domains[n];
      assert forall e :: e in front ==> e in all;
      YieldUuid(domains[n], d);
      assert forall e :: e in all ==> e in front || e == Yield(domains[n], d);
    }
  }

  /** After an upsert the registry lists the domain, and of the others exactly those with a thread left, without the
      threads it claims. */
  lemma UpsertMeaning(domains: seq<Domain>, d: Domain)
    requires UniqueUuids(domains)
    ensures d in Upserted(domains, d)
    ensures forall o :: o in domains && o.uuid != d.uuid && (exists t :: HasTask(o, t) && t !in TasksOf(d)) ==>
              exists e :: e in Upserted(domains, d) && Reduced(o, TasksOf(d), e)
    ensures forall e :: e in Upserted(domains, d) && e != d ==> exists o :: o in domains && Reduced(o, TasksOf(d), e)
  {
    UpsertKeepsUnique(domains, d);
    StripAllElements(domains, d);
    UpsertElements(domains, d);
    hide TasksOf, HasTask, Reduced, StripAll;
    var kept, all := StripAll(domains, d), Upserted(domains, d);
    forall e | e in kept && e.uuid != d.uuid ensures e in all {
      var i :| 0 <= i < |kept| && kept[i] == e;
      assert all[i] == e;
    }
    forall e | e in all && e != d ensures e.uuid != d.uuid {
      if e.uuid == d.uuid { SameUuid(all, e, d); }
    }
    hide Upserted;
    forall o | o in domains && o.uuid != d.uuid && exists t :: HasTask(o, t) && t !in TasksOf(d)
      ensures exists e :: e in all && Reduced(o, TasksOf(d), e)
    {
      var e :| e in kept && Reduced(o, TasksOf(d), e);
      ReducedUuid(o, TasksOf(d), e);
      assert e in all;
    }
  }

  lemma ReducedUuid(o: Domain, gone: set<int>, e: Domain)
    requires Reduced(o, gone, e)
    ensures e.uuid == o.uuid
  {
  }

  lemma UpsertElements(domains: seq<Domain>, d: Domain)
    ensures forall e :: e in Upserted(domains, d) ==> e == d || e in StripAll(domains, d)
  {
    hide StripAll;
  }

  lemma {:induction false} NoneSeen(domains: seq<Domain>, task: int, observed: Option<nat>, uuid: string)
    requires forall i :: 0 <= i < |domains| && HasTask(domains[i], task) ==> domains[i].uuid == uuid
    ensures Seen(domains, task, observed, uuid) == []
  {
    hide HasTask, StartMatchOf, ViewOf;
    if domains != [] {
      NoneSeen(domains[..|domains| - 1], task, observed, uuid);
    }
  }
}
