/** Resolving a host task to a VM identity, the identity cache, and libvirt lifecycle events. */
module IdentityResolver {
  import opened Machine
  import opened IdentityRegistry

  datatype Source = ProcCmdline | ProcCgroup | LibvirtXml | LibvirtLifecycle | QmpSocketHint | StartTimeVerified
                  | FallbackPid | AmbiguousSource
  datatype Confidence = Low | Medium | High
  datatype Reason = MultipleDomains | PidReused | StartTimeUnverified | StaleCache | ProcCgroupMismatch
                  | UuidMismatch | SocketMismatch | NameMismatch
  datatype Conflict = Conflict(task: int, reason: Reason, ambiguous: bool)

  /** The text forms of a VM id, by how it was formed. */
  datatype VmId = HostPid(pid: int, start: Option<nat>) | OfUuid(uuid: string) | OfName(name: string)
                | HostTask(task: int, reason: Reason)

  datatype Identity = Identity(vmId: VmId, name: Option<string>, uuid: Option<string>, socket: Option<string>,
                               unit: Option<string>, start: Option<nat>, vcpu: Option<int>, vcpuAmbiguous: bool,
                               ambiguous: bool, sources: seq<Source>, confidence: Confidence, verified: bool,
                               conflict: Option<Conflict>)

  function Push(sources: seq<Source>, source: Source): (r: seq<Source>)
    ensures forall s :: s in r <==> s == source || s in sources
  {
    if source in sources then sources else sources + [source]
  }

  function ConfidenceOf(ident: Identity): Confidence {
    var listed := LibvirtXml in ident.sources || LibvirtLifecycle in ident.sources;
    if ident.ambiguous then Low
    else if ident.verified && ident.uuid.Some? && listed then High
    else if ident.uuid.Some? && (listed || ProcCmdline in ident.sources) then Medium
    else Low
  }

  function Recompute(ident: Identity): Identity {
    ident.(confidence := ConfidenceOf(ident))
  }

  function MarkAmbiguous(ident: Identity, task: int, reason: Reason): Identity {
    ident.(vmId := HostTask(task, reason), name := None, uuid := None, socket := None,
           vcpu := None, vcpuAmbiguous := false, ambiguous := true, sources := [AmbiguousSource],
           confidence := Low, verified := false, conflict := Some(Conflict(task, reason, true)))
  }

  // --- The identity the host alone gives ---

  /** What the host shows about a task: its command line, its control group, and the socket a directory search finds. */
  datatype CommandLine = CommandLine(name: Option<string>, uuid: Option<string>, socket: Option<string>)
  datatype ControlGroup = ControlGroup(name: Option<string>, unit: Option<string>)
  datatype HostFacts = HostFacts(cmdline: Option<CommandLine>, cgroup: Option<ControlGroup>, discovered: Option<string>)

  function Fallback(pid: int, start: Option<nat>): Identity {
    Identity(HostPid(pid, start), None, None, None, None, start, None, false, false, [], Low, false, None)
  }

  function WithCommandLine(ident: Identity, line: CommandLine): Identity {
    var known := if line.name.Some? || line.uuid.Some? || line.socket.Some?
          then Push(ident.sources, ProcCmdline) else ident.sources;
    ident.(name := line.name, uuid := line.uuid, socket := line.socket,
           sources := if line.socket.Some? then Push(known, QmpSocketHint) else known)
  }

  /** `merge_cgroup_identity`. */
  function WithControlGroup(ident: Identity, task: int, group: ControlGroup): Identity {
    var known := if group.name.Some? || group.unit.Some?
          then ident.(sources := Push(ident.sources, ProcCgroup)) else ident;
    var named :=
      if group.name.None? || known.name == group.name then known
      else if known.name.None? then known.(name := group.name)
      else if known.uuid.None? then MarkAmbiguous(known, task, ProcCgroupMismatch)
      else known.(conflict := Some(Conflict(task, ProcCgroupMismatch, false)));
    named.(unit := group.unit)
  }

  function Named(ident: Identity, discovered: Option<string>): Identity {
    if ident.ambiguous then ident
    else
      var id := if ident.uuid.Some? then ident.(vmId := OfUuid(ident.uuid.value))
                else if ident.name.Some? then ident.(vmId := OfName(ident.name.value)) else ident;
      if id.socket.None? && id.name.Some? && discovered.Some?
      then id.(socket := discovered, sources := Push(id.sources, QmpSocketHint)) else id
  }

  /** `resolve_identity_once_with_start_time`. */
  function HostIdentity(pid: int, start: Option<nat>, facts: HostFacts): Identity {
    var bare := Fallback(pid, start);
    var lined := if facts.cmdline.Some? then WithCommandLine(bare, facts.cmdline.value) else bare;
    var grouped := if facts.cgroup.Some? then WithControlGroup(lined, pid, facts.cgroup.value) else lined;
    var named := Named(grouped, facts.discovered);
    Recompute(if named.sources == [] then named.(sources := [FallbackPid]) else named)
  }

  // --- Applying the registry ---

  predicate Disagrees(a: Option<string>, b: string) {
    a.Some? && a.value != b
  }

  predicate Verifies(starts: seq<Option<nat>>, observed: Option<nat>) {
    observed.Some? && observed in starts
  }

  function SourceOf(source: DomainSource): Source {
    if source == Xml then LibvirtXml else LibvirtLifecycle
  }

  /** The branch of `apply_libvirt_discovery` for a task with exactly one owner. */
  function Adopt(ident: Identity, task: int, owner: View): Identity {
    if Disagrees(ident.uuid, owner.uuid) then MarkAmbiguous(ident, task, UuidMismatch)
    else if owner.qmpSocket.Some? && Disagrees(ident.socket, owner.qmpSocket.value)
          then MarkAmbiguous(ident, task, SocketMismatch)
    else
      var settled := Recompute(Placed(Dated(Enlisted(ident, owner), owner), owner).(ambiguous := false));
      if Disagrees(ident.name, owner.name) then settled.(conflict := Some(Conflict(task, NameMismatch, false)))
            else settled
  }

  function Enlisted(ident: Identity, owner: View): Identity {
    var listed := ident.(vmId := OfUuid(owner.uuid), name := Some(owner.name), uuid := Some(owner.uuid),
                         sources := Push(ident.sources, SourceOf(owner.source)));
    if owner.qmpSocket.None? then listed
    else listed.(socket := owner.qmpSocket, sources := Push(listed.sources, QmpSocketHint))
  }

  function Dated(ident: Identity, owner: View): Identity {
    if Verifies(owner.starts, ident.start)
          then ident.(verified := true, sources := Push(ident.sources, StartTimeVerified)) else ident
  }

  function Placed(ident: Identity, owner: View): Identity {
    match LookupVcpu(owner.vcpus)
    case KnownVcpu(vcpu) => ident.(vcpu := Some(vcpu), vcpuAmbiguous := false)
    case UnknownVcpu => ident
    case AmbiguousVcpu => ident.(vcpu := None, vcpuAmbiguous := true)
  }

  /** `apply_libvirt_discovery`. */
  function Apply(ident: Identity, task: int, domains: seq<Domain>): Identity {
    match LookupTask(domains, task, ident.start)
    case NoDomain => ident
    case Owner(d) => Adopt(ident, task, ViewOf(d, task))
    case AmbiguousTask => MarkAmbiguous(ident, task, MultipleDomains)
    case ReusedPid => MarkAmbiguous(ident, task, PidReused)
    case UnverifiedTask => MarkAmbiguous(ident, task, StartTimeUnverified)
  }

  /** A whole resolution from scratch. */
  function Resolved(pid: int, start: Option<nat>, facts: HostFacts, domains: seq<Domain>, stale: bool): Identity {
    var ident := Apply(HostIdentity(pid, start, facts), pid, domains);
    if ident.conflict.None? && stale then ident.(conflict := Some(Conflict(pid, StaleCache, false))) else ident
  }

  // --- What a resolution means ---

  ghost predicate Plain(ident: Identity, start: Option<nat>) {
    ident.start == start && !ident.verified && StartTimeVerified !in ident.sources
  }

  lemma CommandLineIsPlain(ident: Identity, line: CommandLine, start: Option<nat>)
    requires Plain(ident, start)
    ensures Plain(WithCommandLine(ident, line), start)
  {
    hide Push;
  }

  lemma ControlGroupIsPlain(ident: Identity, task: int, group: ControlGroup, start: Option<nat>)
    requires Plain(ident, start)
    ensures Plain(WithControlGroup(ident, task, group), start)
  {
    hide Push;
  }

  lemma NamedIsPlain(ident: Identity, discovered: Option<string>, start: Option<nat>)
    requires Plain(ident, start)
    ensures Plain(Named(ident, discovered), start)
  {
    hide Push;
  }

  /** The host alone never vouches for a start time. */
  lemma HostIdentityIsUnverified(pid: int, start: Option<nat>, facts: HostFacts)
    ensures Plain(HostIdentity(pid, start, facts), start)
    ensures HostIdentity(pid, start, facts).confidence != High
  {
    var bare := Fallback(pid, start);
    hide WithCommandLine, WithControlGroup, Named;
    if facts.cmdline.Some? {
      CommandLineIsPlain(bare, facts.cmdline.value, start);
    }
    var lined := if facts.cmdline.Some? then WithCommandLine(bare, facts.cmdline.value) else bare;
    if facts.cgroup.Some? {
      ControlGroupIsPlain(lined, pid, facts.cgroup.value, start);
    }
    NamedIsPlain(if facts.cgroup.Some? then WithControlGroup(lined, pid, facts.cgroup.value)
          else lined, facts.discovered, start);
  }

  ghost function LineOf(facts: HostFacts): CommandLine {
    if facts.cmdline.Some? then facts.cmdline.value else CommandLine(None, None, None)
  }

  ghost function GroupOf(facts: HostFacts): ControlGroup {
    if facts.cgroup.Some? then facts.cgroup.value else ControlGroup(None, None)
  }

  /** The command line and the control group name the VM differently. */
  ghost predicate NamesClash(facts: HostFacts) {
    LineOf(facts).name.Some? && GroupOf(facts).name.Some? && LineOf(facts).name != GroupOf(facts).name
  }

  /**
   * The host alone: a clash of names is ambiguous unless a uuid settles it; otherwise the uuid, then the name, then the
   * pid make the VM id, and only a uuid gives more than low confidence.
   */
  lemma HostIdentityMeaning(pid: int, start: Option<nat>, facts: HostFacts)
    ensures var r, line := HostIdentity(pid, start, facts), LineOf(facts);
            && (r.ambiguous <==> NamesClash(facts) && line.uuid.None?)
            && (r.conflict.Some? <==> NamesClash(facts))
            && r.unit == GroupOf(facts).unit
            && (!r.ambiguous ==>
                  && r.uuid == line.uuid
                  && r.name == (if line.name.Some? then line.name else GroupOf(facts).name)
                  && r.vmId == (if r.uuid.Some? then OfUuid(r.uuid.value)
                        else if r.name.Some? then OfName(r.name.value) else HostPid(pid, start))
                  && r.socket == if line.socket.Some? then line.socket
                        else if r.name.Some? then facts.discovered else None)
            && (r.confidence == if r.uuid.Some? then Medium else Low)
  {
    var bare := Fallback(pid, start);
    var lined := if facts.cmdline.Some? then WithCommandLine(bare, facts.cmdline.value) else bare;
    CommandLineMeaning(bare, LineOf(facts), facts);
    hide WithCommandLine;
    var grouped := if facts.cgroup.Some? then WithControlGroup(lined, pid, facts.cgroup.value) else lined;
    ControlGroupMeaning(lined, pid, facts);
    hide WithControlGroup;
    NamedMeaning(grouped, facts.discovered);
    HostIdentityIsUnverified(pid, start, facts);
    hide Named, Plain;
  }

  /** A uuid of the host comes from the command line, and nothing yet comes from libvirt. */
  ghost predicate Grounded(ident: Identity) {
    && (ident.uuid.Some? ==> ProcCmdline in ident.sources)
    && LibvirtXml !in ident.sources && LibvirtLifecycle !in ident.sources
    && !ident.verified
  }

  lemma CommandLineMeaning(bare: Identity, line: CommandLine, facts: HostFacts)
    requires line == LineOf(facts) && bare.sources == [] && bare.uuid.None? && bare.name.None? && bare.socket.None?
             && !bare.verified
    ensures var r := if facts.cmdline.Some? then WithCommandLine(bare, facts.cmdline.value) else bare;
            && r.name == line.name && r.uuid == line.uuid && r.socket == line.socket && Grounded(r)
            && r.vmId == bare.vmId && r.ambiguous == bare.ambiguous && r.conflict == bare.conflict
                  && r.unit == bare.unit
  {
    hide Push;
  }

  lemma ControlGroupMeaning(lined: Identity, pid: int, facts: HostFacts)
    requires Grounded(lined) && !lined.ambiguous && lined.conflict.None? && lined.unit.None?
    requires lined.name == LineOf(facts).name && lined.uuid == LineOf(facts).uuid
    ensures var r := if facts.cgroup.Some? then WithControlGroup(lined, pid, facts.cgroup.value) else lined;
            && Grounded(r) && (r.ambiguous <==> NamesClash(facts) && lined.uuid.None?)
                  && (r.conflict.Some? <==> NamesClash(facts))
            && r.unit == GroupOf(facts).unit && (r.ambiguous ==> r.uuid.None?)
            && (!r.ambiguous ==> r.uuid == lined.uuid && r.socket == lined.socket && r.vmId == lined.vmId
                                 && r.name == if lined.name.Some? then lined.name else GroupOf(facts).name)
  {
    hide Push;
    if facts.cgroup.Some? {
      var group := facts.cgroup.value;
      var known := if group.name.Some? || group.unit.Some?
            then lined.(sources := Push(lined.sources, ProcCgroup)) else lined;
      assert Grounded(known) && known.name == lined.name && known.uuid == lined.uuid;
    }
  }

  lemma NamedMeaning(ident: Identity, discovered: Option<string>)
    requires Grounded(ident)
    ensures var r := Named(ident, discovered);
            && Grounded(r) && r.ambiguous == ident.ambiguous && r.conflict == ident.conflict
                  && r.unit == ident.unit && r.uuid == ident.uuid
            && r.name == ident.name
            && (!ident.ambiguous ==>
                  && r.vmId == (if ident.uuid.Some? then OfUuid(ident.uuid.value)
                        else if ident.name.Some? then OfName(ident.name.value) else ident.vmId)
                  && r.socket == if ident.socket.Some? then ident.socket
                        else if ident.name.Some? then discovered else None)
  {
    hide Push;
  }

  ghost predicate Accepts(ident: Identity, owner: View) {
    !Disagrees(ident.uuid, owner.uuid) && !(owner.qmpSocket.Some? && Disagrees(ident.socket, owner.qmpSocket.value))
  }

  lemma EnlistedMeaning(ident: Identity, owner: View)
    requires Plain(ident, ident.start)
    ensures Plain(Enlisted(ident, owner), ident.start)
    ensures Enlisted(ident, owner).uuid == Some(owner.uuid)
    ensures SourceOf(owner.source) in Enlisted(ident, owner).sources
  {
    hide Push;
  }

  lemma SettledMeaning(listed: Identity, owner: View)
    requires Plain(listed, listed.start) && listed.uuid == Some(owner.uuid) && SourceOf(owner.source) in listed.sources
    ensures var settled := Recompute(Placed(Dated(listed, owner), owner).(ambiguous := false));
            && !settled.ambiguous && settled.start == listed.start && settled.uuid == listed.uuid
            && (settled.verified <==> Verifies(owner.starts, listed.start))
            && (settled.verified <==> StartTimeVerified in settled.sources)
            && settled.confidence == if settled.verified then High else Medium
  {
    hide Push, LookupVcpu, Verifies;
    var dated := Dated(listed, owner);
    assert SourceOf(owner.source) in dated.sources;
    var placed := Placed(dated, owner);
    assert placed.sources == dated.sources && placed.uuid == dated.uuid && placed.verified == dated.verified;
  }

  lemma AdoptMeaning(ident: Identity, task: int, owner: View)
    requires Plain(ident, ident.start)
    ensures var r := Adopt(ident, task, owner);
            && (r.ambiguous <==> !Accepts(ident, owner))
            && (r.verified <==> Accepts(ident, owner) && Verifies(owner.starts, ident.start))
            && (r.verified <==> StartTimeVerified in r.sources)
            && (r.confidence == if !Accepts(ident, owner) then Low
                  else if Verifies(owner.starts, ident.start) then High else Medium)
            && r.start == ident.start
            && (r.uuid == if Accepts(ident, owner) then Some(owner.uuid) else None)
  {
    hide Enlisted, Dated, Placed, Verifies, Recompute;
    if Accepts(ident, owner) {
      EnlistedMeaning(ident, owner);
      SettledMeaning(Enlisted(ident, owner), owner);
    }
  }

  /** The part of an identity that names the VM. */
  datatype Naming = Naming(vmId: VmId, name: Option<string>, socket: Option<string>, conflict: Option<Conflict>)
  datatype Placing = Placing(vcpu: Option<int>, ambiguous: bool)

  ghost function NamingOf(ident: Identity): Naming {
    Naming(ident.vmId, ident.name, ident.socket, ident.conflict)
  }

  ghost function PlacingOf(ident: Identity): Placing {
    Placing(ident.vcpu, ident.vcpuAmbiguous)
  }

  lemma EnlistedNaming(ident: Identity, owner: View)
    ensures NamingOf(Enlisted(ident, owner))
         == Naming(OfUuid(owner.uuid), Some(owner.name), if owner.qmpSocket.Some? then owner.qmpSocket
               else ident.socket, ident.conflict)
    ensures PlacingOf(Enlisted(ident, owner)) == PlacingOf(ident)
  {
    hide Push;
  }

  lemma DatedNaming(ident: Identity, owner: View)
    ensures NamingOf(Dated(ident, owner)) == NamingOf(ident) && PlacingOf(Dated(ident, owner)) == PlacingOf(ident)
  {
    hide Push;
  }

  predicate Differing(vcpus: seq<int>) {
    exists i :: 0 <= i < |vcpus| && vcpus[i] != vcpus[0]
  }

  /** The vCPU all records of the thread agree on; none, and ambiguous, where they differ. */
  lemma PlacedPlacing(ident: Identity, owner: View)
    ensures NamingOf(Placed(ident, owner)) == NamingOf(ident)
    ensures owner.vcpus == [] ==> PlacingOf(Placed(ident, owner)) == PlacingOf(ident)
    ensures owner.vcpus != [] ==>
              PlacingOf(Placed(ident, owner)) == if Differing(owner.vcpus) then Placing(None, true)
                                                 else Placing(Some(owner.vcpus[0]), false)
  {
  }

  /** What a thread takes over from the one domain that owns it. */
  lemma AdoptedFields(ident: Identity, task: int, owner: View)
    requires Accepts(ident, owner)
    ensures var socket := if owner.qmpSocket.Some? then owner.qmpSocket else ident.socket;
            var clash := Some(Conflict(task, NameMismatch, false));
            NamingOf(Adopt(ident, task, owner))
            == Naming(OfUuid(owner.uuid), Some(owner.name), socket,
                      if Disagrees(ident.name, owner.name) then clash else ident.conflict)
    ensures owner.vcpus == [] ==> PlacingOf(Adopt(ident, task, owner)) == PlacingOf(ident)
    ensures owner.vcpus != [] ==>
              PlacingOf(Adopt(ident, task, owner)) == if Differing(owner.vcpus) then Placing(None, true)
                                                      else Placing(Some(owner.vcpus[0]), false)
  {
    hide Enlisted, Dated, Placed, ConfidenceOf;
    var listed := Enlisted(ident, owner);
    EnlistedNaming(ident, owner);
    DatedNaming(listed, owner);
    PlacedPlacing(Dated(listed, owner), owner);
  }

  /** Nothing of a VM is left on the identity. */
  ghost predicate NamesNoVm(ident: Identity) {
    && ident.name.None? && ident.uuid.None? && ident.socket.None? && !ident.verified
    && ident.vcpu.None? && !ident.vcpuAmbiguous
    && ident.sources == [AmbiguousSource] && ident.confidence == Low
    && ident.conflict.Some? && ident.conflict.value.ambiguous
  }

  lemma GroupAmbiguity(lined: Identity, task: int, group: ControlGroup)
    requires !lined.ambiguous
    ensures WithControlGroup(lined, task, group).ambiguous ==> NamesNoVm(WithControlGroup(lined, task, group))
  {
    hide Push;
  }

  lemma LineIsCertain(bare: Identity, line: CommandLine)
    ensures WithCommandLine(bare, line).ambiguous == bare.ambiguous
  {
    hide Push;
  }

  lemma NamedAmbiguity(ident: Identity, discovered: Option<string>)
    ensures Named(ident, discovered).ambiguous == ident.ambiguous
            && (ident.ambiguous ==> Named(ident, discovered) == ident)
  {
    hide Push;
  }

  lemma HostAmbiguityNamesNoVm(pid: int, start: Option<nat>, facts: HostFacts)
    ensures HostIdentity(pid, start, facts).ambiguous ==> NamesNoVm(HostIdentity(pid, start, facts))
  {
    var bare := Fallback(pid, start);
    hide WithCommandLine, WithControlGroup, Named;
    if facts.cmdline.Some? {
      LineIsCertain(bare, facts.cmdline.value);
    }
    var lined := if facts.cmdline.Some? then WithCommandLine(bare, facts.cmdline.value) else bare;
    if facts.cgroup.Some? {
      GroupAmbiguity(lined, pid, facts.cgroup.value);
    }
    NamedAmbiguity(if facts.cgroup.Some? then WithControlGroup(lined, pid, facts.cgroup.value)
          else lined, facts.discovered);
  }

  lemma AdoptAmbiguity(ident: Identity, task: int, owner: View)
    ensures Adopt(ident, task, owner).ambiguous <==> !Accepts(ident, owner)
    ensures Adopt(ident, task, owner).ambiguous ==> NamesNoVm(Adopt(ident, task, owner))
  {
    hide Enlisted, Dated, Placed, ConfidenceOf;
  }

  /**
   * A resolution is ambiguous exactly when the registry has more than one owner, a reused or an unverified thread, an
   * owner that disagrees with the host, or no domain while the host's own names clash; and then it names no VM.
   */
  lemma AmbiguousMeaning(pid: int, start: Option<nat>, facts: HostFacts, domains: seq<Domain>, stale: bool)
    ensures var r, lookup := Resolved(pid, start, facts, domains, stale), LookupTask(domains, pid, start);
            && (r.ambiguous <==>
                if lookup.NoDomain? then NamesClash(facts) && LineOf(facts).uuid.None?
                else if lookup.Owner? then !Accepts(HostIdentity(pid, start, facts), ViewOf(lookup.domain, pid))
                else true)
            && (r.ambiguous ==> NamesNoVm(r))
  {
    HostIdentityIsUnverified(pid, start, facts);
    HostIdentityMeaning(pid, start, facts);
    HostAmbiguityNamesNoVm(pid, start, facts);
    hide HostIdentity, LookupTask, Recorded, VcpusOf, Adopt, Accepts, NamesClash;
    var lookup := LookupTask(domains, pid, start);
    if lookup.Owner? {
      AdoptAmbiguity(HostIdentity(pid, start, facts), pid, ViewOf(lookup.domain, pid));
    }
  }

  /**
   * A resolution is verified, and its confidence High, exactly when one domain owns the host task, agrees with what the
   * host shows, and records the very start time observed.
   */
  lemma VerifiedMeaning(pid: int, start: Option<nat>, facts: HostFacts, domains: seq<Domain>, stale: bool)
    ensures var r, lookup := Resolved(pid, start, facts, domains, stale), LookupTask(domains, pid, start);
            && (r.verified <==> lookup.Owner? && Accepts(HostIdentity(pid, start, facts), ViewOf(lookup.domain, pid))
                                && Verifies(Recorded(lookup.domain.identities, pid), start))
            && (r.confidence == High <==> r.verified)
            && (r.verified <==> StartTimeVerified in r.sources)
            && (r.verified ==> r.uuid == Some(lookup.domain.uuid) && !r.ambiguous)
            && r.start == start
  {
    HostIdentityIsUnverified(pid, start, facts);
    hide HostIdentity, LookupTask, Recorded, VcpusOf;
    var base := HostIdentity(pid, start, facts);
    var lookup := LookupTask(domains, pid, start);
    if lookup.Owner? {
      AdoptMeaning(base, pid, ViewOf(lookup.domain, pid));
      hide Adopt, Accepts, Verifies;
    }
  }

  /** A start time is verified when the domain records exactly that thread with it. */
  lemma {:induction false} VerifiesExactly(ids: seq<TaskIdentity>, task: int, observed: Option<nat>)
    ensures Verifies(Recorded(ids, task), observed) <==> observed.Some? && TaskIdentity(task, observed) in ids
  {
    if ids != [] {
      VerifiesExactly(ids[1..], task, observed);
      assert ids == [ids[0]] + ids[1..];
    }
  }

  // --- Where an identity comes from ---

  ghost predicate LineSays(facts: HostFacts) {
    var line := LineOf(facts);
    line.name.Some? || line.uuid.Some? || line.socket.Some?
  }

  ghost predicate GroupSays(facts: HostFacts) {
    GroupOf(facts).name.Some? || GroupOf(facts).unit.Some?
  }

  /** The host's own names clash, and no uuid settles it. */
  ghost predicate HostClash(facts: HostFacts) {
    NamesClash(facts) && LineOf(facts).uuid.None?
  }

  /** What the host sources of an identity say; those of libvirt are left open. */
  ghost predicate HostSources(ident: Identity, facts: HostFacts) {
    && (AmbiguousSource in ident.sources <==> HostClash(facts))
    && (ProcCmdline in ident.sources <==> !HostClash(facts) && LineSays(facts))
    && (ProcCgroup in ident.sources <==> !HostClash(facts) && GroupSays(facts))
    && (FallbackPid in ident.sources <==> !LineSays(facts) && !GroupSays(facts))
    && (QmpSocketHint in ident.sources <==> ident.socket.Some?)
  }

  lemma LineSources(bare: Identity, facts: HostFacts)
    requires bare.sources == [] && bare.socket.None?
    ensures var r := if facts.cmdline.Some? then WithCommandLine(bare, facts.cmdline.value) else bare;
            && (forall s :: s in r.sources <==>
                  (s == ProcCmdline && LineSays(facts)) || (s == QmpSocketHint && LineOf(facts).socket.Some?))
            && r.socket == LineOf(facts).socket
  {
    hide Push;
  }

  lemma GroupSources(lined: Identity, pid: int, facts: HostFacts)
    requires !lined.ambiguous && lined.name == LineOf(facts).name && lined.uuid == LineOf(facts).uuid
    ensures var r := if facts.cgroup.Some? then WithControlGroup(lined, pid, facts.cgroup.value) else lined;
            && (r.ambiguous <==> HostClash(facts))
            && (r.ambiguous ==> r.sources == [AmbiguousSource] && r.socket.None?)
            && (!r.ambiguous ==> r.socket == lined.socket && forall s :: s in r.sources <==>
                  s in lined.sources || (s == ProcCgroup && GroupSays(facts)))
  {
    hide Push;
  }

  /** The sources of the host before the fallback is added. */
  ghost predicate SourcesSoFar(ident: Identity, facts: HostFacts) {
    && (ident.ambiguous <==> HostClash(facts))
    && (QmpSocketHint in ident.sources <==> ident.socket.Some?)
    && (ident.ambiguous ==> ident.sources == [AmbiguousSource])
    && (!ident.ambiguous ==> forall s :: s != QmpSocketHint ==>
          (s in ident.sources <==> (s == ProcCmdline && LineSays(facts)) || (s == ProcCgroup && GroupSays(facts))))
    && (ident.socket.Some? ==> LineSays(facts) || GroupSays(facts))
  }

  lemma GroupedSources(lined: Identity, grouped: Identity, facts: HostFacts)
    requires forall s :: s in lined.sources <==>
               (s == ProcCmdline && LineSays(facts)) || (s == QmpSocketHint && LineOf(facts).socket.Some?)
    requires lined.socket == LineOf(facts).socket && (grouped.ambiguous <==> HostClash(facts))
    requires grouped.ambiguous ==> grouped.sources == [AmbiguousSource] && grouped.socket.None?
    requires !grouped.ambiguous ==> grouped.socket == lined.socket && forall s :: s in grouped.sources <==>
               s in lined.sources || (s == ProcCgroup && GroupSays(facts))
    ensures SourcesSoFar(grouped, facts)
  {
  }

  lemma NamedSources(ident: Identity, facts: HostFacts)
    requires SourcesSoFar(ident, facts)
    requires !ident.ambiguous && ident.name.Some? ==> LineSays(facts) || GroupSays(facts)
    ensures SourcesSoFar(Named(ident, facts.discovered), facts)
  {
    hide Push, HostClash, LineSays, GroupSays;
  }

  lemma FinalSources(named: Identity, facts: HostFacts)
    requires SourcesSoFar(named, facts)
    ensures var h := Recompute(if named.sources == [] then named.(sources := [FallbackPid]) else named);
            && HostSources(h, facts) && (h.ambiguous <==> HostClash(facts))
            && LibvirtXml !in h.sources && LibvirtLifecycle !in h.sources
  {
    hide ConfidenceOf;
    if named.ambiguous { assert AmbiguousSource in named.sources; }
    assert !named.ambiguous ==>
        (ProcCmdline in named.sources <==> LineSays(facts)) && (ProcCgroup in named.sources <==> GroupSays(facts));
    if named.sources != [] { assert named.sources[0] in named.sources; }
    assert HostClash(facts) ==> LineSays(facts) && GroupSays(facts);
    hide HostClash, LineSays, GroupSays;
  }

  lemma HostIdentitySources(pid: int, start: Option<nat>, facts: HostFacts)
    ensures var h := HostIdentity(pid, start, facts);
            && HostSources(h, facts) && (h.ambiguous <==> HostClash(facts))
            && LibvirtXml !in h.sources && LibvirtLifecycle !in h.sources
  {
    var bare := Fallback(pid, start);
    hide WithCommandLine, WithControlGroup, Named, HostClash, LineSays, GroupSays, HostSources, SourcesSoFar, Recompute;
    CommandLineMeaning(bare, LineOf(facts), facts);
    LineSources(bare, facts);
    var lined := if facts.cmdline.Some? then WithCommandLine(bare, facts.cmdline.value) else bare;
    ControlGroupMeaning(lined, pid, facts);
    GroupSources(lined, pid, facts);
    var grouped := if facts.cgroup.Some? then WithControlGroup(lined, pid, facts.cgroup.value) else lined;
    GroupedSources(lined, grouped, facts);
    SomeName(grouped, facts);
    NamedSources(grouped, facts);
    FinalSources(Named(grouped, facts.discovered), facts);
  }

  lemma SomeName(grouped: Identity, facts: HostFacts)
    requires !grouped.ambiguous ==>
               grouped.name == if LineOf(facts).name.Some? then LineOf(facts).name else GroupOf(facts).name
    ensures !grouped.ambiguous && grouped.name.Some? ==> LineSays(facts) || GroupSays(facts)
  {
  }

  lemma EnlistedSources(h: Identity, owner: View)
    ensures var listed := Enlisted(h, owner);
            && (forall s :: s in listed.sources <==>
                  s in h.sources || s == SourceOf(owner.source) || (s == QmpSocketHint && owner.qmpSocket.Some?))
            && listed.socket == if owner.qmpSocket.Some? then owner.qmpSocket else h.socket
  {
    hide Push;
  }

  lemma DatedSources(listed: Identity, owner: View)
    ensures forall s :: s != StartTimeVerified ==> (s in Dated(listed, owner).sources <==> s in listed.sources)
  {
    hide Push;
  }

  lemma AdoptSources(h: Identity, pid: int, owner: View, facts: HostFacts)
    requires HostSources(h, facts) && Accepts(h, owner) && LibvirtXml !in h.sources && LibvirtLifecycle !in h.sources
    ensures var r := Adopt(h, pid, owner);
            && HostSources(r, facts)
            && (LibvirtXml in r.sources <==> owner.source == Xml)
            && (LibvirtLifecycle in r.sources <==> owner.source == Lifecycle)
  {
    AcceptedAdopts(h, pid, owner);
    EnlistedSources(h, owner);
    DatedSources(Enlisted(h, owner), owner);
    hide Adopt, Enlisted, Dated, Accepts, HostClash, LineSays, GroupSays;
  }

  lemma AcceptedAdopts(h: Identity, pid: int, owner: View)
    requires Accepts(h, owner)
    ensures var r, listed := Adopt(h, pid, owner), Enlisted(h, owner);
            r.sources == Dated(listed, owner).sources && r.socket == listed.socket
  {
    DatedSocket(Enlisted(h, owner), owner);
    PlacedSources(Dated(Enlisted(h, owner), owner), owner);
    hide Enlisted, Dated, Placed, ConfidenceOf;
  }

  lemma DatedSocket(listed: Identity, owner: View)
    ensures Dated(listed, owner).socket == listed.socket
  {
    hide Push, Verifies;
  }

  lemma PlacedSources(dated: Identity, owner: View)
    ensures Placed(dated, owner).sources == dated.sources && Placed(dated, owner).socket == dated.socket
  {
    hide LookupVcpu;
  }

  /** The sources of an unambiguous identity name exactly what it rests on. */
  lemma SourcesExactly(pid: int, start: Option<nat>, facts: HostFacts, domains: seq<Domain>, stale: bool)
    ensures var r, lookup := Resolved(pid, start, facts, domains, stale), LookupTask(domains, pid, start);
            !r.ambiguous ==>
              && HostSources(r, facts)
              && (LibvirtXml in r.sources <==> lookup.Owner? && lookup.domain.source == Xml)
              && (LibvirtLifecycle in r.sources <==> lookup.Owner? && lookup.domain.source == Lifecycle)
  {
    HostIdentityIsUnverified(pid, start, facts);
    HostIdentitySources(pid, start, facts);
    hide HostIdentity, LookupTask, Recorded, VcpusOf, Adopt, Accepts, HostClash, LineSays, GroupSays;
    var h, lookup := HostIdentity(pid, start, facts), LookupTask(domains, pid, start);
    if lookup.Owner? {
      var owner := ViewOf(lookup.domain, pid);
      AdoptAmbiguity(h, pid, owner);
      if Accepts(h, owner) { AdoptSources(h, pid, owner, facts); }
    }
  }

  ghost function ReasonOf(ident: Identity): Option<Reason> {
    if ident.conflict.Some? then Some(ident.conflict.value.reason) else None
  }

  /** The owner's uuid, its socket or its name is not the one the host shows. */
  ghost predicate UuidDiffers(h: Identity, owner: View) {
    h.uuid.Some? && h.uuid != Some(owner.uuid)
  }

  ghost predicate SocketDiffers(h: Identity, owner: View) {
    h.socket.Some? && owner.qmpSocket.Some? && h.socket != owner.qmpSocket
  }

  ghost predicate NameDiffers(h: Identity, owner: View) {
    h.name.Some? && h.name != Some(owner.name)
  }

  /** The conflict of an identity the host alone gives. */
  ghost predicate OwnConflict(ident: Identity, pid: int, facts: HostFacts) {
    && (ReasonOf(ident) == if NamesClash(facts) then Some(ProcCgroupMismatch) else None)
    && (ident.conflict.Some? ==> ident.conflict.value.task == pid)
    && (ident.ambiguous ==> ident.vmId == HostTask(pid, ProcCgroupMismatch))
  }

  lemma GroupConflict(lined: Identity, pid: int, facts: HostFacts)
    requires !lined.ambiguous && lined.conflict.None? && lined.name == LineOf(facts).name
    ensures var r := if facts.cgroup.Some? then WithControlGroup(lined, pid, facts.cgroup.value) else lined;
            OwnConflict(r, pid, facts)
  {
    hide Push;
  }

  lemma NamedConflict(ident: Identity, discovered: Option<string>)
    ensures var r := Named(ident, discovered);
            r.conflict == ident.conflict && r.ambiguous == ident.ambiguous && (ident.ambiguous ==> r.vmId == ident.vmId)
  {
    hide Push;
  }

  lemma HostConflict(pid: int, start: Option<nat>, facts: HostFacts)
    ensures OwnConflict(HostIdentity(pid, start, facts), pid, facts)
  {
    var bare := Fallback(pid, start);
    hide WithCommandLine, WithControlGroup, Named, NamesClash;
    CommandLineMeaning(bare, LineOf(facts), facts);
    var lined := if facts.cmdline.Some? then WithCommandLine(bare, facts.cmdline.value) else bare;
    GroupConflict(lined, pid, facts);
    var grouped := if facts.cgroup.Some? then WithControlGroup(lined, pid, facts.cgroup.value) else lined;
    NamedConflict(grouped, facts.discovered);
  }

  lemma RejectedConflict(h: Identity, pid: int, owner: View)
    requires !Accepts(h, owner)
    ensures var r, reason := Adopt(h, pid, owner), if UuidDiffers(h, owner) then UuidMismatch else SocketMismatch;
            r.conflict == Some(Conflict(pid, reason, true)) && r.vmId == HostTask(pid, reason)
  {
    hide Enlisted, Dated, Placed, Recompute;
  }

  lemma AcceptsExactly(h: Identity, owner: View)
    ensures Accepts(h, owner) <==> !UuidDiffers(h, owner) && !SocketDiffers(h, owner)
    ensures Disagrees(h.name, owner.name) <==> NameDiffers(h, owner)
  {
  }

  lemma AdoptConflict(h: Identity, pid: int, owner: View)
    ensures var r := Adopt(h, pid, owner);
            && ReasonOf(r) == (if UuidDiffers(h, owner) then Some(UuidMismatch)
                               else if SocketDiffers(h, owner) then Some(SocketMismatch)
                               else if NameDiffers(h, owner) then Some(NameMismatch) else ReasonOf(h))
            && (r.conflict.Some? && r.conflict != h.conflict ==> r.conflict.value.task == pid)
            && (r.ambiguous ==> r.conflict.Some? && r.vmId == HostTask(pid, r.conflict.value.reason))
  {
    AcceptsExactly(h, owner);
    AdoptAmbiguity(h, pid, owner);
    if Accepts(h, owner) { AdoptedFields(h, pid, owner); } else { RejectedConflict(h, pid, owner); }
    hide Adopt, Accepts, UuidDiffers, SocketDiffers, NameDiffers, Disagrees;
  }

  /** The conflict of a resolution: its reason, in the order the checks are made, and the thread it is about. */
  lemma ConflictExactly(pid: int, start: Option<nat>, facts: HostFacts, domains: seq<Domain>, stale: bool)
    ensures var r, h := Resolved(pid, start, facts, domains, stale), HostIdentity(pid, start, facts);
            var own := if NamesClash(facts) then Some(ProcCgroupMismatch) else if stale then Some(StaleCache) else None;
            && ReasonOf(r) == (match LookupTask(domains, pid, start)
                               case NoDomain => own
                               case AmbiguousTask => Some(MultipleDomains)
                               case ReusedPid => Some(PidReused)
                               case UnverifiedTask => Some(StartTimeUnverified)
                               case Owner(d) =>
                                 if UuidDiffers(h, ViewOf(d, pid)) then Some(UuidMismatch)
                                 else if SocketDiffers(h, ViewOf(d, pid)) then Some(SocketMismatch)
                                 else if NameDiffers(h, ViewOf(d, pid)) then Some(NameMismatch) else own)
            && (r.conflict.Some? ==> r.conflict.value.task == pid)
            && (r.ambiguous ==> r.conflict.Some? && r.vmId == HostTask(pid, r.conflict.value.reason))
  {
    HostIdentityIsUnverified(pid, start, facts);
    HostConflict(pid, start, facts);
    HostAmbiguityNamesNoVm(pid, start, facts);
    var h, lookup := HostIdentity(pid, start, facts), LookupTask(domains, pid, start);
    hide HostIdentity, LookupTask, Recorded, VcpusOf, Adopt, UuidDiffers, SocketDiffers, NameDiffers, NamesClash;
    if lookup.Owner? { AdoptConflict(h, pid, ViewOf(lookup.domain, pid)); }
  }

  // --- Lifecycle events ---

  datatype EventKind = Started | Resumed | Migrated | Stopped | Paused
  datatype LifecycleEvent = LifecycleEvent(kind: EventKind, uuid: string, name: Option<string>,
                                           qmpSocket: Option<string>, pid: Option<int>, tids: seq<int>,
                                           vcpus: seq<VcpuThread>)

  ghost predicate Increasing(tasks: seq<int>) {
    forall i, j :: 0 <= i < j < |tasks| ==> tasks[i] < tasks[j]
  }

  lemma TailAbove(tasks: seq<int>)
    requires Increasing(tasks) && tasks != []
    ensures Increasing(tasks[1..]) && forall x :: x in tasks[1..] ==> tasks[0] < x
    ensures forall x :: x in tasks <==> x == tasks[0] || x in tasks[1..]
  {
  }

  lemma ConsIncreasing(t: int, tasks: seq<int>)
    requires Increasing(tasks) && forall x :: x in tasks ==> t < x
    ensures Increasing([t] + tasks)
  {
    assert forall i :: 0 <= i < |tasks| ==> tasks[i] in tasks;
  }

  /** Insertion of a task into a sorted list without duplicates. */
  function Insert(tasks: seq<int>, t: int): (r: seq<int>)
    requires Increasing(tasks)
    ensures Increasing(r)
    ensures forall x :: x in r <==> x == t || x in tasks
  {
    if tasks == [] then [t]
    else
      TailAbove(tasks);
      if t < tasks[0] then ConsIncreasing(t, tasks); [t] + tasks
      else if t == tasks[0] then tasks
      else
        var rest := Insert(tasks[1..], t);
        ConsIncreasing(tasks[0], rest);
        [tasks[0]] + rest
  }

  function Sorted(tasks: seq<int>): (r: seq<int>)
    ensures Increasing(r)
    ensures forall x :: x in r <==> x in tasks
  {
    if tasks == [] then [] else Insert(Sorted(tasks[1..]), tasks[0])
  }

  function Tids(vcpus: seq<VcpuThread>): seq<int> {
    seq(|vcpus|, i requires 0 <= i < |vcpus| => vcpus[i].tid)
  }

  function EventTasks(event: LifecycleEvent): seq<int> {
    Sorted((if event.pid.Some? then [event.pid.value] else []) + event.tids + Tids(event.vcpus))
  }

  /** `to_domain`: the domain an event describes, if it describes one. */
  function ToDomain(event: LifecycleEvent): Option<Domain> {
    var tasks := EventTasks(event);
    if event.name.None? || event.name.value == "" || event.uuid == "" || tasks == [] then None
    else
      var identities := seq(|tasks|, i requires 0 <= i < |tasks| => TaskIdentity(tasks[i], None));
      var pids := if event.pid.Some? then [event.pid.value] else [];
      Some(Domain(event.name.value, event.uuid, event.qmpSocket, pids, event.tids, event.vcpus, identities, Lifecycle))
  }

  lemma EventNamesItsTasks(event: LifecycleEvent)
    requires ToDomain(event).Some?
    ensures ToDomain(event).value.uuid == event.uuid
    ensures TasksOf(ToDomain(event).value) == set t | t in EventTasks(event)
  {
    hide Sorted;
    var d, tasks := ToDomain(event).value, EventTasks(event);
    assert forall t :: t in tasks <==> (event.pid == Some(t)) || t in event.tids || t in Tids(event.vcpus);
    forall t ensures t in TasksOf(d) <==> t in tasks {
      if t in tasks {
        var i :| 0 <= i < |tasks| && tasks[i] == t;
        assert d.identities[i].task == t;
      }
      if i :| 0 <= i < |d.vcpus| && d.vcpus[i].tid == t {
        assert Tids(event.vcpus)[i] == t;
      }
    }
  }

  /** The registry after an event. */
  function AfterEvent(domains: Option<seq<Domain>>, event: LifecycleEvent): Option<seq<Domain>> {
    match event.kind
    case Stopped => if domains.Some? then Some(Removed(domains.value, event.uuid)) else None
    case Paused => domains
    case _ =>
      if ToDomain(event).None? then domains
      else if domains.Some? then Some(Upserted(domains.value, ToDomain(event).value)) else Some([ToDomain(event).value])
  }

  function Listed(domains: Option<seq<Domain>>): seq<Domain> {
    if domains.Some? then domains.value else []
  }

  /** The event names a domain and at least one of its threads. */
  predicate Describes(event: LifecycleEvent) {
    && event.uuid != "" && event.name.Some? && event.name.value != ""
    && (event.pid.Some? || event.tids != [] || event.vcpus != [])
  }

  /** The thread is named by the event. */
  predicate NamesThread(event: LifecycleEvent, t: int) {
    event.pid == Some(t) || t in event.tids || exists i :: 0 <= i < |event.vcpus| && event.vcpus[i].tid == t
  }

  lemma TasksNamed(event: LifecycleEvent, t: int)
    ensures t in EventTasks(event) <==> NamesThread(event, t)
  {
    hide Sorted;
    var pids := if event.pid.Some? then [event.pid.value] else [];
    assert t in pids <==> event.pid == Some(t);
    assert t in Tids(event.vcpus) <==> exists i :: 0 <= i < |event.vcpus| && event.vcpus[i].tid == t by {
      if i :| 0 <= i < |event.vcpus| && event.vcpus[i].tid == t {
        assert Tids(event.vcpus)[i] == t;
      }
    }
  }

  /** The domain of an event: its name, uuid, socket and vCPUs, and its threads with no start time known. */
  ghost predicate IsDescribed(event: LifecycleEvent, d: Domain) {
    && d.uuid == event.uuid && event.name == Some(d.name) && d.qmpSocket == event.qmpSocket && d.vcpus == event.vcpus
    && d.source == Lifecycle
    && (forall t :: HasTask(d, t) <==> NamesThread(event, t))
    && (forall i :: 0 <= i < |d.identities| ==> d.identities[i].start == None)
    && (forall t :: NamesThread(event, t) ==> exists i :: 0 <= i < |d.identities| && d.identities[i].task == t)
  }

  lemma SomeThread(event: LifecycleEvent)
    ensures EventTasks(event) != [] <==> event.pid.Some? || event.tids != [] || event.vcpus != []
  {
    hide EventTasks;
    if event.pid.Some? { TasksNamed(event, event.pid.value); }
    if event.tids != [] { TasksNamed(event, event.tids[0]); }
    if event.vcpus != [] { TasksNamed(event, event.vcpus[0].tid); }
    if EventTasks(event) != [] {
      TasksNamed(event, EventTasks(event)[0]);
    }
  }

  lemma DescribedDomain(event: LifecycleEvent)
    ensures ToDomain(event).Some? <==> Describes(event)
    ensures Describes(event) ==> IsDescribed(event, ToDomain(event).value)
  {
    SomeThread(event);
    hide EventTasks;
    if Describes(event) {
      EventNamesItsTasks(event);
      var d, tasks := ToDomain(event).value, EventTasks(event);
      forall t ensures HasTask(d, t) <==> NamesThread(event, t) {
        TasksNamed(event, t);
        OwnTasks(d, t);
        hide HasTask, TasksOf;
      }
      forall t | NamesThread(event, t) ensures exists i :: 0 <= i < |d.identities| && d.identities[i].task == t {
        TasksNamed(event, t);
        var i :| 0 <= i < |tasks| && tasks[i] == t;
        assert d.identities[i].task == t;
      }
    }
  }

  /** A stopped domain is gone, and nothing else. */
  lemma StoppedIsGone(domains: Option<seq<Domain>>, event: LifecycleEvent, d: Domain)
    requires event.kind == Stopped
    ensures d in Listed(AfterEvent(domains, event)) <==> d in Listed(domains) && d.uuid != event.uuid
  {
    if domains.Some? { RemovedElements(domains.value, event.uuid); }
  }

  /** A domain that an event describes is listed from then on, and no other domain keeps any of its threads. */
  lemma DescribedIsListed(domains: Option<seq<Domain>>, event: LifecycleEvent) returns (d: Domain)
    requires event.kind in {Started, Resumed, Migrated} && Describes(event) && UniqueUuids(Listed(domains))
    ensures var after := Listed(AfterEvent(domains, event));
            && UniqueUuids(after) && d in after && IsDescribed(event, d)
            && forall e, t :: e in after && NamesThread(event, t) && HasTask(e, t) ==> e == d
  {
    DescribedDomain(event);
    d := ToDomain(event).value;
    var before, after := Listed(domains), Listed(AfterEvent(domains, event));
    FirstUpsert(d);
    assert after == Upserted(before, d);
    hide ToDomain, AfterEvent, Upserted;
    UpsertKeepsUnique(before, d);
    forall e, t | e in after && NamesThread(event, t) && HasTask(e, t) ensures e == d {
      OwnTasks(d, t);
      UpsertExcludes(before, d, t);
    }
  }

  /** Pausing changes nothing, and neither does an event that describes no domain. */
  lemma OthersChangeNothing(domains: Option<seq<Domain>>, event: LifecycleEvent)
    requires event.kind == Paused || (event.kind != Stopped && !Describes(event))
    ensures AfterEvent(domains, event) == domains
  {
    DescribedDomain(event);
  }

  // --- Cache coherence ---

  datatype Cached = Cached(seenAt: nat, start: Option<nat>, value: Identity)
  datatype Origin = Origin(facts: HostFacts, stale: bool)

  /** A cached answer is what a resolution from the same host facts gives under the present registry. */
  ghost predicate Current(pid: int, entry: Cached, origin: Origin, domains: seq<Domain>) {
    && entry.start.Some?
    && !entry.value.ambiguous
    && entry.value == Resolved(pid, entry.start, origin.facts, domains, origin.stale)
  }

  ghost predicate Coherent(cache: map<int, Cached>, origins: map<int, Origin>, domains: seq<Domain>) {
    cache.Keys == origins.Keys && forall pid :: pid in cache ==> Current(pid, cache[pid], origins[pid], domains)
  }

  /** A resolution depends on the registry only through who owns the host task. */
  lemma ResolvedByOwnership(pid: int, start: Option<nat>, facts: HostFacts, before: seq<Domain>, after: seq<Domain>,
                            stale: bool)
    requires OwnershipOf(before, pid, start) == OwnershipOf(after, pid, start) != Unsafe
    ensures Resolved(pid, start, facts, before, stale) == Resolved(pid, start, facts, after, stale)
  {
    HostIdentityIsUnverified(pid, start, facts);
    hide HostIdentity, LookupTask, ViewOf, Adopt;
  }

  /** An unambiguous answer has an owner, whose uuid it carries, or the host task has no domain. */
  lemma UnambiguousOwner(pid: int, start: Option<nat>, facts: HostFacts, domains: seq<Domain>, stale: bool)
    requires !Resolved(pid, start, facts, domains, stale).ambiguous
    ensures OwnershipOf(domains, pid, start) != Unsafe
    ensures LookupTask(domains, pid, start).Owner? ==>
              Resolved(pid, start, facts, domains, stale).uuid == Some(LookupTask(domains, pid, start).domain.uuid)
  {
    HostIdentityIsUnverified(pid, start, facts);
    hide HostIdentity, LookupTask, Recorded, VcpusOf;
    var lookup := LookupTask(domains, pid, start);
    if lookup.Owner? {
      AdoptMeaning(HostIdentity(pid, start, facts), pid, ViewOf(lookup.domain, pid));
      hide Adopt, Accepts, Verifies;
    }
  }

  /** An event that does not evict an entry does not change what the entry stands for. */
  lemma EventKeepsEntry(pid: int, entry: Cached, origin: Origin, domains: Option<seq<Domain>>, event: LifecycleEvent)
    requires Current(pid, entry, origin, Listed(domains))
    requires pid !in EventTasks(event) && entry.value.uuid != Some(event.uuid)
    ensures Current(pid, entry, origin, Listed(AfterEvent(domains, event)))
  {
    var before, after := Listed(domains), Listed(AfterEvent(domains, event));
    UnambiguousOwner(pid, entry.start, origin.facts, before, origin.stale);
    EventKeepsOwnership(pid, entry.start, domains, event);
    hide AfterEvent, OwnershipOf, Resolved, Listed;
    ResolvedByOwnership(pid, entry.start, origin.facts, before, after, origin.stale);
  }

  lemma EventKeepsOwnership(pid: int, start: Option<nat>, domains: Option<seq<Domain>>, event: LifecycleEvent)
    requires pid !in EventTasks(event)
    requires OwnershipOf(Listed(domains), pid, start) != Unsafe
    requires LookupTask(Listed(domains), pid, start).Owner? ==>
               LookupTask(Listed(domains), pid, start).domain.uuid != event.uuid
    ensures OwnershipOf(Listed(AfterEvent(domains, event)), pid, start) == OwnershipOf(Listed(domains), pid, start)
  {
    hide Matching, EventTasks, Removed, StripAll, TasksOf, ViewOf;
    var before := Listed(domains);
    if event.kind == Stopped {
      assert domains.None? ==> Removed(before, event.uuid) == [] by { RemovedFromNone(event.uuid); }
      if LookupTask(before, pid, start).Owner? {
        RemoveKeepsOwner(before, event.uuid, pid, start);
      } else {
        RemoveKeepsUnowned(before, event.uuid, pid, start);
      }
    } else if event.kind != Paused && ToDomain(event).Some? {
      var d := ToDomain(event).value;
      EventNamesItsTasks(event);
      FirstUpsert(d);
      hide ToDomain, Upserted;
      if LookupTask(before, pid, start).Owner? {
        UpsertKeepsOwner(before, d, pid, start);
      } else {
        UpsertKeepsUnowned(before, d, pid, start);
      }
    }
  }

  lemma RemovedFromNone(uuid: string)
    ensures Removed([], uuid) == []
  {
  }

  /** Upserting into an empty registry is starting one with that domain. */
  lemma FirstUpsert(d: Domain)
    ensures Upserted([], d) == [d]
  {
  }

  datatype CacheResult = Hit | Miss | Refusal

  class Resolver {
    const live: bool
    const ttl: nat
    var libvirt: Option<seq<Domain>>
    var cache: map<int, Cached>
    ghost var origins: map<int, Origin>

    ghost predicate Valid()
      reads this
    {
      Coherent(cache, origins, Listed(libvirt)) && (!live ==> cache == map[])
    }

    constructor (live: bool, ttl: nat, libvirt: Option<seq<Domain>>)
      ensures Valid() && this.live == live && this.ttl == ttl && this.libvirt == libvirt && cache == map[]
    {
      this.live, this.ttl, this.libvirt, cache, origins := live, ttl, libvirt, map[], map[];
    }

    predicate Fresh(pid: int, observed: Option<nat>, now: nat)
      reads this
    {
      && pid in cache && cache[pid].start.Some? && cache[pid].start == observed
      && (if now >= cache[pid].seenAt then now - cache[pid].seenAt else 0) <= ttl
    }

    /** The start time, the host facts and the clock are what the host shows at the moment of the call. */
    method ResolvePid(pid: int, now: nat, observed: Option<nat>,
                      facts: HostFacts) returns (ident: Identity, result: CacheResult)
      requires Valid()
      modifies this`cache, this`origins
      ensures Valid()
      ensures result == Hit <==> old(live && Fresh(pid, observed, now))
      // A hit repeats an earlier resolution of the same process instance, as the registry stands now.
      ensures result == Hit ==>
                ident == Resolved(pid, observed, old(origins[pid]).facts, Listed(libvirt), old(origins[pid]).stale)
      ensures result == Hit ==> cache == old(cache) && observed.Some?
      ensures result != Hit && live ==> ident == Resolved(pid, observed, facts, Listed(libvirt), result == Refusal)
      ensures result == Refusal <==>
              && live && old(pid in cache && cache[pid].start.Some?)
              && observed.Some? && old(cache[pid].start) != observed
      ensures !live ==> ident == HostIdentity(pid, None, HostFacts(None, None, None))
      ensures result != Hit ==> cache == (if live && observed.Some? && !ident.ambiguous
                then old(cache)[pid := Cached(now, observed, ident)] else old(cache))
      // The start time is vouched for only by the registry as it stands.
      ensures ident.verified || ident.confidence == High ==> Vouched(Listed(libvirt), pid, ident)
    {
      hide Resolved, HostIdentity, Coherent;
      var start := if live then observed else None;
      var stale := false;
      result := Miss;
      if pid in cache {
        var cached := cache[pid];
        EntryIsCurrent(cache, origins, Listed(libvirt), pid);
        if cached.start.Some? && cached.start == start && (if now >= cached.seenAt then now - cached.seenAt
              else 0) <= ttl {
          ident, result := cached.value, Hit;
          VerifiedIsVouched(pid, start, origins[pid].facts, Listed(libvirt), origins[pid].stale);
          return;
        }
        if cached.start.Some? && start.Some? && cached.start != start {
          result, stale := Refusal, true;
        }
      }
      ident := if live then HostIdentity(pid, start, facts) else HostIdentity(pid, None, HostFacts(None, None, None));
      if live {
        HostIdentityIsUnverified(pid, start, facts);
        if libvirt.Some? {
          ident := Apply(ident, pid, libvirt.value);
        } else {
          EmptyRegistry(ident, pid);
        }
        if ident.conflict.None? && stale {
          ident := ident.(conflict := Some(Conflict(pid, StaleCache, false)));
        }
        ResolvedIs(pid, start, facts, Listed(libvirt), stale, ident);
        VerifiedIsVouched(pid, start, facts, Listed(libvirt), stale);
      } else {
        HostIdentityIsUnverified(pid, None, HostFacts(None, None, None));
      }
      if ident.start.Some? && !ident.ambiguous {
        var entry := Cached(now, ident.start, ident);
        InsertKeepsCoherent(cache, origins, Listed(libvirt), pid, entry, Origin(facts, stale));
        cache := cache[pid := entry];
        origins := origins[pid := Origin(facts, stale)];
      }
    }

    /** An event without a uuid is refused; any other updates the registry and evicts what it touches. */
    method ApplyLifecycleEvent(event: LifecycleEvent) returns (ok: bool)
      requires Valid()
      modifies this`libvirt, this`cache, this`origins
      ensures Valid()
      ensures ok <==> event.uuid != ""
      ensures !ok ==> libvirt == old(libvirt) && cache == old(cache)
      ensures ok ==> libvirt == AfterEvent(old(libvirt), event)
      ensures ok ==>
                (cache == map pid | pid in old(cache) && pid !in EventTasks(event)
                                    && old(cache)[pid].value.uuid != Some(event.uuid) :: old(cache)[pid])
    {
      hide AfterEvent, EventTasks, Coherent;
      ok := event.uuid != "";
      if ok {
        var tasks := EventTasks(event);
        EventKeepsCoherent(cache, origins, libvirt, event);
        libvirt := AfterEvent(libvirt, event);
        cache := map pid | pid in cache && pid !in tasks && cache[pid].value.uuid != Some(event.uuid) :: cache[pid];
        origins := Restricted(origins, cache.Keys);
      }
    }
  }

  ghost function Restricted(origins: map<int, Origin>, keys: set<int>): map<int, Origin> {
    map pid | pid in origins && pid in keys :: origins[pid]
  }

  /** Some registered domain of the identity's uuid records exactly this host task and start time. */
  ghost predicate Vouched(domains: seq<Domain>, pid: int, ident: Identity) {
    exists d :: d in domains && ident.uuid == Some(d.uuid) && HasTask(d, pid)
          && Verifies(Recorded(d.identities, pid), ident.start)
  }

  lemma VerifiedIsVouched(pid: int, start: Option<nat>, facts: HostFacts, domains: seq<Domain>, stale: bool)
    ensures var r := Resolved(pid, start, facts, domains, stale); r.verified || r.confidence == High ==>
              Vouched(domains, pid, r)
  {
    VerifiedMeaning(pid, start, facts, domains, stale);
    hide Resolved, Matching, HasTask, StartMatchOf, Accepts, Verifies;
    var lookup := LookupTask(domains, pid, start);
    MatchingElements(domains, pid, start);
    if lookup.Owner? {
      assert lookup.domain in Matching(domains, pid, start);
    }
  }

  lemma ResolvedIs(pid: int, start: Option<nat>, facts: HostFacts, domains: seq<Domain>, stale: bool, ident: Identity)
    requires var applied := Apply(HostIdentity(pid, start, facts), pid, domains);
             ident == if applied.conflict.None? && stale
                   then applied.(conflict := Some(Conflict(pid, StaleCache, false))) else applied
    ensures ident == Resolved(pid, start, facts, domains, stale)
    ensures ident.start == start
  {
    hide HostIdentity, Apply;
    VerifiedMeaning(pid, start, facts, domains, stale);
  }

  lemma EmptyRegistry(ident: Identity, pid: int)
    ensures Apply(ident, pid, []) == ident
  {
  }

  lemma EntryIsCurrent(cache: map<int, Cached>, origins: map<int, Origin>, domains: seq<Domain>, pid: int)
    requires Coherent(cache, origins, domains) && pid in cache
    ensures pid in origins
            && cache[pid].value == Resolved(pid, cache[pid].start, origins[pid].facts, domains, origins[pid].stale)
  {
  }

  lemma InsertKeepsCoherent(cache: map<int, Cached>, origins: map<int, Origin>, domains: seq<Domain>, pid: int,
                            entry: Cached, origin: Origin)
    requires Coherent(cache, origins, domains) && Current(pid, entry, origin, domains)
    ensures Coherent(cache[pid := entry], origins[pid := origin], domains)
  {
  }

  lemma EventKeepsCoherent(cache: map<int, Cached>, origins: map<int, Origin>, domains: Option<seq<Domain>>,
                           event: LifecycleEvent)
    requires Coherent(cache, origins, Listed(domains))
    ensures var kept := map pid | pid in cache && pid !in EventTasks(event)
            && cache[pid].value.uuid != Some(event.uuid) :: cache[pid];
            Coherent(kept, Restricted(origins, kept.Keys), Listed(AfterEvent(domains, event)))
  {
    hide EventTasks, Current, AfterEvent;
    forall pid | pid in cache && pid !in EventTasks(event) && cache[pid].value.uuid != Some(event.uuid)
      ensures Current(pid, cache[pid], origins[pid], Listed(AfterEvent(domains, event)))
    {
      EventKeepsEntry(pid, cache[pid], origins[pid], domains, event);
    }
  }
}
