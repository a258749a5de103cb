/** Which QMP socket an action may reach, and for which identities. */
module ActionGate {
  import opened Machine
  import opened IdentityRegistry
  import opened IdentityResolver
  import Patterns

  datatype Mapping = Mapping(vmId: Option<Patterns.Pattern>, vm: Option<Patterns.Pattern>, socket: string)

  /** The identity part of an event. */
  datatype Info = Info(sources: seq<Source>, confidence: Confidence, verified: bool, ambiguous: bool)

  datatype Config = Config(mappings: seq<Mapping>, requireStable: bool, minimum: Confidence, retries: nat)

  datatype Kind = PauseVm | ResumeVm | DumpGuestMemory(safePath: bool) | QuarantineNic(named: bool)
                | ManualApproval | Noop | UnknownKind

  datatype Failure = QmpError | Timeout | Refused | Unsupported | UnsafeInput | MissingArgument
  datatype Target = Socket(socket: string) | NoSocket(failure: Failure)

  predicate WellFormed(p: Option<Patterns.Pattern>) {
    p.Some? ==> forall i :: 0 <= i < |p.value.alts| ==> p.value.alts[i].parts != []
  }

  /** What compiling the configuration establishes. */
  predicate Compiled(mappings: seq<Mapping>) {
    forall i :: 0 <= i < |mappings| ==> WellFormed(mappings[i].vmId) && WellFormed(mappings[i].vm)
  }

  predicate Meets(p: Option<Patterns.Pattern>, text: string) {
    p.Some? && Patterns.Accepts(p.value, text)
  }

  // --- Choosing a socket ---

  ghost function IdSockets(mappings: seq<Mapping>, id: string): set<string> {
    set m | m in mappings && Meets(m.vmId, id) :: m.socket
  }

  ghost function NameSockets(mappings: seq<Mapping>, name: string): set<string> {
    set m | m in mappings && Meets(m.vm, name) :: m.socket
  }

  /** The name also stands for a VM with another id. */
  ghost predicate Foreign(mappings: seq<Mapping>, id: Option<string>, name: string) {
    exists m :: m in mappings && Meets(m.vm, name) && id.Some? && m.vmId.Some? && !Meets(m.vmId, id.value)
  }

  datatype Pick = NoPick | Picked(socket: string) | Clash

  ghost predicate Picks(sockets: set<string>, pick: Pick) {
    match pick
    case NoPick => sockets == {}
    case Picked(s) => sockets == {s}
    case Clash => exists s, t :: s in sockets && t in sockets && s != t
  }

  ghost predicate Ambiguous(id: Option<string>) {
    id.Some? && "ambiguous:" <= id.value
  }

  /** Exactly one socket applies: by id, or by name when no id mapping does and names are allowed. */
  ghost predicate Selects(cfg: Config, id: Option<string>, name: string, s: string) {
    && !Ambiguous(id)
    && var byId := if id.Some? then IdSockets(cfg.mappings, id.value) else {};
    || byId == {s}
    || (byId == {} && !cfg.requireStable && !Foreign(cfg.mappings, id, name) && NameSockets(cfg.mappings, name) == {s})
  }

  /** No mapping applies at all: the only failure that is an error, not a refusal. */
  ghost predicate Unmapped(cfg: Config, id: Option<string>, name: string) {
    && !Ambiguous(id) && !cfg.requireStable
    && (id.Some? ==> IdSockets(cfg.mappings, id.value) == {})
    && !Foreign(cfg.mappings, id, name) && NameSockets(cfg.mappings, name) == {}
  }

  method Test(p: Option<Patterns.Pattern>, text: string) returns (r: bool)
    requires WellFormed(p)
    ensures r <==> Meets(p, text)
  {
    if p.None? { return false; }
    r := Patterns.IsMatch(p.value, text);
  }

  method UniqueIdSocket(mappings: seq<Mapping>, id: string) returns (pick: Pick)
    requires Compiled(mappings)
    ensures Picks(IdSockets(mappings, id), pick)
  {
    hide Meets, WellFormed;
    pick := NoPick;
    for i := 0 to |mappings|
      invariant pick != Clash && Picks(IdSockets(mappings[..i], id), pick)
    {
      var m := mappings[i];
      var matched := Test(m.vmId, id);
      assert forall n :: n in mappings[..i + 1] <==> n in mappings[..i] || n == m;
      assert IdSockets(mappings[..i + 1], id) == IdSockets(mappings[..i], id) + if matched then {m.socket} else {};
      if matched {
        if pick.Picked? && pick.socket != m.socket {
          assert forall n :: n in mappings[..i] ==> n in mappings;
          assert pick.socket in IdSockets(mappings[..i], id) && m.socket in IdSockets(mappings, id);
          assert pick.socket in IdSockets(mappings, id);
          return Clash;
        }
        pick := Picked(m.socket);
      }
    }
    assert mappings[..|mappings|] == mappings;
  }

  method UniqueNameSocket(mappings: seq<Mapping>, id: Option<string>, name: string) returns (pick: Pick)
    requires Compiled(mappings)
    ensures pick == Clash <==> Foreign(mappings, id, name) || Picks(NameSockets(mappings, name), Clash)
    ensures pick != Clash ==> Picks(NameSockets(mappings, name), pick)
  {
    hide Meets, WellFormed;
    pick := NoPick;
    for i := 0 to |mappings|
      invariant pick != Clash && Picks(NameSockets(mappings[..i], name), pick)
      invariant !Foreign(mappings[..i], id, name)
    {
      var m := mappings[i];
      var matched := Test(m.vm, name);
      assert forall n :: n in mappings[..i + 1] <==> n in mappings[..i] || n == m;
      assert NameSockets(mappings[..i + 1], name)
          == NameSockets(mappings[..i], name) + if matched then {m.socket} else {};
      if matched {
        if id.Some? && m.vmId.Some? {
          var stable := Test(m.vmId, id.value);
          if !stable {
            assert m in mappings;
            return Clash;
          }
        }
        if pick.Picked? && pick.socket != m.socket {
          assert forall n :: n in mappings[..i] ==> n in mappings;
          assert pick.socket in NameSockets(mappings[..i], name) && m.socket in NameSockets(mappings, name);
          assert pick.socket in NameSockets(mappings, name);
          return Clash;
        }
        pick := Picked(m.socket);
      }
    }
    assert mappings[..|mappings|] == mappings;
  }

  /** `is_timeout_detail`: an error counts as a timeout by its text. */
  predicate SaysTimeout(detail: string) {
    exists p, part :: 0 <= p < |detail| && part in TIMEOUT_WORDS && Patterns.At(Patterns.Lower(detail), p, part)
  }

  const TIMEOUT_WORDS := ["timed out", "timeout", "would block", "did not respond", "temporarily unavailable"]

  /** The failure of an event that no mapping applies to; its text quotes the id and the name. */
  function MissingMapping(id: Option<string>, name: string): (r: Failure)
    ensures r in {QmpError, Timeout}
  {
    var shown := if id.Some? then id.value else "none";
    if SaysTimeout("no QMP socket mapped for vm_id '" + shown + "' vm '" + name + "'") then Timeout else QmpError
  }

  /** `qmp_socket_for`: a socket exactly when one is selected; no retry for anything but a missing mapping. */
  method SocketFor(cfg: Config, id: Option<string>, name: string) returns (r: Target)
    requires Compiled(cfg.mappings)
    ensures forall s :: r == Socket(s) <==> Selects(cfg, id, name, s)
    ensures r == NoSocket(MissingMapping(id, name)) <==> Unmapped(cfg, id, name)
    ensures r.NoSocket? ==> r.failure in {MissingMapping(id, name), Refused}
  {
    hide IdSockets, NameSockets, Foreign, Compiled, SaysTimeout;
    if id.Some? && "ambiguous:" <= id.value { return NoSocket(Refused); }
    if id.Some? {
      var pick := UniqueIdSocket(cfg.mappings, id.value);
      if pick.Clash? { return NoSocket(Refused); }
      if pick.Picked? { return Socket(pick.socket); }
    }
    if cfg.requireStable { return NoSocket(Refused); }
    var pick := UniqueNameSocket(cfg.mappings, id, name);
    r := match pick
      case Clash => NoSocket(Refused)
      case Picked(s) => Socket(s)
      case NoPick => NoSocket(MissingMapping(id, name));
  }

  /** The order of the mappings does not matter. */
  lemma OrderIrrelevant(cfg: Config, other: Config, id: Option<string>, name: string, s: string)
    requires multiset(cfg.mappings) == multiset(other.mappings) && cfg.requireStable == other.requireStable
    ensures Selects(cfg, id, name, s) <==> Selects(other, id, name, s)
    ensures Unmapped(cfg, id, name) <==> Unmapped(other, id, name)
  {
    hide Meets;
    assert forall m :: m in cfg.mappings <==> m in multiset(cfg.mappings);
    assert forall m :: m in other.mappings <==> m in multiset(other.mappings);
    assert NameSockets(cfg.mappings, name) == NameSockets(other.mappings, name);
    if id.Some? {
      assert IdSockets(cfg.mappings, id.value) == IdSockets(other.mappings, id.value);
    }
    hide IdSockets, NameSockets;
  }

  // --- The identity gate ---

  datatype Objection = StaleIdentity | ConflictingIdentity | MissingIdentity | AmbiguousIdentity | PidOnlyIdentity
                     | LowConfidence | UnverifiedIdentity

  predicate QmpBacked(kind: Kind) {
    kind.PauseVm? || kind.ResumeVm? || kind.DumpGuestMemory? || kind.QuarantineNic?
  }

  predicate IsConflictTag(tag: string) {
    tag == "identity:conflict" || "identity_conflict:" <= tag
  }

  predicate HasConflictTag(tags: seq<string>) {
    exists i :: 0 <= i < |tags| && IsConflictTag(tags[i])
  }

  predicate PidOnly(info: Info) {
    FallbackPid in info.sources
    && forall s :: s in info.sources ==>
         s !in {ProcCmdline, ProcCgroup, LibvirtXml, LibvirtLifecycle, QmpSocketHint, StartTimeVerified}
  }

  function Rank(c: Confidence): nat {
    match c case Low => 0 case Medium => 1 case High => 2
  }

  /** Any confidence reaches low, all but low reaches medium, and only high reaches high. */
  predicate Reaches(c: Confidence, minimum: Confidence) {
    match minimum case Low => true case Medium => c != Low case High => c == High
  }

  /** `identity_safety_refusal`. */
  function Objects(cfg: Config, id: Option<string>, kind: Kind, info: Option<Info>,
                   tags: seq<string>): Option<Objection> {
    if !QmpBacked(kind) then None
    else if id.Some? && "ambiguous:" <= id.value then None
    else if "identity_conflict:stale_cache" in tags then Some(StaleIdentity)
    else if HasConflictTag(tags) then Some(ConflictingIdentity)
    else if info.None? then Some(MissingIdentity)
    else if info.value.ambiguous || AmbiguousSource in info.value.sources then Some(AmbiguousIdentity)
    else if PidOnly(info.value) then Some(PidOnlyIdentity)
    else if Rank(info.value.confidence) < Rank(cfg.minimum) then Some(LowConfidence)
    else if !info.value.verified || StartTimeVerified !in info.value.sources then Some(UnverifiedIdentity)
    else None
  }

  /** The identity is present, unambiguous, free of conflict, verified and confident enough. */
  ghost predicate Trusted(cfg: Config, info: Option<Info>, tags: seq<string>) {
    && !HasConflictTag(tags)
    && info.Some? && !info.value.ambiguous && AmbiguousSource !in info.value.sources
    && info.value.verified && StartTimeVerified in info.value.sources
    && Reaches(info.value.confidence, cfg.minimum)
  }

  lemma ObjectsUnlessTrusted(cfg: Config, id: Option<string>, kind: Kind, info: Option<Info>, tags: seq<string>)
    requires QmpBacked(kind) && !Ambiguous(id)
    ensures Objects(cfg, id, kind, info, tags) == None <==> Trusted(cfg, info, tags)
  {
    assert "identity_conflict:" <= "identity_conflict:stale_cache";
  }

  /** Why the gate objects: the first of these that holds. */
  lemma ObjectionExactly(cfg: Config, id: Option<string>, kind: Kind, info: Option<Info>, tags: seq<string>)
    requires QmpBacked(kind) && !Ambiguous(id)
    ensures var o := Objects(cfg, id, kind, info, tags);
            var stale := "identity_conflict:stale_cache" in tags;
            var conflict := exists i :: 0 <= i < |tags|
                              && (tags[i] == "identity:conflict" || "identity_conflict:" <= tags[i]);
            && (o == Some(StaleIdentity) <==> stale)
            && (o == Some(ConflictingIdentity) <==> conflict && !stale)
            && (o == Some(MissingIdentity) <==> !conflict && info.None?)
            && (!conflict && info.Some? ==>
                  o !in {Some(StaleIdentity), Some(ConflictingIdentity), Some(MissingIdentity)})
  {
    assert "identity_conflict:" <= "identity_conflict:stale_cache";
    assert IsConflictTag("identity_conflict:stale_cache");
  }

  lemma StaleIsConflict(tags: seq<string>)
    ensures "identity_conflict:stale_cache" in tags ==> HasConflictTag(tags)
  {
    assert "identity_conflict:" <= "identity_conflict:stale_cache";
  }

  /** The sources that know nothing but the pid. */
  predicate OfPid(s: Source) {
    s == FallbackPid || s == AmbiguousSource
  }

  /** The same for an identity that is present and free of conflicts. */
  lemma PresentObjection(cfg: Config, id: Option<string>, kind: Kind, info: Info, tags: seq<string>)
    requires QmpBacked(kind) && !Ambiguous(id) && !HasConflictTag(tags)
    ensures var o := Objects(cfg, id, kind, Some(info), tags);
            var ambiguous := info.ambiguous || AmbiguousSource in info.sources;
            var pidOnly := FallbackPid in info.sources && forall s :: s in info.sources ==> OfPid(s);
            && (o == Some(AmbiguousIdentity) <==> ambiguous)
            && (o == Some(PidOnlyIdentity) <==> !ambiguous && pidOnly)
            && (o == Some(LowConfidence) <==> !ambiguous && !pidOnly && !Reaches(info.confidence, cfg.minimum))
            && (o == Some(UnverifiedIdentity) <==> !ambiguous && !pidOnly && Reaches(info.confidence, cfg.minimum)
                                                   && !(info.verified && StartTimeVerified in info.sources))
  {
    StaleIsConflict(tags);
    forall s: Source
      ensures OfPid(s) <==>
              s !in {ProcCmdline, ProcCgroup, LibvirtXml, LibvirtLifecycle, QmpSocketHint, StartTimeVerified}
    {
      match s case _ => {}
    }
    hide HasConflictTag, OfPid;
  }

  // --- Running an action ---

  function SaturatingInc(n: nat): nat {
    if n < U32_MAX then n + 1 else U32_MAX
  }

  /** What the kind of action needs before it reaches its socket. */
  predicate Ready(kind: Kind) {
    match kind
    case DumpGuestMemory(safePath) => safePath
    case QuarantineNic(named) => named
    case _ => QmpBacked(kind)
  }

  datatype Reply = Success | ErrorReply | TimedOut
  datatype Outcome = Done | DryRun | Failed(failure: Failure)

  function Answer(reply: Reply): Outcome {
    match reply case Success => Done case ErrorReply => Failed(QmpError) case TimedOut => Failed(Timeout)
  }

  predicate Retryable(outcome: Outcome) {
    outcome == Failed(QmpError) || outcome == Failed(Timeout)
  }

  ghost predicate Reachable(cfg: Config, id: Option<string>, name: string, kind: Kind) {
    Ready(kind) && exists s :: Selects(cfg, id, name, s)
  }

  /** Why an attempt on a VM ends before it reaches a socket. */
  ghost function Refusal(cfg: Config, id: Option<string>, name: string, kind: Kind): Failure {
    if Unmapped(cfg, id, name) then MissingMapping(id, name)
    else if !(exists s :: Selects(cfg, id, name, s)) then Refused
    else if kind.DumpGuestMemory? then UnsafeInput
    else MissingArgument
  }

  /** One attempt reaches at most one socket; `reply` is what the QMP exchange on it would give. */
  method Attempt(cfg: Config, id: Option<string>, name: string, kind: Kind,
                 reply: Reply) returns (outcome: Outcome, reached: seq<string>)
    requires Compiled(cfg.mappings)
    ensures forall s :: reached == [s] <==> Ready(kind) && Selects(cfg, id, name, s)
    ensures |reached| == if Reachable(cfg, id, name, kind) then 1 else 0
    ensures reached != [] ==> outcome == Answer(reply)
    ensures reached == [] && QmpBacked(kind) ==> outcome == Failed(Refusal(cfg, id, name, kind))
    ensures !QmpBacked(kind) ==> outcome == if kind == UnknownKind then Failed(Unsupported) else Done
  {
    hide Selects, Unmapped, Compiled;
    reached := [];
    if kind == ManualApproval || kind == Noop { return Done, reached; }
    if kind == UnknownKind { return Failed(Unsupported), reached; }
    var target := SocketFor(cfg, id, name);
    if target.NoSocket? { return Failed(target.failure), reached; }
    SelectedIsMapped(cfg, id, name, target.socket);
    if kind.DumpGuestMemory? && !kind.safePath { return Failed(UnsafeInput), reached; }
    if kind.QuarantineNic? && !kind.named { return Failed(MissingArgument), reached; }
    reached := [target.socket];
    outcome := match reply case Success => Done case ErrorReply => Failed(QmpError) case TimedOut => Failed(Timeout);
  }

  lemma OnlyUnmappedIsRetried(cfg: Config, id: Option<string>, name: string, kind: Kind)
    ensures Retryable(Failed(Refusal(cfg, id, name, kind))) <==> Unmapped(cfg, id, name)
  {
    hide Unmapped, Selects;
  }

  lemma SelectedIsMapped(cfg: Config, id: Option<string>, name: string, s: string)
    requires Selects(cfg, id, name, s)
    ensures !Unmapped(cfg, id, name)
  {
    hide IdSockets, NameSockets, Foreign;
    assert s in {s};
  }

  /** The exchanges of a run: every reply but the last asks for another attempt, and the last ends the run. */
  ghost predicate Exchanges(replies: nat -> Reply, n: nat, retries: nat, outcome: Outcome) {
    && 0 < n <= retries + 1
    && (forall i :: 0 <= i < n - 1 ==> replies(i) != Success)
    && (replies(n - 1) == Success || n == retries + 1)
    && outcome == Answer(replies(n - 1))
  }

  /** What a run with retries gives: exchanges with the selected socket, or the reason why there are none; only a
      missing mapping is tried again. */
  ghost predicate Ran(cfg: Config, id: Option<string>, name: string, kind: Kind, replies: nat -> Reply,
                      outcome: Outcome, attempts: nat, reached: seq<string>) {
    if Reachable(cfg, id, name, kind) then
      && (forall i :: 0 <= i < |reached| ==> Selects(cfg, id, name, reached[i]))
      && Exchanges(replies, |reached|, cfg.retries, outcome)
      && attempts == Saturated(|reached|)
    else
      && reached == []
      && (if QmpBacked(kind) then
            && outcome == Failed(Refusal(cfg, id, name, kind))
            && attempts == (if Unmapped(cfg, id, name) then Saturated(cfg.retries + 1) else 1)
          else
            && outcome == (if kind == UnknownKind then Failed(Unsupported) else Done)
            && attempts == 1)
  }

  /** `run_with_retries`. */
  method RunWithRetries(cfg: Config, id: Option<string>, name: string, kind: Kind, replies: nat -> Reply)
    returns (outcome: Outcome, attempts: nat, reached: seq<string>)
    requires Compiled(cfg.mappings)
    ensures Ran(cfg, id, name, kind, replies, outcome, attempts, reached)
  {
    hide Selects, Unmapped, Compiled, Reachable, Refusal, Ran, Tried;
    attempts, reached, outcome := 0, [], Done;
    var attempt := 0;
    while attempt <= cfg.retries
      invariant 0 <= attempt <= cfg.retries + 1
      invariant attempts == Saturated(attempt)
      invariant attempt > 0 ==> Retryable(outcome) && Tried(cfg, id, name, kind, replies, attempt, outcome, reached)
      invariant attempt == 0 ==> reached == []
    {
      var more: seq<string>;
      ghost var last := outcome;
      outcome, more := Attempt(cfg, id, name, kind, replies(attempt));
      TriedNext(cfg, id, name, kind, replies, attempt, last, reached, outcome, more);
      attempts, reached := SaturatingInc(attempts), reached + more;
      attempt := attempt + 1;
      if !Retryable(outcome) { break; }
    }
    RunEnds(cfg, id, name, kind, replies, attempt, outcome, reached);
  }

  /** The first `n` attempts, all but the last of them to be retried. */
  ghost predicate Tried(cfg: Config, id: Option<string>, name: string, kind: Kind, replies: nat -> Reply, n: nat,
                        outcome: Outcome, reached: seq<string>)
    requires n > 0
  {
    if Reachable(cfg, id, name, kind) then
      && |reached| == n && (forall i :: 0 <= i < n ==> Selects(cfg, id, name, reached[i]))
      && (forall i :: 0 <= i < n - 1 ==> replies(i) != Success)
      && outcome == Answer(replies(n - 1))
    else
      && reached == []
      && (n > 1 ==> Unmapped(cfg, id, name) && QmpBacked(kind))
      && outcome == if QmpBacked(kind) then Failed(Refusal(cfg, id, name, kind))
                    else if kind == UnknownKind then Failed(Unsupported) else Done
  }

  lemma TriedNext(cfg: Config, id: Option<string>, name: string, kind: Kind, replies: nat -> Reply, n: nat,
                  last: Outcome, reached: seq<string>, outcome: Outcome, more: seq<string>)
    requires if n > 0 then Retryable(last) && Tried(cfg, id, name, kind, replies, n, last, reached) else reached == []
    requires forall s :: more == [s] <==> Ready(kind) && Selects(cfg, id, name, s)
    requires |more| == if Reachable(cfg, id, name, kind) then 1 else 0
    requires more != [] ==> outcome == Answer(replies(n))
    requires more == [] && QmpBacked(kind) ==> outcome == Failed(Refusal(cfg, id, name, kind))
    requires !QmpBacked(kind) ==> outcome == if kind == UnknownKind then Failed(Unsupported) else Done
    ensures Tried(cfg, id, name, kind, replies, n + 1, outcome, reached + more)
  {
    OnlyUnmappedIsRetried(cfg, id, name, kind);
    hide Selects, Unmapped, Reachable, Refusal;
    assert more != [] ==> more == [more[0]];
  }

  lemma RunEnds(cfg: Config, id: Option<string>, name: string, kind: Kind, replies: nat -> Reply, n: nat,
                outcome: Outcome, reached: seq<string>)
    requires 0 < n <= cfg.retries + 1 && (Retryable(outcome) ==> n == cfg.retries + 1)
    requires Tried(cfg, id, name, kind, replies, n, outcome, reached)
    ensures Ran(cfg, id, name, kind, replies, outcome, Saturated(n), reached)
  {
    OnlyUnmappedIsRetried(cfg, id, name, kind);
    hide Selects, Unmapped, Reachable, Refusal;
  }

  /** A 32-bit count of attempts. */
  function Saturated(n: nat): (r: nat)
    ensures r <= 0xffff_ffff && r <= n && (r == n || r == 0xffff_ffff)
  {
    if n < U32_MAX then n else U32_MAX
  }

  /** What `run_action` gives: nothing is done in a dry run, an untrusted identity is refused, the rest is run. */
  ghost predicate Handled(cfg: Config, id: Option<string>, name: string, kind: Kind, info: Option<Info>,
                          tags: seq<string>, execute: bool, replies: nat -> Reply,
                          outcome: Outcome, attempts: nat, reached: seq<string>) {
    if !execute then outcome == DryRun && attempts == 0 && reached == []
    else if QmpBacked(kind) && !Ambiguous(id) && !Trusted(cfg, info, tags) then
      outcome == Failed(Refused) && attempts == 1 && reached == []
    else Ran(cfg, id, name, kind, replies, outcome, attempts, reached)
  }

  /**
   * `run_action`: a socket is reached exactly when the action is to be executed, the identity is trusted and one socket
   * is selected; every exchange is with that socket.
   */
  method RunAction(cfg: Config, id: Option<string>, name: string, kind: Kind, info: Option<Info>, tags: seq<string>,
                   execute: bool, replies: nat -> Reply)
    returns (outcome: Outcome, attempts: nat, reached: seq<string>)
    requires Compiled(cfg.mappings)
    ensures Handled(cfg, id, name, kind, info, tags, execute, replies, outcome, attempts, reached)
    ensures reached != [] <==> execute && Trusted(cfg, info, tags) && Reachable(cfg, id, name, kind)
    ensures forall i :: 0 <= i < |reached| ==> Selects(cfg, id, name, reached[i])
    ensures execute && QmpBacked(kind) && outcome == Done ==> reached != []
  {
    hide Selects, Unmapped, Compiled, Trusted, Objects;
    if !execute { return DryRun, 0, []; }
    if QmpBacked(kind) && !Ambiguous(id) {
      ObjectsUnlessTrusted(cfg, id, kind, info, tags);
    }
    AmbiguousSelectsNone(cfg, id, name, kind);
    var objection := Objects(cfg, id, kind, info, tags);
    if objection.Some? {
      ObjectsOnlyToQmp(cfg, id, kind, info, tags);
      return Failed(Refused), 1, [];
    }
    outcome, attempts, reached := RunWithRetries(cfg, id, name, kind, replies);
  }

  lemma AmbiguousSelectsNone(cfg: Config, id: Option<string>, name: string, kind: Kind)
    ensures Reachable(cfg, id, name, kind) ==> !Ambiguous(id) && QmpBacked(kind)
  {
    hide IdSockets, NameSockets, Foreign;
  }

  lemma ObjectsOnlyToQmp(cfg: Config, id: Option<string>, kind: Kind, info: Option<Info>, tags: seq<string>)
    requires Objects(cfg, id, kind, info, tags).Some?
    ensures QmpBacked(kind) && !Ambiguous(id)
  {
    hide HasConflictTag, PidOnly;
  }

  lemma SelectsOne(cfg: Config, id: Option<string>, name: string, s: string, t: string)
    requires Selects(cfg, id, name, s) && Selects(cfg, id, name, t)
    ensures s == t
  {
    hide IdSockets, NameSockets, Foreign;
    assert s in {s} && t in {t};
  }

  lemma ExchangesOnce(replies: nat -> Reply, n: nat, k: nat, retries: nat, outcome: Outcome, outcome': Outcome)
    requires Exchanges(replies, n, retries, outcome) && Exchanges(replies, k, retries, outcome')
    ensures n == k && outcome == outcome'
  {
  }

  /** Permuted mappings run alike: the same outcome after the same exchanges with the same socket. */
  lemma RunsAlike(cfg: Config, other: Config, id: Option<string>, name: string, kind: Kind, replies: nat -> Reply,
                  outcome: Outcome, attempts: nat, reached: seq<string>,
                  outcome': Outcome, attempts': nat, reached': seq<string>)
    requires multiset(cfg.mappings) == multiset(other.mappings) && other == cfg.(mappings := other.mappings)
    requires Ran(cfg, id, name, kind, replies, outcome, attempts, reached)
    requires Ran(other, id, name, kind, replies, outcome', attempts', reached')
    ensures outcome == outcome' && attempts == attempts' && reached == reached'
  {
    hide Selects, Unmapped, Exchanges, Saturated;
    forall s ensures Selects(cfg, id, name, s) <==> Selects(other, id, name, s) {
      OrderIrrelevant(cfg, other, id, name, s);
    }
    OrderIrrelevant(cfg, other, id, name, name);
    if Reachable(cfg, id, name, kind) {
      ExchangesOnce(replies, |reached|, |reached'|, cfg.retries, outcome, outcome');
      forall i | 0 <= i < |reached| ensures reached[i] == reached'[i] {
        SelectsOne(cfg, id, name, reached[i], reached'[i]);
      }
    }
  }

  /** The order of the mappings changes nothing about an action: its outcome, its attempts, the sockets reached. */
  lemma ActionsAlike(cfg: Config, other: Config, id: Option<string>, name: string, kind: Kind, info: Option<Info>,
                     tags: seq<string>, execute: bool, replies: nat -> Reply,
                     outcome: Outcome, attempts: nat, reached: seq<string>,
                     outcome': Outcome, attempts': nat, reached': seq<string>)
    requires multiset(cfg.mappings) == multiset(other.mappings) && other == cfg.(mappings := other.mappings)
    requires Handled(cfg, id, name, kind, info, tags, execute, replies, outcome, attempts, reached)
    requires Handled(other, id, name, kind, info, tags, execute, replies, outcome', attempts', reached')
    ensures outcome == outcome' && attempts == attempts' && reached == reached'
  {
    hide Ran;
    if execute && (QmpBacked(kind) && !Ambiguous(id) ==> Trusted(cfg, info, tags)) {
      RunsAlike(cfg, other, id, name, kind, replies, outcome, attempts, reached, outcome', attempts', reached');
    }
  }

  // --- From the registry to the socket ---

  /** `merge_event_identity`. */
  function Merged(prior: Option<Info>, ident: Identity): Info {
    var had := if prior.Some? then prior.value else Info([], Low, false, false);
    var ambiguous := had.ambiguous || ident.ambiguous;
    var higher := if Rank(had.confidence) >= Rank(ident.confidence) then had.confidence else ident.confidence;
    Info(PushAll(had.sources, ident.sources), if ambiguous then Low else higher,
         had.verified || ident.verified, ambiguous)
  }

  /** An enriched event has the sources of both, is verified or ambiguous if either is, and, unless ambiguous, is as
      confident as the more confident one. */
  lemma MergedExactly(prior: Option<Info>, ident: Identity, threshold: Confidence, s: Source)
    ensures var r := Merged(prior, ident);
            && (s in r.sources <==> (prior.Some? && s in prior.value.sources) || s in ident.sources)
            && (r.ambiguous <==> (prior.Some? && prior.value.ambiguous) || ident.ambiguous)
            && (r.verified <==> (prior.Some? && prior.value.verified) || ident.verified)
            && (Reaches(r.confidence, threshold) <==>
                threshold == Low || (!r.ambiguous && ((prior.Some? && Reaches(prior.value.confidence, threshold))
                                                      || Reaches(ident.confidence, threshold))))
  {
    hide PushAll;
  }

  function PushAll(sources: seq<Source>, more: seq<Source>): (r: seq<Source>)
    ensures forall s :: s in r <==> s in sources || s in more
    decreases more
  {
    if more == [] then sources else PushAll(Push(sources, more[0]), more[1..])
  }

  function ReasonText(reason: Reason): string {
    match reason
    case MultipleDomains => "multiple_domains"
    case PidReused => "pid_reuse"
    case StartTimeUnverified => "start_time_unverified"
    case StaleCache => "stale_cache"
    case ProcCgroupMismatch => "proc_cgroup_mismatch"
    case UuidMismatch => "libvirt_uuid_mismatch"
    case SocketMismatch => "qmp_socket_mismatch"
    case NameMismatch => "libvirt_name_mismatch"
  }

  function PushTag(tags: seq<string>, tag: string): seq<string> {
    if tag in tags then tags else tags + [tag]
  }

  /** The conflict tags of `enrich_event`. */
  function WithConflictTags(tags: seq<string>, ident: Identity): seq<string> {
    if ident.conflict.None? then tags
    else PushTag(PushTag(tags, "identity:conflict"), "identity_conflict:" + ReasonText(ident.conflict.value.reason))
  }

  /** A stale cache is tagged as such, and nothing else is. */
  lemma StaleIsTagged(tags: seq<string>, ident: Identity)
    ensures "identity_conflict:stale_cache" in WithConflictTags(tags, ident) <==>
            || "identity_conflict:stale_cache" in tags
            || (ident.conflict.Some? && ident.conflict.value.reason == StaleCache)
  {
    var stale := "identity_conflict:stale_cache";
    if ident.conflict.Some? {
      var text := ReasonText(ident.conflict.value.reason);
      assert stale == "identity_conflict:" + "stale_cache" && |stale| == 18 + 11;
      assert |text| == 11 <==> ident.conflict.value.reason == StaleCache;
      Pushed(tags, "identity:conflict", stale);
      Pushed(PushTag(tags, "identity:conflict"), "identity_conflict:" + text, stale);
      assert |"identity:conflict"| == 17;
      hide PushTag, ReasonText;
    }
  }

  lemma Pushed(tags: seq<string>, tag: string, t: string)
    ensures t in PushTag(tags, tag) <==> t in tags || t == tag
  {
  }

  lemma ConflictIsTagged(tags: seq<string>, ident: Identity)
    requires ident.conflict.Some?
    ensures HasConflictTag(WithConflictTags(tags, ident))
  {
    var once := PushTag(tags, "identity:conflict");
    var i :| 0 <= i < |once| && once[i] == "identity:conflict";
    assert WithConflictTags(tags, ident)[i] == "identity:conflict";
  }

  /**
   * End to end: an event enriched by a resolution is trusted only if the resolution found no conflict and a domain now
   * registered under the identity's uuid records this very host task and start time, unless the event came with a
   * start time already verified.
   */
  lemma TrustedIsVouched(cfg: Config, prior: Option<Info>, tags: seq<string>, pid: int, start: Option<nat>,
                         facts: HostFacts, domains: seq<Domain>, stale: bool)
    requires prior.Some? ==> !prior.value.verified || StartTimeVerified !in prior.value.sources
    requires var ident := Resolved(pid, start, facts, domains, stale);
             Trusted(cfg, Some(Merged(prior, ident)), WithConflictTags(tags, ident))
    ensures var ident := Resolved(pid, start, facts, domains, stale);
            Vouched(domains, pid, ident) && ident.conflict.None? && !ident.ambiguous && ident.confidence == High
                  && start.Some?
  {
    var ident := Resolved(pid, start, facts, domains, stale);
    VerifiedMeaning(pid, start, facts, domains, stale);
    VerifiedIsVouched(pid, start, facts, domains, stale);
    if ident.conflict.Some? {
      ConflictIsTagged(tags, ident);
    }
    hide Resolved, Vouched, LookupTask, HasConflictTag, WithConflictTags, PushAll, Rank, Accepts;
  }
}
