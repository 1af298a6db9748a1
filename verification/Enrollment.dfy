/**
 Machine credentials: a catalog of machines and a ledger of credentials, kept in two databases
 that commit apart.  A call changes the ledger inside one transaction and commits to the catalog
 while that transaction is open, so a crash may keep the catalog's change and lose the ledger's.
 */
module Enrollment {
  import opened Wrappers

  type KeyId = nat
  type MachineId = nat

  datatype Request = Request(
    registration: string, name: string, description: Option<string>, platform: Option<string>, version: Option<string>)

  /** A machine as first registered, the credential bound to it and the enrollment it belongs to. */
  datatype Machine = Machine(request: Request, credential: Option<KeyId>, enrollment: Option<KeyId>)

  datatype Credential =
    Credential(machine: MachineId, revoked: bool, replacedBy: Option<KeyId>, rotationFrom: Option<KeyId>)

  /** The single use of an enrollment key. */
  datatype Use = Use(request: Request, machine: Option<MachineId>)

  /** The ledger's tables, which commit together. */
  datatype Ledger = Ledger(credentials: map<KeyId, Credential>, uses: map<KeyId, Use>)

  /** The catalog, its unique index by registration, the ledger, and the supplies of fresh ids. */
  datatype State = State(
    machines: map<MachineId, Machine>, index: map<string, MachineId>, ledger: Ledger, nextKey: KeyId, nextMachine: MachineId)

  datatype Principal = Admin | Enroller(key: KeyId) | MachineKey(key: KeyId, machine: MachineId)

  /** A call may crash once the catalog has made so many of its commits, before the ledger's commit. */
  datatype Crash = NoCrash | After(commits: nat)

  datatype Error = NotPermitted | EnrollmentConsumed | RegistrationConflict | UnknownMachine | NotCurrent | InvalidCredential

  datatype Reply =
    | Registered(machine: MachineId, key: KeyId, recovered: bool)
    | Prepared(key: KeyId)
    | Confirmed
    | Cleared
    | Refused(error: Error)
    | Crashed

  datatype Result = Result(state: State, reply: Reply)

  // ----- the ledger

  function Active(l: Ledger, m: MachineId): set<KeyId> {
    set k | k in l.credentials && l.credentials[k].machine == m && !l.credentials[k].revoked
  }

  /** Revokes the keys; a replacement once recorded stays. */
  function Revoke(l: Ledger, keys: set<KeyId>, successor: Option<KeyId>): (r: Ledger)
    ensures r.uses == l.uses
  {
    l.(credentials := map k | k in l.credentials :: if k in keys then RevokedBy(l.credentials[k], successor) else l.credentials[k])
  }

  function RevokedBy(c: Credential, successor: Option<KeyId>): Credential {
    c.(revoked := true, replacedBy := if c.replacedBy.Some? then c.replacedBy else successor)
  }

  function RevokeOthers(l: Ledger, m: MachineId, keep: Option<KeyId>): (r: Ledger)
    ensures r.uses == l.uses
  {
    Revoke(l, (set k | k in Active(l, m) && keep != Some(k)), None)
  }

  function Issue(l: Ledger, k: KeyId, m: MachineId, rotationFrom: Option<KeyId>): (r: Ledger)
    ensures r.uses == l.uses
  {
    l.(credentials := l.credentials[k := Credential(m, false, None, rotationFrom)])
  }

  function Bind(s: State, m: MachineId, key: Option<KeyId>): State
    requires m in s.machines
  {
    s.(machines := s.machines[m := s.machines[m].(credential := key)])
  }

  // ----- registration

  /** The key has already been used for this very request. */
  predicate Recovering(s: State, p: Principal, request: Request) {
    p.Enroller? && p.key in s.ledger.uses && s.ledger.uses[p.key].request == request
  }

  /** Why a registration is refused, if it is. */
  function RegistrationError(s: State, p: Principal, request: Request): Option<Error>
    requires Inv(s)
  {
    if p.MachineKey? then Some(NotPermitted)
    else if p.Enroller? && p.key in s.ledger.uses && !Recovering(s, p, request) then Some(EnrollmentConsumed)
    else if request.registration !in s.index then None
    else
      var m := s.machines[s.index[request.registration]];
      if p.Enroller? && m.enrollment != Some(p.key) && !(m.enrollment.None? && Recovering(s, p, request))
      then Some(RegistrationConflict)
      else if m.request != request then Some(RegistrationConflict)
      else None
  }

  function EnrollmentOf(p: Principal): Option<KeyId> {
    if p.Enroller? then Some(p.key) else None
  }

  /** The catalog after its first commit: the machine is there, and belongs to the enrollment. */
  function Catalogued(s: State, p: Principal, request: Request): State
    requires Inv(s)
  {
    if request.registration in s.index then
      var m := s.index[request.registration];
      if p.Enroller? && s.machines[m].enrollment.None?
      then s.(machines := s.machines[m := s.machines[m].(enrollment := Some(p.key))])
      else s
    else
      s.(machines := s.machines[s.nextMachine := Machine(request, None, EnrollmentOf(p))],
         index := s.index[request.registration := s.nextMachine],
         nextMachine := s.nextMachine + 1)
  }

  /** The ledger once the machine, so far bound to previous, has been given k and no other. */
  function Rekeyed(l: Ledger, m: MachineId, previous: Option<KeyId>, k: KeyId): (r: Ledger)
    ensures r.uses == l.uses
  {
    var issued := Issue(RevokeOthers(l, m, previous), k, m, None);
    if previous.Some? && previous.value in l.credentials then Revoke(issued, {previous.value}, Some(k)) else issued
  }

  /** The ledger after a registration that gives machine m, so far bound to previous, the key k. */
  function Enrolled(l: Ledger, p: Principal, request: Request, m: MachineId, previous: Option<KeyId>, k: KeyId): (r: Ledger)
    ensures r.uses == if p.Enroller? then l.uses[p.key := Use(request, Some(m))] else l.uses
  {
    Rekeyed(if p.Enroller? then l.(uses := l.uses[p.key := Use(request, Some(m))]) else l, m, previous, k)
  }

  /** Whether a registration repeats one that the same enrollment key made. */
  predicate IsRecovery(s: State, p: Principal, request: Request)
    requires IndexAgrees(s)
  {
    if !p.Enroller? then false
    else if request.registration in s.index then s.machines[s.index[request.registration]].enrollment == Some(p.key)
    else Recovering(s, p, request)
  }

  function Register(s: State, p: Principal, request: Request, crash: Crash): Result
    requires Inv(s)
  {
    var error := RegistrationError(s, p, request);
    if crash == After(0) then Result(s, Crashed)
    else if error.Some? then Result(s, Refused(error.value))
    else
      var c := Catalogued(s, p, request);
      if crash == After(1) then Result(c, Crashed)
      else
        var m, k := c.index[request.registration], s.nextKey;
        var bound := Bind(c, m, Some(k)).(nextKey := k + 1);
        if crash.After? then Result(bound, Crashed)
        else
          Result(bound.(ledger := Enrolled(c.ledger, p, request, m, c.machines[m].credential, k)),
                 Registered(m, k, IsRecovery(s, p, request)))
  }

  // ----- rotation and revocation

  /** Whether the principal speaks for the machine: an admin, or the credential now bound to it. */
  function CurrencyError(s: State, p: Principal, m: MachineId, allowCleared: bool): Option<Error> {
    if m !in s.machines then Some(UnknownMachine)
    else if p.Admin? then None
    else if p.MachineKey? && p.machine == m
      && (s.machines[m].credential == Some(p.key) || (allowCleared && s.machines[m].credential.None?)) then None
    else Some(NotCurrent)
  }

  function Prepare(s: State, p: Principal, m: MachineId, crash: Crash): Result {
    var error := CurrencyError(s, p, m, false);
    if error.Some? then Result(s, Refused(error.value))
    else if crash.After? then Result(s, Crashed)
    else
      var bound := s.machines[m].credential;
      Result(s.(ledger := Issue(RevokeOthers(s.ledger, m, bound), s.nextKey, m, bound), nextKey := s.nextKey + 1),
             Prepared(s.nextKey))
  }

  predicate IsActiveFor(l: Ledger, k: KeyId, m: MachineId) {
    k in l.credentials && l.credentials[k].machine == m && !l.credentials[k].revoked
  }

  /** Whether a confirmation already bound in the catalog may be finished in the ledger. */
  predicate CanFinish(l: Ledger, m: MachineId, replacement: KeyId) {
    && IsActiveFor(l, replacement, m)
    && l.credentials[replacement].rotationFrom.Some?
    && var former := l.credentials[replacement].rotationFrom.value;
       && former in l.credentials && l.credentials[former].machine == m
       && (l.credentials[former].revoked ==> l.credentials[former].replacedBy == Some(replacement))
       && (!l.credentials[former].revoked ==> l.credentials[former].replacedBy.None?)
  }

  function Confirm(s: State, p: Principal, m: MachineId, replacement: KeyId, crash: Crash): Result {
    var error := CurrencyError(s, p, m, false);
    if error.Some? then Result(s, Refused(error.value))
    else
      var l, bound := s.ledger, s.machines[m].credential;
      if bound == Some(replacement) then
        if !CanFinish(l, m, replacement) then Result(s, Refused(InvalidCredential))
        else if crash.After? then Result(s, Crashed)
        else
          var former := l.credentials[replacement].rotationFrom.value;
          Result(if l.credentials[former].revoked then s else s.(ledger := Revoke(l, {former}, Some(replacement))), Confirmed)
      else if !IsActiveFor(l, replacement, m) || bound.None? || l.credentials[replacement].rotationFrom != bound then
        Result(s, Refused(InvalidCredential))
      else if crash == After(0) then Result(s, Crashed)
      else
        var rebound := Bind(s, m, Some(replacement));
        if bound.value !in l.credentials then Result(rebound, Refused(InvalidCredential))
        else if crash.After? then Result(rebound, Crashed)
        else Result(rebound.(ledger := Revoke(l, {bound.value}, Some(replacement))), Confirmed)
  }

  function Clear(s: State, p: Principal, m: MachineId, crash: Crash): Result {
    var error := CurrencyError(s, p, m, true);
    if error.Some? then Result(s, Refused(error.value))
    else
      var l, bound := s.ledger, s.machines[m].credential;
      if bound.None? then
        if crash.After? then Result(s, Crashed) else Result(s.(ledger := RevokeOthers(l, m, None)), Cleared)
      else if bound.value !in l.credentials then Result(s, Refused(InvalidCredential))
      else if crash == After(0) then Result(s, Crashed)
      else
        var unbound := Bind(s, m, None);
        if crash.After? then Result(unbound, Crashed)
        else Result(unbound.(ledger := Revoke(l, {bound.value}, None)), Cleared)
  }

  /** Whether a request bearing the key is let past authentication, on the cleanup route or elsewhere. */
  predicate Admitted(s: State, k: KeyId, cleanup: bool) {
    && k in s.ledger.credentials && !s.ledger.credentials[k].revoked
    && var m := s.ledger.credentials[k].machine;
       m in s.machines && (s.machines[m].credential == Some(k) || (s.machines[m].credential.None? && cleanup))
  }

  // ----- what every state satisfies

  predicate IndexAgrees(s: State) {
    && (forall r :: r in s.index ==> s.index[r] in s.machines && s.machines[s.index[r]].request.registration == r)
    && (forall m :: m in s.machines ==> Indexed(s, m))
  }

  predicate Indexed(s: State, m: MachineId)
    requires m in s.machines
  {
    var r := s.machines[m].request.registration;
    m < s.nextMachine && r in s.index && s.index[r] == m
  }

  /** A credential bound to a machine is that machine's and active, or else missing after a crash. */
  predicate BindingAgrees(s: State, m: MachineId)
    requires m in s.machines
  {
    s.machines[m].credential.Some? ==>
      var k := s.machines[m].credential.value;
      && k < s.nextKey && (k in s.ledger.credentials ==> IsActiveFor(s.ledger, k, m))
      && forall n :: n in s.machines && s.machines[n].credential == Some(k) ==> n == m
  }

  predicate BindingsAgree(s: State) {
    forall m :: m in s.machines ==> BindingAgrees(s, m)
  }

  predicate CredentialsAgree(s: State) {
    forall k :: k in s.ledger.credentials ==>
      && k < s.nextKey && s.ledger.credentials[k].machine in s.machines
      && (s.ledger.credentials[k].replacedBy.Some? ==> s.ledger.credentials[k].revoked)
      && (s.ledger.credentials[k].rotationFrom.Some? ==> s.ledger.credentials[k].rotationFrom.value < k)
  }

  /** A used enrollment key belongs to the one machine of its request, and no other key to that machine. */
  predicate UseAgrees(s: State, e: KeyId)
    requires e in s.ledger.uses
  {
    var u := s.ledger.uses[e];
    && u.request.registration in s.index
    && var m := s.index[u.request.registration];
       && m in s.machines
       && s.machines[m].request == u.request
       && (u.machine.Some? ==> u.machine.value == m)
       && (s.machines[m].enrollment.Some? ==> s.machines[m].enrollment.value == e)
       && (forall f :: f in s.ledger.uses && s.ledger.uses[f].request.registration == u.request.registration ==> f == e)
  }

  predicate UsesAgree(s: State) {
    forall e :: e in s.ledger.uses ==> UseAgrees(s, e)
  }

  predicate AtMostTwoActive(l: Ledger) {
    forall k :: k in l.credentials ==> |Active(l, l.credentials[k].machine)| <= 2
  }

  predicate Inv(s: State) {
    IndexAgrees(s) && BindingsAgree(s) && CredentialsAgree(s) && UsesAgree(s) && AtMostTwoActive(s.ledger)
  }

  // ----- steps and runs

  datatype Command =
    | DoRegister(p: Principal, request: Request, crash: Crash)
    | DoPrepare(p: Principal, machine: MachineId, crash: Crash)
    | DoConfirm(p: Principal, machine: MachineId, replacement: KeyId, crash: Crash)
    | DoClear(p: Principal, machine: MachineId, crash: Crash)

  function Step(s: State, c: Command): Result
    requires Inv(s)
  {
    match c
    case DoRegister(p, request, crash) => Register(s, p, request, crash)
    case DoPrepare(p, m, crash) => Prepare(s, p, m, crash)
    case DoConfirm(p, m, replacement, crash) => Confirm(s, p, m, replacement, crash)
    case DoClear(p, m, crash) => Clear(s, p, m, crash)
  }

  lemma SmallSet(s: set<KeyId>, a: Option<KeyId>, b: KeyId)
    requires forall k :: k in s ==> k == b || a == Some(k)
    ensures |s| <= 2
  {
    var t := {b} + if a.Some? then {a.value} else {};
    assert s <= t;
    SubsetIsSmaller(s, t);
  }

  /** Revoking takes exactly the keys named from those active. */
  lemma RevokeActive(l: Ledger, keys: set<KeyId>, successor: Option<KeyId>, m: MachineId)
    ensures Active(Revoke(l, keys, successor), m) == Active(l, m) - keys
  {
  }

  /** The index and the uses depend on nothing but the machines' requests and enrollments. */
  lemma IdentityKept(s: State, s': State)
    requires IndexAgrees(s) && UsesAgree(s)
    requires s'.index == s.index && s'.nextMachine == s.nextMachine && s'.ledger.uses == s.ledger.uses
    requires s'.machines.Keys == s.machines.Keys
    requires forall m :: m in s.machines ==>
      s'.machines[m].request == s.machines[m].request && s'.machines[m].enrollment == s.machines[m].enrollment
    ensures IndexAgrees(s') && UsesAgree(s')
  {
    forall m | m in s'.machines ensures Indexed(s', m) { assert Indexed(s, m); }
    forall e | e in s.ledger.uses ensures UseAgrees(s', e) { assert UseAgrees(s, e); }
  }

  /** The bindings stand while the bound credentials stay active. */
  lemma BindingsKept(s: State, s': State)
    requires BindingsAgree(s) && s'.machines == s.machines && s'.nextKey >= s.nextKey
    requires forall m :: m in s.machines && s.machines[m].credential.Some? ==>
      var k := s.machines[m].credential.value;
      k in s'.ledger.credentials ==> IsActiveFor(s.ledger, k, m) && s'.ledger.credentials[k] == s.ledger.credentials[k]
    ensures BindingsAgree(s')
  {
    forall m | m in s.machines ensures BindingAgrees(s', m) { assert BindingAgrees(s, m); }
  }

  lemma RevokeKeepsFew(l: Ledger, keys: set<KeyId>, successor: Option<KeyId>)
    requires AtMostTwoActive(l)
    ensures AtMostTwoActive(Revoke(l, keys, successor))
  {
    var l' := Revoke(l, keys, successor);
    forall k | k in l'.credentials ensures |Active(l', l'.credentials[k].machine)| <= 2 {
      var m := l.credentials[k].machine;
      RevokeActive(l, keys, successor, m);
      SubsetIsSmaller(Active(l', m), Active(l, m));
    }
  }

  lemma RevokeKeepsInv(s: State, keys: set<KeyId>, successor: Option<KeyId>)
    requires Inv(s)
    requires forall m :: m in s.machines && s.machines[m].credential.Some? ==> s.machines[m].credential.value !in keys
    ensures Inv(s.(ledger := Revoke(s.ledger, keys, successor)))
  {
    hide IndexAgrees, UsesAgree, AtMostTwoActive;
    var s' := s.(ledger := Revoke(s.ledger, keys, successor));
    RevokeKeepsFew(s.ledger, keys, successor);
    IdentityKept(s, s');
    forall m | m in s.machines && s.machines[m].credential.Some? ensures BindingAgrees(s, m) {}
    BindingsKept(s, s');
  }

  /** Rebinding a machine to one of its own active credentials, to a fresh key, or to none. */
  lemma BindKeepsInv(s: State, m: MachineId, key: Option<KeyId>)
    requires Inv(s) && m in s.machines
    requires key.Some? ==> key.value == s.nextKey || IsActiveFor(s.ledger, key.value, m)
    ensures Inv(Bind(s, m, key).(nextKey := if key == Some(s.nextKey) then s.nextKey + 1 else s.nextKey))
  {
    hide IndexAgrees, UsesAgree, Active, AtMostTwoActive;
    var s' := Bind(s, m, key).(nextKey := if key == Some(s.nextKey) then s.nextKey + 1 else s.nextKey);
    IdentityKept(s, s');
    forall n | n in s'.machines ensures BindingAgrees(s', n) { assert BindingAgrees(s, n); }
  }

  /** Issuing a fresh credential, once none but the bound one is active. */
  lemma IssueKeepsInv(s: State, m: MachineId, rotationFrom: Option<KeyId>)
    requires Inv(s) && m in s.machines && (rotationFrom.Some? ==> rotationFrom.value < s.nextKey)
    requires forall k :: k in Active(s.ledger, m) ==> s.machines[m].credential == Some(k)
    ensures Inv(s.(ledger := Issue(s.ledger, s.nextKey, m, rotationFrom), nextKey := s.nextKey + 1))
  {
    hide IndexAgrees, UsesAgree;
    var s' := s.(ledger := Issue(s.ledger, s.nextKey, m, rotationFrom), nextKey := s.nextKey + 1);
    forall k | k in s'.ledger.credentials ensures |Active(s'.ledger, s'.ledger.credentials[k].machine)| <= 2 {
      var n := s'.ledger.credentials[k].machine;
      if n == m {
        SmallSet(Active(s'.ledger, m), s.machines[m].credential, s.nextKey);
      } else {
        assert Active(s'.ledger, n) == Active(s.ledger, n);
      }
    }
    IdentityKept(s, s');
    forall n | n in s.machines && s.machines[n].credential.Some? ensures BindingAgrees(s, n) {}
    BindingsKept(s, s');
  }

  lemma CataloguedIdentities(s: State, p: Principal, request: Request)
    requires Inv(s) && RegistrationError(s, p, request).None?
    ensures var s' := Catalogued(s, p, request); IndexAgrees(s') && UsesAgree(s')
  {
    hide Active, AtMostTwoActive, BindingsAgree, CredentialsAgree;
    var s' := Catalogued(s, p, request);
    forall n | n in s'.machines ensures Indexed(s', n) { assert n in s.machines ==> Indexed(s, n); }
    forall e | e in s.ledger.uses ensures UseAgrees(s', e) { assert UseAgrees(s, e); }
  }

  lemma CataloguedKeepsInv(s: State, p: Principal, request: Request)
    requires Inv(s) && RegistrationError(s, p, request).None?
    ensures Inv(Catalogued(s, p, request))
  {
    hide Active, AtMostTwoActive, UsesAgree;
    var s' := Catalogued(s, p, request);
    CataloguedIdentities(s, p, request);
    forall n | n in s'.machines ensures BindingAgrees(s', n) { assert n in s.machines ==> BindingAgrees(s, n); }
  }

  /** The registration's machine, and that nothing else changed. */
  lemma CataloguedMachine(s: State, p: Principal, request: Request)
    requires Inv(s) && RegistrationError(s, p, request).None?
    ensures var c := Catalogued(s, p, request);
      && request.registration in c.index && c.ledger == s.ledger && c.nextKey == s.nextKey
      && var m := c.index[request.registration];
         && m in c.machines
         && c.machines[m].request == request && (p.Enroller? ==> c.machines[m].enrollment == Some(p.key))
         && c.machines[m].credential == (if m in s.machines then s.machines[m].credential else None)
         && (forall n :: n in s.machines && n != m ==> n in c.machines && c.machines[n] == s.machines[n])
         && c.machines.Keys == s.machines.Keys + {m}
  {
    hide Active, AtMostTwoActive, UsesAgree, BindingsAgree, CredentialsAgree;
  }

  /** Using an enrollment key for the machine that its request names, and that is already its own. */
  lemma UseKeepsInv(s: State, e: KeyId, request: Request, m: MachineId)
    requires Inv(s) && m in s.machines && s.machines[m].request == request && s.machines[m].enrollment == Some(e)
    requires e in s.ledger.uses ==> s.ledger.uses[e].request == request
    ensures Inv(s.(ledger := s.ledger.(uses := s.ledger.uses[e := Use(request, Some(m))])))
  {
    var s' := s.(ledger := s.ledger.(uses := s.ledger.uses[e := Use(request, Some(m))]));
    assert forall n :: Active(s'.ledger, n) == Active(s.ledger, n);
    hide Active;
    UseKeepsIdentities(s, e, request, m);
    forall n | n in s.machines && s.machines[n].credential.Some? ensures BindingAgrees(s, n) {}
    BindingsKept(s, s');
  }

  lemma UseKeepsIdentities(s: State, e: KeyId, request: Request, m: MachineId)
    requires Inv(s) && m in s.machines && s.machines[m].request == request && s.machines[m].enrollment == Some(e)
    requires e in s.ledger.uses ==> s.ledger.uses[e].request == request
    ensures var s' := s.(ledger := s.ledger.(uses := s.ledger.uses[e := Use(request, Some(m))]));
      IndexAgrees(s') && UsesAgree(s')
  {
    hide Active, AtMostTwoActive, BindingsAgree, CredentialsAgree;
    var s' := s.(ledger := s.ledger.(uses := s.ledger.uses[e := Use(request, Some(m))]));
    assert Indexed(s, m);
    forall n | n in s.machines ensures Indexed(s', n) { assert Indexed(s, n); }
    forall f | f in s'.ledger.uses ensures UseAgrees(s', f) { assert f in s.ledger.uses ==> UseAgrees(s, f); }
  }

  lemma RegisterKeepsInv(s: State, p: Principal, request: Request, crash: Crash)
    requires Inv(s)
    ensures Inv(Register(s, p, request, crash).state)
  {
    hide Inv, Active, Revoke, Bind, Catalogued;
    if RegistrationError(s, p, request).None? {
      var c := Catalogued(s, p, request);
      CataloguedKeepsInv(s, p, request);
      CataloguedMachine(s, p, request);
      var m, k := c.index[request.registration], s.nextKey;
      var bound := Bind(c, m, Some(k)).(nextKey := k + 1);
      BindKeepsInv(c, m, Some(k));
      EnrollingKeepsInv(c, p, request, m);
    }
  }

  /** The ledger's part of a registration, seen from the catalogued state. */
  lemma EnrollingKeepsInv(c: State, p: Principal, request: Request, m: MachineId)
    requires Inv(c) && m in c.machines && c.machines[m].request == request
    requires p.Enroller? ==> c.machines[m].enrollment == Some(p.key)
    requires p.Enroller? && p.key in c.ledger.uses ==> c.ledger.uses[p.key].request == request
    ensures Inv(Bind(c, m, Some(c.nextKey)).(nextKey := c.nextKey + 1,
      ledger := Enrolled(c.ledger, p, request, m, c.machines[m].credential, c.nextKey)))
  {
    hide IndexAgrees, UsesAgree, AtMostTwoActive, RevokeOthers;
    var k, previous := c.nextKey, c.machines[m].credential;
    if p.Enroller? { UseKeepsInv(c, p.key, request, m); }
    var used := c.(ledger := if p.Enroller? then c.ledger.(uses := c.ledger.uses[p.key := Use(request, Some(m))]) else c.ledger);
    assert Active(used.ledger, m) == Active(c.ledger, m);
    OnlyOthersGo(used, m);
    var alone := used.(ledger := RevokeOthers(used.ledger, m, previous));
    IssueKeepsInv(alone, m, None);
    var issued := alone.(ledger := Issue(alone.ledger, k, m, None), nextKey := k + 1);
    assert IsActiveFor(issued.ledger, k, m);
    assert k !in c.ledger.credentials;
    BindKeepsInv(issued, m, Some(k));
    var rebound := Bind(issued, m, Some(k));
    if previous.Some? && previous.value in c.ledger.credentials {
      assert BindingAgrees(c, m);
      RevokeKeepsInv(rebound, {previous.value}, Some(k));
    }
  }

  lemma OnlyOthersGo(s: State, m: MachineId)
    requires Inv(s) && m in s.machines
    ensures var s' := s.(ledger := RevokeOthers(s.ledger, m, s.machines[m].credential));
      Inv(s') && forall k :: k in Active(s'.ledger, m) ==> s.machines[m].credential == Some(k)
  {
    hide IndexAgrees, UsesAgree, AtMostTwoActive;
    var keys := set k | k in Active(s.ledger, m) && s.machines[m].credential != Some(k);
    forall n | n in s.machines && s.machines[n].credential.Some? ensures s.machines[n].credential.value !in keys {
      assert BindingAgrees(s, n);
    }
    RevokeKeepsInv(s, keys, None);
    RevokeActive(s.ledger, keys, None, m);
  }

  lemma BoundKeyIsNotFresh(s: State, m: MachineId)
    requires Inv(s) && m in s.machines && s.machines[m].credential.Some?
    ensures s.machines[m].credential.value < s.nextKey
  {
    assert BindingAgrees(s, m);
  }

  lemma PrepareKeepsInv(s: State, p: Principal, m: MachineId, crash: Crash)
    requires Inv(s)
    ensures Inv(Prepare(s, p, m, crash).state)
  {
    hide Inv, Active, RevokeOthers, Issue;
    if CurrencyError(s, p, m, false).None? {
      OnlyOthersGo(s, m);
      var bound := s.machines[m].credential;
      if bound.Some? { BoundKeyIsNotFresh(s, m); }
      IssueKeepsInv(s.(ledger := RevokeOthers(s.ledger, m, bound)), m, bound);
    }
  }

  /** Revoking the credential that a machine was bound to, once it is bound to another or to none. */
  lemma RevokeFormerKeepsInv(s: State, m: MachineId, key: Option<KeyId>, former: KeyId, successor: Option<KeyId>)
    requires Inv(s) && m in s.machines && key != Some(former)
    requires key.Some? ==> IsActiveFor(s.ledger, key.value, m)
    requires s.machines[m].credential == Some(former) || (former in s.ledger.credentials && s.ledger.credentials[former].machine == m)
    ensures Inv(Bind(s, m, key)) && Inv(Bind(s, m, key).(ledger := Revoke(s.ledger, {former}, successor)))
  {
    hide IndexAgrees, UsesAgree, AtMostTwoActive;
    BindKeepsInv(s, m, key);
    var bound := Bind(s, m, key);
    forall n | n in s.machines && bound.machines[n].credential.Some? ensures bound.machines[n].credential.value != former {
      assert BindingAgrees(s, n);
      assert BindingAgrees(s, m);
    }
    RevokeKeepsInv(bound, {former}, successor);
  }

  lemma ConfirmKeepsInv(s: State, p: Principal, m: MachineId, replacement: KeyId, crash: Crash)
    requires Inv(s)
    ensures Inv(Confirm(s, p, m, replacement, crash).state)
  {
    hide IndexAgrees, UsesAgree, AtMostTwoActive, Active, BindingsAgree;
    if CurrencyError(s, p, m, false).None? && IsActiveFor(s.ledger, replacement, m) {
      var from, bound := s.ledger.credentials[replacement].rotationFrom, s.machines[m].credential;
      assert Bind(s, m, Some(replacement)).machines[m].credential == Some(replacement);
      if bound == Some(replacement) {
        if CanFinish(s.ledger, m, replacement) && !s.ledger.credentials[from.value].revoked {
          FinishKeepsInv(s, m, replacement);
        }
      } else if bound.Some? {
        RevokeFormerKeepsInv(s, m, Some(replacement), bound.value, Some(replacement));
      }
    }
  }

  /** Finishing a rotation in the ledger: the predecessor goes, and is not the credential bound. */
  lemma FinishKeepsInv(s: State, m: MachineId, replacement: KeyId)
    requires Inv(s) && m in s.machines && s.machines[m].credential == Some(replacement) && CanFinish(s.ledger, m, replacement)
    ensures Inv(s.(ledger := Revoke(s.ledger, {s.ledger.credentials[replacement].rotationFrom.value}, Some(replacement))))
  {
    hide IndexAgrees, UsesAgree, AtMostTwoActive;
    var former := s.ledger.credentials[replacement].rotationFrom.value;
    forall n | n in s.machines && s.machines[n].credential.Some? ensures s.machines[n].credential.value != former {
      assert BindingAgrees(s, n);
    }
    RevokeKeepsInv(s, {former}, Some(replacement));
  }

  lemma ClearKeepsInv(s: State, p: Principal, m: MachineId, crash: Crash)
    requires Inv(s)
    ensures Inv(Clear(s, p, m, crash).state)
  {
    hide IndexAgrees, UsesAgree, AtMostTwoActive, Active, BindingsAgree;
    if CurrencyError(s, p, m, true).None? {
      var bound := s.machines[m].credential;
      if bound.None? {
        OnlyOthersGo(s, m);
      } else {
        RevokeFormerKeepsInv(s, m, None, bound.value, None);
      }
    }
  }

  /** Every command, from any principal and with any crash, keeps the invariant. */
  lemma StepKeepsInv(s: State, c: Command)
    requires Inv(s)
    ensures Inv(Step(s, c).state)
  {
    match c
    case DoRegister(p, request, crash) => RegisterKeepsInv(s, p, request, crash);
    case DoPrepare(p, m, crash) => PrepareKeepsInv(s, p, m, crash);
    case DoConfirm(p, m, replacement, crash) => ConfirmKeepsInv(s, p, m, replacement, crash);
    case DoClear(p, m, crash) => ClearKeepsInv(s, p, m, crash);
  }
}
