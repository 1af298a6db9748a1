/**
 The client's side of registration at one endpoint: freeze the request, send it, save the answer.
 The configuration, the saved registration and the server's two databases survive a crash apart.
 */
module MachineIdentity {
  import opened Wrappers
  import E = Enrollment
  import opened EnrollmentRuns
  import opened Coordinator

  datatype Identity = Identity(installation: nat, registration: string, name: string, description: Option<string>)

  datatype Stored =
    | Pending(installation: nat, request: E.Request)
    | Registered(installation: nat, request: E.Request, machine: E.MachineId, key: E.KeyId)

  /** Where a call may be cut short: before the request is saved, sent, answered, or the answer saved. */
  datatype Fault = NoFault | BeforeFreeze | BeforeSend | ServerCrash(crash: E.Crash) | ReplyLost

  datatype Outcome = Done(recovered: bool) | Rejected(error: E.Error) | Interrupted

  datatype Sent = Sent(installation: nat, request: E.Request)

  class Installation {
    var identity: Option<Identity>
    var stored: Option<Stored>
    ghost var sent: seq<Sent>
    /** The installation ids given out so far. */
    ghost var known: set<nat>

    constructor ()
      ensures Valid() && identity == None && stored == None && sent == []
    {
      identity, stored, sent, known := None, None, [], {};
    }

    predicate Frozen()
      reads this
    {
      identity.Some? && stored.Some? && stored.value.installation == identity.value.installation
    }

    ghost predicate Valid()
      reads this
    {
      && (identity.Some? ==> identity.value.installation in known)
      && (stored.Some? ==> stored.value.installation in known)
      && (Frozen() ==> stored.value.request.registration == identity.value.registration)
      && (forall x :: x in sent ==> x.installation in known)
      && (forall x :: x in sent && stored.Some? && x.installation == stored.value.installation ==> x.request == stored.value.request)
      && (forall x :: x in sent && identity.Some? && x.installation == identity.value.installation ==> Frozen())
      && OneRequestEach()
    }

    /** Every request sent for one installation is the same. */
    ghost predicate OneRequestEach()
      reads this
    {
      forall x, y :: x in sent && y in sent && x.installation == y.installation ==> x.request == y.request
    }

    /**
     The server knows this installation by its frozen request, or not at all.  If a key e is given,
     so does it know e, the one enrollment key that this installation registers with.
     */
    ghost predicate InTouch(s: E.State, e: Option<E.KeyId>)
      reads this
    {
      if Frozen() then Fits(s, stored.value.request, e)
      else (identity.Some? ==> identity.value.registration !in s.index) && (e.Some? ==> e.value !in s.ledger.uses)
    }

    /** The caller registers with e, if given, and an identity that replaces another finds e unused. */
    ghost predicate RegistersWith(s: E.State, p: E.Principal, e: Option<E.KeyId>, proved: bool)
      reads this
    {
      e.Some? ==> p == E.Enroller(e.value) && (identity.Some? && !proved ==> e.value !in s.ledger.uses)
    }

    /** The identity in the configuration, replaced when its proof is missing. */
    method LoadOrCreate(proved: bool, installation: nat, registration: string, defaultName: string) returns (id: Identity)
      requires Valid() && installation !in known
      modifies `identity, `known
      ensures Valid() && identity == Some(id) && known == old(known) + {installation}
      ensures id == if old(identity).None? then Identity(installation, registration, defaultName, None)
                    else if proved then old(identity).value
                    else Identity(installation, registration, old(identity).value.name, old(identity).value.description)
    {
      known := known + {installation};
      if identity.None? {
        identity := Some(Identity(installation, registration, defaultName, None));
      } else if !proved {
        identity := Some(identity.value.(installation := installation, registration := registration));
      }
      id := identity.value;
    }

    /** Renaming a machine changes the configuration, never a request already frozen. */
    method Configure(name: Option<string>, description: Option<Option<string>>)
      requires Valid() && identity.Some?
      modifies `identity
      ensures Valid() && Frozen() == old(Frozen())
      ensures identity == Some(Identity(
        old(identity).value.installation, old(identity).value.registration,
        if name.Some? then name.value else old(identity).value.name,
        if description.Some? then description.value else old(identity).value.description))
    {
      identity := Some(identity.value.(
        name := if name.Some? then name.value else identity.value.name,
        description := if description.Some? then description.value else identity.value.description));
    }

    /** Once nothing fails, an admin's call succeeds, and so does a call with the key used so far. */
    method RegisterMachine(
      server: MachineCredentialCoordinator, p: E.Principal, platform: Option<string>, version: Option<string>,
      proved: bool, installation: nat, registration: string, defaultName: string, fault: Fault, ghost e: Option<E.KeyId>)
      returns (outcome: Outcome)
      requires Valid() && E.Inv(server.Current()) && InTouch(server.Current(), e)
      requires RegistersWith(server.Current(), p, e, proved)
      requires installation !in known && registration !in server.index
      modifies this, server
      ensures Valid() && E.Inv(server.Current()) && InTouch(server.Current(), e)
      ensures identity == Some(
        if old(identity).None? then Identity(installation, registration, defaultName, None)
        else if proved then old(identity).value
        else Identity(installation, registration, old(identity).value.name, old(identity).value.description))
      ensures !fault.BeforeFreeze? ==>
        && Frozen()
        && stored.value.request ==
             if proved && old(Frozen()) then old(stored).value.request
             else E.Request(identity.value.registration, identity.value.name, identity.value.description, platform, version)
      ensures fault.NoFault? ==>
        match E.Register(old(server.Current()), p, stored.value.request, E.NoCrash).reply
        case Registered(_, _, recovered) => outcome == Done(recovered)
        case Refused(error) => outcome == Rejected(error)
        case _ => false
      ensures fault.NoFault? ==>
        && Frozen()
        && (outcome.Done? <==> MayRegister(old(server.Current()), p, stored.value.request))
        && (p.Admin? || e.Some? ==> outcome.Done?)
      ensures outcome.Done? ==>
        && Frozen() && stored.value.Registered?
        && var m, k := stored.value.machine, stored.value.key;
           && m in server.machines && server.machines[m].request == stored.value.request
           && server.machines[m].credential == Some(k) && E.Active(server.Current().ledger, m) == {k}
    {
      hide E.Inv, E.Register, E.Active, MayRegister, Fits;
      ghost var s := server.Current();
      NewcomerFits(s, e);
      var id := LoadOrCreate(proved, installation, registration, defaultName);
      if fault.BeforeFreeze? {
        return Interrupted;
      }
      Freeze(id, platform, version, s, e);
      if fault.BeforeSend? {
        return Interrupted;
      }
      outcome := Exchange(server, p, fault, e);
    }

    /** Sends the frozen request and saves the answer. */
    method Exchange(server: MachineCredentialCoordinator, p: E.Principal, fault: Fault, ghost e: Option<E.KeyId>)
      returns (outcome: Outcome)
      requires Valid() && Frozen() && E.Inv(server.Current()) && Fits(server.Current(), stored.value.request, e)
      requires (e.Some? ==> p == E.Enroller(e.value)) && !fault.BeforeFreeze? && !fault.BeforeSend?
      modifies `stored, `sent, server
      ensures Valid() && Frozen() && stored.value.request == old(stored).value.request
      ensures E.Inv(server.Current()) && Fits(server.Current(), stored.value.request, e)
      ensures fault.NoFault? ==>
        && (outcome.Done? <==> MayRegister(old(server.Current()), p, stored.value.request))
        && (p.Admin? || e.Some? ==> outcome.Done?)
        && match E.Register(old(server.Current()), p, stored.value.request, E.NoCrash).reply
           case Registered(_, _, recovered) => outcome == Done(recovered)
           case Refused(error) => outcome == Rejected(error)
           case _ => false
      ensures outcome.Done? ==>
        && stored.value.Registered?
        && var m, k := stored.value.machine, stored.value.key;
           && m in server.machines && server.machines[m].request == stored.value.request
           && server.machines[m].credential == Some(k) && E.Active(server.Current().ledger, m) == {k}
    {
      hide E.Inv, E.Register, E.Active, MayRegister, Fits;
      ghost var s := server.Current();
      var request := stored.value.request;
      var crash := if fault.ServerCrash? then fault.crash else E.NoCrash;
      ServerAnswers(s, p, request, crash, e);
      var reply := Send(server, p, crash);
      match reply {
        case Registered(m, k, recovered) =>
          if fault.ReplyLost? {
            return Interrupted;
          }
          stored := Some(Stored.Registered(identity.value.installation, request, m, k));
          return Done(recovered);
        case Refused(error) =>
          return Rejected(error);
        case _ =>
          return Interrupted;
      }
    }

    method Send(server: MachineCredentialCoordinator, p: E.Principal, crash: E.Crash) returns (reply: E.Reply)
      requires Valid() && Frozen() && E.Inv(server.Current())
      modifies `sent, server
      ensures Valid() && Frozen()
      ensures E.Result(server.Current(), reply) == E.Register(old(server.Current()), p, stored.value.request, crash)
    {
      hide E.Inv, E.Register;
      sent := sent + [Sent(identity.value.installation, stored.value.request)];
      reply := server.Register(p, stored.value.request, crash);
    }

    /** Saves the request before it is first sent; a request saved before is sent again as it was. */
    method Freeze(id: Identity, platform: Option<string>, version: Option<string>, ghost s: E.State, ghost e: Option<E.KeyId>)
      requires Valid() && identity == Some(id)
      requires forall q: E.Request :: q.registration !in s.index && (e.Some? ==> e.value !in s.ledger.uses) ==> Fits(s, q, e)
      requires InTouch(s, e)
      modifies `stored
      ensures Valid() && Frozen() && Fits(s, stored.value.request, e)
      ensures stored.value.request ==
        if old(Frozen()) then old(stored).value.request
        else E.Request(id.registration, id.name, id.description, platform, version)
    {
      hide Fits;
      if !Frozen() {
        stored := Some(Pending(id.installation, E.Request(id.registration, id.name, id.description, platform, version)));
      }
    }
  }

  lemma NewcomerFits(s: E.State, e: Option<E.KeyId>)
    ensures forall q: E.Request :: q.registration !in s.index && (e.Some? ==> e.value !in s.ledger.uses) ==> Fits(s, q, e)
  {
  }

  /** What the server makes of a frozen request that nothing recorded stands against. */
  lemma ServerAnswers(s: E.State, p: E.Principal, request: E.Request, crash: E.Crash, e: Option<E.KeyId>)
    requires E.Inv(s) && Fits(s, request, e) && (e.Some? ==> p == E.Enroller(e.value))
    ensures var r := E.Register(s, p, request, crash);
      && E.Inv(r.state) && Fits(r.state, request, e)
      && (r.reply.Registered? ==>
            var m, k := r.reply.machine, r.reply.key;
            && m in r.state.machines && r.state.machines[m].request == request
            && r.state.machines[m].credential == Some(k) && E.Active(r.state.ledger, m) == {k})
      && (crash.NoCrash? ==> r.reply.Registered? || r.reply.Refused?)
      && (crash.NoCrash? ==>
            (r.reply.Registered? <==> MayRegister(s, p, request)) && (p.Admin? || e.Some? ==> r.reply.Registered?))
  {
    E.RegisterKeepsInv(s, p, request, crash);
    RegisterFits(s, p, request, crash, request, e);
    RegistrationConverges(s, p, request);
    hide E.Inv, E.RegistrationError, E.Catalogued, E.Active, E.Enrolled;
  }

  /** What others do leaves the installation in touch: they register under ids, and with keys, of their own. */
  lemma OthersKeepTouch(client: Installation, s: E.State, c: E.Command, e: Option<E.KeyId>)
    requires E.Inv(s) && client.Valid() && client.InTouch(s, e)
    requires c.DoRegister? && client.identity.Some? ==> c.request.registration != client.identity.value.registration
    requires c.DoRegister? && e.Some? ==> c.p != E.Enroller(e.value)
    ensures client.InTouch(E.Step(s, c).state, e)
  {
    if client.Frozen() {
      StepFits(s, c, client.stored.value.request, e);
    } else {
      StepAddsItsOwn(s, c);
    }
  }

  lemma StepAddsItsOwn(s: E.State, c: E.Command)
    requires E.Inv(s)
    ensures var t := E.Step(s, c).state;
      && (forall r :: r in t.index ==> r in s.index || (c.DoRegister? && r == c.request.registration))
      && (forall f :: f in t.ledger.uses ==> f in s.ledger.uses || (c.DoRegister? && c.p == E.Enroller(f)))
  {
    hide E.BindingsAgree, E.CredentialsAgree, E.UsesAgree, E.AtMostTwoActive, E.Enrolled;
  }
}
