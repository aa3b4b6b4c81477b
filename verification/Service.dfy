/** The service that owns the contexts of a node: which ones it serves and under which identity. */
module Service {
  import opened Zq
  import opened Suites
  import opened Permutations
  import opened SameElems
  import opened ContextNode

  /** A context being served, and the node's identity in it. */
  datatype ContextState = ContextState(context: ServedContext, server: Identity)

  /** What a node stores, by service and by context. */
  type Store = map<nat, map<nat, ContextState>>

  /** The nil identifier of services and contexts. */
  const NIL := 0

  /** The lists of two contexts, compared element by element: equal lengths, and whatever the second
      context has the first one has, too. */
  predicate SameContext(c: Context, d: Context) {
    SameElements(c.X, d.X) && SameElements(c.Y, d.Y) && SameElements(c.H, d.H) && SameElements(c.R, d.R)
  }

  method Equals(c: Context, d: Context, name: Point -> string) returns (same: bool)
    requires Naming(name)
    ensures same == SameContext(c, d)
  {
    same := ContainsSameElems(c.X, d.X, name);
    if same {
      same := ContainsSameElems(c.Y, d.Y, name);
    }
    if same {
      same := ContainsSameElems(c.H, d.H, name);
    }
    if same {
      same := ContainsSameElems(c.R, d.R, name);
    }
  }

  /** The stored state of a context, if both identifiers are known. */
  function Lookup(store: Store, sid: nat, cid: nat): Option<ContextState> {
    if sid != NIL && sid in store && cid != NIL && cid in store[sid] then Some(store[sid][cid]) else None
  }

  /** The identity under which a node accepts a context. */
  function Accepting(store: Store, c: ServedContext): Option<Identity> {
    var found := Lookup(store, c.serviceId, c.id);
    if found.Some? && SameContext(found.value.context.context, c.context) then Some(found.value.server) else None
  }

  /** The identity under which a node works for a request with the context. */
  function Working(store: Store, c: ServedContext): Option<Identity> {
    if |c.roster| > 0 && ValidContext(c.context) then Accepting(store, c) else None
  }

  function Created(store: Store, sid: nat): Store {
    if sid in store then store else store[sid := map[]]
  }

  /** The store after the node started to serve a context that it does not know yet. */
  function Serving(store: Store, c: ServedContext, server: Identity): Store
    requires c.serviceId in store
  {
    if Lookup(store, c.serviceId, c.id).Some? then store
    else
      var contexts: map<nat, ContextState> := store[c.serviceId];
      store[c.serviceId := contexts[c.id := ContextState(c, server)]]
  }

  class ServiceState {
    const id: nat
    var contextStates: map<nat, ContextState>

    constructor (id: nat)
      ensures this.id == id && contextStates == map[]
    {
      this.id, contextStates := id, map[];
    }

    method GetContextState(cid: nat) returns (r: Result<ContextState>)
      ensures r.Ok? <==> cid != NIL && cid in contextStates
      ensures r.Ok? ==> r.value == contextStates[cid]
    {
      if cid == NIL {
        return Err(UnknownContext);
      }
      if cid !in contextStates {
        return Err(UnknownContext);
      }
      return Ok(contextStates[cid]);
    }
  }

  class Node {
    const name: Point -> string
    var data: map<nat, ServiceState>

    /** Every service has a state object of its own. */
    ghost predicate Valid()
      reads this, data.Values
    {
      Naming(name) && forall sid :: sid in data ==> data[sid].id == sid
    }

    ghost function Contents(): Store
      reads this, data.Values
    {
      map sid | sid in data :: data[sid].contextStates
    }

    constructor (name: Point -> string)
      requires Naming(name)
      ensures Valid() && Contents() == map[] && this.name == name
    {
      this.name, data := name, map[];
    }

    method CreateIfNotExisting(sid: nat)
      requires Valid()
      modifies this`data
      ensures Valid() && fresh(data.Values - old(data.Values))
      ensures Contents() == Created(old(Contents()), sid)
    {
      if sid !in data {
        var st := new ServiceState(sid);
        data := data[sid := st];
      }
    }

    method GetServiceState(sid: nat) returns (r: Option<ServiceState>)
      requires Valid()
      ensures r.Some? <==> sid != NIL && sid in Contents()
      ensures r.Some? ==> sid in data && r.value == data[sid]
    {
      if sid == NIL {
        return None;
      }
      if sid !in data {
        return None;
      }
      return Some(data[sid]);
    }

    /** A well-formed request creates the state of its service. */
    method ValidateCreateContextReq(req: CreateContext, signature: bytes) returns (error: Option<Error>)
      requires Valid()
      modifies this`data
      ensures Valid() && fresh(data.Values - old(data.Values))
      ensures error.None? <==> req.serviceId != NIL && |signature| > 0 && |req.subscribers| > 0
      ensures Contents() == if error.None? then Created(old(Contents()), req.serviceId) else old(Contents())
    {
      if req.serviceId == NIL || |signature| == 0 || |req.subscribers| == 0 {
        return Some(MalformedRequest);
      }
      CreateIfNotExisting(req.serviceId);
      return None;
    }

    /** Stores a new context with the identity to serve it; without its service's state it panics. */
    method StartServingContext(c: ServedContext, server: Identity) returns (error: Option<Error>)
      requires Valid() && c.serviceId != NIL && c.serviceId in data
      modifies data[c.serviceId]
      ensures Valid()
      ensures error.Some? <==> Lookup(old(Contents()), c.serviceId, c.id).Some?
      ensures Contents() == Serving(old(Contents()), c, server)
    {
      var found := GetServiceState(c.serviceId);
      var existing := found.value.GetContextState(c.id);
      if existing.Ok? {
        return Some(ContextExists);
      }
      found.value.contextStates := found.value.contextStates[c.id := ContextState(c, server)];
      assert forall sid :: sid in data && sid != c.serviceId ==> data[sid] != data[c.serviceId];
      return None;
    }

    method AcceptContext(c: ServedContext) returns (r: Result<Identity>)
      requires Valid()
      ensures r.Ok? <==> Accepting(Contents(), c).Some?
      ensures r.Ok? ==> Some(r.value) == Accepting(Contents(), c)
    {
      var state := GetServiceState(c.serviceId);
      if state.None? {
        return Err(UnknownService);
      }
      var found := state.value.GetContextState(c.id);
      if found.Err? {
        return Err(found.error);
      }
      var same := Equals(found.value.context.context, c.context, name);
      if same {
        return Ok(found.value.server);
      }
      return Err(ContextNotAccepted);
    }

    method ValidateContext(c: ServedContext) returns (r: Result<Identity>)
      requires Valid()
      ensures r.Ok? <==> |c.roster| > 0 && ValidContext(c.context) && Accepting(Contents(), c).Some?
      ensures r.Ok? ==> Some(r.value) == Working(Contents(), c)
    {
      if |c.roster| == 0 || c.id == NIL || c.serviceId == NIL {
        return Err(BadContext);
      }
      if !ValidContext(c.context) {
        return Err(BadContext);
      }
      r := AcceptContext(c);
    }

    method ValidatePKClientReq(c: ServedContext, commits: seq<Point>) returns (r: Result<Identity>)
      requires Valid()
      ensures r.Ok? <==> |commits| == 3 * |c.context.H| && Working(Contents(), c).Some?
      ensures r.Ok? ==> Some(r.value) == Working(Contents(), c)
    {
      if |commits| == 0 || |commits| != |c.context.H| * 3 {
        return Err(MalformedRequest);
      }
      r := ValidateContext(c);
    }

    /** Serves the context that the generation protocol produced for the request, if any. */
    method CreateServedContext(req: CreateContext, signature: bytes, generated: Option<(ServedContext, Identity)>)
      returns (r: Result<ServedContext>)
      requires Valid()
      requires generated.Some? ==> generated.value.0.serviceId == req.serviceId
      modifies this`data, data.Values
      ensures Valid()
      ensures r.Ok? <==>
        && req.serviceId != NIL && |signature| > 0 && |req.subscribers| > 0
        && generated.Some? && Lookup(old(Contents()), req.serviceId, generated.value.0.id).None?
      ensures r.Ok? ==>
        && r.value == generated.value.0
        && Contents() == Serving(Created(old(Contents()), req.serviceId), generated.value.0, generated.value.1)
      ensures r.Err? ==> Contents() == old(Contents()) || Contents() == Created(old(Contents()), req.serviceId)
    {
      var error := ValidateCreateContextReq(req, signature);
      if error.Some? {
        return Err(error.value);
      }
      if generated.None? {
        return Err(ProtocolFailed);
      }
      error := StartServingContext(generated.value.0, generated.value.1);
      if error.Some? {
        return Err(error.value);
      }
      return Ok(generated.value.0);
    }
  }

  // ----- What later steps keep -----

  /** What the service does to its store on behalf of requests and of the generation protocol. */
  datatype Step =
    | Validate(req: CreateContext)
    | Serve(context: ServedContext, server: Identity)

  predicate Enabled(store: Store, step: Step) {
    match step
    case Validate(_) => true
    case Serve(c, _) => c.serviceId != NIL && c.serviceId in store
  }

  function After(store: Store, step: Step): Store
    requires Enabled(store, step)
  {
    match step
    case Validate(req) => Created(store, req.serviceId)
    case Serve(c, server) => Serving(store, c, server)
  }

  ghost predicate Steps(stores: seq<Store>, steps: seq<Step>) {
    && |stores| == |steps| + 1
    && forall k :: 0 <= k < |steps| ==> Enabled(stores[k], steps[k]) && stores[k + 1] == After(stores[k], steps[k])
  }

  /** A served context is never replaced: in every later state it is found unchanged. */
  lemma {:induction false} ServedStays(stores: seq<Store>, steps: seq<Step>, sid: nat, cid: nat, k: nat)
    requires Steps(stores, steps) && Lookup(stores[0], sid, cid).Some? && k < |stores|
    ensures Lookup(stores[k], sid, cid) == Lookup(stores[0], sid, cid)
  {
    if k > 0 {
      ServedStays(stores, steps, sid, cid, k - 1);
      assert stores[k] == After(stores[k - 1], steps[k - 1]);
    }
  }

  /** Once a node serves a context with a fresh identifier, it accepts that context in every later
      state under the identity it serves it with, whatever else it comes to serve. */
  lemma ServedIsAccepted(stores: seq<Store>, steps: seq<Step>, c: ServedContext, server: Identity, before: Store, k: nat)
    requires Steps(stores, steps) && k < |stores|
    requires c.serviceId != NIL && c.id != NIL && c.serviceId in before && Lookup(before, c.serviceId, c.id).None?
    requires stores[0] == Serving(before, c, server)
    ensures Accepting(stores[k], c) == Some(server)
  {
    assert Lookup(stores[0], c.serviceId, c.id) == Some(ContextState(c, server));
    ServedStays(stores, steps, c.serviceId, c.id, k);
    assert SameContext(c.context, c.context);
  }

  /** A context that is served by a server that has an entry in it. */
  predicate Fits(c: ServedContext, server: Identity) {
    ValidContext(c.context) && server.index < |c.context.Y|
  }

  predicate ServesFitting(step: Step) {
    step.Serve? ==> Fits(step.context, step.server)
  }

  ghost predicate AllFit(store: Store) {
    forall sid, cid :: sid in store && cid in store[sid] ==> Fits(store[sid][cid].context, store[sid][cid].server)
  }

  lemma {:induction false} FittingStays(stores: seq<Store>, steps: seq<Step>, k: nat)
    requires Steps(stores, steps) && AllFit(stores[0]) && k < |stores|
    requires forall j :: 0 <= j < |steps| ==> ServesFitting(steps[j])
    ensures AllFit(stores[k])
  {
    if k > 0 {
      FittingStays(stores, steps, k - 1);
      assert ServesFitting(steps[k - 1]) && stores[k] == After(stores[k - 1], steps[k - 1]);
    }
  }

  /** What a leader creates with an entry for itself is such a context, and stays accepted as such. */
  lemma CreatedFits(env: Env, c: Context, roster: seq<Point>, sid: nat, signatures: seq<bytes>, server: Identity, store: Store)
    requires NewContext(env, c, roster, sid, signatures).Ok? && server.index < |c.Y|
    requires AllFit(store) && sid in store
    ensures
      var served := NewContext(env, c, roster, sid, signatures).value;
      Fits(served, server) && AllFit(Serving(store, served, server))
  {
  }

  /** Why a node that accepts a context can run the servers' protocol under it: as long as it only came to
      serve contexts in which it has an entry, any context that it accepts is valid and has one, too. */
  lemma AcceptedFits(stores: seq<Store>, steps: seq<Step>, k: nat, c: ServedContext)
    requires Steps(stores, steps) && AllFit(stores[0]) && k < |stores|
    requires forall j :: 0 <= j < |steps| ==> ServesFitting(steps[j])
    requires Accepting(stores[k], c).Some?
    ensures Fits(c, Accepting(stores[k], c).value) && |c.context.Y| == |c.context.R|
    ensures Working(stores[k], c).Some? <==> |c.roster| > 0
  {
    hide Steps;
    FittingStays(stores, steps, k);
  }

  ghost predicate NoDuplicates(c: Context) {
    Distinct(c.X) && Distinct(c.Y) && Distinct(c.H) && Distinct(c.R)
  }

  ghost predicate Reordered(c: Context, d: Context) {
    multiset(c.X) == multiset(d.X) && multiset(c.Y) == multiset(d.Y)
      && multiset(c.H) == multiset(d.H) && multiset(c.R) == multiset(d.R)
  }

  /** What a node accepts under the identifiers of a served context: among contexts without duplicate
      entries, exactly the reorderings of the served one. */
  lemma AcceptsReorderings(store: Store, c: ServedContext, served: ContextState)
    requires Lookup(store, c.serviceId, c.id) == Some(served) && NoDuplicates(c.context)
    ensures Accepting(store, c) == Some(served.server) <==> Reordered(served.context.context, c.context)
    ensures Accepting(store, c).Some? ==> NoDuplicates(served.context.context)
  {
    SameIffPermuted(served.context.context.X, c.context.X);
    SameIffPermuted(served.context.context.Y, c.context.Y);
    SameIffPermuted(served.context.context.H, c.context.H);
    SameIffPermuted(served.context.context.R, c.context.R);
  }
}
