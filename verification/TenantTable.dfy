/**
 The webserver SDK's table of tenant configurations: user contexts may be added before or after
 initialisation, configurations are completed in place from the initial one, and requests are
 dispatched by context name.
 */
module TenantTable {
  import opened Wrappers

  const COREINIT_CONTEXT := "OTEL_COREINIT_CONTEXT"

  datatype Identity = Identity(ns: string, name: string, id: string)

  /** Every setting of a tenant other than its identity. */
  datatype Others = Others(texts: seq<string>, numbers: seq<int>, sslEnabled: bool)

  datatype Config = Config(who: Identity, others: Others)

  // ----- The agent as a value.

  /** initPid is 0 until an initialisation succeeds. */
  datatype Agent = Agent(initPid: int, pending: map<string, Identity>, table: map<string, Config>)

  const NEW_AGENT := Agent(0, map[], map[])

  predicate ValidAdd(name: string, who: Option<Identity>) {
    name != "" && name != COREINIT_CONTEXT && who.Some? &&
    who.value.ns != "" && who.value.name != "" && who.value.id != ""
  }

  function AfterAdd(a: Agent, name: string, who: Option<Identity>): Agent {
    if !ValidAdd(name, who) then a
    else if a.initPid != 0 then
      if name in a.table || COREINIT_CONTEXT !in a.table then a
      else a.(table := a.table[name := Config(who.value, a.table[COREINIT_CONTEXT].others)])
    else if name in a.pending then a
    else a.(pending := a.pending[name := who.value])
  }

  function Completed(pending: map<string, Identity>, others: Others): map<string, Config> {
    map n | n in pending :: Config(pending[n], others)
  }

  /** `settings` is what the boilerplate, the settings and the logger allowed to be read, if they all did. */
  function AfterInit(a: Agent, pid: int, settings: Option<Config>): Agent {
    if a.initPid != 0 || settings.None? then a
    else Agent(pid, a.pending, map[COREINIT_CONTEXT := settings.value] + Completed(a.pending, settings.value.others))
  }

  datatype Op =
    | AddContext(name: string, who: Option<Identity>)
    | Initialise(pid: int, settings: Option<Config>)

  function Do(a: Agent, op: Op): Agent {
    match op
    case AddContext(name, who) => AfterAdd(a, name, who)
    case Initialise(pid, settings) => AfterInit(a, pid, settings)
  }

  function Run(ops: seq<Op>): Agent {
    if ops == [] then NEW_AGENT else Do(Run(ops[..|ops| - 1]), ops[|ops| - 1])
  }

  // ----- What the table is, whatever the order.

  /** The identity of the first valid add of each name. */
  function FirstAdds(ops: seq<Op>): map<string, Identity> {
    if ops == [] then map[] else
    var before, op := FirstAdds(ops[..|ops| - 1]), ops[|ops| - 1];
    if op.AddContext? && ValidAdd(op.name, op.who) && op.name !in before then before[op.name := op.who.value] else before
  }

  /** The configuration of the one initialisation that succeeded. */
  function Winner(ops: seq<Op>): Option<Config> {
    if ops == [] then None else
    var before, op := Winner(ops[..|ops| - 1]), ops[|ops| - 1];
    if before.None? && op.Initialise? then op.settings else before
  }

  ghost predicate RealPids(ops: seq<Op>) {
    forall i :: 0 <= i < |ops| && ops[i].Initialise? ==> ops[i].pid != 0
  }

  /**
   Init-order independence. In any sequence of calls, the table after a successful initialisation
   holds the initial configuration under its own name and, for every validly added name, the
   initial settings under the identity of its first valid add: where the initialisation stands among
   the adds does not appear on the right-hand side. Without one the table is empty.
   */
  lemma {:induction false} InitOrderIndependence(ops: seq<Op>)
    requires RealPids(ops)
    ensures match Winner(ops)
      case None => Run(ops).table == map[] && Run(ops).pending == FirstAdds(ops)
      case Some(c) => Run(ops).table == map[COREINIT_CONTEXT := c] + Completed(FirstAdds(ops), c.others)
    ensures Run(ops).initPid != 0 <==> Winner(ops).Some?
    ensures COREINIT_CONTEXT !in FirstAdds(ops)
  {
    if ops == [] {
    } else {
      var before, op := ops[..|ops| - 1], ops[|ops| - 1];
      InitOrderIndependence(before);
      if op.AddContext? && op.who.Some? && Winner(before).Some? {
        CompletedAdd(FirstAdds(before), Winner(before).value, op.name, op.who.value);
      }
    }
  }

  lemma CompletedAdd(pending: map<string, Identity>, c: Config, n: string, who: Identity)
    ensures map[COREINIT_CONTEXT := c] + Completed(pending[n := who], c.others)
      == (map[COREINIT_CONTEXT := c] + Completed(pending, c.others))[n := Config(who, c.others)]
  {
  }

  lemma {:induction false} FirstAddsOfAdds(adds: seq<Op>, more: seq<Op>, init: Op)
    requires init.Initialise? && forall i :: 0 <= i < |more| ==> more[i].AddContext?
    ensures FirstAdds(adds + [init] + more) == FirstAdds(adds + more)
    ensures Winner(adds + [init] + more) == Winner(adds + [init])
  {
    var all, without := adds + [init] + more, adds + more;
    if more == [] {
      assert all[..|all| - 1] == adds && without == adds;
      assert all == adds + [init];
    } else {
      var m := more[..|more| - 1];
      assert all[..|all| - 1] == adds + [init] + m && without[..|without| - 1] == adds + m;
      FirstAddsOfAdds(adds, m, init);
    }
  }

  lemma {:induction false} NoWinnerInAdds(adds: seq<Op>)
    requires forall i :: 0 <= i < |adds| ==> adds[i].AddContext?
    ensures Winner(adds) == None
  {
    if adds == [] {
    } else {
      NoWinnerInAdds(adds[..|adds| - 1]);
    }
  }

  /** In particular, cutting the same adds at two different places gives the same table. */
  lemma PositionOfInitDoesNotMatter(adds: seq<Op>, i: nat, j: nat, pid: int, c: Config)
    requires (forall k :: 0 <= k < |adds| ==> adds[k].AddContext?) && i <= |adds| && j <= |adds| && pid != 0
    ensures var init := Initialise(pid, Some(c));
      Run(adds[..i] + [init] + adds[i..]).table == Run(adds[..j] + [init] + adds[j..]).table
  {
    TableWithInitAt(adds, i, pid, c);
    TableWithInitAt(adds, j, pid, c);
  }

  lemma TableWithInitAt(adds: seq<Op>, k: nat, pid: int, c: Config)
    requires (forall i :: 0 <= i < |adds| ==> adds[i].AddContext?) && k <= |adds| && pid != 0
    ensures Run(adds[..k] + [Initialise(pid, Some(c))] + adds[k..]).table
      == map[COREINIT_CONTEXT := c] + Completed(FirstAdds(adds), c.others)
  {
    var before, after := adds[..k], adds[k..];
    assert before + after == adds;
    InitAmongAdds(before, after, pid, c);
    TableOf(before + [Initialise(pid, Some(c))] + after, FirstAdds(adds), c);
  }

  lemma TableOf(ops: seq<Op>, firsts: map<string, Identity>, c: Config)
    requires RealPids(ops) && Winner(ops) == Some(c) && FirstAdds(ops) == firsts
    ensures Run(ops).table == map[COREINIT_CONTEXT := c] + Completed(firsts, c.others)
  {
    InitOrderIndependence(ops);
  }

  lemma InitAmongAdds(before: seq<Op>, after: seq<Op>, pid: int, c: Config)
    requires forall i :: 0 <= i < |before| ==> before[i].AddContext?
    requires forall i :: 0 <= i < |after| ==> after[i].AddContext?
    requires pid != 0
    ensures var ops := before + [Initialise(pid, Some(c))] + after;
      RealPids(ops) && Winner(ops) == Some(c) && FirstAdds(ops) == FirstAdds(before + after)
  {
    var init := Initialise(pid, Some(c));
    FirstAddsOfAdds(before, after, init);
    NoWinnerInAdds(before);
    WinnerStep(before, init);
  }

  lemma WinnerStep(before: seq<Op>, init: Op)
    requires Winner(before) == None && init.Initialise?
    ensures Winner(before + [init]) == init.settings
  {
    assert (before + [init])[..|before|] == before;
  }

  // ----- The same, in place.

  class TenantConfig {
    var who: Identity
    var others: Others

    constructor (c: Config)
      ensures View() == c
    {
      who, others := c.who, c.others;
    }

    function View(): Config
      reads this
    {
      Config(who, others)
    }

    predicate IsSameNamespaceNameId(that: TenantConfig): (same: bool)
      reads this, that
      ensures same <==> who.ns == that.who.ns && who.name == that.who.name && who.id == that.who.id
    {
      who == that.who
    }

    /** Assigns everything, then puts the old identity back. */
    method CopyAllExceptNamespaceNameId(from: TenantConfig)
      modifies this
      ensures View() == Config(old(who), old(from.others))
    {
      var oldWho := who;
      who, others := from.who, from.others;
      who := oldWho;
    }
  }

  /** A context owns its request engine; the object stands for the engine. */
  class WebServerContext {
    const config: TenantConfig

    constructor (c: TenantConfig)
      ensures config == c
    {
      config := c;
    }
  }

  class AgentCore {
    var contexts: map<string, WebServerContext>

    constructor ()
      ensures contexts == map[]
    {
      contexts := map[];
    }

    ghost function Configs(): set<TenantConfig>
      reads this
    {
      set n | n in contexts :: contexts[n].config
    }

    ghost function Table(): map<string, Config>
      reads this, Configs()
    {
      map n | n in contexts :: contexts[n].config.View()
    }

    /** The context of a name; the empty name means the initial context, and is rewritten to it. */
    method GetWebServerContext(name: string) returns (used: string, context: WebServerContext?)
      ensures used == if name == "" then COREINIT_CONTEXT else name
      ensures if used in contexts then context == contexts[used] else context == null
    {
      used := if name == "" then COREINIT_CONTEXT else name;
      context := if used in contexts then contexts[used] else null;
    }

    method CreateContext(name: string, config: TenantConfig)
      modifies this
      ensures name in contexts && contexts == old(contexts)[name := contexts[name]]
      ensures fresh(contexts[name]) && contexts[name].config == config
    {
      var c := new WebServerContext(config);
      contexts := contexts[name := c];
    }

    method AddContext(name: string, config: TenantConfig)
      requires config !in Configs()
      modifies this, config
      ensures COREINIT_CONTEXT !in old(contexts) ==> contexts == old(contexts) && config.View() == old(config.View())
      ensures COREINIT_CONTEXT in old(contexts) ==> name in contexts && contexts == old(contexts)[name := contexts[name]]
      ensures COREINIT_CONTEXT in old(contexts) ==> contexts[name].config == config && fresh(contexts[name])
      ensures COREINIT_CONTEXT in old(contexts) ==>
        config.View() == Config(old(config.who), old(contexts[COREINIT_CONTEXT].config.others))
      ensures COREINIT_CONTEXT in old(contexts) ==>
        Table() == old(Table())[name := Config(old(config.who), old(contexts[COREINIT_CONTEXT].config.others))]
    {
      var _, initial := GetWebServerContext(COREINIT_CONTEXT);
      if initial != null {
        config.CopyAllExceptNamespaceNameId(initial.config);
        CreateContext(name, config);
      }
    }

    /** n has its context, on its own configuration, completed with the initial settings. */
    ghost predicate Ready(n: string, tenants: map<string, TenantConfig>, was: map<string, Identity>, others: Others)
      reads this, tenants.Values
    {
      && n in tenants && n in contexts && n in was && contexts[n].config == tenants[n]
      && tenants[n].who == was[n] && tenants[n].others == others
    }

    ghost function Identities(tenants: map<string, TenantConfig>): map<string, Identity>
      reads tenants.Values
    {
      map n | n in tenants :: tenants[n].who
    }

    /** The initial context, then every tenant added so far, in no particular order. */
    method Start(initConfig: TenantConfig, tenants: map<string, TenantConfig>, logger: bool) returns (ok: bool)
      requires contexts == map[] && COREINIT_CONTEXT !in tenants
      requires forall n :: n in tenants ==> tenants[n] != initConfig
      requires forall m, n :: m in tenants && n in tenants && m != n ==> tenants[m] != tenants[n]
      modifies this, tenants.Values
      ensures ok == logger
      ensures !ok ==> contexts == map[]
      ensures ok ==> contexts.Keys == tenants.Keys + {COREINIT_CONTEXT}
      ensures ok ==> contexts[COREINIT_CONTEXT].config == initConfig
      ensures Identities(tenants) == old(Identities(tenants))
      ensures ok ==> Table() == map[COREINIT_CONTEXT := old(initConfig.View())] + Completed(old(Identities(tenants)), old(initConfig.others))
    {
      if !logger {
        return false;
      }
      CreateContext(COREINIT_CONTEXT, initConfig);
      AddTenants(initConfig, tenants);
      TableOfReady(initConfig, tenants, old(Identities(tenants)));
      return true;
    }

    lemma TableOfReady(initConfig: TenantConfig, tenants: map<string, TenantConfig>, was: map<string, Identity>)
      requires COREINIT_CONTEXT !in tenants && was.Keys == tenants.Keys
      requires contexts.Keys == tenants.Keys + {COREINIT_CONTEXT} && contexts[COREINIT_CONTEXT].config == initConfig
      requires forall n :: n in tenants ==> Ready(n, tenants, was, initConfig.others)
      ensures Identities(tenants) == was
      ensures Table() == map[COREINIT_CONTEXT := initConfig.View()] + Completed(was, initConfig.others)
    {
      var all := map[COREINIT_CONTEXT := initConfig.View()] + Completed(was, initConfig.others);
      assert Table().Keys == all.Keys;
      forall n | n in contexts ensures Table()[n] == all[n] {
        assert n != COREINIT_CONTEXT ==> Ready(n, tenants, was, initConfig.others);
      }
    }

    method AddTenants(ghost initConfig: TenantConfig, tenants: map<string, TenantConfig>)
      requires COREINIT_CONTEXT !in tenants && contexts.Keys == {COREINIT_CONTEXT} && contexts[COREINIT_CONTEXT].config == initConfig
      requires forall n :: n in tenants ==> tenants[n] != initConfig
      requires forall m, n :: m in tenants && n in tenants && m != n ==> tenants[m] != tenants[n]
      modifies this, tenants.Values
      ensures contexts.Keys == tenants.Keys + {COREINIT_CONTEXT} && contexts[COREINIT_CONTEXT].config == initConfig
      ensures forall n :: n in tenants ==> Ready(n, tenants, old(Identities(tenants)), initConfig.others)
      ensures initConfig.View() == old(initConfig.View())
    {
      ghost var was, others := Identities(tenants), initConfig.others;
      var names := tenants.Keys;
      while names != {}
        invariant names <= tenants.Keys && contexts.Keys == (tenants.Keys - names) + {COREINIT_CONTEXT}
        invariant contexts[COREINIT_CONTEXT].config == initConfig && initConfig.View() == old(initConfig.View())
        invariant forall n :: n in names ==> tenants[n].who == was[n]
        invariant forall n :: n in tenants && n !in names ==> Ready(n, tenants, was, others)
        decreases names
      {
        var n :| n in names;
        assert tenants[n] in tenants.Values;
        AddTenant(n, tenants, names, was, initConfig);
        names := names - {n};
      }
    }

    lemma NotYetIn(n: string, tenants: map<string, TenantConfig>, names: set<string>, was: map<string, Identity>, initConfig: TenantConfig)
      requires n in names && names <= tenants.Keys && tenants[n] != initConfig
      requires forall m :: m in tenants && m != n ==> tenants[m] != tenants[n]
      requires contexts.Keys == (tenants.Keys - names) + {COREINIT_CONTEXT} && contexts[COREINIT_CONTEXT].config == initConfig
      requires forall m :: m in tenants && m !in names ==> Ready(m, tenants, was, initConfig.others)
      ensures tenants[n] !in Configs()
    {
      forall m | m in contexts ensures contexts[m].config != tenants[n] {
        assert m == COREINIT_CONTEXT || Ready(m, tenants, was, initConfig.others);
      }
    }

    /** One turn of the loop in Start. */
    method AddTenant(n: string, tenants: map<string, TenantConfig>, ghost names: set<string>, ghost was: map<string, Identity>,
                     ghost initConfig: TenantConfig)
      requires COREINIT_CONTEXT !in tenants && n in names && names <= tenants.Keys && was.Keys == tenants.Keys
      requires forall m :: m in tenants ==> tenants[m] != initConfig
      requires forall m, k :: m in tenants && k in tenants && m != k ==> tenants[m] != tenants[k]
      requires contexts.Keys == (tenants.Keys - names) + {COREINIT_CONTEXT} && contexts[COREINIT_CONTEXT].config == initConfig
      requires forall m :: m in names ==> tenants[m].who == was[m]
      requires forall m :: m in tenants && m !in names ==> Ready(m, tenants, was, initConfig.others)
      modifies this, tenants[n]
      ensures contexts.Keys == (tenants.Keys - (names - {n})) + {COREINIT_CONTEXT} && contexts[COREINIT_CONTEXT].config == initConfig
      ensures forall m :: m in names - {n} ==> tenants[m].who == was[m]
      ensures forall m :: m in tenants && m !in names - {n} ==> Ready(m, tenants, was, initConfig.others)
    {
      NotYetIn(n, tenants, names, was, initConfig);
      AddContext(n, tenants[n]);
    }
  }

  /** A request handle carries the name of its context; `maker` is the context whose engine made it. */
  class RequestHandle {
    const name: string
    ghost const maker: WebServerContext

    constructor (name: string, ghost maker: WebServerContext)
      ensures this.name == name && this.maker == maker
    {
      this.name, this.maker := name, maker;
    }
  }

  datatype InitCode = Initialised | AlreadyInitialised | WrongProcessId | ConfigNotRead | AgentFailedToStart

  class WSAgent {
    const core: AgentCore
    var initPid: int
    var userAddedTenant: map<string, TenantConfig>
    ghost var handles: set<RequestHandle>

    ghost predicate Valid()
      reads this, core, userAddedTenant.Values
    {
      && COREINIT_CONTEXT !in userAddedTenant
      && (forall m, n :: m in userAddedTenant && n in userAddedTenant && m != n ==> userAddedTenant[m] != userAddedTenant[n])
      && (initPid == 0 ==> core.contexts == map[])
      && (initPid != 0 ==> COREINIT_CONTEXT in core.contexts)
      && (forall h :: h in handles ==> h.name != "" && h.name in core.contexts && core.contexts[h.name] == h.maker)
    }

    ghost function View(): Agent
      reads this, core, core.Configs(), userAddedTenant.Values
    {
      Agent(initPid, core.Identities(userAddedTenant), core.Table())
    }

    constructor ()
      ensures Valid() && View() == NEW_AGENT && handles == {} && fresh(core)
    {
      core := new AgentCore();
      initPid, userAddedTenant, handles := 0, map[], {};
    }

    method CheckPid(pid: int) returns (r: InitCode)
      ensures r == if initPid == 0 then Initialised else if initPid == pid then AlreadyInitialised else WrongProcessId
    {
      r := if initPid == 0 then Initialised else if initPid == pid then AlreadyInitialised else WrongProcessId;
    }

    method Init(pid: int, settings: Option<Config>, logger: bool) returns (r: InitCode)
      requires Valid() && pid != 0
      modifies this, core, userAddedTenant.Values
      ensures Valid() && handles == old(handles)
      ensures View() == AfterInit(old(View()), pid, if logger then settings else None)
      ensures r == if old(initPid) == pid then AlreadyInitialised else if old(initPid) != 0 then WrongProcessId
                   else if settings.None? then ConfigNotRead else if !logger then AgentFailedToStart else Initialised
    {
      r := CheckPid(pid);
      if r != Initialised {
        return;
      }
      if settings.None? {
        return ConfigNotRead;
      }
      var tenantConfig := new TenantConfig(settings.value);
      assert View() == old(View());
      r := StartCore(pid, tenantConfig, logger);
    }

    method StartCore(pid: int, tenantConfig: TenantConfig, logger: bool) returns (r: InitCode)
      requires Valid() && pid != 0 && initPid == 0 && tenantConfig !in userAddedTenant.Values
      modifies this`initPid, core, userAddedTenant.Values
      ensures Valid()
      ensures View() == AfterInit(old(View()), pid, if logger then Some(old(tenantConfig.View())) else None)
      ensures r == if logger then Initialised else AgentFailedToStart
    {
      assert handles == {};
      var started := core.Start(tenantConfig, userAddedTenant, logger);
      if !started {
        return AgentFailedToStart;
      }
      InitialisePid(pid);
      return Initialised;
    }

    method InitialisePid(pid: int)
      modifies this`initPid
      ensures initPid == pid && View() == old(View()).(initPid := pid)
    {
      ghost var pending, table := core.Identities(userAddedTenant), core.Table();
      initPid := pid;
      assert core.Identities(userAddedTenant) == pending && core.Table() == table;
    }

    method AddWSContextToCore(name: string, who: Option<Identity>) returns (r: int)
      requires Valid()
      modifies this, core
      ensures Valid() && handles == old(handles)
      ensures View() == AfterAdd(old(View()), name, who) && r == if ValidAdd(name, who) then 0 else -1
      ensures r == -1 <==> name == "" || name == "OTEL_COREINIT_CONTEXT" || who == None
                           || "" in [who.value.ns, who.value.name, who.value.id]
    {
      if !ValidAdd(name, who) {
        return -1;
      }
      var tenant := new TenantConfig(Config(who.value, Others([], [], false)));
      assert View() == old(View());
      if initPid != 0 {
        AddToCore(name, tenant);
      } else {
        AddPending(name, tenant);
      }
      return 0;
    }

    method AddToCore(name: string, tenant: TenantConfig)
      requires Valid() && initPid != 0 && name != "" && tenant !in core.Configs() && tenant !in userAddedTenant.Values
      modifies core, tenant
      ensures Valid()
      ensures View() == if name in old(core.contexts) then old(View())
        else old(View()).(table := old(core.Table())[name := Config(old(tenant.who), old(core.Table())[COREINIT_CONTEXT].others)])
    {
      var _, existing := core.GetWebServerContext(name);
      if existing == null {
        core.AddContext(name, tenant);
        assert core.Identities(userAddedTenant) == old(core.Identities(userAddedTenant));
      }
    }

    method AddPending(name: string, tenant: TenantConfig)
      requires Valid() && initPid == 0 && name != COREINIT_CONTEXT && tenant !in userAddedTenant.Values
      modifies this`userAddedTenant
      ensures Valid()
      ensures View() == if name in old(userAddedTenant) then old(View())
        else old(View()).(pending := old(core.Identities(userAddedTenant))[name := tenant.who])
    {
      if name !in userAddedTenant {
        userAddedTenant := userAddedTenant[name := tenant];
        assert core.Identities(userAddedTenant) == old(core.Identities(userAddedTenant))[name := tenant.who];
      }
    }

    /** Null when there is no such context. */
    method StartRequest(wscontext: string) returns (handle: RequestHandle?)
      requires Valid()
      modifies this`handles
      ensures Valid() && handles == if handle == null then old(handles) else old(handles) + {handle}
      ensures handle == null <==> (if wscontext == "" then COREINIT_CONTEXT else wscontext) !in core.contexts
      ensures handle != null ==> fresh(handle) && handle.maker == core.contexts[if wscontext == "" then COREINIT_CONTEXT else wscontext]
    {
      var context, engine := core.GetWebServerContext(wscontext);
      if engine == null {
        return null;
      }
      handle := new RequestHandle(context, engine);
      handles := handles + {handle};
    }

    /** EndRequest, StartInteraction and EndInteraction all find the engine this way: it is the one that made the handle. */
    method Dispatch(handle: RequestHandle) returns (engine: WebServerContext?)
      requires Valid() && handle in handles
      ensures engine == handle.maker
    {
      var _, context := core.GetWebServerContext(handle.name);
      engine := context;
    }
  }
}
