/**
  The records of the automation app that the policy cascade reads and writes:
  agents with their site and client, policies with their exclusion sets, and
  the check and task rows that policies own (templates) or agents own.

  A value of these types is one consistent snapshot of the database: an
  agent carries the site it points to, and a site the client it points to,
  as a join would return them.
*/
module Entities {

  datatype Option<T> = None | Some(value: T)

  type AgentId = nat
  type SiteId = nat
  type ClientId = nat
  type PolicyId = nat
  type CheckId = nat
  type TaskId = nat
  type ScriptId = nat

  /** `monitoring_type` of an agent; also names the policy slot of a site or client. */
  datatype MonType = Server | Workstation

  /** A client with the policies assigned to it for servers and for workstations. */
  datatype Client = Client(
    id: ClientId,
    serverPolicy: Option<PolicyId>,
    workstationPolicy: Option<PolicyId>)
  {
    function PolicyFor(m: MonType): Option<PolicyId> {
      if m == Server then serverPolicy else workstationPolicy
    }
  }

  /** A site, the client it belongs to, its inheritance flag and its own policies. */
  datatype Site = Site(
    id: SiteId,
    client: Client,
    blockPolicyInheritance: bool,
    serverPolicy: Option<PolicyId>,
    workstationPolicy: Option<PolicyId>)
  {
    function PolicyFor(m: MonType): Option<PolicyId> {
      if m == Server then serverPolicy else workstationPolicy
    }
  }

  /** An agent: its monitoring type, inheritance flag, site and explicitly assigned policy. */
  datatype Agent = Agent(
    id: AgentId,
    monType: MonType,
    blockPolicyInheritance: bool,
    site: Site,
    policy: Option<PolicyId>)

  /** The type of a check together with the fields that identify it. */
  datatype CheckKind =
    | DiskSpace(disk: string)
    | Ping(ip: string)
    | CpuLoad
    | Memory
    | WinSvc(svcName: string)
    | ScriptCheck(scriptId: ScriptId, shell: string)
    | EventLog(logName: string, eventId: int)

  /**
    A check row. A policy template has no agent; a row of an agent's table has
    one. `managedByPolicy` rows were materialised from the template named by
    `parentCheck`. The override flag keeps the column's own spelling.
  */
  datatype Check = Check(
    pk: CheckId,
    kind: CheckKind,
    agent: Option<AgentId>,
    managedByPolicy: bool,
    parentCheck: Option<CheckId>,
    overridenByPolicy: bool)

  /** `sync_status` of an automated task. */
  datatype SyncStatus = Initial | Synced | NotSynced | PendingDeletion

  /** An automated task row: the shell of its script, whether it is managed, its template, its sync state. */
  datatype Task = Task(
    pk: TaskId,
    scriptShell: string,
    managedByPolicy: bool,
    parentTask: Option<TaskId>,
    syncStatus: SyncStatus)

  /** A policy: its flags, its exclusion sets and the templates it owns, in query order. */
  datatype Policy = Policy(
    id: PolicyId,
    active: bool,
    enforced: bool,
    excludedAgents: set<AgentId>,
    excludedSites: set<SiteId>,
    excludedClients: set<ClientId>,
    checks: seq<Check>,
    tasks: seq<Task>)

  /** The (up to) four policies that apply to one agent, as the agent looks them up. */
  datatype PolicyStack = PolicyStack(
    agentPolicy: Option<Policy>,
    sitePolicy: Option<Policy>,
    clientPolicy: Option<Policy>,
    defaultPolicy: Option<Policy>)
  {
    /** The layers in the order the cascades visit them: agent, site, client, default. */
    function Layers(): (r: seq<Option<Policy>>)
      ensures |r| == 4
    {
      [agentPolicy, sitePolicy, clientPolicy, defaultPolicy]
    }
  }
}
