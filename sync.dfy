/**
 * The sync orchestrator (sync.py): per-group inventory construction, one
 * runner invocation per server group, and fail-fast over the groups.
 *
 * The external playbook runner is an oracle `runner` from the arguments of a
 * call to its result; `trace` records every call made, in order.
 */
module Sync {
  import opened Wrappers
  import opened OrderedDict
  import opened Config

  // ---------------------------------------------------------------------------
  // Inventory
  // ---------------------------------------------------------------------------

  /** A host attribute value in the inventory. */
  datatype AttrValue = IntAttr(i: int) | StrAttr(s: string)

  type HostVars = map<string, AttrValue>

  /** `{"hosts": {host: host_config, ...}}` */
  datatype HostGroup = HostGroup(hosts: map<string, HostVars>)

  /** `{group_name: {"hosts": ...}, ...}` */
  datatype Inventory = Inventory(groups: map<string, HostGroup>)

  const InventoryGroupName := "ssl_servers"
  const PortAttr := "ansible_port"
  const UserAttr := "ansible_user"
  const KeyFileAttr := "ansible_ssh_private_key_file"
  const PassAttr := "ansible_ssh_pass"

  /**
   * The attributes each host of `g` gets: an override only where the group
   * departs from the ambient SSH configuration (a non-default port, a
   * non-empty credential), carrying the group's own value.
   */
  function HostVarsFor(g: ServerGroup): (hv: HostVars)
    ensures PortAttr in hv <==> g.sshPort != DefaultSshPort
    ensures UserAttr in hv <==> g.sshUser != ""
    ensures KeyFileAttr in hv <==> g.sshKeyPath != ""
    ensures PassAttr in hv <==> g.sshPass != ""
    ensures PortAttr in hv ==> hv[PortAttr] == IntAttr(g.sshPort)
    ensures UserAttr in hv ==> hv[UserAttr] == StrAttr(g.sshUser)
    ensures KeyFileAttr in hv ==> hv[KeyFileAttr] == StrAttr(g.sshKeyPath)
    ensures PassAttr in hv ==> hv[PassAttr] == StrAttr(g.sshPass)
    ensures hv.Keys <= {PortAttr, UserAttr, KeyFileAttr, PassAttr}
  {
    AttrNamesDistinct();
    var withPort: HostVars := if g.sshPort != DefaultSshPort then map[PortAttr := IntAttr(g.sshPort)] else map[];
    var withUser := if g.sshUser != "" then withPort[UserAttr := StrAttr(g.sshUser)] else withPort;
    var withKey := if g.sshKeyPath != "" then withUser[KeyFileAttr := StrAttr(g.sshKeyPath)] else withUser;
    if g.sshPass != "" then withKey[PassAttr := StrAttr(g.sshPass)] else withKey
  }

  lemma AttrNamesDistinct()
    ensures PortAttr != UserAttr && PortAttr != KeyFileAttr && PortAttr != PassAttr
    ensures UserAttr != KeyFileAttr && UserAttr != PassAttr && KeyFileAttr != PassAttr
  {
    assert PortAttr[8] == 'p' && UserAttr[8] == 'u' && KeyFileAttr[8] == 's' && PassAttr[8] == 's';
    assert |UserAttr| != |KeyFileAttr| && |UserAttr| != |PassAttr| && |KeyFileAttr| != |PassAttr|;
  }

  /** The one-group inventory for `g`: every host with the same attributes. */
  function InventoryOf(g: ServerGroup): Inventory
  {
    Inventory(map[InventoryGroupName := HostGroup(map h | h in g.hosts :: HostVarsFor(g))])
  }

  /** `_create_inventory_dict`: fills `inventory["ssl_servers"]["hosts"]` host by host. */
  method CreateInventoryDict(g: ServerGroup) returns (inv: Inventory)
    ensures inv.groups.Keys == {InventoryGroupName}
    ensures inv.groups[InventoryGroupName].hosts.Keys == set h | h in g.hosts
    ensures forall h :: h in inv.groups[InventoryGroupName].hosts ==>
      inv.groups[InventoryGroupName].hosts[h] == HostVarsFor(g)
    ensures inv == InventoryOf(g)
  {
    var hosts: map<string, HostVars> := map[];
    for i := 0 to |g.hosts|
      invariant hosts.Keys == set h | h in g.hosts[..i]
      invariant forall h :: h in hosts ==> hosts[h] == HostVarsFor(g)
    {
      var hostConfig: HostVars := map[];
      if g.sshPort != DefaultSshPort {
        hostConfig := hostConfig[PortAttr := IntAttr(g.sshPort)];
      }
      if g.sshUser != "" {
        hostConfig := hostConfig[UserAttr := StrAttr(g.sshUser)];
      }
      if g.sshKeyPath != "" {
        hostConfig := hostConfig[KeyFileAttr := StrAttr(g.sshKeyPath)];
      }
      if g.sshPass != "" {
        hostConfig := hostConfig[PassAttr := StrAttr(g.sshPass)];
      }
      assert g.hosts[..i + 1] == g.hosts[..i] + [g.hosts[i]];
      hosts := hosts[g.hosts[i] := hostConfig];
    }
    assert g.hosts[..|g.hosts|] == g.hosts;
    assert hosts == map h | h in g.hosts :: HostVarsFor(g);
    inv := Inventory(map[InventoryGroupName := HostGroup(hosts)]);
  }

  // ---------------------------------------------------------------------------
  // Runner calls
  // ---------------------------------------------------------------------------

  /**
   * `str(playbook_dir / playbook_file)`: an empty file name adds nothing, an
   * absolute one replaces the directory, and a relative one is appended after
   * a separator. Nothing is normalised: `..` segments are kept.
   */
  function JoinPath(dir: string, file: string): (r: string)
    ensures file == "" ==> r == dir
    ensures file != "" ==> |file| <= |r| && r[|r| - |file|..] == file
    ensures file != "" && file[0] == '/' ==> r == file
    ensures file != "" && file[0] != '/' ==> |dir| < |r| && r[..|dir| + 1] == dir + "/"
  {
    if file == "" then dir
    else if file[0] == '/' then file
    else
      var r := dir + "/" + file;
      assert r[|r| - |file|..] == file;
      assert r[..|dir| + 1] == dir + "/";
      r
  }

  /** The arguments of one `ansible_runner.run` call. */
  datatype RunRequest = RunRequest(
    playbook: string,
    inventory: Inventory,
    extraVars: map<string, Value>,
    sshKey: string,
    quiet: bool,
    verbosity: int)

  /** What a runner call gives back: a result with a status, or an exception. */
  datatype RunResult = Finished(status: string) | Raised

  const SuccessStatus := "successful"

  predicate Succeeded(res: RunResult)
  {
    res.Finished? && res.status == SuccessStatus
  }

  /** The call made for group `g` of rule `pm`. */
  function RequestFor(pm: PlaybookMapping, g: ServerGroup, playbook: string): RunRequest
  {
    RunRequest(playbook, InventoryOf(g), AnsibleVars(pm), g.sshKeyPath, false, 1)
  }

  /** Whether group `g` syncs successfully under `runner`. */
  predicate GroupSucceeds(runner: RunRequest -> RunResult, pm: PlaybookMapping, g: ServerGroup, playbook: string)
  {
    Succeeded(runner(RequestFor(pm, g, playbook)))
  }

  /** The certificate syncer; its configuration and playbook directory are fixed at construction. */
  class SslSyncer {
    const appConfig: AppConfig
    const playbookDir: string

    constructor (appConfig: AppConfig, playbookDir: string)
      ensures this.appConfig == appConfig && this.playbookDir == playbookDir
    {
      this.appConfig := appConfig;
      this.playbookDir := playbookDir;
    }

    /** `self.playbook_dir / playbook_config.playbook_file`, as a string. */
    function PlaybookPath(pm: PlaybookMapping): (r: string)
      ensures pm.playbookFile == "" ==> r == playbookDir
      ensures pm.playbookFile != "" ==> |pm.playbookFile| <= |r| && r[|r| - |pm.playbookFile|..] == pm.playbookFile
      ensures pm.playbookFile != "" && pm.playbookFile[0] == '/' ==> r == pm.playbookFile
      ensures pm.playbookFile != "" && pm.playbookFile[0] != '/' ==> |playbookDir| < |r| && r[..|playbookDir| + 1] == playbookDir + "/"
    {
      JoinPath(playbookDir, pm.playbookFile)
    }

    /**
     * `_sync_to_server_group`: one runner call with the group's inventory,
     * the rule's variables and the group's key path; success exactly when the
     * call finishes with status "successful".
     */
    method SyncToServerGroup(pm: PlaybookMapping, g: ServerGroup, groupName: string, playbook: string, runner: RunRequest -> RunResult)
      returns (ok: bool, request: RunRequest)
      ensures request == RequestFor(pm, g, playbook)
      ensures request.extraVars == AnsibleVars(pm) && request.sshKey == g.sshKeyPath
      ensures ok <==> runner(request).Finished? && runner(request).status == SuccessStatus
    {
      var inventory := CreateInventoryDict(g);
      var extraVars := GetAnsibleVars(pm);
      request := RunRequest(playbook, inventory, extraVars, g.sshKeyPath, false, 1);
      var result := runner(request);
      match result
      case Raised =>
        ok := false;
      case Finished(status) =>
        ok := status == SuccessStatus;
    }

    /**
     * `sync_ssl_certificate`: nothing runs when the playbook file is missing;
     * otherwise the groups are synced in dict order and the first failure
     * stops the loop.
     */
    method SyncSslCertificate(key: string, pm: PlaybookMapping, groups: Dict<string, ServerGroup>, playbookExists: bool, runner: RunRequest -> RunResult)
      returns (ok: bool, trace: seq<RunRequest>)
      ensures !playbookExists ==> !ok && trace == []
      ensures |trace| <= |groups| && trace == Requests(pm, groups[..|trace|], PlaybookPath(pm))
      ensures playbookExists ==> FailFastTrace(runner, trace, |groups|)
      ensures ok <==> playbookExists && |trace| == |groups| && forall j :: 0 <= j < |trace| ==> Succeeded(runner(trace[j]))
    {
      trace := [];
      var playbook := PlaybookPath(pm);
      if !playbookExists {
        return false, trace;
      }
      var i := 0;
      while i < |groups|
        invariant 0 <= i <= |groups|
        invariant |trace| == i
        invariant trace == Requests(pm, groups[..i], playbook)
        invariant forall j :: 0 <= j < i ==> Succeeded(runner(trace[j]))
      {
        var groupName, serverGroup := groups[i].0, groups[i].1;
        var success, request := SyncToServerGroup(pm, serverGroup, groupName, playbook, runner);
        TraceExtends(pm, groups, playbook, i, trace, request);
        trace := trace + [request];
        if !success {
          assert !Succeeded(runner(trace[i]));
          return false, trace;
        }
        i := i + 1;
      }
      ok := true;
    }
  }

  /** The calls that syncing the groups of `groups` one by one makes, in order. */
  ghost function Requests(pm: PlaybookMapping, groups: Dict<string, ServerGroup>, playbook: string): (rs: seq<RunRequest>)
    ensures |rs| == |groups|
  {
    if groups == [] then []
    else Requests(pm, groups[..|groups| - 1], playbook) + [RequestFor(pm, groups[|groups| - 1].1, playbook)]
  }

  /** Appending the call for group `i` to the calls for the groups before it. */
  lemma TraceExtends(pm: PlaybookMapping, groups: Dict<string, ServerGroup>, playbook: string, i: nat, trace: seq<RunRequest>, request: RunRequest)
    requires i < |groups| && trace == Requests(pm, groups[..i], playbook)
    requires request == RequestFor(pm, groups[i].1, playbook)
    ensures trace + [request] == Requests(pm, groups[..i + 1], playbook)
  {
    assert groups[..i + 1][..i] == groups[..i];
  }

  /** Call `j` of the sync is the call for group `j`. */
  lemma {:induction false} RequestsAt(pm: PlaybookMapping, groups: Dict<string, ServerGroup>, playbook: string, j: nat)
    requires j < |groups|
    ensures Requests(pm, groups, playbook)[j] == RequestFor(pm, groups[j].1, playbook)
  {
    if j < |groups| - 1 {
      RequestsAt(pm, groups[..|groups| - 1], playbook, j);
    }
  }

  /**
   * A trace of runner calls that fail-fast can make over `n` groups: every
   * call but the last succeeded, and stopping early means the last failed.
   */
  ghost predicate FailFastTrace(runner: RunRequest -> RunResult, trace: seq<RunRequest>, n: nat)
  {
    && |trace| <= n
    && (forall j :: 0 <= j < |trace| - 1 ==> Succeeded(runner(trace[j])))
    && (|trace| < n ==> |trace| > 0 && !Succeeded(runner(trace[|trace| - 1])))
  }

  /** A sync trace invokes the runner for the groups in dict order, with the same variables. */
  lemma SyncTraceFollowsGroups(pm: PlaybookMapping, groups: Dict<string, ServerGroup>, playbook: string, trace: seq<RunRequest>)
    requires |trace| <= |groups| && trace == Requests(pm, groups[..|trace|], playbook)
    ensures forall j :: 0 <= j < |trace| ==> trace[j] == RequestFor(pm, groups[j].1, playbook)
    ensures forall j :: 0 <= j < |trace| ==> trace[j].extraVars == AnsibleVars(pm)
  {
    forall j | 0 <= j < |trace| ensures trace[j] == RequestFor(pm, groups[j].1, playbook) {
      RequestsAt(pm, groups[..|trace|], playbook, j);
    }
  }

  /** Group `i` fails and every group before it succeeds. */
  ghost predicate FirstFailure(runner: RunRequest -> RunResult, pm: PlaybookMapping, groups: Dict<string, ServerGroup>, playbook: string, i: nat)
    requires i < |groups|
  {
    && !GroupSucceeds(runner, pm, groups[i].1, playbook)
    && forall j :: 0 <= j < i ==> GroupSucceeds(runner, pm, groups[j].1, playbook)
  }

  /** If group `i` is the first to fail, the runner was invoked for groups `0..i` and no other. */
  lemma FirstFailureStopsSync(runner: RunRequest -> RunResult, pm: PlaybookMapping, groups: Dict<string, ServerGroup>, playbook: string, trace: seq<RunRequest>, i: nat)
    requires |trace| <= |groups| && trace == Requests(pm, groups[..|trace|], playbook)
    requires FailFastTrace(runner, trace, |groups|)
    requires i < |groups| && FirstFailure(runner, pm, groups, playbook, i)
    ensures |trace| == i + 1
  {
    SyncTraceFollowsGroups(pm, groups, playbook, trace);
    assert forall j :: 0 <= j < |trace| - 1 ==> GroupSucceeds(runner, pm, groups[j].1, playbook);
    assert |trace| < |groups| ==> !GroupSucceeds(runner, pm, groups[|trace| - 1].1, playbook);
  }

  /** The sync reports success exactly when every group succeeds, and then it has called the runner once per group. */
  lemma SyncSucceedsIffAllGroupsSucceed(runner: RunRequest -> RunResult, pm: PlaybookMapping, groups: Dict<string, ServerGroup>, playbook: string, trace: seq<RunRequest>)
    requires |trace| <= |groups| && trace == Requests(pm, groups[..|trace|], playbook)
    requires FailFastTrace(runner, trace, |groups|)
    ensures (|trace| == |groups| && forall j :: 0 <= j < |trace| ==> Succeeded(runner(trace[j])))
      <==> forall j :: 0 <= j < |groups| ==> GroupSucceeds(runner, pm, groups[j].1, playbook)
  {
    SyncTraceFollowsGroups(pm, groups, playbook, trace);
    assert |trace| < |groups| ==> !GroupSucceeds(runner, pm, groups[|trace| - 1].1, playbook);
  }

  /** An absolute playbook file name replaces the playbook directory. */
  lemma AbsolutePlaybookEscapesDirectory()
    ensures JoinPath("/srv/webhook/playbooks", "/etc/other.yml") == "/etc/other.yml"
  {
  }

  /**
   * A relative name with `..` segments keeps the directory as a text prefix
   * but, since the segments are not resolved, names a file outside it.
   */
  lemma DotDotPlaybookEscapesDirectory()
    ensures JoinPath("/srv/webhook/playbooks", "../../../etc/other.yml")
      == "/srv/webhook/playbooks/../../../etc/other.yml"
  {
  }
}
