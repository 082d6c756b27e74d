/**
 * The configuration model of the webhook service (config.py): server groups,
 * playbook mappings (the rules), the server section with its webhook merge,
 * and the two lookups the rest of the service relies on.
 */
module Config {
  import opened Wrappers
  import opened OrderedDict

  /** A value as the parsed configuration file can hold it (floats are not modelled). */
  datatype Value =
    | Str(s: string)
    | Int(i: int)
    | Bool(b: bool)
    | Null
    | List(items: seq<Value>)
    | Mapping(entries: map<string, Value>)

  // ---------------------------------------------------------------------------
  // Server groups
  // ---------------------------------------------------------------------------

  const DefaultSshPort := 22

  /** A named cluster of target hosts with its SSH connection settings. */
  datatype ServerGroup = ServerGroup(
    name: string,
    hosts: seq<string>,
    sshUser: string,
    sshKeyPath: string,
    sshPass: string,
    sshPort: int)

  /** One entry of the `server_groups` section as parsed: the optional keys may be absent. */
  datatype GroupRecord = GroupRecord(
    name: string,
    hosts: seq<string>,
    sshUser: Option<string>,
    sshKeyPath: Option<string>,
    sshPass: Option<string>,
    sshPort: Option<int>)

  function GetOr<T>(o: Option<T>, default: T): T
  {
    if o.Some? then o.value else default
  }

  /** `ServerGroup(**sg)`: an absent key takes the declared default. */
  function ServerGroupFromRecord(rec: GroupRecord): (g: ServerGroup)
    ensures g.name == rec.name && g.hosts == rec.hosts
    ensures rec.sshPort.None? ==> g.sshPort == DefaultSshPort
    ensures rec.sshUser.None? ==> g.sshUser == ""
    ensures rec.sshKeyPath.None? ==> g.sshKeyPath == ""
    ensures rec.sshPass.None? ==> g.sshPass == ""
    ensures rec.sshPort.Some? ==> g.sshPort == rec.sshPort.value
    ensures rec.sshUser.Some? ==> g.sshUser == rec.sshUser.value
    ensures rec.sshKeyPath.Some? ==> g.sshKeyPath == rec.sshKeyPath.value
    ensures rec.sshPass.Some? ==> g.sshPass == rec.sshPass.value
  {
    ServerGroup(
      rec.name,
      rec.hosts,
      GetOr(rec.sshUser, ""),
      GetOr(rec.sshKeyPath, ""),
      GetOr(rec.sshPass, ""),
      GetOr(rec.sshPort, DefaultSshPort))
  }

  /** Record `i` is the last one in `rs` that declares its name. */
  ghost predicate LastWithName(rs: seq<GroupRecord>, i: int)
    requires 0 <= i < |rs|
  {
    forall j :: i < j < |rs| ==> rs[j].name != rs[i].name
  }

  /**
   * The group registry `{sg["name"]: ServerGroup(**sg) for sg in ...}`: keyed
   * by name, a later record with the same name overwrites an earlier one.
   */
  function Registry(rs: seq<GroupRecord>): (r: map<string, ServerGroup>)
    ensures r.Keys == set rec | rec in rs :: rec.name
    ensures forall i :: 0 <= i < |rs| && LastWithName(rs, i) ==>
      rs[i].name in r && r[rs[i].name] == ServerGroupFromRecord(rs[i])
  {
    if rs == [] then map[]
    else
      var init, last := rs[..|rs| - 1], rs[|rs| - 1];
      var prev := Registry(init);
      RegistryStep(rs, prev);
      prev[last.name := ServerGroupFromRecord(last)]
  }

  lemma RegistryStep(rs: seq<GroupRecord>, prev: map<string, ServerGroup>)
    requires rs != []
    requires prev.Keys == set rec | rec in rs[..|rs| - 1] :: rec.name
    requires forall i :: 0 <= i < |rs| - 1 && LastWithName(rs[..|rs| - 1], i) ==>
      rs[i].name in prev && prev[rs[i].name] == ServerGroupFromRecord(rs[i])
    ensures var r := prev[rs[|rs| - 1].name := ServerGroupFromRecord(rs[|rs| - 1])];
      && r.Keys == (set rec | rec in rs :: rec.name)
      && forall i :: 0 <= i < |rs| && LastWithName(rs, i) ==>
           rs[i].name in r && r[rs[i].name] == ServerGroupFromRecord(rs[i])
  {
    var init, last := rs[..|rs| - 1], rs[|rs| - 1];
    var r := prev[last.name := ServerGroupFromRecord(last)];
    assert rs == init + [last];
    var names := set rec | rec in rs :: rec.name;
    forall x | x in names ensures x in r.Keys {
      var rec :| rec in rs && rec.name == x;
      if rec != last {
        assert rec in init;
      }
    }
    forall i | 0 <= i < |rs| && LastWithName(rs, i)
      ensures rs[i].name in r && r[rs[i].name] == ServerGroupFromRecord(rs[i])
    {
      if i < |rs| - 1 {
        assert rs[i].name != last.name;
        assert init[i] == rs[i];
        assert LastWithName(init, i);
      }
    }
  }

  // ---------------------------------------------------------------------------
  // Playbook mappings (rules) and their dynamic variables
  // ---------------------------------------------------------------------------

  /**
   * A rule: the key it answers to, the server groups it targets, the playbook
   * it runs, and every extra field of the rule's entry in the file.
   */
  datatype PlaybookMapping = PlaybookMapping(
    key: string,
    serverGroups: seq<string>,
    playbookFile: string,
    extras: map<string, Value>)

  const VarPrefix := "var_"

  predicate HasVarPrefix(n: string)
  {
    |n| >= |VarPrefix| && n[..|VarPrefix|] == VarPrefix
  }

  /** `model_dump()`: the declared fields together with the extra ones. */
  function ModelDump(pm: PlaybookMapping): map<string, Value>
  {
    pm.extras
      ["key" := Str(pm.key)]
      ["server_groups" := List(seq(|pm.serverGroups|, i requires 0 <= i < |pm.serverGroups| => Str(pm.serverGroups[i])))]
      ["playbook_file" := Str(pm.playbookFile)]
  }

  /**
   * The dump has the three declared fields, under their own names and with
   * their own values, and every other extra field unchanged.
   */
  lemma ModelDumpFields(pm: PlaybookMapping)
    ensures ModelDump(pm).Keys == pm.extras.Keys + {"key", "server_groups", "playbook_file"}
    ensures ModelDump(pm)["key"] == Str(pm.key) && ModelDump(pm)["playbook_file"] == Str(pm.playbookFile)
    ensures ModelDump(pm)["server_groups"].List? && |ModelDump(pm)["server_groups"].items| == |pm.serverGroups|
    ensures forall i :: 0 <= i < |pm.serverGroups| ==> ModelDump(pm)["server_groups"].items[i] == Str(pm.serverGroups[i])
    ensures forall n :: n in pm.extras && n != "key" && n != "server_groups" && n != "playbook_file" ==>
      ModelDump(pm)[n] == pm.extras[n]
  {
  }

  /** The names of the fields that carry the dynamic-variable prefix. */
  function VarNames(fields: map<string, Value>): set<string>
  {
    set n | n in fields && HasVarPrefix(n)
  }

  /** Prefixed names with the prefix removed. */
  function Stripped(names: set<string>): set<string>
  {
    set n | n in names && HasVarPrefix(n) :: n[|VarPrefix|..]
  }

  function StrippedVarNames(fields: map<string, Value>): set<string>
  {
    Stripped(VarNames(fields))
  }

  lemma PrefixRejoin(n: string)
    requires HasVarPrefix(n)
    ensures VarPrefix + n[|VarPrefix|..] == n
  {
    assert n == n[..|VarPrefix|] + n[|VarPrefix|..];
  }

  lemma StrippedRejoin(fields: map<string, Value>)
    ensures forall v :: v in StrippedVarNames(fields) ==> VarPrefix + v in fields
  {
    forall v | v in StrippedVarNames(fields) ensures VarPrefix + v in fields {
      var n :| n in fields && HasVarPrefix(n) && v == n[|VarPrefix|..];
      PrefixRejoin(n);
    }
  }

  /** The variables handed to the runner: each prefixed field, prefix stripped. */
  function AnsibleVarsOf(fields: map<string, Value>): map<string, Value>
  {
    StrippedRejoin(fields);
    map v | v in StrippedVarNames(fields) :: fields[VarPrefix + v]
  }

  function AnsibleVars(pm: PlaybookMapping): map<string, Value>
  {
    AnsibleVarsOf(ModelDump(pm))
  }

  /** `get_ansible_vars()`: one pass over the dumped fields. */
  method GetAnsibleVars(pm: PlaybookMapping) returns (vars: map<string, Value>)
    ensures vars == AnsibleVars(pm)
  {
    var fields := ModelDump(pm);
    vars := map[];
    var remaining := fields.Keys;
    while remaining != {}
      invariant remaining <= fields.Keys
      invariant forall n :: n in fields && n !in remaining && HasVarPrefix(n) ==>
        n[|VarPrefix|..] in vars && vars[n[|VarPrefix|..]] == fields[n]
      invariant forall v :: v in vars ==>
        VarPrefix + v in fields && VarPrefix + v !in remaining && vars[v] == fields[VarPrefix + v]
      decreases |remaining|
    {
      var fieldName :| fieldName in remaining;
      if HasVarPrefix(fieldName) {
        PrefixRejoin(fieldName);
        vars := vars[fieldName[|VarPrefix|..] := fields[fieldName]];
      }
      remaining := remaining - {fieldName};
    }
    CollectedVars(fields, vars);
  }

  /** A map holding exactly the stripped names of `fields`, with their values, is `AnsibleVarsOf(fields)`. */
  lemma CollectedVars(fields: map<string, Value>, vars: map<string, Value>)
    requires forall n :: n in fields && HasVarPrefix(n) ==>
      n[|VarPrefix|..] in vars && vars[n[|VarPrefix|..]] == fields[n]
    requires forall v :: v in vars ==> VarPrefix + v in fields && vars[v] == fields[VarPrefix + v]
    ensures vars == AnsibleVarsOf(fields)
  {
    StrippedRejoin(fields);
    forall v | v in StrippedVarNames(fields) ensures v in vars {
      var n :| n in fields && HasVarPrefix(n) && v == n[|VarPrefix|..];
    }
    forall v | v in vars ensures v in StrippedVarNames(fields) {
      var n := VarPrefix + v;
      assert n[|VarPrefix|..] == v;
    }
  }

  lemma StrippedNamesNotFixed(pm: PlaybookMapping)
    ensures VarNames(ModelDump(pm)) == VarNames(pm.extras)
    ensures forall n :: n in VarNames(pm.extras) ==> ModelDump(pm)[n] == pm.extras[n]
  {
    assert "key"[0] != 'v' && "server_groups"[0] != 'v' && "playbook_file"[0] != 'v';
  }

  /**
   * `get_ansible_vars()` maps `n[4:]` to `v` exactly for the extra fields
   * `n: v` whose name starts with `var_`; declared fields never appear.
   */
  lemma AnsibleVarsExact(pm: PlaybookMapping)
    ensures forall n :: n in pm.extras && HasVarPrefix(n) ==>
      n[|VarPrefix|..] in AnsibleVars(pm) && AnsibleVars(pm)[n[|VarPrefix|..]] == pm.extras[n]
    ensures forall v :: v in AnsibleVars(pm) ==>
      VarPrefix + v in pm.extras && AnsibleVars(pm)[v] == pm.extras[VarPrefix + v]
  {
    StrippedNamesNotFixed(pm);
    var fields := ModelDump(pm);
    forall n | n in pm.extras && HasVarPrefix(n)
      ensures n[|VarPrefix|..] in AnsibleVars(pm) && AnsibleVars(pm)[n[|VarPrefix|..]] == pm.extras[n]
    {
      assert n in VarNames(fields);
      PrefixRejoin(n);
    }
    forall v | v in AnsibleVars(pm)
      ensures VarPrefix + v in pm.extras && AnsibleVars(pm)[v] == pm.extras[VarPrefix + v]
    {
      var n :| n in fields && HasVarPrefix(n) && v == n[|VarPrefix|..];
      PrefixRejoin(n);
      assert n in VarNames(fields);
    }
  }

  /** Stripping the prefix is one-to-one on prefixed names. */
  lemma {:induction false} StripCard(names: set<string>)
    requires forall n :: n in names ==> HasVarPrefix(n)
    ensures |Stripped(names)| == |names|
    decreases |names|
  {
    if names != {} {
      var n :| n in names;
      var rest := names - {n};
      StripCard(rest);
      var sRest := Stripped(rest);
      assert Stripped(names) == sRest + {n[|VarPrefix|..]};
      if n[|VarPrefix|..] in sRest {
        var m :| m in rest && m[|VarPrefix|..] == n[|VarPrefix|..];
        PrefixRejoin(m);
        PrefixRejoin(n);
        assert false;
      }
    }
  }

  /** The runner gets as many variables as the rule has `var_` fields. */
  lemma AnsibleVarsCount(pm: PlaybookMapping)
    ensures |AnsibleVars(pm)| == |VarNames(pm.extras)|
  {
    StrippedNamesNotFixed(pm);
    var fields := ModelDump(pm);
    StripCard(VarNames(fields));
    assert AnsibleVars(pm).Keys == StrippedVarNames(fields);
  }

  // ---------------------------------------------------------------------------
  // Server section and the webhook merge
  // ---------------------------------------------------------------------------

  /** The `server` section as parsed: every key may be absent. */
  datatype ServerSection = ServerSection(
    host: Option<string>,
    port: Option<int>,
    logLevel: Option<string>,
    webhookPath: Option<string>,
    playbookFile: Option<string>)

  /** The `webhook` section as parsed. */
  datatype WebhookSection = WebhookSection(path: Option<string>)

  /** Process-wide settings. */
  datatype ServerConfig = ServerConfig(
    host: string,
    port: int,
    logLevel: string,
    webhookPath: string,
    playbookFile: string)

  datatype LoadError = MissingWebhookPath

  const DefaultHost := "0.0.0.0"
  const DefaultPort := 8080
  const DefaultLogLevel := "INFO"
  const DefaultPlaybookFile := "ssl_sync.yml"

  /** `webhook.path` is taken when it is present and non-empty (a truthy string). */
  predicate WebhookPathGiven(webhook: WebhookSection)
  {
    webhook.path.Some? && webhook.path.value != ""
  }

  /**
   * `ServerConfig(**server_data)` after the webhook merge: the merged
   * `webhook_path` is required, everything else has a default.
   */
  function LoadServerConfig(server: ServerSection, webhook: WebhookSection): (r: Result<ServerConfig, LoadError>)
    ensures r.Success? <==> WebhookPathGiven(webhook) || server.webhookPath.Some?
    ensures r.Success? && WebhookPathGiven(webhook) ==> r.value.webhookPath == webhook.path.value
    ensures r.Success? && !WebhookPathGiven(webhook) ==> r.value.webhookPath == server.webhookPath.value
    ensures r.Success? ==> r.value.host == GetOr(server.host, DefaultHost)
    ensures r.Success? ==> r.value.port == GetOr(server.port, DefaultPort)
    ensures r.Success? ==> r.value.logLevel == GetOr(server.logLevel, DefaultLogLevel)
    ensures r.Success? ==> r.value.playbookFile == GetOr(server.playbookFile, DefaultPlaybookFile)
  {
    var merged := if WebhookPathGiven(webhook) then server.(webhookPath := webhook.path) else server;
    if merged.webhookPath.None? then Failure(MissingWebhookPath)
    else Success(ServerConfig(
      GetOr(merged.host, DefaultHost),
      GetOr(merged.port, DefaultPort),
      GetOr(merged.logLevel, DefaultLogLevel),
      merged.webhookPath.value,
      GetOr(merged.playbookFile, DefaultPlaybookFile)))
  }

  /** The parsed file; an absent section is given as an empty one. */
  datatype ConfigData = ConfigData(
    server: ServerSection,
    webhook: WebhookSection,
    serverGroups: seq<GroupRecord>,
    playbookMappings: seq<PlaybookMapping>)

  // ---------------------------------------------------------------------------
  // Rule lookup and server-group resolution
  // ---------------------------------------------------------------------------

  /** The position of the first rule whose key is `key`. */
  function FirstWithKey(ms: seq<PlaybookMapping>, key: string): (r: Option<nat>)
    ensures r.None? <==> forall i :: 0 <= i < |ms| ==> ms[i].key != key
    ensures r.Some? ==> r.value < |ms| && ms[r.value].key == key
    ensures r.Some? ==> forall j :: 0 <= j < r.value ==> ms[j].key != key
  {
    if ms == [] then None
    else if ms[0].key == key then Some(0)
    else match FirstWithKey(ms[1..], key)
      case None => None
      case Some(i) => Some(i + 1)
  }

  /** The position of the first occurrence of `x` in `s`. */
  function FirstIndex<T(==)>(s: seq<T>, x: T): (r: nat)
    requires x in s
    ensures r < |s| && s[r] == x
    ensures forall j :: 0 <= j < r ==> s[j] != x
  {
    if s[0] == x then 0 else 1 + FirstIndex(s[1..], x)
  }

  lemma FirstIndexPrefix<T>(s: seq<T>, x: T, m: nat)
    requires m <= |s| && x in s[..m]
    ensures FirstIndex(s, x) == FirstIndex(s[..m], x)
  {
    var i := FirstIndex(s[..m], x);
    assert s[i] == x;
    var k := FirstIndex(s, x);
    assert k <= i;
    assert s[..m][k] == x;
  }

  /**
   * `r` is the dict `{g: registry[g] for g in names if g in registry}`:
   * its keys are exactly the listed names the registry knows, each once, in
   * the order of their first mention in `names`, and each maps to its
   * registry entry.
   */
  ghost predicate ResolvedFrom(names: seq<string>, registry: map<string, ServerGroup>, r: Dict<string, ServerGroup>)
  {
    DistinctKeys(r) && EntriesFrom(names, registry, r) && CoversKnown(names, registry, r) && OrderedByNames(names, r)
  }

  /** Every entry is a listed, known name bound to its registry entry. */
  ghost predicate EntriesFrom(names: seq<string>, registry: map<string, ServerGroup>, r: Dict<string, ServerGroup>)
  {
    forall i :: 0 <= i < |r| ==> r[i].0 in names && r[i].0 in registry && r[i].1 == registry[r[i].0]
  }

  /** Every listed, known name has an entry. */
  ghost predicate CoversKnown(names: seq<string>, registry: map<string, ServerGroup>, r: Dict<string, ServerGroup>)
  {
    forall n :: n in names && n in registry ==> n in Keys(r)
  }

  /** Entries come in the order of their names' first mention. */
  ghost predicate OrderedByNames(names: seq<string>, r: Dict<string, ServerGroup>)
    requires forall i :: 0 <= i < |r| ==> r[i].0 in names
  {
    forall i, j :: 0 <= i < j < |r| ==> FirstIndex(names, r[i].0) < FirstIndex(names, r[j].0)
  }

  /** The dict comprehension of `get_servers_for_key`, one name at a time. */
  function ResolveGroups(names: seq<string>, registry: map<string, ServerGroup>): (r: Dict<string, ServerGroup>)
    ensures ResolvedFrom(names, registry, r)
  {
    if names == [] then []
    else
      var m := |names| - 1;
      var init, n := names[..m], names[m];
      var prev := ResolveGroups(init, registry);
      if n !in registry then
        ResolvedStep(names, registry, prev);
        prev
      else
        assert n in Keys(prev) ==> Get(prev, n) == Some(registry[n]) by {
          if n in Keys(prev) {
            var k :| 0 <= k < |prev| && Keys(prev)[k] == n;
            assert IndexOf(prev, n).Some?;
          }
        }
        var r := Insert(prev, n, registry[n]);
        if n in Keys(prev) then
          ResolvedStep(names, registry, prev);
          prev
        else
          ResolvedAppend(names, registry, prev);
          r
  }

  /** The last name adds nothing: it is unknown or already resolved. */
  lemma ResolvedStep(names: seq<string>, registry: map<string, ServerGroup>, prev: Dict<string, ServerGroup>)
    requires names != []
    requires ResolvedFrom(names[..|names| - 1], registry, prev)
    requires names[|names| - 1] !in registry || names[|names| - 1] in Keys(prev)
    ensures ResolvedFrom(names, registry, prev)
  {
    var m := |names| - 1;
    var init := names[..m];
    forall i | 0 <= i < |prev| ensures prev[i].0 in names {
      assert prev[i].0 in init;
    }
    forall n | n in names && n in registry ensures n in Keys(prev) {
      if n != names[m] {
        var k :| 0 <= k < |names| && names[k] == n;
        assert init[k] == n;
      }
    }
    forall i | 0 <= i < |prev| ensures FirstIndex(names, prev[i].0) == FirstIndex(init, prev[i].0) {
      FirstIndexPrefix(names, prev[i].0, m);
    }
  }

  /** The last name is known and new: it is appended, after every earlier one. */
  lemma ResolvedAppend(names: seq<string>, registry: map<string, ServerGroup>, prev: Dict<string, ServerGroup>)
    requires names != []
    requires ResolvedFrom(names[..|names| - 1], registry, prev)
    requires names[|names| - 1] in registry && names[|names| - 1] !in Keys(prev)
    ensures ResolvedFrom(names, registry, prev + [(names[|names| - 1], registry[names[|names| - 1]])])
  {
    var m := |names| - 1;
    var init, n := names[..m], names[m];
    var r := prev + [(n, registry[n])];
    AppendDistinct(prev, n, registry[n]);
    AppendEntries(names, registry, prev);
    AppendCovers(names, registry, prev);
    AppendOrdered(names, registry, prev);
  }

  lemma AppendDistinct(prev: Dict<string, ServerGroup>, n: string, g: ServerGroup)
    requires DistinctKeys(prev) && n !in Keys(prev)
    ensures DistinctKeys(prev + [(n, g)])
  {
    var r := prev + [(n, g)];
    forall i, j | 0 <= i < j < |r| ensures r[i].0 != r[j].0 {
      assert r[i] == prev[i];
      assert Keys(prev)[i] == prev[i].0;
      if j < |prev| {
        assert r[j] == prev[j];
      }
    }
  }

  lemma AppendEntries(names: seq<string>, registry: map<string, ServerGroup>, prev: Dict<string, ServerGroup>)
    requires names != [] && names[|names| - 1] in registry
    requires EntriesFrom(names[..|names| - 1], registry, prev)
    ensures EntriesFrom(names, registry, prev + [(names[|names| - 1], registry[names[|names| - 1]])])
  {
    var m := |names| - 1;
    var r := prev + [(names[m], registry[names[m]])];
    forall i | 0 <= i < |r| ensures r[i].0 in names && r[i].0 in registry && r[i].1 == registry[r[i].0] {
      if i < |prev| {
        assert r[i] == prev[i];
        assert prev[i].0 in names[..m];
      }
    }
  }

  lemma AppendCovers(names: seq<string>, registry: map<string, ServerGroup>, prev: Dict<string, ServerGroup>)
    requires names != [] && names[|names| - 1] in registry
    requires CoversKnown(names[..|names| - 1], registry, prev)
    ensures CoversKnown(names, registry, prev + [(names[|names| - 1], registry[names[|names| - 1]])])
  {
    var m := |names| - 1;
    var init, n := names[..m], names[m];
    var r := prev + [(n, registry[n])];
    forall x | x in names && x in registry ensures x in Keys(r) {
      if x != n {
        var k :| 0 <= k < |names| && names[k] == x;
        assert init[k] == x;
        var t :| 0 <= t < |prev| && Keys(prev)[t] == x;
        assert Keys(r)[t] == x;
      } else {
        assert Keys(r)[|prev|] == n;
      }
    }
  }

  lemma AppendOrdered(names: seq<string>, registry: map<string, ServerGroup>, prev: Dict<string, ServerGroup>)
    requires names != [] && names[|names| - 1] in registry
    requires names[|names| - 1] !in names[..|names| - 1]
    requires EntriesFrom(names[..|names| - 1], registry, prev)
    requires OrderedByNames(names[..|names| - 1], prev)
    ensures EntriesFrom(names, registry, prev + [(names[|names| - 1], registry[names[|names| - 1]])])
    ensures OrderedByNames(names, prev + [(names[|names| - 1], registry[names[|names| - 1]])])
  {
    var m := |names| - 1;
    var init, n := names[..m], names[m];
    var r := prev + [(n, registry[n])];
    AppendEntries(names, registry, prev);
    assert FirstIndex(names, n) == m;
    forall i | 0 <= i < |prev|
      ensures FirstIndex(names, prev[i].0) == FirstIndex(init, prev[i].0) < m
    {
      FirstIndexPrefix(names, prev[i].0, m);
    }
    forall i, j | 0 <= i < j < |r| ensures FirstIndex(names, r[i].0) < FirstIndex(names, r[j].0) {
      assert r[i] == prev[i];
      if j < |prev| {
        assert r[j] == prev[j];
      }
    }
  }

  // ---------------------------------------------------------------------------
  // The application configuration
  // ---------------------------------------------------------------------------

  /** The loaded configuration; built once at start-up and only read afterwards. */
  class AppConfig {
    var server: ServerConfig
    var serverGroups: map<string, ServerGroup>
    var playbookMappings: seq<PlaybookMapping>

    constructor (server: ServerConfig, serverGroups: map<string, ServerGroup>, playbookMappings: seq<PlaybookMapping>)
      ensures this.server == server
      ensures this.serverGroups == serverGroups
      ensures this.playbookMappings == playbookMappings
    {
      this.server := server;
      this.serverGroups := serverGroups;
      this.playbookMappings := playbookMappings;
    }

    /**
     * `AppConfig()` / `_load_config`: null is the start-up failure raised when
     * the server section, after the webhook merge, has no webhook path.
     */
    static method Load(data: ConfigData) returns (cfg: AppConfig?)
      ensures cfg == null <==> LoadServerConfig(data.server, data.webhook).Failure?
      ensures cfg != null ==> fresh(cfg)
      ensures cfg != null ==> cfg.server == LoadServerConfig(data.server, data.webhook).value
      ensures cfg != null ==> cfg.serverGroups == Registry(data.serverGroups)
      ensures cfg != null ==> cfg.playbookMappings == data.playbookMappings
    {
      var server := LoadServerConfig(data.server, data.webhook);
      if server.Failure? {
        return null;
      }
      var groups := Registry(data.serverGroups);
      cfg := new AppConfig(server.value, groups, data.playbookMappings);
    }

    /** `find_playbook_config`: the first rule, in list order, whose key is `key`. */
    function FindPlaybookConfig(key: string): (r: Option<PlaybookMapping>)
      reads this
      ensures r.None? <==> forall i :: 0 <= i < |playbookMappings| ==> playbookMappings[i].key != key
      ensures r.Some? ==> r.value.key == key
      ensures r.Some? ==> exists i :: (0 <= i < |playbookMappings| && playbookMappings[i] == r.value
        && forall j :: 0 <= j < i ==> playbookMappings[j].key != key)
    {
      match FirstWithKey(playbookMappings, key)
      case None => None
      case Some(i) => Some(playbookMappings[i])
    }

    /**
     * `get_servers_for_key`: empty when no rule matches; otherwise the rule's
     * group names that the registry knows, in list order, with their groups.
     */
    function GetServersForKey(key: string): (r: Dict<string, ServerGroup>)
      reads this
      ensures FindPlaybookConfig(key).None? ==> r == []
      ensures FindPlaybookConfig(key).Some? ==>
        ResolvedFrom(FindPlaybookConfig(key).value.serverGroups, serverGroups, r)
    {
      match FindPlaybookConfig(key)
      case None => []
      case Some(pm) => ResolveGroups(pm.serverGroups, serverGroups)
    }
  }

  /** A rule that names only unknown groups resolves to no group at all. */
  lemma {:induction false} UnknownGroupsResolveEmpty(names: seq<string>, registry: map<string, ServerGroup>)
    requires forall n :: n in names ==> n !in registry
    ensures ResolveGroups(names, registry) == []
  {
    if names != [] {
      UnknownGroupsResolveEmpty(names[..|names| - 1], registry);
    }
  }

  /** A sequence without repeats has as many elements as its set. */
  lemma {:induction false} DistinctCard(s: seq<string>)
    requires forall i, j :: 0 <= i < j < |s| ==> s[i] != s[j]
    ensures |set x | x in s| == |s|
  {
    if s != [] {
      var init, last := s[..|s| - 1], s[|s| - 1];
      DistinctCard(init);
      assert s == init + [last];
      assert (set x | x in s) == (set x | x in init) + {last};
      assert last !in init;
    }
  }

  /** Every element of `k` is listed in `names`, and `k` follows their first mentions. */
  ghost predicate OrderedByFirstMention(names: seq<string>, k: seq<string>)
  {
    && (forall x :: x in k ==> x in names)
    && (forall i, j :: 0 <= i < j < |k| ==> FirstIndex(names, k[i]) < FirstIndex(names, k[j]))
  }

  lemma OrderedTail(names: seq<string>, k: seq<string>)
    requires |k| > 0 && OrderedByFirstMention(names, k)
    ensures OrderedByFirstMention(names, k[1..])
    ensures k[0] !in k[1..]
    ensures forall x :: x in k ==> FirstIndex(names, k[0]) <= FirstIndex(names, x)
  {
    forall x | x in k ensures FirstIndex(names, k[0]) <= FirstIndex(names, x) {
      var i :| 0 <= i < |k| && k[i] == x;
    }
    assert forall i :: 0 <= i < |k| - 1 ==> k[1..][i] == k[i + 1];
  }

  lemma SameHead(names: seq<string>, k1: seq<string>, k2: seq<string>)
    requires |k1| > 0 && |k2| > 0
    requires OrderedByFirstMention(names, k1) && OrderedByFirstMention(names, k2)
    requires k2[0] in k1 && k1[0] in k2
    ensures k1[0] == k2[0]
  {
    OrderedTail(names, k1);
    OrderedTail(names, k2);
    var a, b := k1[0], k2[0];
    assert FirstIndex(names, a) == FirstIndex(names, b);
    assert a == names[FirstIndex(names, a)];
  }

  lemma SameTailElements(k1: seq<string>, k2: seq<string>)
    requires |k1| > 0 && |k2| > 0 && k1[0] == k2[0]
    requires k1[0] !in k1[1..] && k2[0] !in k2[1..]
    requires forall x :: x in k1 <==> x in k2
    ensures forall x :: x in k1[1..] <==> x in k2[1..]
  {
    assert k1 == [k1[0]] + k1[1..] && k2 == [k2[0]] + k2[1..];
    forall x ensures x in k1[1..] <==> x in k2[1..] {
      assert x in k1 <==> x == k1[0] || x in k1[1..];
      assert x in k2 <==> x == k2[0] || x in k2[1..];
    }
  }

  lemma SameLength(names: seq<string>, k1: seq<string>, k2: seq<string>)
    requires OrderedByFirstMention(names, k1) && OrderedByFirstMention(names, k2)
    requires forall x :: x in k1 <==> x in k2
    ensures |k1| == |k2|
  {
    OrderedDistinct(names, k1);
    OrderedDistinct(names, k2);
    DistinctCard(k1);
    DistinctCard(k2);
    assert (set x | x in k1) == (set x | x in k2);
  }

  lemma OrderedDistinct(names: seq<string>, k: seq<string>)
    requires OrderedByFirstMention(names, k)
    ensures forall i, j :: 0 <= i < j < |k| ==> k[i] != k[j]
  {
  }

  /** Sequences of listed names, ordered by first mention, are fixed by their elements. */
  lemma {:induction false} OrderedByFirstMentionUnique(names: seq<string>, k1: seq<string>, k2: seq<string>)
    requires OrderedByFirstMention(names, k1) && OrderedByFirstMention(names, k2)
    requires forall x :: x in k1 <==> x in k2
    ensures k1 == k2
    decreases |k1|
  {
    SameLength(names, k1, k2);
    if |k1| > 0 {
      assert k2[0] in k1 && k1[0] in k2;
      SameHead(names, k1, k2);
      OrderedTail(names, k1);
      OrderedTail(names, k2);
      SameTailElements(k1, k2);
      OrderedByFirstMentionUnique(names, k1[1..], k2[1..]);
      assert k1 == [k1[0]] + k1[1..] && k2 == [k2[0]] + k2[1..];
    }
  }

  /**
   * `ResolvedFrom` pins the resolved dict down completely: whatever satisfies
   * it is the dict comprehension's result, entry for entry and in order.
   */
  lemma ResolvedFromUnique(names: seq<string>, registry: map<string, ServerGroup>, r1: Dict<string, ServerGroup>, r2: Dict<string, ServerGroup>)
    requires ResolvedFrom(names, registry, r1)
    requires ResolvedFrom(names, registry, r2)
    ensures r1 == r2
  {
    var k1, k2 := Keys(r1), Keys(r2);
    forall x ensures x in k1 <==> x in k2 && (x in k1 ==> x in names) {
      if x in k1 {
        var i :| 0 <= i < |k1| && k1[i] == x;
        assert r1[i].0 == x;
      }
      if x in k2 {
        var i :| 0 <= i < |k2| && k2[i] == x;
        assert r2[i].0 == x;
      }
    }
    assert forall i :: 0 <= i < |k1| ==> k1[i] == r1[i].0;
    assert forall i :: 0 <= i < |k2| ==> k2[i] == r2[i].0;
    OrderedByFirstMentionUnique(names, k1, k2);
    assert |r1| == |k1| == |k2| == |r2|;
    forall i | 0 <= i < |r1| ensures r1[i] == r2[i] {
      assert r1[i].0 == k1[i] == k2[i] == r2[i].0;
    }
  }
}
