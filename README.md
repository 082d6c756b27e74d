# certimate webhook: a verified model of its decision logic

The service receives a webhook that names a certificate. It looks up the
routing rule for that name, resolves the rule's server groups, and runs an
Ansible playbook once per group, stopping at the first group that fails.
This project models that decision logic in Dafny and proves what it
promises:

- `wrappers.dfy` (`Wrappers`): `Option` and `Result`.
- `ordered_dict.dfy` (`OrderedDict`): an insertion-ordered Python `dict` as
  a sequence of key/value pairs. Assigning to an absent key appends and
  assigning to a present key keeps its position.
- `config.dfy` (`Config`, from `config.py`):
  - `ServerGroup` and its defaults;
  - the group registry, where the last declaration of a name wins;
  - the `webhook.path` merge into the server section, and the required
    `webhook_path`;
  - `get_ansible_vars` (a loop over the dumped fields);
  - `find_playbook_config` (first match);
  - `get_servers_for_key` (the rule's known groups, each once, in the
    rule's order);
  - `AppConfig`, a class whose `Load` builds the three fields from the
    already-parsed file.
- `sync.dfy` (`Sync`, from `sync.py`):
  - `_create_inventory_dict` (a loop that fills the host map);
  - `_sync_to_server_group`, where the runner is an oracle function;
  - `sync_ssl_certificate`, a loop with an early exit. It returns the trace
    of every runner call it made.
- `webhook.dfy` (`Webhook`, from `main.py`):
  - `str.strip()`;
  - the guard order of `ssl_update_webhook_handler` as a function to an
    outcome (503, 400, 404, 404, or accepted with its body and task);
  - the handler as a method that appends the accepted task to a
    `BackgroundTasks` queue.

Design choices:

- A resolved group map is an ordered dict, because its order is visible.
  It is the `server_groups` list of the response and the order of the
  sync. The registry is a Dafny map, because only lookup and membership
  matter for it. The inventory's host map is a Dafny map too, so it does
  not keep the Python dict's host order (see "Left out").
- The runner (`ansible_runner.run`) is a function parameter from the call's
  arguments to `Finished(status)` or `Raised`. `Raised` stands for any
  exception inside the group sync. The existence of the playbook file is a
  boolean parameter.
- The code, not the design intent, decides the path rule. A rule's
  `playbook_file` is meant to be a bare name inside the playbook directory,
  but `playbook_dir / playbook_file` takes an absolute name as it stands and
  keeps `..` segments of a relative name, so both can name a file outside
  the directory. The model follows the code: see `Sync.JoinPath`.
- A rule that lists a group name twice yields that group once, at its first
  position. This is the dict comprehension's behaviour, and
  `ResolvedFrom` states it.

## Model

| member | source | states |
|---|---|---|
| OrderedDict.Insert | config.py:95-99 | Assigning `d[k] = v`: a new key is appended, an existing key keeps its place, `k` now maps to `v`, other keys keep their values, and keys stay distinct |
| Config.ServerGroupFromRecord | config.py:10-18 | An absent `ssh_port` becomes 22 and an absent `ssh_user`, `ssh_key_path` or `ssh_pass` becomes `""`; given values are kept |
| Config.Registry | config.py:76-78 | The registry's names are exactly the declared names, and each maps to the group built from the last record that declares it |
| Config.GetAnsibleVars | config.py:31-39 | The loop over the dumped fields yields exactly `AnsibleVars(pm)` |
| Config.AnsibleVarsExact | config.py:31-39 | The variables contain `n[4:] ↦ v` for every extra field `n ↦ v` that starts with `var_`, and every variable comes from such a field |
| Config.ModelDumpFields | config.py:28-34 | `model_dump()` holds exactly the declared fields `key`, `server_groups` and `playbook_file` with their values, plus every extra field with its own value |
| Config.StrippedNamesNotFixed | config.py:21-29 | The declared fields `key`, `server_groups` and `playbook_file` never carry the prefix, and the dump agrees with the extras on every prefixed name |
| Config.AnsibleVarsCount | config.py:31-39 | There are as many variables as prefixed fields, so no two fields collide after the prefix is stripped |
| Config.StripCard | config.py:35-37 | Removing the `var_` prefix is one-to-one on prefixed names |
| Config.LoadServerConfig | config.py:42-73 | Loading succeeds iff a webhook path is available. A present, non-empty `webhook.path` replaces the server's path; otherwise the server's own path is kept. Host, port, log level and playbook file default to `0.0.0.0`, 8080, `INFO` and `ssl_sync.yml` |
| Config.AppConfig.Load | config.py:59-83 | Loading fails exactly when the server section is invalid. Otherwise the new object holds the merged server section, the last-wins registry and the rules in file order |
| Config.FirstWithKey | config.py:85-87 | The position of the first rule with the key, or none iff no rule has it |
| Config.AppConfig.FindPlaybookConfig | config.py:85-87 | None iff no rule has the key; otherwise a rule with that key that no earlier rule's key matches |
| Config.ResolveGroups | config.py:95-99 | The result has, once each, exactly the listed names found in the registry, ordered by first mention, each bound to its registry group; unknown names are dropped |
| Config.AppConfig.GetServersForKey | config.py:89-99 | Empty when no rule matches; otherwise the matched rule's groups resolved as above |
| Config.UnknownGroupsResolveEmpty | config.py:95-99 | A rule that names only unknown groups resolves to the empty dict, without error |
| Config.ResolvedFromUnique | config.py:95-99 | The resolution property determines the dict completely: any two dicts meeting it are equal |
| Config.OrderedByFirstMentionUnique | config.py:95-99 | Two sequences of listed names with the same elements, both ordered by first mention, are equal |
| Sync.HostVarsFor | sync.py:111-127 | Each host has `ansible_port` iff the port is not 22, and `ansible_user`, `ansible_ssh_private_key_file` or `ansible_ssh_pass` iff that field is non-empty. Each value is the group's own, and no other attribute appears |
| Sync.CreateInventoryDict | sync.py:106-131 | The only group is `ssl_servers`. Its hosts are exactly the group's hosts, and every host has the same attribute map `HostVarsFor(g)` |
| Sync.SslSyncer.SyncToServerGroup | sync.py:51-74 | One runner call with the group's inventory, the rule's variables and the group's key path. The result is true iff the runner finished with status `successful`; another status or an exception gives false |
| Sync.SslSyncer.SyncSslCertificate | sync.py:22-49 | With no playbook file the result is false and no call is made. Otherwise the calls follow the groups in dict order, every call before the last succeeded, and stopping early means the last failed. The result is true iff there is one successful call per group |
| Sync.RequestsAt | sync.py:38-41 | Call `j` of a sync is the call for group `j` |
| Sync.SyncTraceFollowsGroups | sync.py:38-41 | Every call of a sync is the call for the group at its position, and all calls carry the same `get_ansible_vars()` map |
| Sync.FirstFailureStopsSync | sync.py:38-42 | If group `i` is the first to fail, the runner was called for groups `0..i` and no others |
| Sync.SyncSucceedsIffAllGroupsSucceed | sync.py:38-45 | A complete, all-successful trace is the same as every group succeeding |
| Sync.JoinPath | sync.py:33 | Joining with `/`: an empty name gives the directory, an absolute name is used as it stands, and a relative name gives a path string that starts with the directory followed by `/`. A non-empty name always ends the path |
| Sync.SslSyncer.PlaybookPath | sync.py:33 | The playbook path is the syncer's directory joined with the rule's `playbook_file`, with the same three cases |
| Sync.AbsolutePlaybookEscapesDirectory | sync.py:33 | A concrete absolute playbook name that ends up outside the directory |
| Sync.DotDotPlaybookEscapesDirectory | sync.py:33 | A concrete relative name with `..` segments stays textually after the directory but, since nothing resolves the segments, names a file outside it |
| Webhook.StripChars | main.py:112 | The stripped key neither starts nor ends with a stripped character |
| Webhook.StripCharsKeepsMiddle | main.py:112 | Stripping keeps a middle slice of the name and drops only stripped characters from both ends |
| Webhook.StripEmptyIffAllStripped | main.py:112 | A name strips to the empty key iff all of it is whitespace |
| Webhook.StripIdempotent | main.py:112 | Stripping twice is stripping once |
| Webhook.StripIgnoresLeading | main.py:112 | Whitespace added in front of a name does not change its key |
| Webhook.StripIgnoresTrailing | main.py:112 | Whitespace added after a name does not change its key |
| Webhook.DecideForKey | main.py:116-144 | Once initialised: 400 iff the key is empty, with detail `key不能为空`. For a non-empty key, 404 iff no rule matches or no known group remains; the first check wins, with detail `未找到playbook配置: <key>`, and the second gives `key <key> 没有配置服务器组`. Acceptance comes exactly otherwise, with status `accepted`, the key, the resolved group names in order, the rule's playbook file, the fixed message, and a task carrying the same key, rule and groups |
| Webhook.NotFoundDetailsDiffer | main.py:121-131 | The two 404 answers never share a detail, so a caller can tell a missing rule from a rule without known groups |
| Webhook.Decide | main.py:107-117 | 503 with detail `应用配置未初始化` exactly when the configuration or the syncer is missing, checked before the name is looked at; otherwise the decision for the stripped name |
| Webhook.UninitialisedIgnoresPayload | main.py:109-110 | An uninitialised service answers the same 503 to every payload |
| Webhook.SurroundingSpaceIgnored | main.py:112 | Whitespace added around the name does not change the outcome |
| Webhook.AcceptedTaskResolvesRule | main.py:120-144 | An accepted key is non-empty and unpadded. The task's rule is the first rule with that key, and its groups are that rule's groups resolved against the registry |
| Webhook.AcceptedGroupsAreKnown | main.py:126-141 | The `server_groups` of an accepted response are distinct, registered and listed by the rule, and every listed registered group appears |
| Webhook.BackgroundTasks.AddTask | main.py:134-136 | Scheduling appends the task to the queue |
| Webhook.SslUpdateWebhookHandler | main.py:103-144 | The handler answers as `Decide` does. When it accepts, exactly the accepted task is appended; when it rejects, the queue is unchanged |

## Left out

- YAML parsing and the existence of the configuration file (config.py:61-65): the parsed sections are inputs (`ConfigData`).
- Pydantic validation of group records and rules is not modelled. A record is taken as well-formed, and only the defaults and the required `webhook_path` are modelled.
- Config.LoadServerConfig: the truthiness test on `webhook.path` is modelled for strings only (present and non-empty), because the parsed path is typed as a string.
- Configuration values carry no floats (`Config.Value`), because floating point is out of scope.
- The filesystem check `Path.exists` on the playbook is a boolean parameter.
- Path normalisation by `pathlib` is not modelled: it collapses repeated slashes and `.` segments and drops a trailing slash, while keeping `..` segments. Only the joining rule of `/` (empty, absolute and relative names) is modelled.
- `ansible_runner.run` is a foreign call. It is a deterministic function of the call's arguments, and what it does on the hosts is out of scope. The arguments do not name the group, so two groups with the same inventory, variables and key path get the same result.
- The diagnostic logging after a failed run is not modelled: `rc`, the stdout read and the event scan (sync.py:77-99). It only writes logs and never changes the result. All `logger` calls are left out for the same reason.
- Sync.CreateInventoryDict: the inventory's host map is a Dafny map, so the host order of the Python dict is not modelled. A host listed twice keeps one entry, as in the source.
- The 500 path (main.py:146-150) is not modelled. No modelled step raises anything but the HTTP errors, so it is unreachable in the model.
- The FastAPI app, route registration, lifespan, middleware, `/` and `/health` (main.py:25-100) are framework plumbing.
- `sync_ssl_certificate_task` and its executor (main.py:153-175) are out of scope, because their point is concurrency. The model records only that the task is scheduled.
- `cleanup_temp_files` (sync.py:134-137) only logs.
- `InterceptHandler`, `setup_logging` and the uvicorn start-up only configure I/O.
