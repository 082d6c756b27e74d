/**
 * The SSL-update webhook handler: the guards it checks, in order, the
 * response it builds when it accepts a request, and the one background
 * task it schedules.
 */
module Webhook {
  import opened Wrappers
  import opened OrderedDict
  import opened Config
  import opened Sync

  // ---------------------------------------------------------------------------
  // str.strip()
  // ---------------------------------------------------------------------------

  /** The characters Python's `str.isspace` accepts: what `str.strip()` removes. */
  const Whitespace: set<char> := {
    '\t', '\n', '\U{000B}', '\U{000C}', '\r', '\U{001C}', '\U{001D}', '\U{001E}',
    '\U{001F}', ' ', '\U{0085}', '\U{00A0}', '\U{1680}', '\U{2000}', '\U{2001}', '\U{2002}',
    '\U{2003}', '\U{2004}', '\U{2005}', '\U{2006}', '\U{2007}', '\U{2008}', '\U{2009}', '\U{200A}',
    '\U{2028}', '\U{2029}', '\U{202F}', '\U{205F}', '\U{3000}'}

  /** The number of characters from `chars` that `s` starts with. */
  function LeadingChars(s: string, chars: set<char>): (n: nat)
    ensures n <= |s|
    ensures forall i :: 0 <= i < n ==> s[i] in chars
    ensures n == |s| || s[n] !in chars
  {
    if s != [] && s[0] in chars then 1 + LeadingChars(s[1..], chars) else 0
  }

  /** The number of characters from `chars` that `s` ends with. */
  function TrailingChars(s: string, chars: set<char>): (n: nat)
    ensures n <= |s|
    ensures forall i :: |s| - n <= i < |s| ==> s[i] in chars
    ensures n == |s| || s[|s| - n - 1] !in chars
  {
    if s != [] && s[|s| - 1] in chars then 1 + TrailingChars(s[..|s| - 1], chars) else 0
  }

  /** The leading run is determined by where the first other character is. */
  lemma LeadingCharsUnique(s: string, chars: set<char>, n: nat)
    requires n <= |s| && (forall i :: 0 <= i < n ==> s[i] in chars) && (n == |s| || s[n] !in chars)
    ensures LeadingChars(s, chars) == n
  {
  }

  /** The trailing run is determined by where the last other character is. */
  lemma TrailingCharsUnique(s: string, chars: set<char>, n: nat)
    requires n <= |s| && (forall i :: |s| - n <= i < |s| ==> s[i] in chars) && (n == |s| || s[|s| - n - 1] !in chars)
    ensures TrailingChars(s, chars) == n
  {
  }

  /**
   * `s.strip(chars)`: `s` without its leading and trailing characters from
   * `chars`; what is left neither starts nor ends with one of them.
   */
  function StripChars(s: string, chars: set<char>): (r: string)
    ensures |r| <= |s|
    ensures r == [] || (r[0] !in chars && r[|r| - 1] !in chars)
  {
    var a := LeadingChars(s, chars);
    if a == |s| then [] else s[a..|s| - TrailingChars(s, chars)]
  }

  /** What `StripChars` keeps is a middle slice of `s`, and all it drops is from `chars`. */
  lemma StripCharsKeepsMiddle(s: string, chars: set<char>)
    ensures exists a, b :: (0 <= a <= b <= |s| && StripChars(s, chars) == s[a..b]
      && (forall i :: 0 <= i < a ==> s[i] in chars) && (forall i :: b <= i < |s| ==> s[i] in chars))
  {
    var a := LeadingChars(s, chars);
    if a == |s| {
      assert s[a..a] == [];
    } else {
      var b := |s| - TrailingChars(s, chars);
      assert StripChars(s, chars) == s[a..b];
    }
  }

  /** `s.strip()`: whitespace removed from both ends. */
  function Strip(s: string): string
  {
    StripChars(s, Whitespace)
  }

  /** A string strips to nothing exactly when all of it is stripped characters. */
  lemma StripEmptyIffAllStripped(s: string, chars: set<char>)
    ensures StripChars(s, chars) == [] <==> forall i :: 0 <= i < |s| ==> s[i] in chars
  {
  }

  /** Stripping twice is stripping once. */
  lemma StripIdempotent(s: string, chars: set<char>)
    ensures StripChars(StripChars(s, chars), chars) == StripChars(s, chars)
  {
    var r := StripChars(s, chars);
    assert r != [] ==> LeadingChars(r, chars) == 0 && TrailingChars(r, chars) == 0;
    assert r[0..|r|] == r;
  }

  lemma SliceOfAppend<T>(s: seq<T>, x: seq<T>, a: nat, b: nat)
    requires a <= b <= |s|
    ensures (s + x)[a..b] == s[a..b]
  {
  }

  lemma SliceOfPrepend<T>(x: T, s: seq<T>, a: nat, b: nat)
    requires a <= b <= |s|
    ensures ([x] + s)[a + 1..b + 1] == s[a..b]
  {
  }

  /** A stripped character added in front does not change the result. */
  lemma StripIgnoresLeading(s: string, chars: set<char>, c: char)
    requires c in chars
    ensures StripChars([c] + s, chars) == StripChars(s, chars)
  {
    var cs := [c] + s;
    assert cs[1..] == s;
    var a := LeadingChars(s, chars);
    assert LeadingChars(cs, chars) == a + 1;
    if a < |s| {
      var n := TrailingChars(s, chars);
      assert cs[|cs| - n - 1] == s[|s| - n - 1];
      TrailingCharsUnique(cs, chars, n);
      SliceOfPrepend(c, s, a, |s| - n);
    }
  }

  /** A stripped character added at the end does not change the result. */
  lemma StripIgnoresTrailing(s: string, chars: set<char>, c: char)
    requires c in chars
    ensures StripChars(s + [c], chars) == StripChars(s, chars)
  {
    var sc := s + [c];
    assert sc[..|s|] == s;
    var n := TrailingChars(s, chars);
    assert TrailingChars(sc, chars) == n + 1;
    var a := LeadingChars(s, chars);
    if a < |s| {
      LeadingCharsUnique(sc, chars, a);
      SliceOfAppend(s, [c], a, |s| - n);
    } else {
      LeadingCharsUnique(sc, chars, |sc|);
    }
  }

  // ---------------------------------------------------------------------------
  // Requests, responses and outcomes
  // ---------------------------------------------------------------------------

  /** The request body: the certificate name. */
  datatype WebhookPayload = WebhookPayload(name: string)

  /** An `HTTPException`: status code and detail text. */
  datatype HttpError = HttpError(statusCode: int, detail: string)

  const NotInitialisedDetail := "应用配置未初始化"
  const EmptyKeyDetail := "key不能为空"
  const AcceptedMessage := "SSL证书同步任务已启动"
  const AcceptedStatus := "accepted"

  function NoRuleDetail(key: string): string
  {
    "未找到playbook配置: " + key
  }

  function NoGroupsDetail(key: string): string
  {
    "key " + key + " 没有配置服务器组"
  }

  /** The two 404 answers are told apart by their detail. */
  lemma NotFoundDetailsDiffer(key: string)
    ensures NoRuleDetail(key) != NoGroupsDetail(key)
  {
    assert NoRuleDetail(key)[0] != NoGroupsDetail(key)[0];
  }

  /** The JSON object returned on acceptance. */
  datatype AcceptedBody = AcceptedBody(status: string, key: string, serverGroups: seq<string>, playbookFile: string, message: string)

  /** The arguments of the scheduled `sync_ssl_certificate_task`. */
  datatype SyncTask = SyncTask(key: string, rule: PlaybookMapping, groups: Dict<string, ServerGroup>)

  /** What one webhook call does: accept and schedule one task, or raise. */
  datatype Outcome = Accepted(body: AcceptedBody, task: SyncTask) | Rejected(error: HttpError)

  /**
   * The handler's decision once the configuration and the syncer are known
   * to be present. The remaining guards run in order: a non-empty key (400),
   * a rule for the key (404), at least one known group for it (404); only
   * then is the call accepted.
   */
  function DecideForKey(cfg: AppConfig, key: string): (o: Outcome)
    reads cfg
    ensures !(o.Rejected? && o.error.statusCode == 503)
    ensures (o.Rejected? && o.error.statusCode == 400) <==> key == []
    ensures key != [] ==>
      ((o.Rejected? && o.error.statusCode == 404) <==> (cfg.FindPlaybookConfig(key).None? || cfg.GetServersForKey(key) == []))
    ensures o.Accepted? <==> key != [] && cfg.FindPlaybookConfig(key).Some? && cfg.GetServersForKey(key) != []
    ensures key == [] ==> o == Rejected(HttpError(400, EmptyKeyDetail))
    ensures key != [] && cfg.FindPlaybookConfig(key).None? ==> o == Rejected(HttpError(404, NoRuleDetail(key)))
    ensures key != [] && cfg.FindPlaybookConfig(key).Some? && cfg.GetServersForKey(key) == [] ==>
      o == Rejected(HttpError(404, NoGroupsDetail(key)))
    ensures o.Accepted? ==> o.task.key == o.body.key == key
    ensures o.Accepted? ==> o.task.rule == cfg.FindPlaybookConfig(key).value && o.task.groups == cfg.GetServersForKey(key)
    ensures o.Accepted? ==> o.body.serverGroups == Keys(o.task.groups) && o.body.playbookFile == o.task.rule.playbookFile
    ensures o.Accepted? ==> o.body.status == AcceptedStatus && o.body.message == AcceptedMessage
  {
    if key == [] then Rejected(HttpError(400, EmptyKeyDetail))
    else
      match cfg.FindPlaybookConfig(key)
      case None => Rejected(HttpError(404, NoRuleDetail(key)))
      case Some(rule) =>
        var groups := cfg.GetServersForKey(key);
        if groups == [] then Rejected(HttpError(404, NoGroupsDetail(key)))
        else Accepted(AcceptedBody(AcceptedStatus, key, Keys(groups), rule.playbookFile, AcceptedMessage), SyncTask(key, rule, groups))
  }

  /**
   * The handler's decision: 503 exactly when the configuration or the syncer
   * is missing, which is checked before the payload is looked at; otherwise
   * the decision for the stripped name.
   */
  function Decide(cfg: AppConfig?, syncer: SslSyncer?, payload: WebhookPayload): (o: Outcome)
    reads cfg
    ensures (o.Rejected? && o.error.statusCode == 503) <==> cfg == null || syncer == null
    ensures cfg == null || syncer == null ==> o == Rejected(HttpError(503, NotInitialisedDetail))
    ensures cfg != null && syncer != null ==> o == DecideForKey(cfg, Strip(payload.name))
  {
    if cfg == null || syncer == null then Rejected(HttpError(503, NotInitialisedDetail))
    else DecideForKey(cfg, Strip(payload.name))
  }

  /** An uninitialised service answers 503 whatever the payload. */
  lemma UninitialisedIgnoresPayload(cfg: AppConfig?, syncer: SslSyncer?, p1: WebhookPayload, p2: WebhookPayload)
    requires cfg == null || syncer == null
    ensures Decide(cfg, syncer, p1) == Decide(cfg, syncer, p2) == Rejected(HttpError(503, NotInitialisedDetail))
  {
  }

  /** Whitespace around the name does not change the outcome. */
  lemma SurroundingSpaceIgnored(cfg: AppConfig?, syncer: SslSyncer?, name: string, c: char)
    requires c in Whitespace
    ensures Decide(cfg, syncer, WebhookPayload([c] + name)) == Decide(cfg, syncer, WebhookPayload(name))
    ensures Decide(cfg, syncer, WebhookPayload(name + [c])) == Decide(cfg, syncer, WebhookPayload(name))
  {
    StripIgnoresLeading(name, Whitespace, c);
    StripIgnoresTrailing(name, Whitespace, c);
  }

  /**
   * An accepted call names the first rule for its key and that rule's
   * known groups, each once, in the rule's order, as the registry has them.
   */
  lemma AcceptedTaskResolvesRule(cfg: AppConfig, syncer: SslSyncer, payload: WebhookPayload)
    requires Decide(cfg, syncer, payload).Accepted?
    ensures var o := Decide(cfg, syncer, payload);
      && o.body.key != [] && o.body.key[0] !in Whitespace && o.body.key[|o.body.key| - 1] !in Whitespace
      && o.task.rule.key == o.body.key
      && (exists i :: (0 <= i < |cfg.playbookMappings| && cfg.playbookMappings[i] == o.task.rule
          && (forall j :: 0 <= j < i ==> cfg.playbookMappings[j].key != o.body.key)))
      && o.task.groups != []
      && ResolvedFrom(o.task.rule.serverGroups, cfg.serverGroups, o.task.groups)
  {
  }

  /** The groups listed in an accepted response are distinct, known, and named by the rule. */
  lemma AcceptedGroupsAreKnown(cfg: AppConfig, syncer: SslSyncer, payload: WebhookPayload)
    requires Decide(cfg, syncer, payload).Accepted?
    ensures var o := Decide(cfg, syncer, payload);
      && (forall i, j :: 0 <= i < j < |o.body.serverGroups| ==> o.body.serverGroups[i] != o.body.serverGroups[j])
      && (forall i :: 0 <= i < |o.body.serverGroups| ==>
            o.body.serverGroups[i] in cfg.serverGroups && o.body.serverGroups[i] in o.task.rule.serverGroups)
      && (forall n :: n in o.task.rule.serverGroups && n in cfg.serverGroups ==> n in o.body.serverGroups)
  {
    var o := Decide(cfg, syncer, payload);
    AcceptedTaskResolvesRule(cfg, syncer, payload);
    forall i | 0 <= i < |o.body.serverGroups|
      ensures o.body.serverGroups[i] in cfg.serverGroups && o.body.serverGroups[i] in o.task.rule.serverGroups
    {
      assert o.body.serverGroups[i] == o.task.groups[i].0;
    }
  }

  // ---------------------------------------------------------------------------
  // The handler
  // ---------------------------------------------------------------------------

  /** FastAPI's `BackgroundTasks`: the queue of tasks to run after the response. */
  class BackgroundTasks {
    var tasks: seq<SyncTask>

    constructor ()
      ensures tasks == []
    {
      tasks := [];
    }

    method AddTask(task: SyncTask)
      modifies this
      ensures tasks == old(tasks) + [task]
    {
      tasks := tasks + [task];
    }
  }

  /**
   * `ssl_update_webhook_handler`: answers as `Decide` does, and schedules
   * exactly one task, the accepted one, or none.
   */
  method SslUpdateWebhookHandler(cfg: AppConfig?, syncer: SslSyncer?, payload: WebhookPayload, background: BackgroundTasks)
    returns (response: Result<AcceptedBody, HttpError>)
    modifies background
    ensures var o := Decide(cfg, syncer, payload);
      match o
      case Accepted(body, task) => response == Success(body) && background.tasks == old(background.tasks) + [task]
      case Rejected(error) => response == Failure(error) && background.tasks == old(background.tasks)
  {
    if cfg == null || syncer == null {
      return Failure(HttpError(503, NotInitialisedDetail));
    }
    var key := Strip(payload.name);
    if key == [] {
      return Failure(HttpError(400, EmptyKeyDetail));
    }
    var playbookConfig := cfg.FindPlaybookConfig(key);
    if playbookConfig.None? {
      return Failure(HttpError(404, NoRuleDetail(key)));
    }
    var serverGroups := cfg.GetServersForKey(key);
    if serverGroups == [] {
      return Failure(HttpError(404, NoGroupsDetail(key)));
    }
    var task := SyncTask(key, playbookConfig.value, serverGroups);
    background.AddTask(task);
    response := Success(AcceptedBody(AcceptedStatus, key, Keys(serverGroups), playbookConfig.value.playbookFile, AcceptedMessage));
  }
}
