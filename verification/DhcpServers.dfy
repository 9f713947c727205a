/**
 Unexpected DHCP servers: one reply updates the server inventory, may be evidence about a client's address, and
 becomes a finding unless the server is approved or was reported a moment ago.

 The detector shares the cooldown table with every other sender of alerts and the evidence tables with `observe`.
 */
module DhcpServers {
  import opened Options
  import Throttle
  import Alerts
  import Evidence
  import Retention
  import EvidenceStore

  /** The text of an address, which never contains the separator of generation keys. */
  type Address = s: string | '#' !in s witness ""

  type ServerId = (string, Address)

  datatype Message = Offer | Ack | Nak

  /** One parsed server reply; `client` is absent when the hardware address is missing or malformed. */
  datatype Reply = Reply(iface: Option<string>, server: Address, message: Message, at: int,
                         offered: Option<string>, client: Option<Evidence.Mac>)

  datatype Config = Config(enabled: bool, approved: set<ServerId>, cooldown: int)

  datatype Server = Server(firstSeen: int, lastSeen: int, observations: nat, lastMessage: Message)

  datatype Finding = Finding(id: ServerId, at: int)

  function IdOf(reply: Reply): ServerId {
    (if reply.iface.Some? && reply.iface.value != "" then reply.iface.value else "(unknown interface)", reply.server)
  }

  function GenerationKey(id: ServerId): Throttle.Key {
    "dhcp-server-finding#" + id.0 + "#" + id.1
  }

  /** Two servers never share a cooldown, whatever their interfaces are called. */
  lemma GenerationKeysDiffer(a: ServerId, b: ServerId)
    requires GenerationKey(a) == GenerationKey(b)
    ensures a == b
  {
    var n := |"dhcp-server-finding#"|;
    var (s, t) := (a.0 + "#" + a.1, b.0 + "#" + b.1);
    assert GenerationKey(a) == "dhcp-server-finding#" + s && GenerationKey(b) == "dhcp-server-finding#" + t;
    assert s == GenerationKey(a)[n..] && t == GenerationKey(b)[n..];
    assert s[|a.0|] == '#' && t[|b.0|] == '#';
    if |a.0| < |b.0| {
      SeparatorInside(a.0, a.1, |b.0|);
    } else if |b.0| < |a.0| {
      SeparatorInside(b.0, b.1, |a.0|);
    }
    assert a.0 == s[..|a.0|] && b.0 == t[..|b.0|] && a.1 == s[|a.0| + 1..] && b.1 == t[|b.0| + 1..];
  }

  lemma SeparatorInside(a: string, p: string, k: int)
    requires |a| < k < |a + "#" + p| && (a + "#" + p)[k] == '#'
    ensures '#' in p
  {
    assert p[k - |a| - 1] == '#';
  }

  function AskFor(reply: Reply, cfg: Config): Throttle.Ask {
    Throttle.Ask(GenerationKey(IdOf(reply)), reply.at, Throttle.Medium, cfg.cooldown)
  }

  /** The lease that an ACK confirms for a client, if it confirms one. */
  predicate ConfirmsLease(reply: Reply) {
    reply.message == Ack && EvidenceStore.Truthy(reply.offered) && reply.client.Some?
  }

  function Noted(known: Option<Server>, reply: Reply): Server {
    if known.None? then Server(reply.at, reply.at, 1, reply.message)
    else Server(known.value.firstSeen, reply.at, known.value.observations + 1, reply.message)
  }

  type Inventory = map<ServerId, Server>

  /** The inventory after some replies, each of which is noted under its server. */
  function NotedAll(known: Inventory, replies: seq<Reply>): Inventory {
    if replies == [] then known
    else
      var (rest, last) := (NotedAll(known, replies[..|replies| - 1]), replies[|replies| - 1]);
      rest[IdOf(last) := Noted(if IdOf(last) in rest then Some(rest[IdOf(last)]) else None, last)]
  }

  /** The replies of one server, in order. */
  function RepliesOf(replies: seq<Reply>, id: ServerId): seq<Reply> {
    if replies == [] then []
    else
      var (rest, last) := (RepliesOf(replies[..|replies| - 1], id), replies[|replies| - 1]);
      if IdOf(last) == id then rest + [last] else rest
  }

  /** The inventory counts the replies of every server and knows the first and the last of them. */
  lemma {:induction false} InventoryCounts(known: Inventory, replies: seq<Reply>, id: ServerId)
    ensures var (after, own) := (NotedAll(known, replies), RepliesOf(replies, id));
      && (id in after <==> id in known || own != [])
      && (own == [] && id in known ==> after[id] == known[id])
      && (own != [] ==>
            && after[id].lastSeen == own[|own| - 1].at && after[id].lastMessage == own[|own| - 1].message
            && after[id].firstSeen == (if id in known then known[id].firstSeen else own[0].at)
            && after[id].observations == |own| + if id in known then known[id].observations else 0)
  {
    if replies == [] {
    } else {
      InventoryCounts(known, replies[..|replies| - 1], id);
    }
  }

  /** Replies are told apart by server and by interface; an unnamed interface is one, whether it is absent or empty. */
  lemma ServersAreToldApart(a: Reply, b: Reply)
    ensures var i := if a.iface == Some("") then None else a.iface;
      var j := if b.iface == Some("") then None else b.iface;
      (a.server == b.server && i == j ==> IdOf(a) == IdOf(b))
      && (IdOf(a) == IdOf(b) ==> a.server == b.server)
      && (IdOf(a) == IdOf(b) && i != j ==> Some("(unknown interface)") in {i, j})
  {}

  /** When findings about `id` were raised. */
  function Raised(findings: seq<Finding>, id: ServerId): seq<int> {
    if findings == [] then []
    else
      var (rest, last) := (Raised(findings[..|findings| - 1], id), findings[|findings| - 1]);
      if last.id == id then rest + [last.at] else rest
  }

  /**
   What the detector has raised, about any server, since it started on a cooldown table that may have been in use: one
   finding for each dispatch recorded since, where everybody else's asks are about other keys.
   */
  ghost predicate InStep(findings: seq<Finding>, asked: seq<Throttle.Ask>, start: nat, cfg: Config) {
    && start <= |asked|
    && forall id: ServerId :: InStepFor(findings, asked, start, cfg, id)
  }

  ghost predicate InStepFor(findings: seq<Finding>, asked: seq<Throttle.Ask>, start: nat, cfg: Config, id: ServerId)
    requires start <= |asked|
  {
    && Throttle.SteadySince(asked, start, GenerationKey(id), Throttle.Medium, cfg.cooldown)
    && (cfg.cooldown > 0 ==>
          Throttle.Times(Throttle.Recorded(asked, GenerationKey(id))) ==
          Throttle.Times(Throttle.Recorded(asked[..start], GenerationKey(id))) + Raised(findings, id))
  }

  predicate DueNow(asked: seq<Throttle.Ask>, ask: Throttle.Ask) {
    Throttle.Due(Throttle.Last(Throttle.Recorded(asked, ask.key)), ask)
  }

  class Detector {
    const cfg: Config
    const store: EvidenceStore.EvidenceStore
    const alerts: Alerts.AlertStore
    var servers: Inventory
    var findings: seq<Finding>

    /** What the inventory held when the detector started, and every reply noted since. */
    ghost const known: Inventory
    ghost var replies: seq<Reply>

    /** How much had been asked of the cooldown table when the detector started. */
    ghost const start: nat

    ghost predicate Valid()
      reads this, store, alerts
    {
      && store.Valid() && alerts.Valid() && InStep(findings, alerts.asked, start, cfg)
      && servers == NotedAll(known, replies)
    }

    constructor (cfg: Config, store: EvidenceStore.EvidenceStore, alerts: Alerts.AlertStore,
                 known: Inventory)
      requires store.Valid() && alerts.Valid()
      ensures Valid() && this.cfg == cfg && this.store == store && this.alerts == alerts
      ensures servers == this.known == known && replies == [] && findings == [] && start == |alerts.asked|
    {
      this.cfg, this.store, this.alerts := cfg, store, alerts;
      this.start := |alerts.asked|;
      this.known, servers, replies, findings := known, known, [], [];
      new;
      assert alerts.asked[..start] == alerts.asked;
    }

    /** A usable confirmed address is recorded as evidence for its client, and nothing else is. */
    ghost predicate LeaseNoted(reply: Reply, before: Evidence.Table, after: Evidence.Table)
      reads this
    {
      if ConfirmsLease(reply) && store.texts.usable(reply.offered.value) then
        var key := Evidence.Key(reply.client.value, reply.offered.value, IdOf(reply).0, Evidence.DhcpAck, "");
        Retention.Trimmed(Evidence.Put(before, key, key.id, reply.at), after, key.mac, store.cap)
      else after == before
    }

    /**
     The inventory always learns of the reply and an ACK always counts as hearsay about its client; a finding is
     raised exactly when the reply is unexpected and its server's cooldown has passed.
     */
    method ProcessSighting(reply: Reply) returns (finding: Option<Finding>)
      requires Valid()
      modifies this, store, alerts
      ensures Valid()
      ensures replies == old(replies) + [reply]
      ensures LeaseNoted(reply, old(store.addresses), store.addresses)
      ensures reply.message != Ack || reply.client.None? || reply.offered in {None, Some("")} ==>
                store.addresses == old(store.addresses)
      ensures store.devices.Keys == old(store.devices).Keys
      ensures alerts.asked == old(alerts.asked) +
                if cfg.enabled && IdOf(reply) !in cfg.approved then [AskFor(reply, cfg)] else []
      ensures finding.Some? ==
                (cfg.enabled && IdOf(reply) !in cfg.approved && DueNow(old(alerts.asked), AskFor(reply, cfg)))
      ensures finding.Some? ==> finding.value == Finding(IdOf(reply), reply.at)
      ensures findings == old(findings) + if finding.Some? then [finding.value] else []
    {
      NoteReply(reply);
      finding := None;
      if !cfg.enabled || IdOf(reply) in cfg.approved { return; }
      finding := Raise(reply);
    }

    method NoteReply(reply: Reply)
      requires store.Valid() && servers == NotedAll(known, replies)
      modifies this`servers, this`replies, store
      ensures servers == NotedAll(known, replies) && replies == old(replies) + [reply]
      ensures store.Valid() && store.devices.Keys == old(store.devices).Keys
      ensures LeaseNoted(reply, old(store.addresses), store.addresses)
    {
      hide Retention.Trimmed, Evidence.Put;
      var id := IdOf(reply);
      servers := servers[id := Noted(if id in servers then Some(servers[id]) else None, reply)];
      assert (replies + [reply])[..|replies|] == replies;
      replies := replies + [reply];
      if ConfirmsLease(reply) {
        store.AcknowledgeLease(reply.client.value, reply.offered.value, id.0, reply.at);
      }
    }

    method Raise(reply: Reply) returns (finding: Option<Finding>)
      requires alerts.Valid() && InStep(findings, alerts.asked, start, cfg)
      modifies this`findings, alerts
      ensures alerts.Valid() && InStep(findings, alerts.asked, start, cfg)
      ensures alerts.asked == old(alerts.asked) + [AskFor(reply, cfg)]
      ensures finding ==
                if DueNow(old(alerts.asked), AskFor(reply, cfg)) then Some(Finding(IdOf(reply), reply.at)) else None
      ensures findings == old(findings) + if finding.Some? then [finding.value] else []
    {
      hide InStep, GenerationKey, Throttle.Recorded;
      ghost var before := alerts.asked;
      var due := alerts.DueForAlert(AskFor(reply, cfg));
      finding := None;
      StillInStep(findings, before, start, reply, cfg, due);
      if due {
        finding := Some(Finding(IdOf(reply), reply.at));
        findings := findings + [finding.value];
      } else {
        assert findings + [] == findings;
      }
    }

    /** The batch filter on the same cooldown table, as the monitor calls it for its other findings. */
    method FilterOthers(others: seq<Alerts.Finding>, now: int) returns (passed: seq<Alerts.Finding>)
      requires Valid() && forall f :: f in others ==> Alerts.WellFormed(f)
      modifies alerts
      ensures Valid()
      ensures alerts.asked == old(alerts.asked) + Alerts.AsksFor(Alerts.BySeverity(others), now, alerts.cfg)
    {
      hide InStep, Alerts.BySeverity, Alerts.Filtered, Alerts.AsksFor;
      ghost var before := alerts.asked;
      passed := alerts.FilterRateLimited(others, now);
      Alerts.BySeverityPermutes(others);
      OthersLeaveItInStep(findings, before, start, cfg, Alerts.BySeverity(others), now, alerts.cfg);
    }
  }

  // ---- sharing the cooldown table ------------------------------------------------------------

  /** No finding that goes through the batch filter shares a cooldown key with the generation of DHCP findings. */
  lemma LanesAreDisjoint(f: Alerts.Finding, id: ServerId)
    requires Alerts.WellFormed(f)
    ensures Alerts.CooldownKey(f) != GenerationKey(id)
  {
    var key := Alerts.CooldownKey(f);
    assert GenerationKey(id)[0] == 'd' && GenerationKey(id)[2] == 'c';
    if f.kind == Alerts.Availability {
      assert key[2] == ':';
    } else if f.kind == Alerts.NetworkService {
      assert key[0] == 'n';
    } else if f.lane.Some? {
      assert key[0] == "change#"[0] == 'c';
    } else {
      assert key == f.mac;
    }
  }

  lemma {:induction false} OtherAsksAreNotRecorded(asked: seq<Throttle.Ask>, more: seq<Throttle.Ask>, key: Throttle.Key)
    requires forall a :: a in more ==> a.key != key
    ensures Throttle.Recorded(asked + more, key) == Throttle.Recorded(asked, key)
  {
    if more == [] {
      assert asked + more == asked;
    } else {
      var n := |more| - 1;
      assert asked + more == asked + more[..n] + [more[n]];
      assert more[n] in more;
      OtherAsksAreNotRecorded(asked, more[..n], key);
      Throttle.RecordedAppend(asked + more[..n], more[n], key);
    }
  }

  /** Whatever the batch filter is given, the detector's own accounts are not touched. */
  lemma OthersLeaveItInStep(findings: seq<Finding>, asked: seq<Throttle.Ask>, start: nat, cfg: Config,
                            others: seq<Alerts.Finding>, now: int, limits: Alerts.Config)
    requires InStep(findings, asked, start, cfg) && forall f :: f in others ==> Alerts.WellFormed(f)
    ensures InStep(findings, asked + Alerts.AsksFor(others, now, limits), start, cfg)
  {
    var more := Alerts.AsksFor(others, now, limits);
    var after := asked + more;
    assert after[..start] == asked[..start] && after[start..] == asked[start..] + more;
    forall id: ServerId ensures InStepFor(findings, after, start, cfg, id) {
      assert InStepFor(findings, asked, start, cfg, id);
      forall a | a in more ensures a.key != GenerationKey(id) {
        var i :| 0 <= i < |others| && more[i] == a;
        LanesAreDisjoint(others[i], id);
      }
      OtherAsksAreNotRecorded(asked, more, GenerationKey(id));
    }
  }

  lemma StillInStep(findings: seq<Finding>, asked: seq<Throttle.Ask>, start: nat, reply: Reply, cfg: Config, due: bool)
    requires InStep(findings, asked, start, cfg) && due == DueNow(asked, AskFor(reply, cfg))
    ensures InStep(findings + if due then [Finding(IdOf(reply), reply.at)] else [],
                   asked + [AskFor(reply, cfg)], start, cfg)
  {
    hide InStepFor;
    var after := findings + if due then [Finding(IdOf(reply), reply.at)] else [];
    var later := asked + [AskFor(reply, cfg)];
    forall id: ServerId ensures InStepFor(after, later, start, cfg, id) {
      StillInStepFor(findings, asked, start, reply, cfg, due, id);
    }
  }

  lemma StillInStepFor(findings: seq<Finding>, asked: seq<Throttle.Ask>, start: nat, reply: Reply, cfg: Config,
                       due: bool, id: ServerId)
    requires start <= |asked| && InStepFor(findings, asked, start, cfg, id)
    requires due == DueNow(asked, AskFor(reply, cfg))
    ensures InStepFor(findings + if due then [Finding(IdOf(reply), reply.at)] else [],
                      asked + [AskFor(reply, cfg)], start, cfg, id)
  {
    hide GenerationKey, Throttle.Recorded, Throttle.SteadySince, Throttle.Times, Raised, DueNow;
    var (ask, key) := (AskFor(reply, cfg), GenerationKey(id));
    assert (asked + [ask])[..start] == asked[..start];
    StillSteady(asked, start, key, ask, cfg.cooldown);
    RaisedOneMore(findings, reply, id);
    if cfg.cooldown > 0 { RecordedOneMore(asked, ask, key); }
    if key == ask.key { GenerationKeysDiffer(id, IdOf(reply)); }
    hide AskFor;
    assert forall x: seq<int> :: x + [] == x;
    assert findings + [] == findings;
    var first := Throttle.Times(Throttle.Recorded(asked[..start], key));
    assert first + (Raised(findings, id) + [reply.at]) == first + Raised(findings, id) + [reply.at];
  }

  lemma StillSteady(asked: seq<Throttle.Ask>, start: nat, key: Throttle.Key, ask: Throttle.Ask, cooldown: int)
    requires start <= |asked| && Throttle.SteadySince(asked, start, key, Throttle.Medium, cooldown)
    requires ask.severity == Throttle.Medium && ask.cooldown == cooldown
    ensures Throttle.SteadySince(asked + [ask], start, key, Throttle.Medium, cooldown)
  {
    assert (asked + [ask])[start..] == asked[start..] + [ask];
  }

  lemma RaisedOneMore(findings: seq<Finding>, reply: Reply, id: ServerId)
    ensures Raised(findings + [Finding(IdOf(reply), reply.at)], id)
         == Raised(findings, id) + if IdOf(reply) == id then [reply.at] else []
  {
    assert (findings + [Finding(IdOf(reply), reply.at)])[..|findings|] == findings;
  }

  lemma RecordedOneMore(asked: seq<Throttle.Ask>, ask: Throttle.Ask, key: Throttle.Key)
    requires ask.cooldown > 0
    ensures Throttle.Times(Throttle.Recorded(asked + [ask], key)) == Throttle.Times(Throttle.Recorded(asked, key)) +
      if ask.key == key && DueNow(asked, ask) then [ask.at] else []
  {
    hide Throttle.Recorded;
    var r := Throttle.Recorded(asked, key);
    Throttle.RecordedAppend(asked, ask, key);
    assert (r + [ask])[..|r|] == r;
  }

  /** Over any run, with other senders in between, two findings about one server are at least the cooldown apart. */
  lemma FindingsAreSpacedOut(findings: seq<Finding>, asked: seq<Throttle.Ask>, start: nat, cfg: Config, id: ServerId,
                             j: nat, k: nat)
    requires cfg.cooldown > 0 && InStep(findings, asked, start, cfg)
    requires j < k < |Raised(findings, id)|
    ensures Raised(findings, id)[k] - Raised(findings, id)[j] >= cfg.cooldown
  {
    hide GenerationKey, Throttle.Recorded, Throttle.Times, Raised;
    var key := GenerationKey(id);
    assert InStepFor(findings, asked, start, cfg, id);
    TimesAt(Throttle.Recorded(asked, key));
    TimesAt(Throttle.Recorded(asked[..start], key));
    Throttle.SteadySeverityIsSpacedOut(asked, start, key, Throttle.Medium, cfg.cooldown);
    var (all, n) := (Throttle.Recorded(asked, key), |Throttle.Recorded(asked[..start], key)|);
    assert Throttle.Times(all)[n + k] == Raised(findings, id)[k];
    assert Throttle.Times(all)[n + j] == Raised(findings, id)[j];
    assert all[n + k].at - all[n + j].at >= cfg.cooldown;
  }

  lemma {:induction false} TimesAt(r: seq<Throttle.Ask>)
    ensures |Throttle.Times(r)| == |r| && forall k :: 0 <= k < |r| ==> Throttle.Times(r)[k] == r[k].at
  {
    if r == [] {
    } else {
      TimesAt(r[..|r| - 1]);
    }
  }

  /**
   On a clock that does not run back, and on a table that had not been asked about the server before, a finding is
   raised exactly if none was raised about it within the cooldown.
   */
  lemma RaisedExactlyWhen(findings: seq<Finding>, asked: seq<Throttle.Ask>, start: nat, cfg: Config, reply: Reply)
    requires cfg.cooldown > 0 && InStep(findings, asked, start, cfg)
    requires forall a :: a in asked[..start] ==> a.key != GenerationKey(IdOf(reply))
    requires forall a :: a in asked && a.key == GenerationKey(IdOf(reply)) ==> a.cooldown == cfg.cooldown
    requires Throttle.KeyAdvances(asked + [AskFor(reply, cfg)], GenerationKey(IdOf(reply)))
    ensures DueNow(asked, AskFor(reply, cfg)) <==>
            var raised := Raised(findings, IdOf(reply));
            forall k :: 0 <= k < |raised| ==> reply.at - raised[k] >= cfg.cooldown
  {
    hide GenerationKey, Throttle.Recorded, Raised, InStep, InStepFor, Throttle.Due;
    var ask := AskFor(reply, cfg);
    Throttle.ClockBefore(asked, ask);
    RecordedIsRaised(findings, asked, start, cfg, IdOf(reply));
    Throttle.DueExactlyWhenItEscalates(asked, ask);
  }

  lemma RecordedIsRaised(findings: seq<Finding>, asked: seq<Throttle.Ask>, start: nat, cfg: Config, id: ServerId)
    requires cfg.cooldown > 0 && InStep(findings, asked, start, cfg) && Throttle.KeyAdvances(asked, GenerationKey(id))
    requires forall a :: a in asked[..start] ==> a.key != GenerationKey(id)
    ensures var (all, raised) := (Throttle.Recorded(asked, GenerationKey(id)), Raised(findings, id));
      && |all| == |raised|
      && forall k :: 0 <= k < |all| ==> all[k].at == raised[k] && all[k].severity == Throttle.Medium
  {
    hide GenerationKey, Throttle.Recorded, Throttle.Times, Raised, InStep;
    var (key, raised) := (GenerationKey(id), Raised(findings, id));
    assert InStepFor(findings, asked, start, cfg, id) by { StaysInStep(findings, asked, start, cfg, id); }
    NothingRecorded(asked[..start], key);
    assert [] + raised == raised;
    TimesAt(Throttle.Recorded(asked, key));
    Throttle.RecordedInOrder(asked, key);
    assert asked == asked[..start] + asked[start..];
  }

  lemma StaysInStep(findings: seq<Finding>, asked: seq<Throttle.Ask>, start: nat, cfg: Config, id: ServerId)
    requires InStep(findings, asked, start, cfg)
    ensures start <= |asked| && InStepFor(findings, asked, start, cfg, id)
  {}

  lemma {:induction false} NothingRecorded(asked: seq<Throttle.Ask>, key: Throttle.Key)
    requires forall a :: a in asked ==> a.key != key
    ensures Throttle.Times(Throttle.Recorded(asked, key)) == []
  {
    OtherAsksAreNotRecorded([], asked, key);
    assert [] + asked == asked;
  }
}
