/**
 * The read-only queries of app.py over the two tables: the lookups the route
 * handlers start with, the recent-logs query of webhook_details and the
 * listing of api_webhooks.
 */
module Queries {
  import opened Tables

  /** `Webhook.query.filter_by(name=name, is_active=True).first()`, as a row index. */
  function FindActiveByName(ws: seq<Webhook>, name: string): (r: Option<nat>)
    ensures r.None? <==> forall i :: 0 <= i < |ws| ==> !(ws[i].name == name && ws[i].isActive)
    ensures r.Some? ==> r.value < |ws| && ws[r.value].name == name && ws[r.value].isActive
                        && forall j :: 0 <= j < r.value ==> !(ws[j].name == name && ws[j].isActive)
  {
    if ws == [] then None
    else if ws[0].name == name && ws[0].isActive then Some(0)
    else
      match FindActiveByName(ws[1..], name)
      case None => None
      case Some(k) => Some(k + 1)
  }

  /** `Webhook.query.get(id)` (None is get_or_404's 404), as a row index. */
  function FindById(ws: seq<Webhook>, id: nat): (r: Option<nat>)
    ensures r.None? <==> id !in WebhookIds(ws)
    ensures r.Some? ==> r.value < |ws| && ws[r.value].id == id
  {
    if ws == [] then None
    else if ws[0].id == id then Some(0)
    else
      assert forall w :: w in ws ==> w == ws[0] || w in ws[1..];
      match FindById(ws[1..], id)
      case None => None
      case Some(k) => Some(k + 1)
  }

  /**
   * `Webhook.query.filter_by(name=name).first()` is not None: whether a
   * webhook with this name exists, active or not.
   */
  predicate NameTaken(ws: seq<Webhook>, name: string): (taken: bool)
    ensures taken <==> exists w :: w in ws && w.name == name
  {
    ws != [] && (ws[0].name == name || NameTaken(ws[1..], name))
  }

  /** Whether a row already holds this token, which the unique constraint on `token` refuses. */
  predicate TokenTaken(ws: seq<Webhook>, token: string): (taken: bool)
    ensures taken <==> exists w :: w in ws && w.token == token
  {
    ws != [] && (ws[0].token == token || TokenTaken(ws[1..], token))
  }

  function BelongsTo(webhookId: nat): WebhookLog -> bool {
    (l: WebhookLog) => l.webhookId == webhookId
  }

  function NotOf(webhookId: nat): WebhookLog -> bool {
    (l: WebhookLog) => l.webhookId != webhookId
  }

  function IdIsNot(id: nat): Webhook -> bool {
    (w: Webhook) => w.id != id
  }

  /** `WebhookLog.query.filter_by(webhook_id=webhookId)`. */
  function LogsOf(ls: seq<WebhookLog>, webhookId: nat): (r: seq<WebhookLog>)
    ensures forall l :: l in r <==> l in ls && l.webhookId == webhookId
    ensures forall l :: multiset(r)[l] == if l.webhookId == webhookId then multiset(ls)[l] else 0
  {
    Filter(ls, BelongsTo(webhookId))
  }

  /** Newest first: timestamps never increase along the sequence. */
  ghost predicate NewestFirst(ls: seq<WebhookLog>) {
    forall i, j :: 0 <= i < j < |ls| ==> ls[i].timestamp >= ls[j].timestamp
  }

  lemma NewestFirstTail(ls: seq<WebhookLog>)
    requires ls != [] && NewestFirst(ls)
    ensures NewestFirst(ls[1..])
    ensures forall y :: y in ls[1..] ==> y.timestamp <= ls[0].timestamp
  {
    forall i, j | 0 <= i < j < |ls| - 1 ensures ls[1..][i].timestamp >= ls[1..][j].timestamp {
      assert ls[1..][i] == ls[i + 1] && ls[1..][j] == ls[j + 1];
    }
  }

  lemma NewestFirstCons(h: WebhookLog, ls: seq<WebhookLog>)
    requires NewestFirst(ls)
    requires forall y :: y in ls ==> y.timestamp <= h.timestamp
    ensures NewestFirst([h] + ls)
  {
    var r := [h] + ls;
    forall i, j | 0 <= i < j < |r| ensures r[i].timestamp >= r[j].timestamp {
      assert r[j] == ls[j - 1];
      if i == 0 {
        assert ls[j - 1] in ls;
      } else {
        assert r[i] == ls[i - 1];
      }
    }
  }

  /** Puts `x` after every entry at least as new as it. */
  function Insert(x: WebhookLog, ls: seq<WebhookLog>): (r: seq<WebhookLog>)
    requires NewestFirst(ls)
    ensures NewestFirst(r)
    ensures multiset(r) == multiset(ls) + multiset{x}
    ensures forall y :: y in r ==> y == x || y in ls
  {
    if ls == [] || ls[0].timestamp < x.timestamp then
      InsertFirst(x, ls);
      [x] + ls
    else
      NewestFirstTail(ls);
      var rest := Insert(x, ls[1..]);
      InsertLater(x, ls, rest);
      [ls[0]] + rest
  }

  lemma InsertFirst(x: WebhookLog, ls: seq<WebhookLog>)
    requires NewestFirst(ls)
    requires ls == [] || ls[0].timestamp < x.timestamp
    ensures NewestFirst([x] + ls)
  {
    if ls != [] {
      NewestFirstTail(ls);
    }
    NewestFirstCons(x, ls);
  }

  lemma InsertLater(x: WebhookLog, ls: seq<WebhookLog>, rest: seq<WebhookLog>)
    requires ls != [] && NewestFirst(ls) && x.timestamp <= ls[0].timestamp
    requires NewestFirst(rest)
    requires multiset(rest) == multiset(ls[1..]) + multiset{x}
    requires forall y :: y in rest ==> y == x || y in ls[1..]
    ensures NewestFirst([ls[0]] + rest)
    ensures multiset([ls[0]] + rest) == multiset(ls) + multiset{x}
    ensures forall y :: y in [ls[0]] + rest ==> y == x || y in ls
  {
    NewestFirstTail(ls);
    NewestFirstCons(ls[0], rest);
    assert ls == [ls[0]] + ls[1..];
  }

  /**
   * `order_by(WebhookLog.timestamp.desc())`. The database leaves the order of
   * equal timestamps open; this sort puts the later-inserted entry first.
   */
  function SortNewestFirst(ls: seq<WebhookLog>): (r: seq<WebhookLog>)
    ensures NewestFirst(r)
    ensures multiset(r) == multiset(ls)
  {
    if ls == [] then []
    else
      assert ls == [ls[0]] + ls[1..];
      Insert(ls[0], SortNewestFirst(ls[1..]))
  }

  /** `.limit(50)` of webhook_details. */
  const RecentLimit: nat := 50

  function Min(a: nat, b: nat): nat { if a <= b then a else b }

  lemma NewestFirstPrefix(ls: seq<WebhookLog>, k: nat)
    requires k <= |ls| && NewestFirst(ls)
    ensures NewestFirst(ls[..k])
  {
    forall i, j | 0 <= i < j < k ensures ls[..k][i].timestamp >= ls[..k][j].timestamp {
      assert ls[..k][i] == ls[i] && ls[..k][j] == ls[j];
    }
  }

  /** The entries of a webhook's sorted logs are that webhook's logs. */
  lemma SortedLogsOf(ls: seq<WebhookLog>, webhookId: nat)
    ensures forall l :: l in SortNewestFirst(LogsOf(ls, webhookId)) <==> l in ls && l.webhookId == webhookId
  {
    var own := LogsOf(ls, webhookId);
    var sorted := SortNewestFirst(own);
    forall l ensures l in sorted <==> l in ls && l.webhookId == webhookId {
      calc {
        l in sorted;
        l in multiset(sorted);
        l in multiset(own);
        l in own;
        l in ls && BelongsTo(webhookId)(l);
      }
    }
  }

  /**
   * The logs webhook_details shows: the webhook's logs, newest first, at
   * most 50 of them.
   */
  function RecentLogs(ls: seq<WebhookLog>, webhookId: nat): (r: seq<WebhookLog>)
    ensures |r| == Min(RecentLimit, |LogsOf(ls, webhookId)|)
    ensures forall l :: l in r ==> l in ls && l.webhookId == webhookId
    ensures multiset(r) <= multiset(LogsOf(ls, webhookId))
    ensures NewestFirst(r)
  {
    var sorted := SortNewestFirst(LogsOf(ls, webhookId));
    var k := Min(RecentLimit, |sorted|);
    assert |sorted| == |LogsOf(ls, webhookId)| by {
      assert |multiset(sorted)| == |multiset(LogsOf(ls, webhookId))|;
    }
    SortedLogsOf(ls, webhookId);
    NewestFirstPrefix(sorted, k);
    assert forall l :: l in sorted[..k] ==> l in sorted;
    PrefixMultiset(sorted, k);
    sorted[..k]
  }

  lemma PrefixMultiset(s: seq<WebhookLog>, k: nat)
    requires k <= |s|
    ensures multiset(s[..k]) <= multiset(s)
  {
    assert s == s[..k] + s[k..];
  }

  /** In a newest-first sequence, whatever lies beyond a prefix is no newer than the prefix. */
  lemma PrefixIsNewest(sorted: seq<WebhookLog>, k: nat)
    requires k <= |sorted| && NewestFirst(sorted)
    ensures forall l, m :: l in sorted && l !in sorted[..k] && m in sorted[..k] ==> l.timestamp <= m.timestamp
  {
    forall l, m | l in sorted && l !in sorted[..k] && m in sorted[..k]
      ensures l.timestamp <= m.timestamp
    {
      var j :| 0 <= j < |sorted| && sorted[j] == l;
      var i :| 0 <= i < k && sorted[..k][i] == m;
      assert sorted[i] == m;
      assert k <= j by {
        assert forall t :: 0 <= t < k ==> sorted[..k][t] == sorted[t];
      }
    }
  }

  /**
   * The logs RecentLogs leaves out are no newer than any it shows, and when the
   * webhook has at most 50 logs none is left out.
   */
  lemma RecentLogsAreTheNewest(ls: seq<WebhookLog>, webhookId: nat)
    ensures forall l, m ::
              l in ls && l.webhookId == webhookId && l !in RecentLogs(ls, webhookId) && m in RecentLogs(ls, webhookId)
              ==> l.timestamp <= m.timestamp
    ensures |LogsOf(ls, webhookId)| <= RecentLimit ==>
              forall l :: l in ls && l.webhookId == webhookId ==> l in RecentLogs(ls, webhookId)
  {
    var sorted := SortNewestFirst(LogsOf(ls, webhookId));
    var r := RecentLogs(ls, webhookId);
    assert |sorted| == |LogsOf(ls, webhookId)| by {
      assert |multiset(sorted)| == |multiset(LogsOf(ls, webhookId))|;
    }
    assert r == sorted[..|r|];
    SortedLogsOf(ls, webhookId);
    PrefixIsNewest(sorted, |r|);
    if |LogsOf(ls, webhookId)| <= RecentLimit {
      assert r == sorted;
    }
  }

  /** One element of the JSON array api_webhooks returns (its `url` is not modelled). */
  datatype Listed = Listed(id: nat, name: string, createdAt: nat)

  function IsActive(w: Webhook): bool { w.isActive }

  function ListingOf(w: Webhook): Listed {
    Listed(w.id, w.name, w.createdAt)
  }

  /** `r` lists the rows `ws`, one entry per row, in the same order. */
  predicate Lists(r: seq<Listed>, ws: seq<Webhook>) {
    |r| == |ws| && forall i :: 0 <= i < |r| ==> r[i] == ListingOf(ws[i])
  }

  /** The list comprehension of api_webhooks: one entry per row, in order. */
  function ListAll(ws: seq<Webhook>): (r: seq<Listed>)
    ensures Lists(r, ws)
  {
    if ws == [] then []
    else
      var rest := ListAll(ws[1..]);
      assert forall i :: 1 <= i < |ws| ==> ws[i] == ws[1..][i - 1];
      [ListingOf(ws[0])] + rest
  }

  /** `api_webhooks`: the active webhooks, in table order, one entry each. */
  function ActiveListing(ws: seq<Webhook>): (r: seq<Listed>)
    ensures Lists(r, Filter(ws, IsActive))
  {
    ListAll(Filter(ws, IsActive))
  }

  /** Every active webhook is listed, and only active webhooks are. */
  lemma ActiveListingMembers(ws: seq<Webhook>)
    ensures forall w :: w in ws && w.isActive ==> ListingOf(w) in ActiveListing(ws)
    ensures forall e :: e in ActiveListing(ws) ==>
              exists w :: w in ws && w.isActive && e == ListingOf(w)
  {
    var r, f := ActiveListing(ws), Filter(ws, IsActive);
    forall w | w in ws && w.isActive ensures ListingOf(w) in r {
      assert IsActive(w);
      var i :| 0 <= i < |f| && f[i] == w;
      assert r[i] == ListingOf(w);
    }
    forall e | e in r ensures exists w :: w in ws && w.isActive && e == ListingOf(w) {
      var i :| 0 <= i < |r| && r[i] == e;
      assert f[i] in f;
    }
  }
}
