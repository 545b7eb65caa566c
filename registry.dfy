/**
 * The webhook registry of app.py: the two tables as one store and the route
 * handlers that change them (create_webhook, receive_webhook, toggle_webhook,
 * delete_webhook), with Flask and the database session taken away. Each
 * handler's `commit` either succeeds or, when `commitFails` holds, is rolled
 * back and leaves the store as it was.
 */
module Registry {
  import opened Text
  import opened Tokens
  import opened Tables
  import opened Queries
  import opened Ingestion

  /** What create_webhook reports (its flash messages). */
  datatype CreateOutcome =
    | EmptyName       // the name is empty after stripping
    | DuplicateName   // a webhook, active or not, already has the name
    | CreateFailed    // the commit raised (a storage error or a token already in use)
    | Created(id: nat)

  /** What toggle_webhook reports; `Toggled` carries the new flag. */
  datatype ToggleOutcome = ToggleNotFound | Toggled(isActive: bool) | ToggleFailed

  /** What delete_webhook reports. */
  datatype DeleteOutcome = DeleteNotFound | Deleted | DeleteFailed

  /** What webhook_details renders: the webhook and its recent logs, or a 404. */
  datatype DetailsView = DetailsNotFound | Found(webhook: Webhook, recent: seq<WebhookLog>)

  /** What create_webhook guarantees of every row it inserts. */
  predicate WellFormed(w: Webhook) {
    w.id >= 1 && w.name != [] && Strip(w.name) == w.name && IsToken(w.token, DefaultLength)
  }

  /**
   * The table constraints (unique id, name and token; unique log id; every
   * log's webhook_id refers to a webhook) and what create_webhook ensures of
   * each row.
   */
  ghost predicate TablesValid(ws: seq<Webhook>, ls: seq<WebhookLog>): (valid: bool)
    ensures valid ==> forall i, j :: 0 <= i < |ws| && 0 <= j < |ws| && ws[i].id == ws[j].id ==> i == j
    ensures valid ==> forall i, j :: 0 <= i < |ws| && 0 <= j < |ws| && ws[i].name == ws[j].name ==> i == j
    ensures valid ==> forall i, j :: 0 <= i < |ws| && 0 <= j < |ws| && ws[i].token == ws[j].token ==> i == j
    ensures valid ==> forall l :: l in ls ==> FindById(ws, l.webhookId).Some?
  {
    Distinct(ws, WebhookIdOf) && Distinct(ws, NameOf) && Distinct(ws, TokenOf)
    && (forall w :: w in ws ==> WellFormed(w))
    && Distinct(ls, LogIdOf)
    && (forall l :: l in ls ==> l.webhookId in WebhookIds(ws))
  }

  /** Inserting a well-formed webhook under a fresh id, name and token keeps the constraints. */
  lemma InsertKeepsValid(ws: seq<Webhook>, ls: seq<WebhookLog>, w: Webhook)
    requires TablesValid(ws, ls) && WellFormed(w)
    requires w.id !in WebhookIds(ws) && !NameTaken(ws, w.name) && !TokenTaken(ws, w.token)
    ensures TablesValid(ws + [w], ls)
  {
    AppendKeepsDistinct(ws, w, WebhookIdOf);
    AppendKeepsDistinct(ws, w, NameOf);
    AppendKeepsDistinct(ws, w, TokenOf);
    assert WebhookIds(ws) <= WebhookIds(ws + [w]);
  }

  /** The row create_webhook inserts for a submitted name keeps the constraints. */
  lemma NewRowKeepsValid(ws: seq<Webhook>, ls: seq<WebhookLog>, submitted: string, token: string, now: nat)
    requires TablesValid(ws, ls)
    requires Strip(submitted) != [] && !NameTaken(ws, Strip(submitted))
    requires IsToken(token, DefaultLength) && !TokenTaken(ws, token)
    ensures NextRowId(ws, WebhookIdOf) !in WebhookIds(ws)
    ensures TablesValid(ws + [Webhook(NextRowId(ws, WebhookIdOf), Strip(submitted), token, now, true)], ls)
  {
    var w := Webhook(NextRowId(ws, WebhookIdOf), Strip(submitted), token, now, true);
    StripIdempotent(submitted);
    InsertKeepsValid(ws, ls, w);
  }

  /** Appending a log of an existing webhook under a fresh log id keeps the constraints. */
  lemma AppendLogKeepsValid(ws: seq<Webhook>, ls: seq<WebhookLog>, l: WebhookLog)
    requires TablesValid(ws, ls)
    requires l.webhookId in WebhookIds(ws) && l.id !in LogIds(ls)
    ensures TablesValid(ws, ls + [l])
  {
    AppendKeepsDistinct(ls, l, LogIdOf);
  }

  /** Removing a webhook together with its logs keeps the constraints: no log is orphaned. */
  lemma CascadeKeepsValid(ws: seq<Webhook>, ls: seq<WebhookLog>, id: nat)
    requires TablesValid(ws, ls)
    ensures TablesValid(Filter(ws, IdIsNot(id)), Filter(ls, NotOf(id)))
  {
    var ws', ls' := Filter(ws, IdIsNot(id)), Filter(ls, NotOf(id));
    FilterKeepsDistinct(ws, IdIsNot(id), WebhookIdOf);
    FilterKeepsDistinct(ws, IdIsNot(id), NameOf);
    FilterKeepsDistinct(ws, IdIsNot(id), TokenOf);
    FilterKeepsDistinct(ls, NotOf(id), LogIdOf);
    forall l | l in ls' ensures l.webhookId in WebhookIds(ws') {
      var v :| v in ws && v.id == l.webhookId;
      assert v in ws';
    }
  }

  /**
   * What the cascade leaves: the deleted id is gone, no log refers to it, and
   * every other webhook and every other log is still there.
   */
  lemma CascadeRemovesExactly(ws: seq<Webhook>, ls: seq<WebhookLog>, id: nat)
    ensures id !in WebhookIds(Filter(ws, IdIsNot(id)))
    ensures forall l :: l in Filter(ls, NotOf(id)) ==> l.webhookId != id
    ensures forall w :: w in ws && w.id != id ==> w in Filter(ws, IdIsNot(id))
    ensures forall l :: l in ls && l.webhookId != id ==> l in Filter(ls, NotOf(id))
  {
    var ws' := Filter(ws, IdIsNot(id));
    assert forall w :: w in ws' ==> w.id != id;
  }

  /** toggle_webhook's update: negates `is_active` of the row with this id. */
  function FlipActive(ws: seq<Webhook>, id: nat): (r: seq<Webhook>)
    ensures |r| == |ws|
    ensures forall i :: 0 <= i < |ws| ==> r[i].(isActive := ws[i].isActive) == ws[i]
    ensures forall i :: 0 <= i < |ws| ==> (r[i].isActive <==> (ws[i].isActive != (ws[i].id == id)))
  {
    if ws == [] then []
    else
      var w := ws[0];
      [if w.id == id then w.(isActive := !w.isActive) else w] + FlipActive(ws[1..], id)
  }

  /** Toggling twice restores the table. */
  lemma {:induction false} FlipActiveTwice(ws: seq<Webhook>, id: nat)
    ensures FlipActive(FlipActive(ws, id), id) == ws
  {
    var twice := FlipActive(FlipActive(ws, id), id);
    assert |twice| == |ws|;
    forall i | 0 <= i < |ws| ensures twice[i] == ws[i] {
      var once := FlipActive(ws, id);
      assert once[i].id == ws[i].id;
      assert twice[i].(isActive := once[i].isActive) == once[i];
    }
  }

  /** A change that keeps every element's key keeps the keys distinct. */
  lemma SameKeysKeepDistinct<T, K>(s: seq<T>, r: seq<T>, key: T -> K)
    requires |r| == |s| && Distinct(s, key)
    requires forall i :: 0 <= i < |s| ==> key(r[i]) == key(s[i])
    ensures Distinct(r, key)
  {
  }

  /** Flipping flags keeps the ids, names and tokens, and so every table constraint. */
  lemma FlipActiveKeepsValid(ws: seq<Webhook>, ls: seq<WebhookLog>, id: nat)
    requires TablesValid(ws, ls)
    ensures TablesValid(FlipActive(ws, id), ls)
  {
    var r := FlipActive(ws, id);
    forall i | 0 <= i < |ws|
      ensures r[i].id == ws[i].id && r[i].name == ws[i].name && r[i].token == ws[i].token
    {
      assert r[i].(isActive := ws[i].isActive) == ws[i];
    }
    forall x | x in WebhookIds(ws) ensures x in WebhookIds(r) {
      var v :| v in ws && v.id == x;
      var i :| 0 <= i < |ws| && ws[i] == v;
      assert r[i] in r;
    }
    SameKeysKeepDistinct(ws, r, WebhookIdOf);
    SameKeysKeepDistinct(ws, r, NameOf);
    SameKeysKeepDistinct(ws, r, TokenOf);
    forall v | v in r ensures WellFormed(v) {
      var i :| 0 <= i < |r| && r[i] == v;
      assert ws[i] in ws;
    }
  }

  /**
   * With names unique, a webhook that is switched off cannot be reached by
   * its name: receive_webhook answers 404 whatever token the caller presents.
   */
  lemma InactiveIsNotFound(ws: seq<Webhook>, i: nat)
    requires Distinct(ws, NameOf)
    requires i < |ws| && !ws[i].isActive
    ensures FindActiveByName(ws, ws[i].name).None?
  {
    forall j | 0 <= j < |ws| && j != i ensures ws[j].name != ws[i].name {
      if j < i {
        assert NameOf(ws[j]) != NameOf(ws[i]);
      } else {
        assert NameOf(ws[i]) != NameOf(ws[j]);
      }
    }
  }

  /** A webhook created under a fresh name is the one its name now resolves to. */
  lemma CreatedIsFound(ws: seq<Webhook>, w: Webhook)
    requires !NameTaken(ws, w.name) && w.isActive
    ensures FindActiveByName(ws + [w], w.name) == Some(|ws|)
  {
    var r := ws + [w];
    assert r[|ws|] == w;
    forall j | 0 <= j < |ws| ensures r[j].name != w.name {
      assert r[j] == ws[j];
      assert ws[j] in ws;
    }
    var k := FindActiveByName(r, w.name);
    assert k.Some?;
    assert k.value == |ws|;
  }

  /** After the cascade, the recent-logs query of the deleted id is empty. */
  lemma DeletedHasNoLogs(ls: seq<WebhookLog>, id: nat)
    ensures RecentLogs(Filter(ls, NotOf(id)), id) == []
  {
    var kept := Filter(ls, NotOf(id));
    assert forall l :: l in kept ==> l.webhookId != id;
    assert LogsOf(kept, id) == [];
  }

  class WebhookStore {
    /** The `webhook` table, in row order. */
    var webhooks: seq<Webhook>
    /** The `webhook_log` table, in row order. */
    var logs: seq<WebhookLog>

    ghost predicate Valid()
      reads this
    {
      TablesValid(webhooks, logs)
    }

    constructor ()
      ensures Valid()
      ensures webhooks == [] && logs == []
    {
      webhooks := [];
      logs := [];
    }

    /**
     * create_webhook on a POSTed form. `nameField` is the form's `name` (None
     * when absent), `draws` the random picks generate_token makes, `now` the
     * clock.
     */
    method Create(nameField: Option<string>, draws: seq<nat>, now: nat, commitFails: bool)
      returns (outcome: CreateOutcome)
      requires Valid()
      requires IsDraw(draws, DefaultLength)
      modifies this
      ensures Valid()
      ensures logs == old(logs)
      ensures var name := Strip(nameField.GetOr(""));
              var token := GenerateToken(DefaultLength, draws);
              && (outcome == EmptyName <==> name == [])
              && (outcome == DuplicateName <==> name != [] && NameTaken(old(webhooks), name))
              && (outcome == CreateFailed <==>
                    name != [] && !NameTaken(old(webhooks), name) && (commitFails || TokenTaken(old(webhooks), token)))
              && (outcome.Created? ==>
                    outcome.id == NextRowId(old(webhooks), WebhookIdOf)
                    && webhooks == old(webhooks) + [Webhook(outcome.id, name, token, now, true)])
      ensures outcome.Created? ==> outcome.id !in WebhookIds(old(webhooks))
      ensures !outcome.Created? ==> webhooks == old(webhooks)
    {
      var name := Strip(nameField.GetOr(""));
      if name == [] {
        return EmptyName;
      }
      if NameTaken(webhooks, name) {
        return DuplicateName;
      }
      var token := GenerateToken(DefaultLength, draws);
      if commitFails || TokenTaken(webhooks, token) {
        return CreateFailed;
      }
      NewRowKeepsValid(webhooks, logs, nameField.GetOr(""), token, now);
      var id := NextRowId(webhooks, WebhookIdOf);
      webhooks := webhooks + [Webhook(id, name, token, now, true)];
      outcome := Created(id);
    }

    /**
     * receive_webhook for a request to /webhook/`name`. `now` is the clock
     * when the log row is stored, `repliedAt` the clock the reply reports.
     */
    method Receive(name: string, request: Request, now: nat, repliedAt: nat, commitFails: bool)
      returns (reply: Reply)
      requires Valid()
      modifies this
      ensures Valid()
      ensures webhooks == old(webhooks)
      ensures reply.Status() != 200 ==> logs == old(logs)
      ensures match FindActiveByName(old(webhooks), name)
        case None => reply == NotFound
        case Some(i) =>
          var w := old(webhooks)[i];
          var auth := HeaderValue(request.headers, "Authorization").GetOr("");
          if !TokenAccepted(auth, w.token) then reply == InvalidToken
          else if commitFails then reply == InternalError
          else
            var id := NextRowId(old(logs), LogIdOf);
            && reply == Accepted(name, repliedAt, request.httpMethod, id)
            && logs == old(logs) + [WebhookLog(id, w.id, now, request.httpMethod, request.headers, request.body,
                                               request.remoteAddr, HeaderValue(request.headers, "User-Agent").GetOr(""))]
      ensures reply.Accepted? ==> reply.logId !in LogIds(old(logs))
    {
      var found := FindActiveByName(webhooks, name);
      if found.None? {
        return NotFound;
      }
      var w := webhooks[found.value];
      var auth := HeaderValue(request.headers, "Authorization").GetOr("");
      if !TokenAccepted(auth, w.token) {
        return InvalidToken;
      }
      if commitFails {
        return InternalError;
      }
      var id := NextRowId(logs, LogIdOf);
      var entry := WebhookLog(id, w.id, now, request.httpMethod, request.headers, request.body,
                              request.remoteAddr, HeaderValue(request.headers, "User-Agent").GetOr(""));
      assert w in webhooks;
      AppendLogKeepsValid(webhooks, logs, entry);
      logs := logs + [entry];
      reply := Accepted(name, repliedAt, request.httpMethod, id);
    }

    /** toggle_webhook: flips the active flag of webhook `id`. */
    method Toggle(id: nat, commitFails: bool) returns (outcome: ToggleOutcome)
      requires Valid()
      modifies this
      ensures Valid()
      ensures logs == old(logs)
      ensures id !in WebhookIds(old(webhooks)) ==> outcome == ToggleNotFound
      ensures id in WebhookIds(old(webhooks)) && commitFails ==> outcome == ToggleFailed
      ensures id in WebhookIds(old(webhooks)) && !commitFails ==>
                webhooks == FlipActive(old(webhooks), id)
                && exists w :: w in old(webhooks) && w.id == id && outcome == Toggled(!w.isActive)
      ensures !outcome.Toggled? ==> webhooks == old(webhooks)
    {
      var found := FindById(webhooks, id);
      if found.None? {
        return ToggleNotFound;
      }
      if commitFails {
        return ToggleFailed;
      }
      var w := webhooks[found.value];
      assert w in webhooks;
      FlipActiveKeepsValid(webhooks, logs, id);
      webhooks := FlipActive(webhooks, id);
      outcome := Toggled(!w.isActive);
    }

    /** delete_webhook: removes webhook `id` and, by the cascade, every log of it. */
    method Delete(id: nat, commitFails: bool) returns (outcome: DeleteOutcome)
      requires Valid()
      modifies this
      ensures Valid()
      ensures id !in WebhookIds(old(webhooks)) ==> outcome == DeleteNotFound
      ensures id in WebhookIds(old(webhooks)) && commitFails ==> outcome == DeleteFailed
      ensures id in WebhookIds(old(webhooks)) && !commitFails ==>
                outcome == Deleted
                && webhooks == Filter(old(webhooks), IdIsNot(id))
                && logs == Filter(old(logs), NotOf(id))
      ensures outcome != Deleted ==> webhooks == old(webhooks) && logs == old(logs)
      ensures outcome == Deleted ==>
                id !in WebhookIds(webhooks)
                && (forall l :: l in logs ==> l.webhookId != id)
                && (forall w :: w in old(webhooks) && w.id != id ==> w in webhooks)
                && (forall l :: l in old(logs) && l.webhookId != id ==> l in logs)
    {
      var found := FindById(webhooks, id);
      if found.None? {
        return DeleteNotFound;
      }
      if commitFails {
        return DeleteFailed;
      }
      CascadeKeepsValid(webhooks, logs, id);
      CascadeRemovesExactly(webhooks, logs, id);
      webhooks, logs := Filter(webhooks, IdIsNot(id)), Filter(logs, NotOf(id));
      outcome := Deleted;
    }

    /** webhook_details: the webhook and its 50 newest logs, or a 404. */
    function Details(id: nat): (r: DetailsView)
      reads this
      ensures r.DetailsNotFound? <==> id !in WebhookIds(webhooks)
      ensures r.Found? ==> r.webhook in webhooks && r.webhook.id == id && r.recent == RecentLogs(logs, id)
    {
      match FindById(webhooks, id)
      case None => DetailsNotFound
      case Some(i) => Found(webhooks[i], RecentLogs(logs, id))
    }
  }

  lemma AuthorizationHeaderFound(value: string)
    ensures HeaderValue([("Authorization", value)], "Authorization") == Some(value)
    ensures HeaderValue([("Authorization", value)], "User-Agent") == None
  {
    assert SameHeaderName("Authorization", "Authorization");
    assert !SameHeaderName("Authorization", "User-Agent");
  }

  /** A fresh store after create_webhook(name): the one active row `name`, id 1. */
  method NewStoreWith(name: string, draws: seq<nat>) returns (store: WebhookStore, token: string)
    requires name != [] && Strip(name) == name
    requires IsDraw(draws, DefaultLength)
    ensures fresh(store) && store.Valid()
    ensures token == GenerateToken(DefaultLength, draws) && IsToken(token, DefaultLength)
    ensures store.webhooks == [Webhook(1, name, token, 1, true)] && store.logs == []
  {
    store := new WebhookStore();
    token := GenerateToken(DefaultLength, draws);
    assert !NameTaken([], name) && !TokenTaken([], token);
    var created := store.Create(Some(name), draws, 1, false);
  }

  /** With its own token, a delivery to a new webhook is stored as log 1 and accepted. */
  method DeliverWithToken(name: string, draws: seq<nat>)
    requires name != [] && Strip(name) == name
    requires IsDraw(draws, DefaultLength)
  {
    var store, token := NewStoreWith(name, draws);
    CreatedIsFound([], Webhook(1, name, token, 1, true));
    var good := Request(POST, [("Authorization", BearerPrefix + token)], "{\"id\":1}", None);
    AuthorizationHeaderFound(BearerPrefix + token);
    assert TokenAccepted(BearerPrefix + token, token);
    var reply := store.Receive(name, good, 2, 2, false);
    assert reply == Accepted(name, 2, POST, 1);
    assert |store.logs| == 1;
  }

  /** With a token of the wrong length, a delivery is refused and nothing is stored. */
  method DeliverWithWrongToken(name: string, draws: seq<nat>, wrong: string)
    requires name != [] && Strip(name) == name
    requires IsDraw(draws, DefaultLength)
    requires |wrong| != DefaultLength
  {
    var store, token := NewStoreWith(name, draws);
    CreatedIsFound([], Webhook(1, name, token, 1, true));
    var bad := Request(POST, [("Authorization", BearerPrefix + wrong)], "{\"id\":1}", None);
    AuthorizationHeaderFound(BearerPrefix + wrong);
    assert !TokenAccepted(BearerPrefix + wrong, token);
    var reply := store.Receive(name, bad, 3, 3, false);
    assert reply == InvalidToken;
    assert store.logs == [];
  }

  /** Once a webhook is switched off, a delivery with its own token gets a 404. */
  method DeliverToDisabledWebhook(name: string, draws: seq<nat>)
    requires name != [] && Strip(name) == name
    requires IsDraw(draws, DefaultLength)
  {
    var store, token := NewStoreWith(name, draws);
    var created := Webhook(1, name, token, 1, true);
    assert 1 in WebhookIds(store.webhooks);
    var off := FlipActive([created], 1);
    assert off[0].(isActive := true) == created && !off[0].isActive;
    var toggled := store.Toggle(1, false);
    assert toggled == Toggled(false);
    assert store.webhooks == off;
    InactiveIsNotFound(store.webhooks, 0);

    var good := Request(POST, [("Authorization", BearerPrefix + token)], "{\"id\":1}", None);
    var reply := store.Receive(name, good, 4, 4, false);
    assert reply == NotFound;
  }
}
