/**
 * The two tables of app.py (`Webhook`, `WebhookLog`) as records, with the
 * row-id assignment of the database and the generic sequence facts the
 * registry needs to keep its constraints.
 */
module Tables {

  datatype Option<T> = None | Some(value: T) {
    function GetOr(default: T): T {
      match this
      case Some(v) => v
      case None => default
    }
  }

  /**
   * The verbs the ingestion route accepts; Flask adds HEAD to every route
   * that lists GET and hands it to the same view.
   */
  datatype Method = GET | HEAD | POST | PUT | DELETE | PATCH

  /** One request header, name and value, as received. */
  type Header = (string, string)

  /** A row of the `webhook` table. Timestamps are ticks of a supplied clock. */
  datatype Webhook = Webhook(id: nat, name: string, token: string, createdAt: nat, isActive: bool)

  /** A row of the `webhook_log` table; `ipAddress` is NULL when the server gives no peer address. */
  datatype WebhookLog = WebhookLog(
    id: nat,
    webhookId: nat,
    timestamp: nat,
    httpMethod: Method,
    headers: seq<Header>,
    body: string,
    ipAddress: Option<string>,
    userAgent: string)

  function WebhookIdOf(w: Webhook): nat { w.id }
  function NameOf(w: Webhook): string { w.name }
  function TokenOf(w: Webhook): string { w.token }
  function LogIdOf(l: WebhookLog): nat { l.id }

  function WebhookIds(ws: seq<Webhook>): set<nat> {
    set w | w in ws :: w.id
  }

  function LogIds(ls: seq<WebhookLog>): set<nat> {
    set l | l in ls :: l.id
  }

  /**
   * The id an `INTEGER PRIMARY KEY` column gives a new row: one more than the
   * largest id in the table, 1 when the table is empty. Ids of deleted rows
   * at the top of the range are therefore handed out again.
   */
  function NextRowId<T(!new)>(rows: seq<T>, id: T -> nat): (r: nat)
    ensures r >= 1
    ensures forall x :: x in rows ==> id(x) < r
    ensures r == 1 || exists x :: x in rows && id(x) == r - 1
  {
    if rows == [] then 1
    else
      var rest := NextRowId(rows[1..], id);
      assert forall x :: x in rows[1..] ==> x in rows;
      assert forall x :: x in rows ==> x == rows[0] || x in rows[1..];
      if id(rows[0]) < rest then rest else id(rows[0]) + 1
  }

  /** No two elements of `s` share a key. */
  ghost predicate Distinct<T, K>(s: seq<T>, key: T -> K) {
    forall i, j :: 0 <= i < j < |s| ==> key(s[i]) != key(s[j])
  }

  /** The elements of `s` that satisfy `keep`, in their order in `s`. */
  function Filter<T(!new)>(s: seq<T>, keep: T -> bool): (r: seq<T>)
    ensures |r| <= |s|
    ensures forall x :: x in r <==> x in s && keep(x)
    ensures forall x :: multiset(r)[x] == if keep(x) then multiset(s)[x] else 0
  {
    if s == [] then []
    else
      assert s == [s[0]] + s[1..];
      (if keep(s[0]) then [s[0]] else []) + Filter(s[1..], keep)
  }

  /**
   * Filtering a concatenation filters each part and keeps them in order; with
   * the one-element case this says the result keeps the input's order.
   */
  lemma {:induction false} FilterConcat<T(!new)>(a: seq<T>, b: seq<T>, keep: T -> bool)
    ensures Filter(a + b, keep) == Filter(a, keep) + Filter(b, keep)
  {
    if a == [] {
      assert a + b == b;
    } else {
      var rest := a[1..] + b;
      assert a + b == [a[0]] + rest;
      FilterCons(a[0], rest, keep);
      FilterCons(a[0], a[1..], keep);
      FilterConcat(a[1..], b, keep);
      var head, fa, fb := if keep(a[0]) then [a[0]] else [], Filter(a[1..], keep), Filter(b, keep);
      ConcatAssoc(head, fa, fb);
    }
  }

  lemma ConcatAssoc<T>(x: seq<T>, y: seq<T>, z: seq<T>)
    ensures x + (y + z) == (x + y) + z
  {
  }

  lemma FilterCons<T(!new)>(x: T, s: seq<T>, keep: T -> bool)
    ensures Filter([x] + s, keep) == (if keep(x) then [x] else []) + Filter(s, keep)
  {
    assert ([x] + s)[0] == x && ([x] + s)[1..] == s;
  }

  /** Dropping elements keeps keys distinct. */
  lemma {:induction false} FilterKeepsDistinct<T(!new), K>(s: seq<T>, keep: T -> bool, key: T -> K)
    requires Distinct(s, key)
    ensures Distinct(Filter(s, keep), key)
  {
    if s != [] {
      var tail := Filter(s[1..], keep);
      DropFirstKeepsDistinct(s, key);
      FilterKeepsDistinct(s[1..], keep, key);
      if keep(s[0]) {
        forall y | y in tail ensures key(y) != key(s[0]) {
          var m :| 0 <= m < |s[1..]| && s[1..][m] == y;
          assert s[m + 1] == y;
        }
        PrependKeepsDistinct(s[0], tail, key);
      }
    }
  }

  lemma DropFirstKeepsDistinct<T, K>(s: seq<T>, key: T -> K)
    requires s != [] && Distinct(s, key)
    ensures Distinct(s[1..], key)
  {
    forall i, j | 0 <= i < j < |s| - 1 ensures key(s[1..][i]) != key(s[1..][j]) {
      assert s[1..][i] == s[i + 1] && s[1..][j] == s[j + 1];
    }
  }

  lemma PrependKeepsDistinct<T, K>(x: T, s: seq<T>, key: T -> K)
    requires Distinct(s, key)
    requires forall y :: y in s ==> key(y) != key(x)
    ensures Distinct([x] + s, key)
  {
    var r := [x] + s;
    forall i, j | 0 <= i < j < |r| ensures key(r[i]) != key(r[j]) {
      assert r[j] == s[j - 1];
      if i == 0 {
        assert s[j - 1] in s;
      } else {
        assert r[i] == s[i - 1];
      }
    }
  }

  /** Appending an element whose key is new keeps keys distinct. */
  lemma AppendKeepsDistinct<T, K>(s: seq<T>, x: T, key: T -> K)
    requires Distinct(s, key)
    requires forall y :: y in s ==> key(y) != key(x)
    ensures Distinct(s + [x], key)
  {
    var r := s + [x];
    forall i, j | 0 <= i < j < |r| ensures key(r[i]) != key(r[j]) {
      assert r[i] == s[i];
      if j < |s| {
        assert r[j] == s[j];
      } else {
        assert s[i] in s;
      }
    }
  }
}
