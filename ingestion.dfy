/**
 * The request-side pieces of receive_webhook: the incoming request, the
 * header lookup, the Bearer-token rule and the reply.
 */
module Ingestion {
  import opened Tables

  /** What receive_webhook reads from Flask's `request`. `remoteAddr` may be absent. */
  datatype Request = Request(
    httpMethod: Method,
    headers: seq<Header>,
    body: string,
    remoteAddr: Option<string>)

  /**
   * The reply of receive_webhook. `Accepted` is the 200 body
   * `{status: success, webhook, timestamp, method, log_id}`.
   */
  datatype Reply =
    | NotFound                     // 404, no active webhook of that name
    | InvalidToken                 // 401, a Bearer token that is not the webhook's
    | Accepted(webhook: string, timestamp: nat, httpMethod: Method, logId: nat)
    | InternalError                // 500, the log could not be stored
  {
    function Status(): nat {
      match this
      case NotFound => 404
      case InvalidToken => 401
      case Accepted(_, _, _, _) => 200
      case InternalError => 500
    }
  }

  function AsciiLower(c: char): char {
    if 'A' <= c <= 'Z' then (c as int + 32) as char else c
  }

  /** Header names compare without regard to ASCII case. */
  predicate SameHeaderName(a: string, b: string) {
    |a| == |b| && forall i :: 0 <= i < |a| ==> AsciiLower(a[i]) == AsciiLower(b[i])
  }

  /** The values of the headers called `name`, in the order received. */
  function MatchingValues(headers: seq<Header>, name: string): (vs: seq<string>)
    ensures |vs| <= |headers|
    ensures vs == [] <==> forall k :: 0 <= k < |headers| ==> !SameHeaderName(headers[k].0, name)
    ensures forall v :: v in vs <==>
              exists k :: 0 <= k < |headers| && SameHeaderName(headers[k].0, name) && headers[k].1 == v
  {
    if headers == [] then []
    else
      var rest := MatchingValues(headers[1..], name);
      assert forall k :: 1 <= k < |headers| ==> headers[k] == headers[1..][k - 1];
      (if SameHeaderName(headers[0].0, name) then [headers[0].1] else []) + rest
  }

  lemma MatchingValuesCons(h: Header, rest: seq<Header>, name: string)
    ensures MatchingValues([h] + rest, name)
            == (if SameHeaderName(h.0, name) then [h.1] else []) + MatchingValues(rest, name)
  {
    assert ([h] + rest)[0] == h && ([h] + rest)[1..] == rest;
  }

  /**
   * The values of headers received one after the other are the values of the
   * first part followed by those of the second; with the one-header case this
   * fixes their order and count: one per matching header, in the order received.
   */
  lemma {:induction false} MatchingValuesConcat(a: seq<Header>, b: seq<Header>, name: string)
    ensures MatchingValues(a + b, name) == MatchingValues(a, name) + MatchingValues(b, name)
  {
    if a == [] {
      assert a + b == b;
    } else {
      var rest := a[1..] + b;
      assert a + b == [a[0]] + rest;
      assert a == [a[0]] + a[1..];
      MatchingValuesCons(a[0], rest, name);
      MatchingValuesCons(a[0], a[1..], name);
      MatchingValuesConcat(a[1..], b, name);
      var head := if SameHeaderName(a[0].0, name) then [a[0].1] else [];
      ConcatAssoc(head, MatchingValues(a[1..], name), MatchingValues(b, name));
    }
  }

  /** Header values folded into one, separated by commas, as the WSGI server stores a repeated header. */
  function JoinWithCommas(vs: seq<string>): (s: string)
    requires vs != []
    ensures |vs[0]| <= |s| && s[..|vs[0]|] == vs[0]
    ensures |vs| == 1 ==> s == vs[0]
  {
    if |vs| == 1 then vs[0] else vs[0] + "," + JoinWithCommas(vs[1..])
  }

  /**
   * `request.headers.get(name)`: the name is looked up without regard to ASCII
   * case in the WSGI environ, where the server has already folded every header
   * of that name into one value, joined with commas.
   */
  function HeaderValue(headers: seq<Header>, name: string): (r: Option<string>)
    ensures r.None? <==> forall k :: 0 <= k < |headers| ==> !SameHeaderName(headers[k].0, name)
    ensures r.Some? ==> MatchingValues(headers, name) != [] && r.value == JoinWithCommas(MatchingValues(headers, name))
  {
    var vs := MatchingValues(headers, name);
    if vs == [] then None else Some(JoinWithCommas(vs))
  }

  /** A header sent once is read back as sent. */
  lemma SingleHeaderValue(headers: seq<Header>, name: string, k: nat)
    requires k < |headers| && SameHeaderName(headers[k].0, name)
    requires forall j :: 0 <= j < |headers| && j != k ==> !SameHeaderName(headers[j].0, name)
    ensures HeaderValue(headers, name) == Some(headers[k].1)
  {
    var vs := MatchingValues(headers, name);
    OnlyMatch(headers, name, k);
    assert vs == [headers[k].1];
  }

  lemma {:induction false} OnlyMatch(headers: seq<Header>, name: string, k: nat)
    requires k < |headers| && SameHeaderName(headers[k].0, name)
    requires forall j :: 0 <= j < |headers| && j != k ==> !SameHeaderName(headers[j].0, name)
    ensures MatchingValues(headers, name) == [headers[k].1]
  {
    if k == 0 {
      assert MatchingValues(headers[1..], name) == [] by {
        forall j | 0 <= j < |headers[1..]| ensures !SameHeaderName(headers[1..][j].0, name) {
          assert headers[1..][j] == headers[j + 1];
        }
      }
    } else {
      assert headers[1..][k - 1] == headers[k];
      forall j | 0 <= j < |headers[1..]| && j != k - 1 ensures !SameHeaderName(headers[1..][j].0, name) {
        assert headers[1..][j] == headers[j + 1];
      }
      OnlyMatch(headers[1..], name, k - 1);
    }
  }

  /** `s.split(",")`: the pieces of `s` between commas. */
  function SplitOnCommas(s: string): (parts: seq<string>)
    ensures |parts| >= 1
  {
    if s == [] then [[]]
    else
      var rest := SplitOnCommas(s[1..]);
      if s[0] == ',' then [[]] + rest else [[s[0]] + rest[0]] + rest[1..]
  }

  lemma {:induction false} SplitWithoutComma(v: string)
    requires ',' !in v
    ensures SplitOnCommas(v) == [v]
  {
    if v != [] {
      assert ',' !in v[1..] by { assert forall c :: c in v[1..] ==> c in v; }
      SplitWithoutComma(v[1..]);
      assert [v[0]] + v[1..] == v;
    }
  }

  lemma {:induction false} SplitAfterComma(v: string, t: string)
    requires ',' !in v
    ensures SplitOnCommas(v + "," + t) == [v] + SplitOnCommas(t)
  {
    var s := v + "," + t;
    if v == [] {
      assert s == "," + t && s[1..] == t;
    } else {
      assert s[0] == v[0] && s[1..] == v[1..] + "," + t;
      assert ',' !in v[1..] by { assert forall c :: c in v[1..] ==> c in v; }
      SplitAfterComma(v[1..], t);
      assert [v[0]] + v[1..] == v;
    }
  }

  /** Folding loses nothing when no value holds a comma: splitting gives the values back. */
  lemma {:induction false} SplitJoin(vs: seq<string>)
    requires vs != []
    requires forall v :: v in vs ==> ',' !in v
    ensures SplitOnCommas(JoinWithCommas(vs)) == vs
  {
    if |vs| == 1 {
      SplitWithoutComma(vs[0]);
    } else {
      SplitJoin(vs[1..]);
      SplitAfterComma(vs[0], JoinWithCommas(vs[1..]));
      assert vs == [vs[0]] + vs[1..];
    }
  }

  const BearerPrefix: string := "Bearer "

  /**
   * The token check of receive_webhook. An Authorization value that does not
   * start with "Bearer " (including a missing header, read as "") is let
   * through; one that does is accepted only when the rest is the webhook's token.
   */
  function TokenAccepted(authorization: string, token: string): (ok: bool)
    ensures !ok <==> exists provided :: authorization == BearerPrefix + provided && provided != token
  {
    if |authorization| >= 7 && authorization[..7] == BearerPrefix then
      var provided := authorization[7..];
      assert authorization == BearerPrefix + provided;
      provided == token
    else
      assert forall p :: (BearerPrefix + p)[..7] == BearerPrefix;
      true
  }

  /**
   * Two Authorization headers reach the check folded into one value, so even
   * when the first carries the webhook's token the delivery is refused.
   */
  lemma RepeatedAuthorizationIsRefused(token: string, other: string)
    ensures var headers := [("Authorization", BearerPrefix + token), ("Authorization", other)];
            HeaderValue(headers, "Authorization") == Some(BearerPrefix + token + "," + other)
            && !TokenAccepted(HeaderValue(headers, "Authorization").GetOr(""), token)
  {
    var headers := [("Authorization", BearerPrefix + token), ("Authorization", other)];
    assert SameHeaderName("Authorization", "Authorization");
    assert headers[1..][1..] == [];
    assert MatchingValues(headers[1..], "Authorization") == [other];
    assert MatchingValues(headers, "Authorization") == [BearerPrefix + token, other];
    var joined := BearerPrefix + token + "," + other;
    assert joined == BearerPrefix + (token + "," + other);
  }
}
