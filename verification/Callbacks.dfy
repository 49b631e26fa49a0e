/**
 * A callback registry keyed by token, the shape shared by the cancel
 * callbacks of a `CancelManager` and the progress and text callbacks of a
 * `ProgressManager`: registering returns a fresh token, unregistering by
 * token removes that registration, and notification runs the remaining
 * callbacks in registration order.
 */
module Callbacks {
  import opened Wrappers

  type Token = nat

  /** The identity of a registered callable. */
  type CallbackId = nat

  datatype Registration = Registration(token: Token, callback: CallbackId)

  /** The registrations in registration order, and a token none of them has. */
  datatype Registry = Registry(entries: seq<Registration>, nextToken: Token)

  function Tokens(entries: seq<Registration>): (ts: seq<Token>)
    ensures |ts| == |entries| && forall i :: 0 <= i < |entries| ==> ts[i] == entries[i].token
  {
    seq(|entries|, i requires 0 <= i < |entries| => entries[i].token)
  }

  /** The callables a notification runs, in order. */
  function Callees(entries: seq<Registration>): (fs: seq<CallbackId>)
    ensures |fs| == |entries| && forall i :: 0 <= i < |entries| ==> fs[i] == entries[i].callback
  {
    seq(|entries|, i requires 0 <= i < |entries| => entries[i].callback)
  }

  /** Tokens are distinct and below `nextToken`. */
  predicate ValidRegistry(r: Registry)
  {
    && NoDuplicates(Tokens(r.entries))
    && forall i :: 0 <= i < |r.entries| ==> r.entries[i].token < r.nextToken
  }

  function EmptyRegistry(): (r: Registry)
    ensures ValidRegistry(r) && r.entries == []
  {
    Registry([], 0)
  }

  /** Registering `f`: it is appended under a token no registration has. */
  function Add(r: Registry, f: CallbackId): (res: (Registry, Token))
    ensures res.0.entries == r.entries + [Registration(res.1, f)]
    ensures ValidRegistry(r) ==> res.1 !in Tokens(r.entries) && ValidRegistry(res.0)
  {
    var t := r.nextToken;
    var r' := Registry(r.entries + [Registration(t, f)], t + 1);
    assert Tokens(r'.entries) == Tokens(r.entries) + [t];
    (r', t)
  }

  /** The registrations of `entries` whose token is not `t`, in their order. */
  function Without(entries: seq<Registration>, t: Token): (res: seq<Registration>)
    ensures forall x :: x in res <==> x in entries && x.token != t
    ensures |res| <= |entries|
    decreases |entries|
  {
    if |entries| == 0 then []
    else
      var rest := Without(entries[1..], t);
      assert forall x :: x in entries <==> x == entries[0] || x in entries[1..];
      if entries[0].token == t then rest else [entries[0]] + rest
  }

  /** Unregistering token `t`; a token that was never issued, or already removed, changes nothing. */
  function Remove(r: Registry, t: Token): (res: Registry)
    ensures forall x :: x in res.entries <==> x in r.entries && x.token != t
    ensures res.nextToken == r.nextToken
    ensures ValidRegistry(r) ==> ValidRegistry(res)
  {
    var res := Registry(Without(r.entries, t), r.nextToken);
    WithoutKeepsValid(r.entries, t);
    assert forall i :: 0 <= i < |res.entries| ==> res.entries[i] in r.entries;
    res
  }

  /** Removing registrations leaves the tokens of the surviving ones distinct. */
  lemma {:induction false} WithoutKeepsValid(entries: seq<Registration>, t: Token)
    ensures NoDuplicates(Tokens(entries)) ==> NoDuplicates(Tokens(Without(entries, t)))
    decreases |entries|
  {
    if |entries| > 0 && NoDuplicates(Tokens(entries)) {
      var rest := Without(entries[1..], t);
      assert Tokens(entries) == [entries[0].token] + Tokens(entries[1..]);
      NoDuplicatesCons(entries[0].token, Tokens(entries[1..]));
      WithoutKeepsValid(entries[1..], t);
      if entries[0].token != t {
        assert Tokens([entries[0]] + rest) == [entries[0].token] + Tokens(rest);
        NoDuplicatesCons(entries[0].token, Tokens(rest));
      }
    }
  }

  /** A token no registration has removes nothing. */
  lemma {:induction false} WithoutAbsent(entries: seq<Registration>, t: Token)
    requires forall i :: 0 <= i < |entries| ==> entries[i].token != t
    ensures Without(entries, t) == entries
    decreases |entries|
  {
    if |entries| > 0 {
      var tail := entries[1..];
      assert forall i :: 0 <= i < |tail| ==> tail[i] == entries[i + 1];
      WithoutAbsent(tail, t);
      assert entries == [entries[0]] + tail;
    }
  }

  /** Removing by the token just issued undoes the registration. */
  lemma {:induction false} AddThenRemove(r: Registry, f: CallbackId)
    requires ValidRegistry(r)
    ensures var (r', t) := Add(r, f); Remove(r', t).entries == r.entries
  {
    var (r', t) := Add(r, f);
    assert forall i :: 0 <= i < |r.entries| ==> r.entries[i].token != t by {
      forall i | 0 <= i < |r.entries|
        ensures r.entries[i].token != t
      {
        assert Tokens(r.entries)[i] == r.entries[i].token;
      }
    }
    WithoutAppend(r.entries, [Registration(t, f)], t);
    WithoutAbsent(r.entries, t);
    assert Without([Registration(t, f)], t) == [] by {
      assert [Registration(t, f)][1..] == [];
    }
  }

  lemma {:induction false} WithoutAppend(a: seq<Registration>, b: seq<Registration>, t: Token)
    ensures Without(a + b, t) == Without(a, t) + Without(b, t)
    decreases |a|
  {
    if |a| == 0 {
      assert a + b == b;
    } else {
      assert (a + b)[1..] == a[1..] + b;
      WithoutAppend(a[1..], b, t);
    }
  }
}
