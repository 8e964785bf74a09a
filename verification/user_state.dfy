/** The page-wide user-state event list: callbacks are registered in order,
    removed by identity, and all called on a change. Callbacks are modelled
    by their identity; what calling one does is a parameter. */
module UserState {
  import opened Seqs

  /** `Array.prototype.indexOf`: the first position of `cb`, or -1. */
  function IndexOf<C(==)>(cbs: seq<C>, cb: C): (r: int)
    ensures -1 <= r < |cbs|
    ensures r >= 0 ==> cbs[r] == cb && cb !in cbs[..r]
    ensures r < 0 <==> cb !in cbs
  {
    if cbs == [] then -1
    else if cbs[0] == cb then 0
    else
      var k := IndexOf(cbs[1..], cb);
      assert cb in cbs ==> cb in cbs[1..] by {
        if cb in cbs {
          var j :| 0 <= j < |cbs| && cbs[j] == cb;
          assert cbs[1..][j - 1] == cb;
        }
      }
      if k < 0 then -1
      else
        assert cbs[..k + 1] == [cbs[0]] + cbs[1..][..k];
        k + 1
  }

  /** `subscribeToUserState`: register at the end. */
  function Subscribe<C>(cbs: seq<C>, cb: C): (r: seq<C>)
    ensures |r| == |cbs| + 1 && r[..|cbs|] == cbs && r[|cbs|] == cb
  {
    cbs + [cb]
  }

  /** The returned unsubscribe: remove the first registration of `cb`, if
      there is one (`splice(index, 1)` when `index > -1`). */
  function Unsubscribe<C(==)>(cbs: seq<C>, cb: C): (r: seq<C>)
    ensures cb !in cbs ==> r == cbs
    ensures cb in cbs ==>
      exists i :: 0 <= i < |cbs| && cbs[i] == cb && cb !in cbs[..i] && r == cbs[..i] + cbs[i + 1..]
    ensures multiset(r) == multiset(cbs) - multiset{cb}
  {
    var i := IndexOf(cbs, cb);
    if i > -1 then
      assert cbs == cbs[..i] + [cb] + cbs[i + 1..];
      cbs[..i] + cbs[i + 1..]
    else
      assert cb !in multiset(cbs);
      cbs
  }

  /** Appending after a registration does not move the first one. */
  lemma IndexOfExtends<C>(cbs: seq<C>, extra: seq<C>, cb: C)
    requires cb in cbs
    ensures IndexOf(cbs + extra, cb) == IndexOf(cbs, cb)
  {
    var i := IndexOf(cbs, cb);
    var r := cbs + extra;
    var k := IndexOf(r, cb);
    assert forall j :: 0 <= j < |cbs| ==> r[j] == cbs[j];
    assert forall j :: 0 <= j < k ==> r[..k][j] == r[j];
    assert forall j :: 0 <= j < i ==> cbs[..i][j] == cbs[j];
  }

  /** Subscribing and then unsubscribing a new callback restores the list. */
  lemma SubscribeThenUnsubscribe<C>(cbs: seq<C>, cb: C)
    requires cb !in cbs
    ensures Unsubscribe(Subscribe(cbs, cb), cb) == cbs
  {
    var r := Subscribe(cbs, cb);
    assert r[..|cbs|] == cbs;
    assert forall j :: 0 <= j < |cbs| ==> r[j] != cb;
  }

  /** A callback registered twice: unsubscribing drops the earlier
      registration, the later one stays. */
  lemma UnsubscribeDropsFirstOnly<C>(cbs: seq<C>, cb: C)
    requires cb in cbs
    ensures Unsubscribe(cbs + [cb], cb) == Unsubscribe(cbs, cb) + [cb]
  {
    var i := IndexOf(cbs, cb);
    IndexOfExtends(cbs, [cb], cb);
    var r := cbs + [cb];
    assert r[..i] == cbs[..i];
    assert r[i + 1..] == cbs[i + 1..] + [cb];
  }

  /** `notifyUserStateChange`: what each registered callback does with the
      user, in registration order. */
  function Notify<C, U, E>(cbs: seq<C>, run: (C, U) -> E, user: U): (effects: seq<E>)
    ensures |effects| == |cbs|
    ensures forall i :: 0 <= i < |cbs| ==> effects[i] == run(cbs[i], user)
  {
    if cbs == [] then [] else [run(cbs[0], user)] + Notify(cbs[1..], run, user)
  }

  /** A new subscriber is called after all earlier ones. */
  lemma NotifyAfterSubscribe<C, U, E>(cbs: seq<C>, cb: C, run: (C, U) -> E, user: U)
    ensures Notify(Subscribe(cbs, cb), run, user) == Notify(cbs, run, user) + [run(cb, user)]
  {
  }
}
