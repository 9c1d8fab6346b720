/** The products slice of src/app/slices/productSlice.tsx, seen from outside:
    its state, the actions its case handlers react to, and the reducer as a
    function from a state and an action to the next state. */
module ProductSlice {
  import JsString
  import opened ProductType

  datatype Status = Idle | Loading | Succeeded | Failed

  datatype ProductState = ProductState(items: seq<Product>, status: Status, error: bool)

  /** The pending, fulfilled and rejected actions of the four async thunks,
      each carrying the payload its thunk resolves with. */
  datatype Action =
    | FetchPending | FetchFulfilled(products: seq<Product>) | FetchRejected
    | AddPending | AddFulfilled(product: Product) | AddRejected
    | DeletePending | DeleteFulfilled(key: string) | DeleteRejected
    | UpdatePending | UpdateFulfilled(updated: Product) | UpdateRejected
  {
    predicate IsPending() { FetchPending? || AddPending? || DeletePending? || UpdatePending? }
    predicate IsFulfilled() { FetchFulfilled? || AddFulfilled? || DeleteFulfilled? || UpdateFulfilled? }
    predicate IsUpdate() { UpdatePending? || UpdateFulfilled? || UpdateRejected? }
  }

  function InitialState(): (s: ProductState)
    ensures s.items == [] && s.status == Idle && !s.error
  {
    ProductState([], Idle, false)
  }

  /** `items.filter(p => String(p.id) !== key)`. */
  function RemoveByKey(items: seq<Product>, key: string): seq<Product>
    decreases |items|
  {
    if items == [] then []
    else if IdKey(items[0]) != key then [items[0]] + RemoveByKey(items[1..], key)
    else RemoveByKey(items[1..], key)
  }

  /** The reducer. Update actions have no case handler, so they fall through
      and leave the state as it is. */
  function Reduce(s: ProductState, a: Action): ProductState
  {
    match a
    case FetchPending | AddPending | DeletePending => s.(status := Loading)
    case FetchFulfilled(products) => s.(status := Succeeded, items := products)
    case FetchRejected => s.(status := Failed, error := true)
    case AddFulfilled(p) => s.(status := Succeeded, items := s.items + [p])
    case AddRejected | DeleteRejected => s.(status := Failed)
    case DeleteFulfilled(key) => s.(status := Succeeded, items := RemoveByKey(s.items, key))
    case UpdatePending | UpdateFulfilled(_) | UpdateRejected => s
  }

  /** The state after the store dispatches `actions`, first to last. */
  function ReduceAll(s: ProductState, actions: seq<Action>): ProductState
    decreases |actions|
  {
    if actions == [] then s else ReduceAll(Reduce(s, actions[0]), actions[1..])
  }

  // ---------------------------------------------------------------------------
  // Filtering by key, characterised without reference to how it is computed

  /** `r` is `s` with some elements dropped and the rest kept in order. */
  predicate IsSubsequence(r: seq<Product>, s: seq<Product>)
    decreases |s|
  {
    if r == [] then true
    else if s == [] then false
    else (r[0] == s[0] && IsSubsequence(r[1..], s[1..])) || IsSubsequence(r, s[1..])
  }

  /** Every product keyed `key` occurs in `r` zero times, every other one as
      often as in `s`. */
  ghost predicate KeepsExactlyOthers(r: seq<Product>, s: seq<Product>, key: string)
  {
    forall p :: multiset(r)[p] == if IdKey(p) == key then 0 else multiset(s)[p]
  }

  lemma {:induction false} SubsequenceMultiset(r: seq<Product>, s: seq<Product>)
    requires IsSubsequence(r, s)
    ensures multiset(r) <= multiset(s)
    decreases |s|
  {
    if r != [] {
      assert s == [s[0]] + s[1..];
      if r[0] == s[0] && IsSubsequence(r[1..], s[1..]) {
        SubsequenceMultiset(r[1..], s[1..]);
        assert r == [r[0]] + r[1..];
      } else {
        SubsequenceMultiset(r, s[1..]);
      }
    }
  }

  /** The filter keeps the others, in order, and drops every product keyed `key`. */
  lemma {:induction false} RemoveByKeyKeepsExactlyOthers(items: seq<Product>, key: string)
    ensures IsSubsequence(RemoveByKey(items, key), items)
    ensures KeepsExactlyOthers(RemoveByKey(items, key), items, key)
    decreases |items|
  {
    if items != [] {
      var x, t := items[0], items[1..];
      var r := RemoveByKey(t, key);
      RemoveByKeyKeepsExactlyOthers(t, key);
      assert items == [x] + t;
      if IdKey(x) != key {
        assert RemoveByKey(items, key) == [x] + r;
        assert ([x] + r)[1..] == r;
      }
    }
  }

  /** Conversely, only the filter's result keeps the others in order and drops
      every product keyed `key`. */
  lemma {:induction false} OnlyRemoveByKey(r: seq<Product>, items: seq<Product>, key: string)
    requires IsSubsequence(r, items) && KeepsExactlyOthers(r, items, key)
    ensures r == RemoveByKey(items, key)
    decreases |items|
  {
    if items != [] {
      var x, t := items[0], items[1..];
      assert items == [x] + t;
      if IdKey(x) == key {
        assert multiset(r)[x] == 0;
        assert r != [] ==> r[0] != x by {
          if r != [] { assert r[0] in multiset(r); }
        }
        assert IsSubsequence(r, t);
        assert KeepsExactlyOthers(r, t, key);
        OnlyRemoveByKey(r, t, key);
      } else {
        assert multiset(r)[x] == multiset(items)[x] > 0;
        assert r != [];
        assert r == [r[0]] + r[1..];
        if r[0] == x && IsSubsequence(r[1..], t) {
          assert KeepsExactlyOthers(r[1..], t, key);
          OnlyRemoveByKey(r[1..], t, key);
        } else {
          SubsequenceMultiset(r, t);
          assert false;
        }
      }
    }
  }

  /** The filter is the one order-preserving subsequence that keeps exactly the
      products not keyed `key`. */
  lemma RemoveByKeyCharacterised(r: seq<Product>, items: seq<Product>, key: string)
    ensures r == RemoveByKey(items, key) <==> IsSubsequence(r, items) && KeepsExactlyOthers(r, items, key)
  {
    RemoveByKeyKeepsExactlyOthers(items, key);
    if IsSubsequence(r, items) && KeepsExactlyOthers(r, items, key) {
      OnlyRemoveByKey(r, items, key);
    }
  }

  lemma {:induction false} RemoveByKeyAppend(a: seq<Product>, b: seq<Product>, key: string)
    ensures RemoveByKey(a + b, key) == RemoveByKey(a, key) + RemoveByKey(b, key)
    decreases |a|
  {
    if a != [] {
      assert (a + b)[1..] == a[1..] + b;
      RemoveByKeyAppend(a[1..], b, key);
    } else {
      assert a + b == b;
    }
  }

  /** The filter leaves the list as it is exactly when no product has key `key`. */
  lemma {:induction false} RemoveByKeyUnchanged(items: seq<Product>, key: string)
    ensures RemoveByKey(items, key) == items <==> forall i :: 0 <= i < |items| ==> IdKey(items[i]) != key
    decreases |items|
  {
    RemoveByKeyShrinks(items, key);
    if items != [] {
      RemoveByKeyUnchanged(items[1..], key);
      assert forall i :: 1 <= i < |items| ==> items[i] == items[1..][i - 1];
      if IdKey(items[0]) != key {
        assert items == [items[0]] + items[1..];
        assert ([items[0]] + RemoveByKey(items[1..], key))[1..] == RemoveByKey(items[1..], key);
      }
    }
  }

  lemma {:induction false} RemoveByKeyShrinks(items: seq<Product>, key: string)
    ensures |RemoveByKey(items, key)| <= |items|
    ensures |RemoveByKey(items, key)| == |items| ==> forall i :: 0 <= i < |items| ==> IdKey(items[i]) != key
    decreases |items|
  {
    if items != [] {
      RemoveByKeyShrinks(items[1..], key);
      assert forall i :: 1 <= i < |items| ==> items[i] == items[1..][i - 1];
    }
  }

  /** Deleting the same key twice leaves what deleting it once left. */
  lemma {:induction false} RemoveByKeyIdempotent(items: seq<Product>, key: string)
    ensures RemoveByKey(RemoveByKey(items, key), key) == RemoveByKey(items, key)
  {
    var r := RemoveByKey(items, key);
    RemoveByKeyKeepsExactlyOthers(items, key);
    forall i | 0 <= i < |r| ensures IdKey(r[i]) != key {
      assert multiset(r)[r[i]] > 0;
    }
    RemoveByKeyUnchanged(r, key);
  }

  // ---------------------------------------------------------------------------
  // One transition at a time

  /** Every pending handler sets the status to loading and touches nothing else. */
  lemma PendingSetsLoading(s: ProductState, a: Action)
    requires a.IsPending() && !a.IsUpdate()
    ensures Reduce(s, a) == ProductState(s.items, Loading, s.error)
  {
  }

  /** A fulfilled fetch makes the list exactly the payload; a stale error stays set. */
  lemma FetchFulfilledReplaces(s: ProductState, products: seq<Product>)
    ensures Reduce(s, FetchFulfilled(products)) == ProductState(products, Succeeded, s.error)
  {
  }

  lemma FetchRejectedFails(s: ProductState)
    ensures Reduce(s, FetchRejected) == ProductState(s.items, Failed, true)
  {
  }

  /** A fulfilled add appends the payload after every old product. */
  lemma AddFulfilledAppends(s: ProductState, p: Product)
    ensures var r := Reduce(s, AddFulfilled(p));
      && |r.items| == |s.items| + 1
      && r.items[..|s.items|] == s.items
      && r.items[|s.items|] == p
      && r.status == Succeeded && r.error == s.error
  {
  }

  /** A fulfilled delete keeps, in order, exactly the products whose key is not
      the payload. */
  lemma DeleteFulfilledRemoves(s: ProductState, key: string)
    ensures var r := Reduce(s, DeleteFulfilled(key));
      && IsSubsequence(r.items, s.items)
      && KeepsExactlyOthers(r.items, s.items, key)
      && r.status == Succeeded && r.error == s.error
  {
    RemoveByKeyKeepsExactlyOthers(s.items, key);
  }

  /** Deleting a key no product has leaves the list as it was, still reporting success. */
  lemma DeleteMissingKeyKeepsItems(s: ProductState, key: string)
    requires forall i :: 0 <= i < |s.items| ==> IdKey(s.items[i]) != key
    ensures Reduce(s, DeleteFulfilled(key)) == s.(status := Succeeded)
  {
    RemoveByKeyUnchanged(s.items, key);
  }

  /** Deleting a key twice in a row leaves the list deleting it once left. */
  lemma DeleteTwiceIsDeleteOnce(s: ProductState, key: string)
    ensures ReduceAll(s, [DeleteFulfilled(key), DeleteFulfilled(key)]) == Reduce(s, DeleteFulfilled(key))
  {
    var d := DeleteFulfilled(key);
    RemoveByKeyIdempotent(s.items, key);
    assert [d, d][1..] == [d];
    assert ReduceAll(s, [d, d]) == ReduceAll(Reduce(s, d), [d]) == Reduce(Reduce(s, d), d);
  }

  /** Deleting by the key "7" removes a product whose id is 7, stored as a
      number or as a string. */
  lemma DeleteMatchesNumberOrStringId(s: ProductState, n: JsString.SafeInteger, p: Product)
    requires p.id == NumberId(n) || p.id == StringId(JsString.IntToString(n))
    ensures p !in Reduce(s, DeleteFulfilled(JsString.IntToString(n))).items
  {
    var key := JsString.IntToString(n);
    var r := RemoveByKey(s.items, key);
    RemoveByKeyKeepsExactlyOthers(s.items, key);
    assert multiset(r)[p] == 0;
  }

  /** A rejected add or delete sets the status to failed and touches nothing else. */
  lemma OtherRejectionsFail(s: ProductState, a: Action)
    requires a == AddRejected || a == DeleteRejected
    ensures Reduce(s, a) == ProductState(s.items, Failed, s.error)
  {
  }

  lemma UpdateIsNoOp(s: ProductState, a: Action)
    requires a.IsUpdate()
    ensures Reduce(s, a) == s
  {
  }

  /** The error flag is set after an action exactly when it was set before or
      the action is a rejected fetch. */
  lemma ErrorOnlyFromFetchRejected(s: ProductState, a: Action)
    ensures Reduce(s, a).error <==> s.error || a == FetchRejected
  {
  }

  // ---------------------------------------------------------------------------
  // Sequences of actions

  lemma {:induction false} ReduceAllSnoc(s: ProductState, actions: seq<Action>, a: Action)
    ensures ReduceAll(s, actions + [a]) == Reduce(ReduceAll(s, actions), a)
    decreases |actions|
  {
    if actions == [] {
      assert actions + [a] == [a];
    } else {
      assert (actions + [a])[1..] == actions[1..] + [a];
      ReduceAllSnoc(Reduce(s, actions[0]), actions[1..], a);
    }
  }

  /** Nothing clears the error flag: after any run of actions it is set exactly
      when it was set at the start or some fetch was rejected. */
  lemma {:induction false} ErrorNeverCleared(s: ProductState, actions: seq<Action>)
    ensures ReduceAll(s, actions).error <==> s.error || FetchRejected in actions
    decreases |actions|
  {
    if actions != [] {
      ErrorNeverCleared(Reduce(s, actions[0]), actions[1..]);
      assert actions == [actions[0]] + actions[1..];
    }
  }

  /** A run made only of update actions leaves the state as it was. */
  lemma {:induction false} UpdatesLeaveStateAlone(s: ProductState, actions: seq<Action>)
    requires forall i :: 0 <= i < |actions| ==> actions[i].IsUpdate()
    ensures ReduceAll(s, actions) == s
    decreases |actions|
  {
    if actions != [] {
      UpdatesLeaveStateAlone(s, actions[1..]);
    }
  }

  /** Dispatching two runs back to back is dispatching their concatenation. */
  lemma {:induction false} ReduceAllAppend(s: ProductState, xs: seq<Action>, ys: seq<Action>)
    ensures ReduceAll(s, xs + ys) == ReduceAll(ReduceAll(s, xs), ys)
    decreases |xs|
  {
    if xs == [] {
      assert xs + ys == ys;
    } else {
      assert (xs + ys)[1..] == xs[1..] + ys;
      ReduceAllAppend(Reduce(s, xs[0]), xs[1..], ys);
    }
  }

  /** The status after a run is set by the last action that has a handler:
      loading if it is pending, succeeded if fulfilled, failed if rejected,
      whichever operation it belongs to. Update actions after it change
      nothing, and nothing before it matters. */
  lemma LastHandledActionSetsStatus(s: ProductState, actions: seq<Action>, a: Action, rest: seq<Action>)
    requires !a.IsUpdate()
    requires forall i :: 0 <= i < |rest| ==> rest[i].IsUpdate()
    ensures ReduceAll(s, actions + [a] + rest).status
      == if a.IsPending() then Loading else if a.IsFulfilled() then Succeeded else Failed
  {
    ReduceAllAppend(s, actions + [a], rest);
    ReduceAllSnoc(s, actions, a);
    UpdatesLeaveStateAlone(ReduceAll(s, actions + [a]), rest);
  }
}
