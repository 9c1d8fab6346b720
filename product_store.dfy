/** The products slice as its case handlers in src/app/slices/productSlice.tsx
    run: each handler assigns fields of the mutable draft state, appends to its
    list, or replaces the list with a filtered copy. Every method here is
    proved to leave the draft in the state the reducer `Reduce` describes. */
module Store {
  import opened ProductType
  import opened ProductSlice

  /** Builds `items.filter(p => String(p.id) !== key)` one product at a time. */
  method KeepOthers(items: seq<Product>, key: string) returns (kept: seq<Product>)
    ensures kept == RemoveByKey(items, key)
  {
    kept := [];
    var i := 0;
    while i < |items|
      invariant 0 <= i <= |items|
      invariant kept == RemoveByKey(items[..i], key)
    {
      assert items[..i + 1] == items[..i] + [items[i]];
      RemoveByKeyAppend(items[..i], [items[i]], key);
      if IdKey(items[i]) != key {
        kept := kept + [items[i]];
      }
      i := i + 1;
    }
    assert items[..i] == items;
  }

  /** The `products` entry of the store: the draft the case handlers update. */
  class ProductStore {
    var items: seq<Product>
    var status: Status
    var error: bool

    function State(): ProductState
      reads this
    {
      ProductState(items, status, error)
    }

    /** `initialState`. */
    constructor ()
      ensures State() == InitialState()
    {
      items := [];
      status := Idle;
      error := false;
    }

    /** The pending handler of fetch, add and delete: `state.status = 'loading'`. */
    method SetLoading()
      modifies this
      ensures status == Loading && items == old(items) && error == old(error)
    {
      status := Loading;
    }

    /** Fetch fulfilled: the payload becomes the list. */
    method ReplaceItems(products: seq<Product>)
      modifies this
      ensures status == Succeeded && items == products && error == old(error)
    {
      status := Succeeded;
      items := products;
    }

    /** Fetch rejected: the only handler that sets the error flag. */
    method FailFetch()
      modifies this
      ensures status == Failed && items == old(items) && error
    {
      status := Failed;
      error := true;
    }

    /** Add fulfilled: `state.items.push(action.payload)`. */
    method AppendItem(p: Product)
      modifies this
      ensures status == Succeeded && items == old(items) + [p] && error == old(error)
    {
      status := Succeeded;
      items := items + [p];
    }

    /** Add rejected and delete rejected. */
    method SetFailed()
      modifies this
      ensures status == Failed && items == old(items) && error == old(error)
    {
      status := Failed;
    }

    /** Delete fulfilled: keep only the products whose key is not `key`. */
    method RemoveItems(key: string)
      modifies this
      ensures status == Succeeded && items == RemoveByKey(old(items), key) && error == old(error)
    {
      status := Succeeded;
      items := KeepOthers(items, key);
    }

    /** Routes an action to its case handler; update actions have none. */
    method Dispatch(a: Action)
      modifies this
      ensures State() == Reduce(old(State()), a)
    {
      match a
      case FetchPending | AddPending | DeletePending => SetLoading();
      case FetchFulfilled(products) => ReplaceItems(products);
      case FetchRejected => FailFetch();
      case AddFulfilled(p) => AppendItem(p);
      case AddRejected | DeleteRejected => SetFailed();
      case DeleteFulfilled(key) => RemoveItems(key);
      case UpdatePending | UpdateFulfilled(_) | UpdateRejected =>
    }

    /** Dispatches `actions` one after another, in the order given. */
    method DispatchAll(actions: seq<Action>)
      modifies this
      ensures State() == ReduceAll(old(State()), actions)
    {
      ghost var start := State();
      var i := 0;
      while i < |actions|
        invariant 0 <= i <= |actions|
        invariant State() == ReduceAll(start, actions[..i])
      {
        assert actions[..i + 1] == actions[..i] + [actions[i]];
        ReduceAllSnoc(start, actions[..i], actions[i]);
        Dispatch(actions[i]);
        i := i + 1;
      }
      assert actions[..i] == actions;
    }
  }
}
