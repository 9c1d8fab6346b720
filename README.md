# Product slice: a verified model

This project models the products slice of a small product-catalogue web client
(`src/app/slices/productSlice.tsx`). The slice keeps the product list, a status
flag (`idle`, `loading`, `succeeded`, `failed`) and an error flag. It reacts to
the pending, fulfilled and rejected actions of the asynchronous fetch, add,
update and delete operations. The HTTP calls behind those operations are not
modelled. Each action carries the payload its call resolved with.

Files:

- `jsstring.dfy` (module `JsString`): JavaScript's `String(n)` for safe
  integers, with a parser that reads the result back.
- `product.dfy` (module `ProductType`): the product record and `IdKey`, the
  `String(product.id)` coercion that delete matches on.
- `product_slice.dfy` (module `ProductSlice`): the state, the actions, the
  reducer as a pure function `Reduce`, its fold `ReduceAll` over a run of
  actions, the delete filter `RemoveByKey`, and the lemmas about them.
- `product_store.dfy` (module `Store`): the class `ProductStore`. It mirrors
  the Immer-draft style of the case handlers: each method assigns fields or
  appends to the list in place. Each method is proved to reach the state
  `Reduce` gives. `KeepOthers` builds the filtered list with a loop and is
  proved equal to `RemoveByKey`.

Modelling decisions:

- Product ids. The declared type makes every field a string. The remote
  service returns numeric ids, and that is why delete coerces with `String`.
  So `id` is a tagged value: a number, a string, or absent (`String(undefined)`
  is `"undefined"`). Product 7 is matched by the key `"7"` whether its id is
  stored as `7` or as `"7"`. A numeric id is a safe integer, of magnitude at
  most 2^53 - 1. In that range `String` writes its exact decimal digits.
- Update. Its case handlers are commented out (lines 74-87), so its three
  actions reach no handler and leave the state unchanged. The model keeps
  that no-op. It does not model the commented-out reconciliation.
- Error flag. No handler clears `error`. A fulfilled fetch after a rejected
  one leaves it `true`. The model keeps that behaviour and proves it over any
  run of actions.
- Unique ids. Product ids are meant to be unique in the list. The code does
  not enforce this: a fetched list and an added product are stored as given.
  The model follows the code. Delete removes every product with a matching
  key, not just the first.

## Model

| member | source | states |
|---|---|---|
| `ProductSlice.InitialState` | src/app/slices/productSlice.tsx:38-42 | The initial state has an empty list, status idle and the error flag clear. |
| `ProductSlice.PendingSetsLoading` | src/app/slices/productSlice.tsx:50-92 | The pending handlers of fetch (50-52), add (63-65) and delete (90-92) set status to loading. They leave the list and the error flag unchanged. |
| `ProductSlice.FetchFulfilledReplaces` | src/app/slices/productSlice.tsx:53-56 | A fulfilled fetch sets status to succeeded. The list becomes exactly the payload, in the same order. A previously set error flag stays set. |
| `ProductSlice.FetchRejectedFails` | src/app/slices/productSlice.tsx:57-60 | A rejected fetch sets status to failed and sets the error flag. The list is unchanged. |
| `ProductSlice.AddFulfilledAppends` | src/app/slices/productSlice.tsx:66-69 | A fulfilled add makes the list one longer. The old list is kept as a prefix and the payload is the last element. Status becomes succeeded and the error flag is unchanged. |
| `ProductSlice.OtherRejectionsFail` | src/app/slices/productSlice.tsx:70-100 | A rejected add (70-72) or a rejected delete (98-100) sets status to failed. The list and the error flag are unchanged. |
| `ProductSlice.DeleteFulfilledRemoves` | src/app/slices/productSlice.tsx:93-97 | A fulfilled delete with key k sets status to succeeded and leaves the error flag unchanged. The new list is an order-preserving subsequence of the old one. A product whose key is k occurs zero times; any other product occurs as often as before. |
| `ProductSlice.DeleteMissingKeyKeepsItems` | src/app/slices/productSlice.tsx:93-97 | Deleting a key that no product has leaves the list unchanged and still reports success. |
| `ProductSlice.DeleteTwiceIsDeleteOnce` | src/app/slices/productSlice.tsx:93-97 | Two fulfilled deletes with the same key in a row give the same state as one. |
| `ProductSlice.DeleteMatchesNumberOrStringId` | src/app/slices/productSlice.tsx:96 | After deleting by the decimal string of n, no product remains whose id is the number n or the string spelling of n. |
| `ProductSlice.RemoveByKeyCharacterised` | src/app/slices/productSlice.tsx:96 | The filter's result is the one and only order-preserving subsequence that drops every product with key k and keeps every other occurrence. |
| `ProductSlice.RemoveByKeyUnchanged` | src/app/slices/productSlice.tsx:96 | The filter returns its input unchanged if and only if no product in it has key k. |
| `ProductSlice.RemoveByKeyIdempotent` | src/app/slices/productSlice.tsx:96 | Filtering by the same key a second time changes nothing. |
| `ProductSlice.RemoveByKeyAppend` | src/app/slices/productSlice.tsx:96 | Filtering a concatenation gives the concatenation of the filtered parts. This is what lets the filter be built one product at a time. |
| `ProductSlice.UpdateIsNoOp` | src/app/slices/productSlice.tsx:74-87 | Pending, fulfilled and rejected update actions leave the whole state unchanged, because their handlers are commented out. |
| `ProductSlice.UpdatesLeaveStateAlone` | src/app/slices/productSlice.tsx:74-87 | Any run made only of update actions leaves the whole state unchanged. |
| `ProductSlice.ErrorOnlyFromFetchRejected` | src/app/slices/productSlice.tsx:59 | After one action the error flag is set if and only if it was set before or the action is a rejected fetch. |
| `ProductSlice.ErrorNeverCleared` | src/app/slices/productSlice.tsx:44-103 | After any run of actions the error flag is set if and only if it was set at the start or the run contains a rejected fetch. So once set, it stays set. |
| `ProductSlice.LastHandledActionSetsStatus` | src/app/slices/productSlice.tsx:50-100 | The final status is decided by the last handled action: loading if it is pending, succeeded if fulfilled, failed if rejected. The operation it belongs to, everything before it, and any update actions after it do not matter. This is last-write-wins. |
| `ProductSlice.ReduceAllAppend` | src/app/slices/productSlice.tsx:44-103 | Dispatching two runs one after the other gives the state that dispatching their concatenation gives. |
| `ProductSlice.ReduceAllSnoc` | src/app/slices/productSlice.tsx:44-103 | Dispatching one more action after a run gives the reducer applied to the state the run left. |
| `ProductType.NumberIdKeysDistinct` | src/app/slices/productSlice.tsx:96 | Two products with numeric ids have the same coerced key if and only if their ids are equal. |
| `ProductType.NumberAndStringIdsAgree` | src/app/slices/productSlice.tsx:96 | A string id that matches a numeric id's key reads back as that number. |
| `JsString.IntToStringRoundTrip` | src/app/slices/productSlice.tsx:96 | Reading back the decimal text that `String(n)` writes for a safe integer n gives n again. |
| `JsString.IntToStringInjective` | src/app/slices/productSlice.tsx:96 | Two safe integers give the same `String(n)` text if and only if they are equal. |
| `JsString.DecimalRoundTrip` | src/app/slices/productSlice.tsx:96 | The digits written for a natural number have that number as their value. |
| `Store.KeepOthers` | src/app/slices/productSlice.tsx:96 | The loop builds exactly the filtered list. |
| `Store.ProductStore.constructor` | src/app/slices/productSlice.tsx:38-42 | A new store holds the initial state. |
| `Store.ProductStore.SetLoading` | src/app/slices/productSlice.tsx:50-52 | Sets status to loading. The list and the error flag are unchanged. |
| `Store.ProductStore.ReplaceItems` | src/app/slices/productSlice.tsx:53-56 | Sets status to succeeded and makes the list the payload. The error flag is unchanged. |
| `Store.ProductStore.FailFetch` | src/app/slices/productSlice.tsx:57-60 | Sets status to failed and sets the error flag. The list is unchanged. |
| `Store.ProductStore.AppendItem` | src/app/slices/productSlice.tsx:66-69 | Sets status to succeeded and appends the payload to the list. The error flag is unchanged. |
| `Store.ProductStore.SetFailed` | src/app/slices/productSlice.tsx:70-72 | Sets status to failed. The list and the error flag are unchanged. |
| `Store.ProductStore.RemoveItems` | src/app/slices/productSlice.tsx:93-97 | Sets status to succeeded and replaces the list with the filtered list. The error flag is unchanged. |
| `Store.ProductStore.Dispatch` | src/app/slices/productSlice.tsx:44-103 | Running the case handler for an action leaves the store in the state the reducer gives for that action. |
| `Store.ProductStore.DispatchAll` | src/app/slices/productSlice.tsx:44-103 | Dispatching a run of actions in order leaves the store in the state the fold of the reducer over the run gives. |

## Left out

- The async thunks (`src/app/slices/productSlice.tsx:7-30`) are HTTP calls to a remote service. Only the actions they produce are modelled. Their payloads are parameters.
- Interleaving of in-flight operations is concurrency. A run of actions is taken in the order the responses arrive. `LastHandledActionSetsStatus` states what that order decides.
- Redux Toolkit and Immer are not modelled: action-type strings, draft immutability, and the store wiring in `src/app/store.tsx`. `ProductStore` stands for the draft the handlers receive.
- The commented-out update reconciliation (`src/app/slices/productSlice.tsx:78-84`) is not modelled as a variant. Update actions are modelled as the no-op they are.
- The view components (`src/components/Tables/TableTwo.tsx`, `src/components/Tables/ProductDetails.tsx`) are UI and are not part of this model.
- IdKey: numeric ids are limited to safe integers (magnitude at most 2^53 - 1), where `String(n)` writes the exact decimal digits. Larger numbers are not modelled. Above 2^53, `String` writes the shortest digits that round to the same double, padded with zeros (`String(2**64)` is `"18446744073709552000"`). From 10^21 it uses exponent form. Non-integral and non-finite numbers, and ids of any other runtime type, are not modelled either.
- Product: fields other than `id`, `title`, `description` and `image` are carried as an opaque string map that never repeats those four keys. The reducer never reads them, so their runtime types (a numeric price, for instance) make no difference to the model.
