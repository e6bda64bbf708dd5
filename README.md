# uiautomator-go selectors, in Dafny

A model of the selector core of uiautomator-go, a Go client that drives
Android UI automation over a JSON-RPC server. It covers four parts of
`selector.go`:

- **The selector compiler.** `parseSelector` checks a raw attribute map
  against the fixed table `_MASK` of 25 attributes, each with a one-bit code.
  It copies the attributes and ORs their codes into `mask`. It always adds
  `mask`, `childOrSibling` and `childOrSiblingSelector`, and it rejects any
  key outside the table. `selectors.dfy` holds:
  - the imperative loop, as the method `ParseSelector`;
  - the function `Compile`, which states its result on the whole key set;
  - `Mask`, the OR of the codes of a key set, built in an arbitrary order.

  The lemmas about `Mask` show three things:
  - the OR does not depend on the order of the keys;
  - the mask is the sum of the codes;
  - the mask identifies the attribute set.
- **Parameter selection.** `getParams` sends the bare server handle
  (`__UID`) when there is one, and the whole selector otherwise.
- **The Element state machine** (`elements.dfy`). An `Element` holds:
  - `original`, the caller's own raw map, shared with the caller because Go
    maps are references; it is modelled as the class `SelectorRef`;
  - `selector`, the compiled selector.

  The operations are methods on the class `Element`: `Eq`, `Child`,
  `Sibling`, `childByMethod` and its two wrappers, and
  `GetElementBySelector`. Each method is specified by a pure step function
  on the two fields (`EqStep`, `RelateStep`, `ChildByMethodStep`). The
  lemmas are about those step functions:
  - which field each operation changes;
  - that a later `Eq` or relation discards an earlier one;
  - the invariant `Consistent`, which every operation keeps for the element
    it runs on. An `Eq` through another element that shares the raw map
    rewrites this element's `original` but not its `selector`, so this
    element is no longer `Consistent` until its own `Eq` runs.
- **Integer geometry** (`geometry.dfy`), with the existence check that
  `swipe` makes before it reads the rectangle:
  - the rectangle `GetRect` picks;
  - the `WaitForExists` verdict;
  - the integer start and end points `swipe` computes. Go's division there
    truncates toward zero, and is written out as `GoHalf`.

The answers of the remote server are parameters of the model: the string
`childByMethod` receives, the boolean of the wait, and the element info.

`childByMethod` never writes `original`, so on an element whose fields are
consistent `Eq` succeeds even after a handle swap (`EqKeepsConsistent`). `Eq`
can fail only if the caller writes a non-attribute key into the shared map.
The only key an element writes there is `instance`, an attribute: an `Eq`
through another element that shares the map keeps it compiling
(`EqOnSharedMap`), so this element's own `Eq` still succeeds
(`EqSucceedsIff`).

## Model

| member | source | states |
|---|---|---|
| Selectors.TableRow | selector.go:50-76 | every attribute's code is a single bit below 2^25, and `AttributeOf` maps the code back to that attribute |
| Selectors.CodesDisjoint | selector.go:50-76 | two attributes' codes share a bit exactly when they are the same attribute |
| Selectors.TableDistinctCodes | selector.go:50-76 | the 25 codes are pairwise disjoint powers of two |
| Selectors.TableBound | selector.go:50-76 | every code is below 2^25 |
| Selectors.ReservedKeysNotInTable | selector.go:50-76 | `mask`, `childOrSibling`, `childOrSiblingSelector` and `__UID` are not attributes |
| Selectors.OrOfUnique | selector.go:474-478 | two ORs of the same set of codes are equal, so the accumulated mask does not depend on iteration order |
| Selectors.Mask | selector.go:470-478 | the mask of a key set has every code of the set and no bit outside them |
| Selectors.MaskInsert | selector.go:477 | OR-ing one more attribute's code into the mask of a set gives the mask of the larger set |
| Selectors.MaskBit | selector.go:50-76 | an attribute's bit is set in the mask exactly when the attribute is present, and the mask stays below 2^25 |
| Selectors.MaskIsSum | selector.go:470-478 | adding a new attribute adds its code, so the mask is the sum of the codes present |
| Selectors.MaskDeterminesKeys | selector.go:470-478 | two attribute sets have the same mask exactly when they are equal |
| Selectors.Compile | selector.go:466-484 | compiling succeeds exactly when every key is an attribute; otherwise the error is "Invalid selector" naming the raw map |
| Selectors.ParseSelector | selector.go:466-484 | the loop, taking keys in any order and stopping at the first non-attribute, returns exactly `Compile` of its input |
| Selectors.CompileShape | selector.go:467-477 | a compiled selector has the raw keys plus the three added keys, the raw values unchanged, two empty relation lists, and the mask of the raw keys |
| Selectors.CompileRoundTrip | selector.go:474-477 | removing the three added keys from a compiled selector gives back the raw map |
| Selectors.CompileRejectsCompiled | selector.go:470-480 | a compiled selector is itself rejected by the compiler, with an error naming it |
| Selectors.CompileSucceedsOnKeys | selector.go:474-480 | whether compiling succeeds depends only on the key set |
| Selectors.GetParams | selector.go:486-491 | the `__UID` value when present, otherwise the whole map |
| Selectors.GetParamsWholeIff | selector.go:486-491 | the whole selector is sent exactly when it has no `__UID` key |
| Selectors.CompiledSentWhole | selector.go:466-472 | a freshly compiled selector has no handle and is sent whole |
| Elements.InstanceIsAttribute | selector.go:75 | `instance` is an attribute |
| Elements.EqSucceedsIff | selector.go:164-172 | `Eq` fails exactly when the raw map has a key other than `instance` that is not an attribute |
| Elements.InstanceKeepsCompiling | selector.go:166-169 | writing `instance` into a raw map that compiles leaves one that still compiles |
| Elements.EqResets | selector.go:164-176 | after a successful `Eq`, the raw map holds the new index and the selector is its fresh compilation: no relation, no handle, sent whole |
| Elements.EqLastWins | selector.go:164-176 | `Eq(i)` then `Eq(j)` gives the same state and result as `Eq(j)` alone |
| Elements.RelateFrame | selector.go:319-329 | `Child`/`Sibling` change nothing when the related selector does not compile; otherwise they set only the two relation fields, and never touch the raw map |
| Elements.RelateLastWins | selector.go:325-326 | a successful `Child`/`Sibling` discards any earlier relation: relations do not nest |
| Elements.RelationsBesideAttributes | selector.go:325-326 | setting the relation fields leaves the attributes, the mask and the handle as they were |
| Elements.RelateAfterHandleUnseen | selector.go:325-326 | once the selector is a handle, `Child`/`Sibling` do not change what is sent |
| Elements.ChildByMethodOutcome | selector.go:343-360 | `childByMethod` succeeds exactly when the child compiles and the call succeeds; on failure nothing changes; on success the selector is exactly the handle, which is what is sent; the raw map is never touched |
| Elements.ChildRequestSendsWholeSelector | selector.go:348-351 | the call sends the whole compiled selector, so after an earlier handle swap it sends the handle map rather than the bare handle |
| Elements.CreatedConsistent | selector.go:454-464 | a newly created element is consistent |
| Elements.EqKeepsConsistent | selector.go:164-176 | on a consistent element `Eq` never fails and keeps the element consistent |
| Elements.RelateKeepsConsistent | selector.go:319-329 | `Child`/`Sibling` keep an element consistent |
| Elements.ChildByMethodKeepsConsistent | selector.go:331-361 | `childByMethod` keeps an element consistent |
| Elements.Element.Eq | selector.go:164-176 | writes the index into the shared raw map, then recompiles it, as `EqStep` says |
| Elements.Element.Child | selector.go:319-329 | as `RelateStep` with kind "child" |
| Elements.Element.Sibling | selector.go:374-384 | as `RelateStep` with kind "sibling" |
| Elements.Element.ChildByMethod | selector.go:331-361 | sends the request `ChildRequest`, then updates the state as `ChildByMethodStep` says for the server's reply |
| Elements.Element.ChildByText | selector.go:363-365 | `childByMethod` with the method name "childByText" |
| Elements.Element.ChildByDescription | selector.go:367-369 | `childByMethod` with the method name "childByDescription" |
| Elements.GetElementBySelector | selector.go:454-464 | succeeds exactly when the raw map compiles; the new element holds the caller's map itself and its compilation, and is consistent |
| Elements.EqOnSharedMap | selector.go:455 | `Eq` on one element changes the raw map of another element made from the same map, not its compiled selector, and that raw map still compiles if it did before |
| Geometry.GetRect | selector.go:101-112 | the info error is passed on; otherwise a rectangle choice is returned |
| Geometry.GetRectChoice | selector.go:107-110 | the bounds are used whenever present; without bounds the visible bounds are returned, whatever they are; the result is nil exactly when both are |
| Geometry.WaitForExists | selector.go:201-208 | no error exactly when the server answered true; every other answer becomes the "Element not found" error -32002 |
| Geometry.WaitForExistsForgetsReason | selector.go:201-206 | a transport error and a false answer give the same error |
| Geometry.GoHalf | selector.go:224 | Go's halving: a remainder of at most one, carrying the sign of the dividend |
| Geometry.GoHalfUnique | selector.go:224 | that contract determines the halving |
| Geometry.SwipeStart | selector.go:223-224 | the start point is the truncated midpoint, within half a pixel of the true midpoint on each axis |
| Geometry.SwipeEnd | selector.go:226-253 | an end point exists exactly for "up", "down", "left" and "right" |
| Geometry.Swipe | selector.go:214-253 | a failed wait gives "Element not found"; then an info error is returned; a gesture is requested exactly when the element exists, has a rectangle and the direction is known; an unknown direction does nothing |
| Geometry.SwipeUp | selector.go:259-261 | `swipe("up")`: never a no-op, and the gesture is vertical |
| Geometry.SwipeDown | selector.go:266-268 | `swipe("down")`: never a no-op, and the gesture is vertical |
| Geometry.SwipeLeft | selector.go:273-275 | `swipe("left")`: never a no-op, and the gesture is horizontal |
| Geometry.SwipeRight | selector.go:280-282 | `swipe("right")`: never a no-op, and the gesture is horizontal |
| Geometry.NamedSwipes | selector.go:256-282 | `SwipeUp`/`Down`/`Left`/`Right` start at the midpoint and end at `(cx, top)`, `(cx, bottom-1)`, `(left, cy)` and `(right-1, cy)` |
| Geometry.SwipeStartInside | selector.go:223-224 | the start point lies inside a well-formed rectangle |
| Geometry.SwipeUpLeftDirection | selector.go:226-244 | the up and left swipes never move away from their edge |
| Geometry.SwipeDownRightDirection | selector.go:233-250 | the down and right swipes move toward their edge on a non-empty rectangle with non-negative coordinate sums |
| Geometry.SwipeDownAboveStart | selector.go:224-236 | with a negative coordinate sum, truncation puts the start below the "down" end point: `Rect(0,-1,1,0)` swipes from y 0 to y -1 |

## Left out

- The transport: `ua.post`, the HTTP request and the JSON decoding in `GetInfo`, `Count`, `GetText`, `SetText`, `ClearText`, `WaitForExists` and `childByMethod`. The server's answers are parameters, and `Count`, `GetText`, `SetText` and `ClearText` are only calls of it, so they are not modelled.
- `Center`, `Click` and `LongClick`: the center point is float32 arithmetic, and the click is a call into the UIAutomator client, which is not part of this model.
- `ua.Swipe`: the model records the gesture `swipe` asks for (`Swiped`). It does not model the conversion of the points to float32, the 0.1 duration, or the error the device call returns.
- The partial map `parseSelector` returns alongside its error. With Go's unspecified map order, its contents are not determined.
- The text of the "Invalid selector: %v" error: `InvalidSelector` carries the raw map instead of its formatted string.
- The returned `*Element` of `Eq`, `Child`, `Sibling` and `childByMethod`: it is the receiver on success and nil on failure. The error alone determines which, so the methods return only the error.
- The `ua` and `position` fields of `Element`: the first is the client, and the second is never read by the modelled code.
- A nil raw map: `GetElementBySelector(nil)` compiles, and a later `Eq` then panics writing into the nil map. `SelectorRef` always holds a map, so this panic is not modelled.
- Geometry.Swipe: a nil rectangle makes `swipe` dereference a nil pointer and panic. It is modelled as the outcome `NilRect`, not as a panic.
- Coordinates: `Rect` coordinates are unbounded integers, so overflow of `left + right` beyond 64 bits is not modelled. The mask is a `bv32`; Go's `int` is wider, but `MaskBit` shows the mask stays below 2^25.
- The demo program in `examples/selector.go`, which configures a network client and calls the API.
