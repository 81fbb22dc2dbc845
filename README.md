# Cart store of the React Native shopping-cart hook

This project models the cart state container of `src/hooks/cart.tsx`: the
`Product` line item (`id`, `title`, `image_url`, `price`, `quantity`) and the
provider that holds the ordered `products` list and replaces it through
`addToCart`, `increment` and `decrement`.

- `cart_items.dfy` (module `CartItems`) holds the list logic. The hook's
  `products.map(...)` with object spread becomes the recursive function
  `Adjust`, its two `products.filter(...)` calls become `Matching` and
  `Without`, and the array-spread append becomes `ps + [NewEntry(item)]`.
  `AddToCart`, `Increment` and `Decrement` are the lists the three operations
  install. The lemmas state what each operation does to the list and that
  each one keeps the cart invariant `WellFormed`: ids are unique and every
  quantity is at least 1.
- `cart_store.dfy` (module `CartStore`) holds the class `CartProvider`. Its
  field `products` is the state that `setProducts` replaces. Its ghost field
  `saved` logs every snapshot handed to `saveLocalProducts`, in issue order.
  The postcondition of each of the three operations gives the new list as the
  `CartItems` function of the old one, appends that list to `saved`, and keeps
  `Valid()`; `Load` does neither. The
  `forEach` loop in `decrement` that sets the `removeFromCart` flag is the
  read-only method `RemovalFlag`, a `while` loop proved against `RemovalDue`.
  `Scenarios` checks one sequence of calls against the class contracts,
  starting from an empty cart: add, increment of a missing id, add again,
  decrement, decrement.

`price` is a JavaScript number that is only copied, never computed with, so it
is carried as a `real`. `quantity` is an unbounded `int`. No code path
constrains a hydrated snapshot, so `Load` installs whatever it is given.

## Model

| member | source | states |
|---|---|---|
| `CartItems.NewEntry` | src/hooks/cart.tsx:76-79 | no contract of its own: the entry `{...product, quantity: 1}`; its use is stated by `CartItems.AddToCartNew` |
| `CartItems.Adjust` | src/hooks/cart.tsx:62-71 | no contract of its own: the `map` with object spread shared by `addToCart` (62-71), `increment` (92-101) and `decrement` (127-136); its behaviour is stated by `CartItems.AdjustAt`, `CartItems.AdjustKeepsIds`, `CartItems.AdjustAbsent`, `CartItems.AdjustUnique` and `CartItems.AdjustKeepsUnique` |
| `CartItems.Matching` | src/hooks/cart.tsx:59 | no contract of its own: `products.filter(p => p.id === product.id)`; its behaviour is stated by `CartItems.MatchingNonEmpty` |
| `CartItems.Without` | src/hooks/cart.tsx:120-122 | no contract of its own: `products.filter(productCart => id !== productCart.id)`; its behaviour is stated by `CartItems.WithoutMembers`, `CartItems.WithoutAppend`, `CartItems.WithoutAbsent`, `CartItems.WithoutUnique`, `CartItems.WithoutKeepsUnique` and `CartItems.WithoutKeepsPositive` |
| `CartItems.RemovalDue` | src/hooks/cart.tsx:111-117 | no contract of its own: the value the `forEach` leaves in `removeFromCart`; the loop is proved equal to it by `CartStore.RemovalFlag` |
| `CartItems.AddToCart` | src/hooks/cart.tsx:59-85 | no contract of its own: the list `addToCart` installs; its behaviour is stated by `CartItems.AddToCartExisting`, `CartItems.AddToCartNew`, `CartItems.AddToCartContains` and `CartItems.AddToCartWellFormed` |
| `CartItems.Increment` | src/hooks/cart.tsx:92-101 | no contract of its own: the list `increment` installs; its behaviour is stated by `CartItems.IncrementPresent`, `CartItems.IncrementAbsent` and `CartItems.IncrementWellFormed` |
| `CartItems.Decrement` | src/hooks/cart.tsx:111-138 | no contract of its own: the list `decrement` installs; its behaviour is stated by `CartItems.DecrementRemoves`, `CartItems.DecrementRemovesUnique`, `CartItems.DecrementLowers`, `CartItems.DecrementAbsent`, `CartItems.DecrementKeepsPositive` and `CartItems.DecrementWellFormed` |
| `CartItems.AdjustAt` | src/hooks/cart.tsx:62-71 | the `map` keeps the length, and each entry becomes its own image: the entry with the given id gets `quantity + delta` with its other fields kept; every other entry is unchanged |
| `CartItems.AdjustKeepsIds` | src/hooks/cart.tsx:92-101 | the `map` keeps every entry's id at its position, so length and order are preserved |
| `CartItems.AdjustAbsent` | src/hooks/cart.tsx:92-101 | when no entry has the id, the `map` returns the list unchanged |
| `CartItems.AdjustUnique` | src/hooks/cart.tsx:127-136 | with unique ids, the `map` changes exactly the entry at position k, and only its quantity, by delta |
| `CartItems.AdjustKeepsUnique` | src/hooks/cart.tsx:62-71 | the `map` keeps ids unique |
| `CartItems.MatchingNonEmpty` | src/hooks/cart.tsx:59-61 | `filter(p => p.id === id).length > 0` holds if and only if some entry has that id |
| `CartItems.WithoutMembers` | src/hooks/cart.tsx:120-122 | an entry is in the filtered list if and only if it is in the input and its id differs from the removed id |
| `CartItems.WithoutAppend` | src/hooks/cart.tsx:120-122 | the filter distributes over concatenation, so surviving entries keep their relative order |
| `CartItems.WithoutAbsent` | src/hooks/cart.tsx:120-122 | when no entry has the id, the filter returns the list unchanged |
| `CartItems.WithoutUnique` | src/hooks/cart.tsx:120-122 | with unique ids, the filter cuts out exactly the entry at position k: the result is `ps[..k] + ps[k+1..]` |
| `CartItems.WithoutKeepsUnique` | src/hooks/cart.tsx:120-122 | the filter keeps ids unique |
| `CartItems.WithoutKeepsPositive` | src/hooks/cart.tsx:120-122 | the filter keeps every quantity at least 1 |
| `CartItems.AddToCartExisting` | src/hooks/cart.tsx:59-73 | an id already present, with unique ids: the length is kept, that entry's quantity rises by exactly 1, and its title, image and price stay as stored rather than taken from the incoming item |
| `CartItems.AddToCartNew` | src/hooks/cart.tsx:75-83 | a new id: the result is the unchanged list followed by one entry built from the item's fields with quantity 1 |
| `CartItems.AddToCartContains` | src/hooks/cart.tsx:57-85 | after `addToCart` the item's id is in the cart, on either branch |
| `CartItems.AddToCartWellFormed` | src/hooks/cart.tsx:59-85 | `addToCart` keeps ids unique and quantities at least 1, because it appends only when no entry has the id |
| `CartItems.IncrementPresent` | src/hooks/cart.tsx:92-103 | an id present, with unique ids: that entry's quantity rises by 1; length, order and every other entry are unchanged |
| `CartItems.IncrementAbsent` | src/hooks/cart.tsx:92-101 | an absent id leaves the list identical |
| `CartItems.IncrementWellFormed` | src/hooks/cart.tsx:92-103 | `increment` keeps ids unique and quantities at least 1 |
| `CartItems.DecrementRemoves` | src/hooks/cart.tsx:111-125 | when an entry with the id has quantity 1 or less, every entry with that id is removed and exactly the others remain, in their original order |
| `CartItems.DecrementRemovesUnique` | src/hooks/cart.tsx:111-125 | with unique ids and the matching entry at quantity 1 or less, the result is the list with position k cut out |
| `CartItems.DecrementLowers` | src/hooks/cart.tsx:126-138 | with unique ids and the matching entry above 1, its quantity falls by exactly 1 and the length is kept |
| `CartItems.DecrementAbsent` | src/hooks/cart.tsx:111-138 | an absent id leaves the list unchanged: the flag stays false and the `map` is a no-op |
| `CartItems.DecrementKeepsPositive` | src/hooks/cart.tsx:114-131 | `decrement` never leaves a quantity below 1, even with duplicate ids: an entry is removed instead of reaching 0 |
| `CartItems.DecrementWellFormed` | src/hooks/cart.tsx:111-138 | `decrement` keeps ids unique and quantities at least 1 |
| `CartStore.RemovalFlag` | src/hooks/cart.tsx:111-117 | the `forEach` sets `removeFromCart` if and only if some entry with the id has quantity 1 or less |
| `CartStore.CartProvider.constructor` | src/hooks/cart.tsx:29 | the cart starts empty, with nothing written to storage, and is well formed |
| `CartStore.CartProvider.Load` | src/hooks/cart.tsx:31-47 | hydration replaces the list with the parsed snapshot when storage held one, and otherwise leaves it as it was |
| `CartStore.CartProvider.AddToCart` | src/hooks/cart.tsx:57-88 | the new list is `CartItems.AddToCart` of the old one, that list is logged as written to storage, and a well-formed cart stays well formed |
| `CartStore.CartProvider.Increment` | src/hooks/cart.tsx:90-107 | the new list is `CartItems.Increment` of the old one, that list is logged as written to storage, even when nothing changed, and a well-formed cart stays well formed |
| `CartStore.CartProvider.Decrement` | src/hooks/cart.tsx:109-143 | the new list is `CartItems.Decrement` of the old one, with the branch chosen by the flag `RemovalFlag` computes; that list is logged as written to storage, and a well-formed cart stays well formed |

## Left out

- AsyncStorage I/O (`loadProducts`, `saveLocalProducts`, src/hooks/cart.tsx:31-55) is foreign asynchronous I/O. A read becomes the `Option` parameter of `Load`. A write becomes an entry appended to the ghost log `saved`. The model does not capture completion order, the race between writes, or the swallowed `console.error` failures.
- `JSON.parse` / `JSON.stringify` (src/hooks/cart.tsx:37, 51) are library calls with no visible codec, so there is no serialisation round trip to state. An unparsable or absent snapshot is `None`.
- CartStore.CartProvider.Load: does not re-establish `Valid()`, because the hook installs a hydrated snapshot without checking ids or quantities.
- React plumbing (`createContext`, `useState`, `useCallback`, `useMemo`, the JSX provider, src/hooks/cart.tsx:1-9, 26-29, 145-150) is framework glue.
- Stale reads are not captured: the model's operations always start from the latest list. In the hook each `useCallback` closes over the `products` of the last render (dependency lists at src/hooks/cart.tsx:87, 106, 142) and installs its result with a plain `setProducts(value)`. Two operations issued before a re-render therefore both start from the same list, and the second overwrites the first: `increment(id); increment(id);` in one handler raises the quantity by 1, where the model raises it by 2.
- `useCart` (src/hooks/cart.tsx:153-161) only throws when no provider exists. In the model, callers hold a `CartProvider` reference, so that case cannot arise.
- `price` is a floating-point number that is only copied. `quantity` is a JavaScript number; the model treats it as an unbounded integer and does not capture loss of precision above 2^53.
- Extra fields passed to `addToCart` beyond `id`, `title`, `image_url` and `price` would be copied by the object spread. The model's `CatalogItem` has only those four fields.
