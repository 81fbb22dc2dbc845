/**
  The list logic of the cart hook: the `Product` line item, the three
  list transformations behind `addToCart`, `increment` and `decrement`,
  and the invariants they keep (ids unique, every quantity at least 1).

  The hook builds each new list with `products.map(...)`,
  `products.filter(...)` and an array-spread append; those become the
  recursive functions `Adjust`, `Matching`/`Without` and `+ [...]` here.
 */
module CartItems {

  /** The unit price is a JavaScript number that is only copied, never computed with. */
  type Price = real

  /** One cart line item (fields `id`, `title`, `image_url`, `price`, `quantity`). */
  datatype Product = Product(id: string, title: string, imageUrl: string, price: Price, quantity: int)

  /** What `addToCart` is given: a catalogue product without a quantity. */
  datatype CatalogItem = CatalogItem(id: string, title: string, imageUrl: string, price: Price)

  /** The entry appended for a product not yet in the cart: its own fields and quantity 1. */
  function NewEntry(item: CatalogItem): Product
  {
    Product(item.id, item.title, item.imageUrl, item.price, 1)
  }

  /** The callback of the hook's `map`: the entry with id `id` gets `quantity + delta`. */
  function Adjusted(p: Product, id: string, delta: int): Product
  {
    if p.id == id then p.(quantity := p.quantity + delta) else p
  }

  /** `ps.map(p => id === p.id ? {...p, quantity: p.quantity + delta} : p)` */
  function Adjust(ps: seq<Product>, id: string, delta: int): seq<Product>
  {
    if ps == [] then [] else [Adjusted(ps[0], id, delta)] + Adjust(ps[1..], id, delta)
  }

  /** `ps.filter(p => p.id === id)` */
  function Matching(ps: seq<Product>, id: string): seq<Product>
  {
    if ps == [] then []
    else (if ps[0].id == id then [ps[0]] else []) + Matching(ps[1..], id)
  }

  /** `ps.filter(p => id !== p.id)` */
  function Without(ps: seq<Product>, id: string): seq<Product>
  {
    if ps == [] then []
    else (if ps[0].id != id then [ps[0]] else []) + Without(ps[1..], id)
  }

  predicate Contains(ps: seq<Product>, id: string)
  {
    exists i :: 0 <= i < |ps| && ps[i].id == id
  }

  /** No two entries share an id. */
  predicate UniqueIds(ps: seq<Product>)
  {
    forall i, j :: 0 <= i < j < |ps| ==> ps[i].id != ps[j].id
  }

  /** Every entry has quantity at least 1. */
  predicate AllPositive(ps: seq<Product>)
  {
    forall i :: 0 <= i < |ps| ==> ps[i].quantity >= 1
  }

  /** The cart invariant. */
  predicate WellFormed(ps: seq<Product>)
  {
    UniqueIds(ps) && AllPositive(ps)
  }

  /** What the `forEach` in `decrement` computes into `removeFromCart`. */
  predicate RemovalDue(ps: seq<Product>, id: string)
  {
    exists i :: 0 <= i < |ps| && ps[i].id == id && ps[i].quantity <= 1
  }

  /** The list `addToCart(item)` installs. */
  function AddToCart(ps: seq<Product>, item: CatalogItem): seq<Product>
  {
    if |Matching(ps, item.id)| > 0 then Adjust(ps, item.id, 1) else ps + [NewEntry(item)]
  }

  /** The list `increment(id)` installs. */
  function Increment(ps: seq<Product>, id: string): seq<Product>
  {
    Adjust(ps, id, 1)
  }

  /** The list `decrement(id)` installs. */
  function Decrement(ps: seq<Product>, id: string): seq<Product>
  {
    if RemovalDue(ps, id) then Without(ps, id) else Adjust(ps, id, -1)
  }

  // ---------------------------------------------------------------------
  // map: Adjust

  /** The map keeps the length and transforms each entry on its own, in place. */
  lemma {:induction false} AdjustAt(ps: seq<Product>, id: string, delta: int)
    ensures |Adjust(ps, id, delta)| == |ps|
    ensures forall i :: 0 <= i < |ps| ==> Adjust(ps, id, delta)[i] == Adjusted(ps[i], id, delta)
  {
    if ps != [] {
      AdjustAt(ps[1..], id, delta);
      var r := Adjust(ps, id, delta);
      forall i | 0 <= i < |ps| ensures r[i] == Adjusted(ps[i], id, delta) {
        if i > 0 {
          assert r[i] == Adjust(ps[1..], id, delta)[i - 1];
        }
      }
    }
  }

  /** Every entry keeps its id and position; only the quantity of the matching ones moves. */
  lemma AdjustKeepsIds(ps: seq<Product>, id: string, delta: int)
    ensures |Adjust(ps, id, delta)| == |ps|
    ensures forall i :: 0 <= i < |ps| ==> Adjust(ps, id, delta)[i].id == ps[i].id
  {
    AdjustAt(ps, id, delta);
  }

  /** With no entry for `id` the map changes nothing. */
  lemma AdjustAbsent(ps: seq<Product>, id: string, delta: int)
    requires !Contains(ps, id)
    ensures Adjust(ps, id, delta) == ps
  {
    AdjustAt(ps, id, delta);
  }

  /** With unique ids, the map changes exactly the one entry whose id is `id`. */
  lemma AdjustUnique(ps: seq<Product>, id: string, delta: int, k: int)
    requires UniqueIds(ps) && 0 <= k < |ps| && ps[k].id == id
    ensures Adjust(ps, id, delta) == ps[k := ps[k].(quantity := ps[k].quantity + delta)]
  {
    AdjustAt(ps, id, delta);
  }

  /** The map keeps ids unique. */
  lemma AdjustKeepsUnique(ps: seq<Product>, id: string, delta: int)
    requires UniqueIds(ps)
    ensures UniqueIds(Adjust(ps, id, delta))
  {
    AdjustKeepsIds(ps, id, delta);
  }

  // ---------------------------------------------------------------------
  // filter: Matching and Without

  /** `filter(p => p.id === id).length > 0` holds exactly when some entry has that id. */
  lemma {:induction false} MatchingNonEmpty(ps: seq<Product>, id: string)
    ensures |Matching(ps, id)| > 0 <==> Contains(ps, id)
  {
    if ps != [] {
      MatchingNonEmpty(ps[1..], id);
      if Contains(ps[1..], id) {
        var i :| 0 <= i < |ps[1..]| && ps[1..][i].id == id;
        assert ps[i + 1].id == id;
      }
      if Contains(ps, id) && ps[0].id != id {
        var i :| 0 <= i < |ps| && ps[i].id == id;
        assert ps[1..][i - 1].id == id;
      }
    }
  }

  /** The filter keeps exactly the entries whose id differs from `id`. */
  lemma {:induction false} WithoutMembers(ps: seq<Product>, id: string)
    ensures forall p :: p in Without(ps, id) <==> p in ps && p.id != id
  {
    if ps != [] {
      WithoutMembers(ps[1..], id);
      assert ps == [ps[0]] + ps[1..];
    }
  }

  /** The filter distributes over concatenation, so it keeps the relative order. */
  lemma {:induction false} WithoutAppend(a: seq<Product>, b: seq<Product>, id: string)
    ensures Without(a + b, id) == Without(a, id) + Without(b, id)
  {
    if a == [] {
      assert a + b == b;
    } else {
      var head := if a[0].id != id then [a[0]] else [];
      calc {
        Without(a + b, id);
        head + Without((a + b)[1..], id);
        { assert (a + b)[1..] == a[1..] + b; }
        head + Without(a[1..] + b, id);
        { WithoutAppend(a[1..], b, id); }
        head + (Without(a[1..], id) + Without(b, id));
        Without(a, id) + Without(b, id);
      }
    }
  }

  /** With no entry for `id` the filter changes nothing. */
  lemma {:induction false} WithoutAbsent(ps: seq<Product>, id: string)
    requires !Contains(ps, id)
    ensures Without(ps, id) == ps
  {
    if ps != [] {
      assert !Contains(ps[1..], id);
      WithoutAbsent(ps[1..], id);
      assert ps[0].id != id;
    }
  }

  /** With unique ids, the id at position `k` occurs neither before nor after it. */
  lemma UniqueElsewhere(ps: seq<Product>, k: int)
    requires UniqueIds(ps) && 0 <= k < |ps|
    ensures !Contains(ps[..k], ps[k].id) && !Contains(ps[k + 1..], ps[k].id)
  {
  }

  /** With unique ids, the filter cuts out the one entry for `id` and keeps the rest in order. */
  lemma WithoutUnique(ps: seq<Product>, id: string, k: int)
    requires UniqueIds(ps) && 0 <= k < |ps| && ps[k].id == id
    ensures Without(ps, id) == ps[..k] + ps[k + 1..]
  {
    var before, after := ps[..k], ps[k + 1..];
    UniqueElsewhere(ps, k);
    calc {
      Without(ps, id);
      { assert ps == before + ([ps[k]] + after); }
      Without(before + ([ps[k]] + after), id);
      { WithoutAppend(before, [ps[k]] + after, id); }
      Without(before, id) + Without([ps[k]] + after, id);
      { WithoutAppend([ps[k]], after, id); }
      Without(before, id) + (Without([ps[k]], id) + Without(after, id));
      { assert [ps[k]][1..] == []; }
      Without(before, id) + Without(after, id);
      { WithoutAbsent(before, id); WithoutAbsent(after, id); }
      before + after;
    }
  }

  /** The filter keeps ids unique. */
  lemma {:induction false} WithoutKeepsUnique(ps: seq<Product>, id: string)
    requires UniqueIds(ps)
    ensures UniqueIds(Without(ps, id))
  {
    if ps != [] {
      var tail := ps[1..];
      assert UniqueIds(tail) by {
        forall i, j | 0 <= i < j < |tail| ensures tail[i].id != tail[j].id {
          assert tail[i] == ps[i + 1] && tail[j] == ps[j + 1];
        }
      }
      WithoutKeepsUnique(tail, id);
      if ps[0].id != id {
        var rest := Without(tail, id);
        WithoutMembers(tail, id);
        forall q | q in rest ensures q.id != ps[0].id {
          var j :| 0 <= j < |tail| && tail[j] == q;
          assert ps[j + 1] == q;
        }
        var r := [ps[0]] + rest;
        forall i, j | 0 <= i < j < |r| ensures r[i].id != r[j].id {
          assert r[j] == rest[j - 1];
          assert rest[j - 1] in rest;
        }
      }
    }
  }

  /** The filter keeps every quantity at least 1. */
  lemma WithoutKeepsPositive(ps: seq<Product>, id: string)
    requires AllPositive(ps)
    ensures AllPositive(Without(ps, id))
  {
    WithoutMembers(ps, id);
    var r := Without(ps, id);
    forall i | 0 <= i < |r| ensures r[i].quantity >= 1 {
      assert r[i] in r;
    }
  }

  // ---------------------------------------------------------------------
  // addToCart

  /** Id already present: same length, that entry's quantity goes up by exactly 1 and its
      other fields stay as they were (the incoming item does not overwrite them). */
  lemma AddToCartExisting(ps: seq<Product>, item: CatalogItem, k: int)
    requires UniqueIds(ps) && 0 <= k < |ps| && ps[k].id == item.id
    ensures AddToCart(ps, item) == ps[k := ps[k].(quantity := ps[k].quantity + 1)]
  {
    MatchingNonEmpty(ps, item.id);
    AdjustUnique(ps, item.id, 1, k);
  }

  /** New id: one entry built from the item with quantity 1 is appended after the unchanged list. */
  lemma AddToCartNew(ps: seq<Product>, item: CatalogItem)
    requires !Contains(ps, item.id)
    ensures AddToCart(ps, item) == ps + [Product(item.id, item.title, item.imageUrl, item.price, 1)]
  {
    MatchingNonEmpty(ps, item.id);
  }

  /** After `addToCart` the item's id is in the cart. */
  lemma AddToCartContains(ps: seq<Product>, item: CatalogItem)
    ensures Contains(AddToCart(ps, item), item.id)
  {
    MatchingNonEmpty(ps, item.id);
    var r := AddToCart(ps, item);
    if Contains(ps, item.id) {
      var k :| 0 <= k < |ps| && ps[k].id == item.id;
      AdjustKeepsIds(ps, item.id, 1);
      assert r[k].id == item.id;
    } else {
      assert r[|ps|].id == item.id;
    }
  }

  /** `addToCart` keeps the cart well formed. */
  lemma AddToCartWellFormed(ps: seq<Product>, item: CatalogItem)
    requires WellFormed(ps)
    ensures WellFormed(AddToCart(ps, item))
  {
    MatchingNonEmpty(ps, item.id);
    if Contains(ps, item.id) {
      AdjustKeepsUnique(ps, item.id, 1);
      AdjustAt(ps, item.id, 1);
    }
  }

  // ---------------------------------------------------------------------
  // increment

  /** Id present: that entry's quantity goes up by 1; length, order and all else unchanged. */
  lemma IncrementPresent(ps: seq<Product>, id: string, k: int)
    requires UniqueIds(ps) && 0 <= k < |ps| && ps[k].id == id
    ensures Increment(ps, id) == ps[k := ps[k].(quantity := ps[k].quantity + 1)]
  {
    AdjustUnique(ps, id, 1, k);
  }

  /** Id absent: the list is left identical. */
  lemma IncrementAbsent(ps: seq<Product>, id: string)
    requires !Contains(ps, id)
    ensures Increment(ps, id) == ps
  {
    AdjustAbsent(ps, id, 1);
  }

  /** `increment` keeps the cart well formed. */
  lemma IncrementWellFormed(ps: seq<Product>, id: string)
    requires WellFormed(ps)
    ensures WellFormed(Increment(ps, id))
  {
    AdjustKeepsUnique(ps, id, 1);
    AdjustAt(ps, id, 1);
  }

  // ---------------------------------------------------------------------
  // decrement

  /** Matching entry at quantity 1 or less: every entry with that id goes, the rest stay in order. */
  lemma DecrementRemoves(ps: seq<Product>, id: string, k: int)
    requires 0 <= k < |ps| && ps[k].id == id && ps[k].quantity <= 1
    ensures Decrement(ps, id) == Without(ps, id)
    ensures forall p :: p in Decrement(ps, id) <==> p in ps && p.id != id
  {
    WithoutMembers(ps, id);
  }

  /** The same with unique ids: exactly that entry is cut out. */
  lemma DecrementRemovesUnique(ps: seq<Product>, id: string, k: int)
    requires UniqueIds(ps) && 0 <= k < |ps| && ps[k].id == id && ps[k].quantity <= 1
    ensures Decrement(ps, id) == ps[..k] + ps[k + 1..]
  {
    WithoutUnique(ps, id, k);
  }

  /** Matching entry above 1 (ids unique): its quantity goes down by exactly 1, length kept. */
  lemma DecrementLowers(ps: seq<Product>, id: string, k: int)
    requires UniqueIds(ps) && 0 <= k < |ps| && ps[k].id == id && ps[k].quantity > 1
    ensures Decrement(ps, id) == ps[k := ps[k].(quantity := ps[k].quantity - 1)]
  {
    assert !RemovalDue(ps, id);
    AdjustUnique(ps, id, -1, k);
  }

  /** Id absent: the flag stays false and the map changes nothing. */
  lemma DecrementAbsent(ps: seq<Product>, id: string)
    requires !Contains(ps, id)
    ensures Decrement(ps, id) == ps
  {
    AdjustAbsent(ps, id, -1);
  }

  /** `decrement` never leaves a quantity below 1, whether or not ids are unique. */
  lemma DecrementKeepsPositive(ps: seq<Product>, id: string)
    requires AllPositive(ps)
    ensures AllPositive(Decrement(ps, id))
  {
    if RemovalDue(ps, id) {
      WithoutKeepsPositive(ps, id);
    } else {
      AdjustAt(ps, id, -1);
    }
  }

  /** `decrement` keeps the cart well formed. */
  lemma DecrementWellFormed(ps: seq<Product>, id: string)
    requires WellFormed(ps)
    ensures WellFormed(Decrement(ps, id))
  {
    DecrementKeepsPositive(ps, id);
    if RemovalDue(ps, id) {
      WithoutKeepsUnique(ps, id);
    } else {
      AdjustKeepsUnique(ps, id, -1);
    }
  }
}
