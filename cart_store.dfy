/**
  The cart provider: the `products` state that each operation replaces, and
  the three operations that replace it. The list each one installs is given by
  the functions of `CartItems`; the persistence write that follows every
  operation is recorded in the ghost log `saved`.
 */
module CartStore {
  import opened CartItems

  datatype Option<T> = None | Some(value: T)

  /** The `forEach` of `decrement`: raise the flag when an entry with id `id` has quantity 1 or less. */
  method RemovalFlag(products: seq<Product>, id: string) returns (removeFromCart: bool)
    ensures removeFromCart <==> RemovalDue(products, id)
  {
    removeFromCart := false;
    var i := 0;
    while i < |products|
      invariant 0 <= i <= |products|
      invariant removeFromCart <==> exists j :: 0 <= j < i && products[j].id == id && products[j].quantity <= 1
    {
      if id == products[i].id && products[i].quantity <= 1 {
        removeFromCart := true;
      }
      i := i + 1;
    }
  }

  class CartProvider {
    /** The current ordered list of line items. */
    var products: seq<Product>
    /** Every snapshot handed to storage, in the order the writes were issued. */
    ghost var saved: seq<seq<Product>>

    ghost predicate Valid()
      reads this
    {
      WellFormed(products)
    }

    /** The provider starts with an empty cart and nothing written. */
    constructor ()
      ensures products == [] && saved == []
      ensures Valid()
    {
      products := [];
      saved := [];
    }

    /** Hydration: `stored` is the parsed snapshot, or None when storage held nothing usable. */
    method Load(stored: Option<seq<Product>>)
      modifies this`products
      ensures products == if stored.Some? then stored.value else old(products)
    {
      if stored.Some? {
        products := stored.value;
      }
    }

    method AddToCart(item: CatalogItem)
      modifies this
      ensures products == CartItems.AddToCart(old(products), item)
      ensures saved == old(saved) + [products]
      ensures old(Valid()) ==> Valid()
    {
      ghost var before := products;
      var existProductInCart := Matching(products, item.id);
      if |existProductInCart| > 0 {
        products := Adjust(products, item.id, 1);
      } else {
        products := products + [NewEntry(item)];
      }
      saved := saved + [products];
      if WellFormed(before) {
        AddToCartWellFormed(before, item);
      }
    }

    method Increment(id: string)
      modifies this
      ensures products == CartItems.Increment(old(products), id)
      ensures saved == old(saved) + [products]
      ensures old(Valid()) ==> Valid()
    {
      ghost var before := products;
      products := Adjust(products, id, 1);
      saved := saved + [products];
      if WellFormed(before) {
        IncrementWellFormed(before, id);
      }
    }

    method Decrement(id: string)
      modifies this
      ensures products == CartItems.Decrement(old(products), id)
      ensures saved == old(saved) + [products]
      ensures old(Valid()) ==> Valid()
    {
      ghost var before := products;
      var removeFromCart := RemovalFlag(products, id);
      if removeFromCart {
        products := Without(products, id);
      } else {
        products := Adjust(products, id, -1);
      }
      saved := saved + [products];
      if WellFormed(before) {
        DecrementWellFormed(before, id);
      }
    }
  }

  /** One sequence of calls checked against the class contracts, starting from an empty cart:
      add, increment of a missing id, add again, decrement, decrement. */
  method Scenarios()
  {
    var cart := new CartProvider();
    var shoe := CatalogItem("p1", "Shoe", "u", 10.0);
    cart.AddToCart(shoe);
    AddToCartNew([], shoe);
    assert cart.products == [Product("p1", "Shoe", "u", 10.0, 1)];

    cart.Increment("missing");
    IncrementAbsent([Product("p1", "Shoe", "u", 10.0, 1)], "missing");
    assert cart.products == [Product("p1", "Shoe", "u", 10.0, 1)];

    cart.AddToCart(shoe);
    AddToCartExisting([Product("p1", "Shoe", "u", 10.0, 1)], shoe, 0);
    assert cart.products == [Product("p1", "Shoe", "u", 10.0, 2)];

    cart.Decrement("p1");
    DecrementLowers([Product("p1", "Shoe", "u", 10.0, 2)], "p1", 0);
    assert cart.products == [Product("p1", "Shoe", "u", 10.0, 1)];

    cart.Decrement("p1");
    DecrementRemovesUnique([Product("p1", "Shoe", "u", 10.0, 1)], "p1", 0);
    assert cart.products == [];
    assert cart.Valid() && |cart.saved| == 5;
  }
}
