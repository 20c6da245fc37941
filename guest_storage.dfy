/** The guest cart and wishlist of the shop's frontend, kept in the
    browser's local storage under two keys. Each operation reads the stored
    list (an absent key reads as the empty list), changes it and writes it
    back. A stored slot is `None` while its key is absent. */
module GuestStorage {
  import opened Wrappers

  datatype CartItem = CartItem(productId: string, quantity: int, color: string)
  datatype WishlistItem = WishlistItem(productId: string)

  /** The key a cart line is found by. */
  predicate SameKey(item: CartItem, productId: string, color: string) {
    item.productId == productId && item.color == color
  }

  // ---------------------------------------------------------------------
  // The cart as a value

  /** `cart.find`: the index of the first line with the key, or |cart|. */
  function FirstMatch(cart: seq<CartItem>, productId: string, color: string): (k: nat)
    ensures k <= |cart|
    ensures forall j :: 0 <= j < k ==> !SameKey(cart[j], productId, color)
    ensures k < |cart| ==> SameKey(cart[k], productId, color)
    decreases |cart|
  {
    if cart == [] then 0
    else if SameKey(cart[0], productId, color) then 0
    else 1 + FirstMatch(cart[1..], productId, color)
  }

  /** The cart after `addToGuestCart(item)`. */
  function CartAfterAdd(cart: seq<CartItem>, item: CartItem): seq<CartItem> {
    var k := FirstMatch(cart, item.productId, item.color);
    if k < |cart| then cart[k := cart[k].(quantity := cart[k].quantity + item.quantity)]
    else cart + [item]
  }

  /** The cart after `updateGuestCartItem`, when the key is present. */
  function CartAfterUpdate(cart: seq<CartItem>, productId: string, color: string, quantity: int): seq<CartItem>
    requires FirstMatch(cart, productId, color) < |cart|
  {
    var k := FirstMatch(cart, productId, color);
    cart[k := cart[k].(quantity := quantity)]
  }

  /** `cart.filter(item => !(same key))`. */
  function Without(cart: seq<CartItem>, productId: string, color: string): (r: seq<CartItem>)
    ensures forall x :: x in r <==> x in cart && !SameKey(x, productId, color)
    ensures |r| <= |cart|
  {
    if cart == [] then []
    else
      assert cart == [cart[0]] + cart[1..];
      (if SameKey(cart[0], productId, color) then [] else [cart[0]]) + Without(cart[1..], productId, color)
  }

  /** The keys of a cart. */
  function Keys(cart: seq<CartItem>): set<(string, string)> {
    set i | i in cart :: (i.productId, i.color)
  }

  /** No two lines share a key. */
  predicate UniqueKeys(cart: seq<CartItem>) {
    forall i, j :: 0 <= i < j < |cart| ==> !SameKey(cart[j], cart[i].productId, cart[i].color)
  }

  /** The sum of the quantities. */
  function Total(cart: seq<CartItem>): int {
    if cart == [] then 0 else Total(cart[..|cart| - 1]) + cart[|cart| - 1].quantity
  }

  /** Changing one line's quantity changes the total by the difference. */
  lemma {:induction false} TotalUpdate(cart: seq<CartItem>, k: nat, q: int)
    requires k < |cart|
    ensures Total(cart[k := cart[k].(quantity := q)]) == Total(cart) - cart[k].quantity + q
    decreases |cart|
  {
    var c := cart[k := cart[k].(quantity := q)];
    var n := |cart| - 1;
    if k < n {
      assert c[..n] == cart[..n][k := cart[k].(quantity := q)];
      TotalUpdate(cart[..n], k, q);
    } else {
      assert c[..n] == cart[..n];
    }
  }

  /** Adding an item adds its quantity to the cart's total. */
  lemma AddTotal(cart: seq<CartItem>, item: CartItem)
    ensures Total(CartAfterAdd(cart, item)) == Total(cart) + item.quantity
  {
    var k := FirstMatch(cart, item.productId, item.color);
    if k < |cart| {
      TotalUpdate(cart, k, cart[k].quantity + item.quantity);
    } else {
      assert (cart + [item])[..|cart|] == cart;
    }
  }

  /** Adding an item adds its key, and grows the cart only when the key is
      new. */
  lemma AddKeys(cart: seq<CartItem>, item: CartItem)
    ensures Keys(CartAfterAdd(cart, item)) == Keys(cart) + {(item.productId, item.color)}
    ensures |CartAfterAdd(cart, item)| == if (item.productId, item.color) in Keys(cart) then |cart| else |cart| + 1
  {
    var k := FirstMatch(cart, item.productId, item.color);
    var r := CartAfterAdd(cart, item);
    if k < |cart| {
      forall x | x in Keys(r) ensures x in Keys(cart) {
        var i :| i in r && x == (i.productId, i.color);
        var j :| 0 <= j < |r| && r[j] == i;
        assert (cart[j].productId, cart[j].color) == x;
      }
      forall x | x in Keys(cart) ensures x in Keys(r) {
        var i :| i in cart && x == (i.productId, i.color);
        var j :| 0 <= j < |cart| && cart[j] == i;
        assert (r[j].productId, r[j].color) == x;
      }
      assert (cart[k].productId, cart[k].color) in Keys(cart);
    } else {
      forall i | i in cart ensures (i.productId, i.color) != (item.productId, item.color) {
        var j :| 0 <= j < |cart| && cart[j] == i;
      }
      assert r[|cart|] == item;
    }
  }

  /** Adding never creates a second line for a key. */
  lemma AddKeepsUnique(cart: seq<CartItem>, item: CartItem)
    requires UniqueKeys(cart)
    ensures UniqueKeys(CartAfterAdd(cart, item))
  {
  }

  /** Updating sets the first line with the key and keeps every other line,
      so the total moves by the difference and the keys stay unique. */
  lemma UpdateFacts(cart: seq<CartItem>, productId: string, color: string, quantity: int)
    requires FirstMatch(cart, productId, color) < |cart|
    ensures var k := FirstMatch(cart, productId, color);
            Total(CartAfterUpdate(cart, productId, color, quantity)) == Total(cart) - cart[k].quantity + quantity
    ensures UniqueKeys(cart) ==> UniqueKeys(CartAfterUpdate(cart, productId, color, quantity))
    ensures UniqueKeys(cart) ==>
              forall x :: (x in CartAfterUpdate(cart, productId, color, quantity) && SameKey(x, productId, color)) ==> x.quantity == quantity
  {
    var k := FirstMatch(cart, productId, color);
    TotalUpdate(cart, k, quantity);
  }

  /** Removing keeps the order of the remaining lines: filtering a
      concatenation filters each part. */
  lemma {:induction false} WithoutAppend(a: seq<CartItem>, b: seq<CartItem>, productId: string, color: string)
    ensures Without(a + b, productId, color) == Without(a, productId, color) + Without(b, productId, color)
    decreases |a|
  {
    if a != [] {
      assert (a + b)[0] == a[0] && (a + b)[1..] == a[1..] + b;
      WithoutAppend(a[1..], b, productId, color);
    } else {
      assert a + b == b;
    }
  }

  /** After removing, the key is gone and every other key stays; removing a
      key that is absent changes nothing. */
  lemma RemoveKeys(cart: seq<CartItem>, productId: string, color: string)
    ensures Keys(Without(cart, productId, color)) == Keys(cart) - {(productId, color)}
    ensures (productId, color) !in Keys(cart) ==> Without(cart, productId, color) == cart
  {
    var r := Without(cart, productId, color);
    forall x | x in Keys(r) ensures x in Keys(cart) - {(productId, color)} {
      var i :| i in r && x == (i.productId, i.color);
    }
    forall x | x in Keys(cart) - {(productId, color)} ensures x in Keys(r) {
      var i :| i in cart && x == (i.productId, i.color);
    }
    if (productId, color) !in Keys(cart) {
      WithoutNoMatch(cart, productId, color);
    }
  }

  /** Removing never makes two lines share a key. */
  lemma {:induction false} WithoutKeepsUnique(cart: seq<CartItem>, productId: string, color: string)
    requires UniqueKeys(cart)
    ensures UniqueKeys(Without(cart, productId, color))
    decreases |cart|
  {
    if cart != [] {
      var head := cart[0];
      var tail := cart[1..];
      assert UniqueKeys(tail) by {
        forall i, j | 0 <= i < j < |tail| ensures !SameKey(tail[j], tail[i].productId, tail[i].color) {
          assert tail[i] == cart[i + 1] && tail[j] == cart[j + 1];
        }
      }
      WithoutKeepsUnique(tail, productId, color);
      var rest := Without(tail, productId, color);
      forall x | x in rest ensures !SameKey(x, head.productId, head.color) {
        var j :| 0 <= j < |tail| && tail[j] == x;
        assert cart[j + 1] == x;
      }
      if !SameKey(head, productId, color) {
        var r := [head] + rest;
        forall i, j | 0 <= i < j < |r| ensures !SameKey(r[j], r[i].productId, r[i].color) {
          if i == 0 {
            assert r[j] == rest[j - 1] && rest[j - 1] in rest;
          } else {
            assert r[i] == rest[i - 1] && r[j] == rest[j - 1];
          }
        }
      }
    }
  }

  lemma {:induction false} WithoutNoMatch(cart: seq<CartItem>, productId: string, color: string)
    requires (productId, color) !in Keys(cart)
    ensures Without(cart, productId, color) == cart
    decreases |cart|
  {
    if cart != [] {
      assert cart[0] in cart;
      assert Keys(cart[1..]) <= Keys(cart);
      WithoutNoMatch(cart[1..], productId, color);
      assert cart == [cart[0]] + cart[1..];
    }
  }

  // ---------------------------------------------------------------------
  // The wishlist as a value

  predicate Listed(wishlist: seq<WishlistItem>, productId: string) {
    exists i :: 0 <= i < |wishlist| && wishlist[i].productId == productId
  }

  /** No product appears twice. */
  predicate NoDuplicates(wishlist: seq<WishlistItem>) {
    forall i, j :: 0 <= i < j < |wishlist| ==> wishlist[i].productId != wishlist[j].productId
  }

  /** The wishlist after `addToGuestWishlist`. */
  function WishlistAfterAdd(wishlist: seq<WishlistItem>, productId: string): seq<WishlistItem> {
    if Listed(wishlist, productId) then wishlist else wishlist + [WishlistItem(productId)]
  }

  /** `wishlist.filter(item => item.productId !== productId)`. */
  function WishlistWithout(wishlist: seq<WishlistItem>, productId: string): (r: seq<WishlistItem>)
    ensures forall x :: x in r <==> x in wishlist && x.productId != productId
  {
    if wishlist == [] then []
    else
      assert wishlist == [wishlist[0]] + wishlist[1..];
      (if wishlist[0].productId == productId then [] else [wishlist[0]]) + WishlistWithout(wishlist[1..], productId)
  }

  /** Adding to the wishlist lists the product, adds it at most once and
      keeps the list free of duplicates; adding twice is adding once. */
  lemma WishlistAddFacts(wishlist: seq<WishlistItem>, productId: string)
    ensures Listed(WishlistAfterAdd(wishlist, productId), productId)
    ensures WishlistAfterAdd(WishlistAfterAdd(wishlist, productId), productId) == WishlistAfterAdd(wishlist, productId)
    ensures NoDuplicates(wishlist) ==> NoDuplicates(WishlistAfterAdd(wishlist, productId))
    ensures |WishlistAfterAdd(wishlist, productId)| == if Listed(wishlist, productId) then |wishlist| else |wishlist| + 1
  {
    var w := WishlistAfterAdd(wishlist, productId);
    if !Listed(wishlist, productId) {
      assert w[|wishlist|].productId == productId;
    }
  }

  /** After removing, the product is not listed and every other entry is
      kept. */
  lemma WishlistRemoveFacts(wishlist: seq<WishlistItem>, productId: string)
    ensures !Listed(WishlistWithout(wishlist, productId), productId)
    ensures forall x :: x in wishlist && x.productId != productId ==> x in WishlistWithout(wishlist, productId)
  {
    var r := WishlistWithout(wishlist, productId);
    forall i | 0 <= i < |r| ensures r[i].productId != productId {
      assert r[i] in r;
    }
  }

  /** Removing keeps the order of the remaining entries: filtering a
      concatenation filters each part. */
  lemma {:induction false} WishlistWithoutAppend(a: seq<WishlistItem>, b: seq<WishlistItem>, productId: string)
    ensures WishlistWithout(a + b, productId) == WishlistWithout(a, productId) + WishlistWithout(b, productId)
    decreases |a|
  {
    if a != [] {
      assert (a + b)[0] == a[0] && (a + b)[1..] == a[1..] + b;
      WishlistWithoutAppend(a[1..], b, productId);
    } else {
      assert a + b == b;
    }
  }

  /** Removing never makes a product appear twice. */
  lemma {:induction false} WishlistWithoutKeepsNoDuplicates(wishlist: seq<WishlistItem>, productId: string)
    requires NoDuplicates(wishlist)
    ensures NoDuplicates(WishlistWithout(wishlist, productId))
    decreases |wishlist|
  {
    if wishlist != [] {
      var head := wishlist[0];
      var tail := wishlist[1..];
      assert NoDuplicates(tail) by {
        forall i, j | 0 <= i < j < |tail| ensures tail[i].productId != tail[j].productId {
          assert tail[i] == wishlist[i + 1] && tail[j] == wishlist[j + 1];
        }
      }
      WishlistWithoutKeepsNoDuplicates(tail, productId);
      var rest := WishlistWithout(tail, productId);
      forall x | x in rest ensures x.productId != head.productId {
        var j :| 0 <= j < |tail| && tail[j] == x;
        assert wishlist[j + 1] == x;
      }
      if head.productId != productId {
        var r := [head] + rest;
        forall i, j | 0 <= i < j < |r| ensures r[i].productId != r[j].productId {
          if i == 0 {
            assert r[j] == rest[j - 1] && rest[j - 1] in rest;
          } else {
            assert r[i] == rest[i - 1] && r[j] == rest[j - 1];
          }
        }
      }
    }
  }

  // ---------------------------------------------------------------------
  // The storage

  /** The two local-storage keys of the guest. The stored text is the JSON
      of the list; its parse is taken to give the list back. */
  class GuestStore {
    var cartSlot: Option<seq<CartItem>>
    var wishlistSlot: Option<seq<WishlistItem>>

    /** A browser with neither key set. */
    constructor()
      ensures cartSlot.None? && wishlistSlot.None?
    {
      cartSlot := None;
      wishlistSlot := None;
    }

    /** `getGuestCart`: an absent key reads as the empty cart. */
    function Cart(): seq<CartItem>
      reads this
    {
      if cartSlot.Some? then cartSlot.value else []
    }

    /** `getGuestWishlist`: an absent key reads as the empty wishlist. */
    function Wishlist(): seq<WishlistItem>
      reads this
    {
      if wishlistSlot.Some? then wishlistSlot.value else []
    }

    /** `addToGuestCart`: raise the first matching line's quantity, or
        append the item, and write the cart back. */
    method AddToGuestCart(item: CartItem)
      modifies this
      ensures cartSlot == Some(CartAfterAdd(old(Cart()), item))
      ensures wishlistSlot == old(wishlistSlot)
    {
      var cart := Cart();
      var k := FirstMatch(cart, item.productId, item.color);
      if k < |cart| {
        cart := cart[k := cart[k].(quantity := cart[k].quantity + item.quantity)];
      } else {
        cart := cart + [item];
      }
      cartSlot := Some(cart);
    }

    /** `updateGuestCartItem`: set the first matching line's quantity and
        write back; with no matching line nothing is written. */
    method UpdateGuestCartItem(productId: string, color: string, quantity: int)
      modifies this
      ensures FirstMatch(old(Cart()), productId, color) < |old(Cart())|
              ==> cartSlot == Some(CartAfterUpdate(old(Cart()), productId, color, quantity))
      ensures FirstMatch(old(Cart()), productId, color) == |old(Cart())| ==> cartSlot == old(cartSlot)
      ensures wishlistSlot == old(wishlistSlot)
    {
      var cart := Cart();
      var k := FirstMatch(cart, productId, color);
      if k < |cart| {
        cart := cart[k := cart[k].(quantity := quantity)];
        cartSlot := Some(cart);
      }
    }

    /** `removeFromGuestCart`: write back the cart without the key's lines. */
    method RemoveFromGuestCart(productId: string, color: string)
      modifies this
      ensures cartSlot == Some(Without(old(Cart()), productId, color))
      ensures wishlistSlot == old(wishlistSlot)
    {
      var cart := Cart();
      cartSlot := Some(Without(cart, productId, color));
    }

    /** `clearGuestCart`: remove the key; the cart then reads as empty. */
    method ClearGuestCart()
      modifies this
      ensures cartSlot.None? && Cart() == []
      ensures wishlistSlot == old(wishlistSlot)
    {
      cartSlot := None;
    }

    /** `addToGuestWishlist`: append the product when it is not listed and
        write back; when it is listed nothing is written. */
    method AddToGuestWishlist(productId: string)
      modifies this
      ensures !Listed(old(Wishlist()), productId) ==> wishlistSlot == Some(WishlistAfterAdd(old(Wishlist()), productId))
      ensures Listed(old(Wishlist()), productId) ==> wishlistSlot == old(wishlistSlot)
      ensures Wishlist() == WishlistAfterAdd(old(Wishlist()), productId)
      ensures cartSlot == old(cartSlot)
    {
      var wishlist := Wishlist();
      if !Listed(wishlist, productId) {
        wishlist := wishlist + [WishlistItem(productId)];
        wishlistSlot := Some(wishlist);
      }
    }

    /** `removeFromGuestWishlist`: write back the wishlist without the
        product. */
    method RemoveFromGuestWishlist(productId: string)
      modifies this
      ensures wishlistSlot == Some(WishlistWithout(old(Wishlist()), productId))
      ensures cartSlot == old(cartSlot)
    {
      var wishlist := Wishlist();
      wishlistSlot := Some(WishlistWithout(wishlist, productId));
    }

    /** `clearGuestWishlist`: remove the key; the wishlist then reads as
        empty. */
    method ClearGuestWishlist()
      modifies this
      ensures wishlistSlot.None? && Wishlist() == []
      ensures cartSlot == old(cartSlot)
    {
      wishlistSlot := None;
    }
  }
}
