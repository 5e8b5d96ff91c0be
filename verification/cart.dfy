/**
 * The cart owned by the root application: variant ids in the order they were
 * added, duplicates allowed (scripts/main.js, `updateCart` and `removeItem`).
 */
module Cart {

  /** Reference definition of removal: `s` with every `id` filtered out and the
      remaining ids in their original relative order. */
  function Without(s: seq<int>, id: int): (r: seq<int>)
    ensures id !in r
    ensures forall x :: x in r ==> x in s
  {
    if |s| == 0 then []
    else if s[0] == id then Without(s[1..], id)
    else [s[0]] + Without(s[1..], id)
  }

  /** Removal keeps every other id with its multiplicity and drops every copy of `id`. */
  lemma {:induction false} WithoutCounts(s: seq<int>, id: int)
    ensures multiset(Without(s, id)) == multiset(s)[id := 0]
  {
    if |s| > 0 {
      WithoutCounts(s[1..], id);
      assert s == [s[0]] + s[1..];
    }
  }

  /** `updateCart(id)`: push the id onto the end of the cart. */
  function UpdateCart(cart: seq<int>, id: int): (r: seq<int>)
    ensures |r| == |cart| + 1
    ensures r[..|cart|] == cart
    ensures r[|cart|] == id
    ensures multiset(r) == multiset(cart) + multiset{id}
  {
    cart + [id]
  }

  /** `removeItem(id)`: walk the cart from the back and splice out every
      element equal to `id`. Indices below `i` are still untouched and the
      part after `i` is already filtered. */
  method RemoveItem(cart: seq<int>, id: int) returns (r: seq<int>)
    ensures r == Without(cart, id)
    ensures id !in r
  {
    r := cart;
    var i := |cart| - 1;
    assert cart[..|cart|] == cart;
    while i >= 0
      invariant -1 <= i < |cart|
      invariant r == cart[..i + 1] + Without(cart[i + 1..], id)
    {
      WithoutStep(cart, i, id);
      assert r == cart[..i] + [cart[i]] + Without(cart[i + 1..], id);
      if r[i] == id {
        assert r[..i] == cart[..i] && r[i + 1..] == Without(cart[i + 1..], id);
        r := r[..i] + r[i + 1..];
      }
      i := i - 1;
    }
    assert cart[0..] == cart;
  }

  /** One backward step of `removeItem`: the filtered suffix grows by `cart[i]`
      unless it is the id being removed. */
  lemma WithoutStep(cart: seq<int>, i: int, id: int)
    requires 0 <= i < |cart|
    ensures cart[..i + 1] == cart[..i] + [cart[i]]
    ensures Without(cart[i..], id) == (if cart[i] == id then [] else [cart[i]]) + Without(cart[i + 1..], id)
  {
    assert cart[i..][0] == cart[i] && cart[i..][1..] == cart[i + 1..];
  }

  /** Removal changes nothing exactly when the id is absent. */
  lemma {:induction false} WithoutIdentity(s: seq<int>, id: int)
    ensures Without(s, id) == s <==> id !in s
  {
    if |s| > 0 {
      WithoutIdentity(s[1..], id);
      assert s == [s[0]] + s[1..];
    }
  }

  /** Removal distributes over concatenation, so it keeps relative order. */
  lemma {:induction false} WithoutConcat(a: seq<int>, b: seq<int>, id: int)
    ensures Without(a + b, id) == Without(a, id) + Without(b, id)
  {
    if |a| > 0 {
      assert (a + b)[1..] == a[1..] + b;
      WithoutConcat(a[1..], b, id);
    } else {
      assert a + b == b;
    }
  }

  /** Removing twice is removing once. */
  lemma WithoutIdempotent(s: seq<int>, id: int)
    ensures Without(Without(s, id), id) == Without(s, id)
  {
    WithoutIdentity(Without(s, id), id);
  }

  /** Adding an id and then removing it is the same as only removing it: the
      earlier copies of the id go too. */
  lemma AddThenRemove(cart: seq<int>, id: int)
    ensures Without(UpdateCart(cart, id), id) == Without(cart, id)
    ensures Without(UpdateCart(cart, id), id) == cart <==> id !in cart
  {
    WithoutConcat(cart, [id], id);
    assert Without([id], id) == [];
    WithoutIdentity(cart, id);
  }

  /** Removing one id leaves later additions of other ids in place, at the end. */
  lemma RemoveKeepsOtherAdd(cart: seq<int>, x: int, id: int)
    requires x != id
    ensures Without(UpdateCart(cart, x), id) == UpdateCart(Without(cart, id), x)
  {
    WithoutConcat(cart, [x], id);
    assert [x][1..] == [];
  }
}
