/**
 * The `product` component (scripts/main.js): a list of variants, the index of
 * the selected one, the values computed from it, and the reviews delivered
 * to it on the `review-submitted` topic.
 */
module ProductCard {
  import opened JsValues
  import ReviewForm

  /** One entry of `variants`; the colour only drives a swatch's style. */
  datatype Variant = Variant(variantId: int, variantColor: string, variantImage: string, variantQuantity: int)

  /** The component's state. `premium` is the prop handed down by the root app. */
  datatype Product = Product(
    premium: bool,
    selectedVariant: int,
    variants: seq<Variant>,
    reviews: seq<ReviewForm.Review>)

  /** The selected index points into the variant list. */
  predicate Valid(p: Product) {
    0 <= p.selectedVariant < |p.variants|
  }

  /** `data()`: the first variant is selected and no review has arrived yet. */
  function Initial(premium: bool, variants: seq<Variant>): (p: Product)
    requires |variants| > 0
    ensures Valid(p) && p.reviews == [] && p.selectedVariant == 0
  {
    Product(premium, 0, variants, [])
  }

  /** `updateProduct(index)`: select the swatch under the mouse. The code does
      no bounds check, so the index must already be valid. */
  function UpdateProduct(p: Product, index: int): (r: Product)
    requires 0 <= index < |p.variants|
    ensures Valid(r) && r.selectedVariant == index
    ensures r.variants == p.variants && r.reviews == p.reviews && r.premium == p.premium
  {
    p.(selectedVariant := index)
  }

  /** The selected variant. */
  function Selected(p: Product): Variant
    requires Valid(p)
  {
    p.variants[p.selectedVariant]
  }

  /** Computed `image`. */
  function Image(p: Product): (r: string)
    requires Valid(p)
    ensures r == p.variants[p.selectedVariant].variantImage
  {
    Selected(p).variantImage
  }

  /** Computed `inStock`: the code returns the quantity itself and the
      template tests it for truthiness. */
  function InStock(p: Product): (r: int)
    requires Valid(p)
    ensures r == p.variants[p.selectedVariant].variantQuantity
  {
    Selected(p).variantQuantity
  }

  /** Computed `shipping`. */
  function Shipping(p: Product): (fee: string)
    ensures fee == "Free" <==> p.premium
    ensures !p.premium ==> fee == "$5.99"
  {
    if p.premium then "Free" else "$5.99"
  }

  /** The id that `addToCart` and `removeFromCart` hand to the root app. Neither
      looks at the stock. */
  function SelectedId(p: Product): (r: int)
    requires Valid(p)
    ensures r == p.variants[p.selectedVariant].variantId
  {
    Selected(p).variantId
  }

  /** The `review-submitted` handler: push the delivered review. */
  function OnReviewSubmitted(p: Product, review: ReviewForm.Review): (r: Product)
    ensures r.reviews == p.reviews + [review]
    ensures r.(reviews := p.reviews) == p
  {
    p.(reviews := p.reviews + [review])
  }

  /** Deliver reviews one at a time, in the order they were published. */
  function Deliver(p: Product, published: seq<ReviewForm.Review>): Product
    decreases |published|
  {
    if |published| == 0 then p
    else Deliver(OnReviewSubmitted(p, published[0]), published[1..])
  }

  /** Delivered reviews end up at the end of `reviews`, in arrival order, and
      nothing else about the product changes. */
  lemma {:induction false} DeliverAppendsInOrder(p: Product, published: seq<ReviewForm.Review>)
    ensures Deliver(p, published).reviews == p.reviews + published
    ensures Deliver(p, published).(reviews := p.reviews) == p
    decreases |published|
  {
    if |published| == 0 {
      assert p.reviews + published == p.reviews;
    } else {
      var q := OnReviewSubmitted(p, published[0]);
      DeliverAppendsInOrder(q, published[1..]);
      assert q.reviews + published[1..] == p.reviews + published;
    }
  }

  /** Selecting variant `i` and then reading the computed values gives that
      variant's image, its stock and its id. */
  lemma SelectThenRead(p: Product, i: int)
    requires 0 <= i < |p.variants|
    ensures Image(UpdateProduct(p, i)) == p.variants[i].variantImage
    ensures IsTruthy(InStock(UpdateProduct(p, i))) <==> p.variants[i].variantQuantity != 0
    ensures p.variants[i].variantQuantity >= 0 ==>
              (IsTruthy(InStock(UpdateProduct(p, i))) <==> p.variants[i].variantQuantity > 0)
    ensures SelectedId(UpdateProduct(p, i)) == p.variants[i].variantId
  {
  }
}
