/**
 * The page as a whole (scripts/main.js): the root app's `premium` flag and
 * cart, the product it renders, and the review form inside the product's tabs.
 * The global event bus becomes an explicit hand-over: whatever a form event
 * publishes is delivered to the product's `review-submitted` handler within
 * the same step.
 */
module Page {
  import opened Wrappers
  import Cart
  import ReviewForm
  import ProductCard

  datatype Page = Page(
    premium: bool,
    cart: seq<int>,
    product: ProductCard.Product,
    form: ReviewForm.Form)

  /** The product's selection is in range and its `premium` prop is the app's flag. */
  predicate Valid(pg: Page) {
    ProductCard.Valid(pg.product) && pg.product.premium == pg.premium
  }

  /** The page as it loads: empty cart, first variant selected, empty form. */
  function Initial(premium: bool, variants: seq<ProductCard.Variant>): (pg: Page)
    requires |variants| > 0
    ensures Valid(pg) && pg.cart == [] && pg.product.reviews == [] && pg.form.errors == []
  {
    Page(premium, [], ProductCard.Initial(premium, variants), ReviewForm.Initial())
  }

  /** What the user can do: hover a swatch, press Add or Remove, or act on the form. */
  datatype Event =
    | Hover(index: int)
    | ClickAdd
    | ClickRemove
    | OnForm(formEvent: ReviewForm.FormEvent)

  /** Every hover in `events` names one of `n` swatches. */
  predicate HoversInRange(n: int, events: seq<Event>) {
    forall k :: 0 <= k < |events| && events[k].Hover? ==> 0 <= events[k].index < n
  }

  /** One event, run to completion. */
  function Step(pg: Page, e: Event): (r: Page)
    requires Valid(pg)
    requires e.Hover? ==> 0 <= e.index < |pg.product.variants|
    ensures Valid(r)
    ensures r.premium == pg.premium && r.product.variants == pg.product.variants
  {
    match e
    case Hover(i) =>
      pg.(product := ProductCard.UpdateProduct(pg.product, i))
    case ClickAdd =>
      pg.(cart := Cart.UpdateCart(pg.cart, ProductCard.SelectedId(pg.product)))
    case ClickRemove =>
      pg.(cart := Cart.Without(pg.cart, ProductCard.SelectedId(pg.product)))
    case OnForm(fe) =>
      var s := ReviewForm.Apply(pg.form, fe);
      var product :=
        if s.emitted.Some? then ProductCard.OnReviewSubmitted(pg.product, s.emitted.value) else pg.product;
      pg.(form := s.form, product := product)
  }

  /** A sequence of events, first to last. */
  function Run(pg: Page, events: seq<Event>): (r: Page)
    requires Valid(pg) && HoversInRange(|pg.product.variants|, events)
    ensures Valid(r)
    ensures r.premium == pg.premium && r.product.variants == pg.product.variants
    decreases |events|
  {
    if |events| == 0 then pg
    else Run(Step(pg, events[0]), events[1..])
  }

  /** The form events of a session, in order. */
  function FormEvents(events: seq<Event>): seq<ReviewForm.FormEvent>
    decreases |events|
  {
    if |events| == 0 then []
    else if events[0].OnForm? then [events[0].formEvent] + FormEvents(events[1..])
    else FormEvents(events[1..])
  }

  /** Pressing Submit: a complete form publishes one review, which lands at the
      end of the product's list while the fields reset; an incomplete one only
      adds messages. The cart is untouched either way. */
  lemma SubmitDelivers(pg: Page)
    requires Valid(pg)
    ensures Step(pg, OnForm(ReviewForm.Submit)).cart == pg.cart
    ensures ReviewForm.Complete(pg.form) ==>
              && Step(pg, OnForm(ReviewForm.Submit)).product.reviews
                 == pg.product.reviews + [ReviewForm.Review(pg.form.name.value, pg.form.review.value,
                                                            pg.form.rating.value, pg.form.recommend.value)]
              && Step(pg, OnForm(ReviewForm.Submit)).form == ReviewForm.Form(None, None, None, None, pg.form.errors)
    ensures !ReviewForm.Complete(pg.form) ==>
              && Step(pg, OnForm(ReviewForm.Submit)).product == pg.product
              && Step(pg, OnForm(ReviewForm.Submit)).form
                 == pg.form.(errors := pg.form.errors + ReviewForm.MissingMessages(pg.form))
  {
  }

  /** Add then Remove on the same swatch removes every copy of its id, so the
      cart comes back unchanged only when the id was not in it before. */
  lemma AddThenRemoveClicks(pg: Page)
    requires Valid(pg)
    ensures Step(Step(pg, ClickAdd), ClickRemove).cart == Cart.Without(pg.cart, ProductCard.SelectedId(pg.product))
    ensures Step(Step(pg, ClickAdd), ClickRemove).cart == pg.cart
            <==> ProductCard.SelectedId(pg.product) !in pg.cart
  {
    Cart.AddThenRemove(pg.cart, ProductCard.SelectedId(pg.product));
  }

  /** What one event does to the form, and what it adds to the product's reviews. */
  lemma StepForm(pg: Page, e: Event)
    requires Valid(pg)
    requires e.Hover? ==> 0 <= e.index < |pg.product.variants|
    ensures !e.OnForm? ==> Step(pg, e).form == pg.form && Step(pg, e).product.reviews == pg.product.reviews
    ensures e.OnForm? ==>
              var s := ReviewForm.Apply(pg.form, e.formEvent);
              && Step(pg, e).form == s.form
              && Step(pg, e).product.reviews
                 == pg.product.reviews + (if s.emitted.Some? then [s.emitted.value] else [])
  {
  }

  /** Dropping the first event keeps every hover in range. */
  lemma HoversInRangeTail(n: int, events: seq<Event>)
    requires |events| > 0 && HoversInRange(n, events)
    ensures HoversInRange(n, events[1..])
  {
    forall k | 0 <= k < |events| - 1 && events[1..][k].Hover?
      ensures 0 <= events[1..][k].index < n
    {
      assert events[1..][k] == events[k + 1];
    }
  }

  /** The form events of a session, split after the first event. */
  lemma FormEventsCons(events: seq<Event>)
    requires |events| > 0
    ensures FormEvents(events)
         == (if events[0].OnForm? then [events[0].formEvent] else []) + FormEvents(events[1..])
  {
  }

  /** Over any session the product receives exactly the reviews the form
      published, in publication order, and the form ends where the form's own
      session of the same edits and submits would. */
  lemma {:induction false} RunDeliversPublished(pg: Page, events: seq<Event>)
    requires Valid(pg) && HoversInRange(|pg.product.variants|, events)
    ensures Run(pg, events).form == ReviewForm.Run(pg.form, FormEvents(events)).form
    ensures Run(pg, events).product.reviews
         == pg.product.reviews + ReviewForm.Run(pg.form, FormEvents(events)).published
    decreases |events|
  {
    if |events| == 0 {
      assert pg.product.reviews + [] == pg.product.reviews;
    } else {
      var next := Step(pg, events[0]);
      var rest := events[1..];
      HoversInRangeTail(|pg.product.variants|, events);
      RunDeliversPublished(next, rest);
      StepForm(pg, events[0]);
      FormEventsCons(events);
      if events[0].OnForm? {
        var s := ReviewForm.Apply(pg.form, events[0].formEvent);
        var now := if s.emitted.Some? then [s.emitted.value] else [];
        ReviewForm.RunCons(pg.form, events[0].formEvent, FormEvents(rest));
        assert pg.product.reviews + now + ReviewForm.Run(s.form, FormEvents(rest)).published
            == pg.product.reviews + (now + ReviewForm.Run(s.form, FormEvents(rest)).published);
      } else {
        assert [] + FormEvents(rest) == FormEvents(rest);
      }
    }
  }

  /** No session of the page ever shrinks or clears the form's error list. */
  lemma RunKeepsErrors(pg: Page, events: seq<Event>)
    requires Valid(pg) && HoversInRange(|pg.product.variants|, events)
    ensures pg.form.errors <= Run(pg, events).form.errors
  {
    RunDeliversPublished(pg, events);
    ReviewForm.ErrorsAppendOnly(pg.form, FormEvents(events));
  }
}
