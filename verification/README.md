# Socks product page: cart, review form and product state

A Dafny model of the state logic in the Vue product-page demo (`scripts/main.js`):

- the root app's **cart** of variant ids, with `updateCart` (push an id) and
  `removeItem` (scan from the back and splice out every copy of an id);
- the **review form** (`product-review`): four fields that start `null`, an
  error list that only grows, and `onSubmit`, which either publishes one review
  and resets the fields or pushes one message per missing field;
- the **product** (`product`): a selected-variant index, the computed `image`,
  `inStock` and `shipping`, the id handed to the cart buttons, and the
  `review-submitted` handler that appends delivered reviews;
- the **page**, which wires these together. The global event bus is not
  modelled as a global: a form event's published review is handed to the
  product's handler within the same step.

Files: `wrappers.dfy` (Option), `js_values.dfy` (JavaScript truthiness for
`null`, `""` and `0`), `cart.dfy`, `review_form.dfy`, `product_card.dfy`,
`page.dfy`.

Modelling choices:

- Cart ids are integers; `===` on numbers is plain equality.
- Text fields are `Option<string>` and count as missing when `None` or `""`;
  the rating is `Option<int>` and counts as missing when `None` or `0`.
- `inStock` returns the selected variant's quantity, as the code does, and the
  template tests it for truthiness: it is truthy when the quantity is non-zero,
  which for non-negative quantities is the same as "greater than zero".
- `updateProduct(index)` does no bounds check in the code; the model makes a
  valid index a precondition, so the selected index always stays valid.
- `removeItem` is a method whose loop mirrors the code (reverse index, splice);
  the reference definition `Cart.Without` is the order-preserving filter, and
  the page's Remove button uses it.
- Typing into the form (the `v-model` bindings) is modelled only as assigning a
  field, so that sessions of edits and submits can be stated.
- The root app's page markup is not part of this model: that the product's `add-to-cart` event reaches `updateCart` and `remove-from-cart` reaches `removeItem` is inferred from the names, and `Page.Step` wires them that way.
- Adding and then removing the same id is not a no-op in general: `removeItem`
  deletes every copy, so earlier copies go too. The model proves the cart comes
  back unchanged exactly when the id was not in it before.

## Model

| member | source | states |
|---|---|---|
| `Cart.UpdateCart` | scripts/main.js:295-297 | the cart grows by one, keeps the old cart as its prefix, ends with the id, and gains exactly one copy of the id |
| `Cart.Without` | scripts/main.js:298-304 | after removal no element equals the id, and every remaining element came from the cart |
| `Cart.RemoveItem` | scripts/main.js:298-304 | the back-to-front splice loop computes exactly the cart with every copy of the id filtered out, other ids in their original order, and no copy of the id remains |
| `Cart.WithoutStep` | scripts/main.js:299-303 | one backward step of the loop: the filtered suffix gains `cart[i]` unless it equals the id |
| `Cart.WithoutIdentity` | scripts/main.js:299-303 | removal leaves the cart unchanged if and only if the id is absent, so `removeItem` of an absent id is a no-op |
| `Cart.WithoutCounts` | scripts/main.js:299-303 | removal keeps every other id with its multiplicity and drops every copy of the id |
| `Cart.WithoutConcat` | scripts/main.js:299-303 | removal distributes over concatenation, so the relative order of what remains is kept |
| `Cart.WithoutIdempotent` | scripts/main.js:298-304 | removing the same id twice is the same as removing it once |
| `Cart.AddThenRemove` | scripts/main.js:295-304 | add then remove equals remove alone, and gives back the original cart if and only if the id was not already in it |
| `Cart.RemoveKeepsOtherAdd` | scripts/main.js:295-304 | removing one id leaves a later addition of a different id at the end of the cart |
| `ReviewForm.Initial` | scripts/main.js:208-216 | the form starts with no errors and every check failing, so a submit of it would report all four messages in order |
| `ReviewForm.Complete` | scripts/main.js:219 | a form counts as complete if and only if none of the four checks finds its field missing |
| `ReviewForm.Checks` | scripts/main.js:233-236 | the fields are checked name, review, rating, recommendation, each check failing exactly when its field is falsy and paired with its fixed message |
| `ReviewForm.PushMissingAppends` | scripts/main.js:232-237 | pushing a message for each failing check in turn appends exactly the failing checks' messages, in check order, after the existing errors |
| `ReviewForm.Validate` | scripts/main.js:232-237 | the failure branch leaves the old errors in place and appends the missing fields' messages in check order |
| `ReviewForm.OnSubmit` | scripts/main.js:218-238 | a review is published if and only if all four fields are truthy; then it carries the four field values, the fields are reset to null and errors are untouched; otherwise nothing is published, the fields are unchanged and the missing fields' messages are appended; errors never shrink |
| `ReviewForm.MissingMessagesExact` | scripts/main.js:232-236 | each message appears among the appended ones if and only if its field is missing; a submit fails if and only if one to four messages are appended |
| `ReviewForm.FailedSubmitGrowsErrors` | scripts/main.js:232-237 | a failed submit publishes nothing and makes the error list strictly longer |
| `ReviewForm.SuccessKeepsErrors` | scripts/main.js:219-230 | a successful submit keeps earlier error messages and leaves a form that would fail the next submit |
| `ReviewForm.ErrorsAppendOnly` | scripts/main.js:214-237 | no sequence of field edits and submits ever shrinks or clears the error list |
| `ReviewForm.RepeatedFailures` | scripts/main.js:232-236 | n failed submits in a row append the same messages n times over and publish nothing |
| `ReviewForm.ExampleComplete` | scripts/main.js:219-230 | submitting name "Ann", review "Great socks", rating 5 and "Yes" publishes that review and resets the form |
| `ReviewForm.ExampleNameMissing` | scripts/main.js:232-236 | submitting with only the name missing yields exactly the error list ["Name required."] and publishes nothing |
| `ReviewForm.ExampleEmptySubmit` | scripts/main.js:208-236 | submitting the untouched form yields all four messages in check order |
| `ProductCard.Initial` | scripts/main.js:75-114 | the product starts with the first variant selected and no reviews |
| `ProductCard.UpdateProduct` | scripts/main.js:123-125 | selecting a valid index makes it the selected variant and changes nothing else |
| `ProductCard.Image` | scripts/main.js:131-133 | the image shown is the selected variant's image (`ProductCard.SelectThenRead` gives it after a selection) |
| `ProductCard.InStock` | scripts/main.js:134-136 | `inStock` yields the selected variant's quantity, whose truthiness the template tests |
| `ProductCard.SelectedId` | scripts/main.js:117-122 | Add and Remove hand the root app the selected variant's id, with no stock check |
| `ProductCard.Shipping` | scripts/main.js:140-145 | shipping is "Free" if and only if the buyer is premium, and "$5.99" otherwise |
| `ProductCard.OnReviewSubmitted` | scripts/main.js:147-151 | a delivered review is appended to the end of the list and nothing else changes |
| `ProductCard.DeliverAppendsInOrder` | scripts/main.js:147-151 | reviews delivered one after another end up at the end of the list in arrival order, nothing else changing |
| `ProductCard.SelectThenRead` | scripts/main.js:117-136 | after selecting variant i, the image is variant i's image, in-stock is truthy if and only if its quantity is non-zero (greater than zero for non-negative quantities), and the cart buttons hand over variant i's id |
| `Page.Initial` | scripts/main.js:288-293 | the page starts with an empty cart, no reviews, no errors and a valid selection |
| `Page.Step` | scripts/main.js:116-125 | every event keeps the selection valid and leaves the premium flag and the variant list unchanged |
| `Page.Run` | scripts/main.js:123-125 | over any session the selection stays valid and the premium flag and variants never change |
| `Page.SubmitDelivers` | scripts/main.js:218-238 | pressing Submit on a complete form appends exactly that one review to the product and resets the fields; on an incomplete form it leaves the product and the four fields as they were and only appends the missing fields' messages; the cart never changes |
| `Page.AddThenRemoveClicks` | scripts/main.js:117-122 | Add then Remove on the same variant removes every copy of its id; the cart returns to its old value if and only if the id was absent |
| `Page.RunDeliversPublished` | scripts/main.js:147-151 | over any session the product receives exactly the reviews the form published, in publication order, and the form ends as the form's own session would |
| `Page.RunKeepsErrors` | scripts/main.js:214-237 | no session of the page shrinks or clears the form's error list |

## Left out

- Templates, rendering, CSS class bindings and `v-if`/`v-show` display logic: presentation only.
- The `product-details` component and the `product-tabs` component with its `selectedTab` switch: they pass data through to the display and hold no cart or review state (so a tab switch cannot change the cart or reviews). The write-review tab is labelled `' Make a Review'` (scripts/main.js:282) while its pane is shown only for `'Make aReview'` (scripts/main.js:273), so on the real page the form pane never appears; the `OnForm` events of `Page.Step` and `Page.Run` cover form interactions a user cannot reach there.
- The computed `title` and `onSale`: fixed strings and a constant flag with no behaviour.
- The static literal data (brand, details, sizes, colours, image paths, the two variants): `ProductCard.Initial` and `Page.Initial` take the variant list as a parameter.
- The `disabled` attribute on Add when out of stock: a rendering guard; the operation itself has no stock check and the model has none either.
- The HTML `required` attributes on the inputs: browser-side validation outside the component's code; the model lets Submit run on any field values.
- `v-model.number` conversion and NaN ratings: the model receives the rating already as an optional integer; NaN, the one other falsy number, is not represented.
- The global `eventBus` object and `$emit` to the parent: framework publish/subscribe, modelled as a direct hand-over in `Page.Step` and as `ProductCard.SelectedId`.
- The rating range 1 to 5 is not enforced by the code and is not enforced by the model.
