/**
 * The `product-review` component (scripts/main.js): four input fields, an
 * error list that only ever grows, and `onSubmit`, which either publishes one
 * review and clears the fields or appends one message per missing field.
 * Publishing on the event bus is the `emitted` part of a submission.
 */
module ReviewForm {
  import opened Wrappers
  import opened JsValues

  /** The record published on `review-submitted`. */
  datatype Review = Review(name: string, review: string, rating: int, recommend: string)

  /** The component's `data()`; `errors` is shown to the user as a list. */
  datatype Form = Form(
    name: Option<string>,
    review: Option<string>,
    rating: Option<int>,
    recommend: Option<string>,
    errors: seq<string>)

  /** The result of one `onSubmit`: the new form and what was published, if anything. */
  datatype Submission = Submission(form: Form, emitted: Option<Review>)

  const NameRequired: string := "Name required."
  const ReviewRequired: string := "Review required."
  const RatingRequired: string := "Rating required."
  const RecommendationRequired: string := "Recommendation required."

  /** The validation messages, in the order the fields are checked. */
  const Messages: seq<string> := [NameRequired, ReviewRequired, RatingRequired, RecommendationRequired]

  /** Every field starts out `null` and there are no errors. */
  function Initial(): (f: Form)
    ensures !Complete(f) && f.errors == []
    ensures forall k :: 0 <= k < |Checks(f)| ==> Checks(f)[k].missing
    ensures MissingMessages(f) == Messages
  {
    var f := Form(None, None, None, None, []);
    assert Checks(f)[1..][1..][1..][1..] == [];
    f
  }

  /** All four fields are truthy, so a submit publishes a review. */
  predicate Complete(f: Form)
    ensures Complete(f) <==> forall k :: 0 <= k < |Checks(f)| ==> !Checks(f)[k].missing
  {
    var cs := Checks(f);
    assert !cs[0].missing && !cs[1].missing && !cs[2].missing && !cs[3].missing ==>
           forall k :: 0 <= k < |cs| ==> !cs[k].missing;
    TextTruthy(f.name) && TextTruthy(f.review) && NumberTruthy(f.rating) && TextTruthy(f.recommend)
  }

  /** One step of validation: whether a field is missing, and the message that says so. */
  datatype Check = Check(missing: bool, message: string)

  /** The four checks, in the order `onSubmit` makes them. */
  function Checks(f: Form): (cs: seq<Check>)
    ensures |cs| == |Messages|
    ensures forall k :: 0 <= k < |cs| ==> cs[k].message == Messages[k]
    ensures cs[0].missing == !TextTruthy(f.name) && cs[1].missing == !TextTruthy(f.review)
    ensures cs[2].missing == !NumberTruthy(f.rating) && cs[3].missing == !TextTruthy(f.recommend)
  {
    [ Check(!TextTruthy(f.name), NameRequired),
      Check(!TextTruthy(f.review), ReviewRequired),
      Check(!NumberTruthy(f.rating), RatingRequired),
      Check(!TextTruthy(f.recommend), RecommendationRequired) ]
  }

  /** The messages of the failing checks, in check order. */
  function Pick(checks: seq<Check>): (r: seq<string>)
    ensures |r| <= |checks|
    ensures forall m :: m in r <==> exists k :: 0 <= k < |checks| && checks[k].missing && checks[k].message == m
  {
    if |checks| == 0 then []
    else
      var rest := Pick(checks[1..]);
      assert forall k :: 1 <= k < |checks| ==> checks[1..][k - 1] == checks[k];
      (if checks[0].missing then [checks[0].message] else []) + rest
  }

  /** The messages a failed submit of `f` adds. */
  function MissingMessages(f: Form): seq<string> {
    Pick(Checks(f))
  }

  /** Run the checks in order, pushing a message onto `errors` for each failing one. */
  function PushMissing(errors: seq<string>, checks: seq<Check>): seq<string>
    decreases |checks|
  {
    if |checks| == 0 then errors
    else
      var pushed := if checks[0].missing then errors + [checks[0].message] else errors;
      PushMissing(pushed, checks[1..])
  }

  /** Pushing one by one onto the list appends exactly the picked messages. */
  lemma {:induction false} PushMissingAppends(errors: seq<string>, checks: seq<Check>)
    ensures PushMissing(errors, checks) == errors + Pick(checks)
    decreases |checks|
  {
    if |checks| > 0 {
      var pushed := if checks[0].missing then errors + [checks[0].message] else errors;
      PushMissingAppends(pushed, checks[1..]);
      assert pushed == errors + (if checks[0].missing then [checks[0].message] else []);
    } else {
      assert errors + [] == errors;
    }
  }

  /** The `else` branch of `onSubmit`: check the fields in order and push one
      message for each missing one onto the existing list. */
  function Validate(f: Form): (errors: seq<string>)
    ensures errors == f.errors + MissingMessages(f)
  {
    PushMissingAppends(f.errors, Checks(f));
    PushMissing(f.errors, Checks(f))
  }

  /** `onSubmit`: publish and reset when every field is filled in, otherwise
      only add error messages. */
  function OnSubmit(f: Form): (s: Submission)
    ensures s.emitted.Some? <==> Complete(f)
    ensures Complete(f) ==>
              && s.emitted == Some(Review(f.name.value, f.review.value, f.rating.value, f.recommend.value))
              && s.form == Form(None, None, None, None, f.errors)
    ensures !Complete(f) ==> s.form == f.(errors := f.errors + MissingMessages(f))
    ensures f.errors <= s.form.errors
  {
    if Complete(f) then
      var productReview := Review(f.name.value, f.review.value, f.rating.value, f.recommend.value);
      Submission(f.(name := None, review := None, rating := None, recommend := None), Some(productReview))
    else
      Submission(f.(errors := Validate(f)), None)
  }

  /** A failed submit names exactly the missing fields, at least one and at most four. */
  lemma MissingMessagesExact(f: Form)
    ensures NameRequired in MissingMessages(f) <==> !TextTruthy(f.name)
    ensures ReviewRequired in MissingMessages(f) <==> !TextTruthy(f.review)
    ensures RatingRequired in MissingMessages(f) <==> !NumberTruthy(f.rating)
    ensures RecommendationRequired in MissingMessages(f) <==> !TextTruthy(f.recommend)
    ensures 1 <= |MissingMessages(f)| <= 4 <==> !Complete(f)
  {
    var cs, m := Checks(f), MissingMessages(f);
    MessagesDistinct();
    assert cs[0].message == NameRequired && cs[1].message == ReviewRequired;
    assert cs[2].message == RatingRequired && cs[3].message == RecommendationRequired;
    assert cs[0].missing == !TextTruthy(f.name) && cs[1].missing == !TextTruthy(f.review);
    assert cs[2].missing == !NumberTruthy(f.rating) && cs[3].missing == !TextTruthy(f.recommend);
    if |m| > 0 {
      assert m[0] in m;
    }
  }

  /** The four messages differ from one another. */
  lemma MessagesDistinct()
    ensures NameRequired != ReviewRequired && NameRequired != RatingRequired
    ensures NameRequired != RecommendationRequired && ReviewRequired != RatingRequired
    ensures ReviewRequired != RecommendationRequired && RatingRequired != RecommendationRequired
  {
    assert NameRequired[0] == 'N' && ReviewRequired[0] == 'R';
    assert ReviewRequired[1] == 'e' && RatingRequired[1] == 'a' && RecommendationRequired[1] == 'e';
    assert ReviewRequired[2] == 'v' && RecommendationRequired[2] == 'c';
  }

  /** A failed submit always makes the error list strictly longer. */
  lemma FailedSubmitGrowsErrors(f: Form)
    requires !Complete(f)
    ensures |OnSubmit(f).form.errors| > |f.errors|
    ensures OnSubmit(f).emitted == None
  {
    MissingMessagesExact(f);
  }

  /** What can happen to the form: the user edits one field (the `v-model`
      bindings assign it) or presses Submit. */
  datatype FormEvent =
    | SetName(name: Option<string>)
    | SetReview(review: Option<string>)
    | SetRating(rating: Option<int>)
    | SetRecommend(recommend: Option<string>)
    | Submit

  /** One event; only Submit can publish. */
  function Apply(f: Form, e: FormEvent): Submission {
    match e
    case SetName(v) => Submission(f.(name := v), None)
    case SetReview(v) => Submission(f.(review := v), None)
    case SetRating(v) => Submission(f.(rating := v), None)
    case SetRecommend(v) => Submission(f.(recommend := v), None)
    case Submit => OnSubmit(f)
  }

  /** The form after a session of events, and the reviews it published in order. */
  datatype Session = Session(form: Form, published: seq<Review>)

  function Run(f: Form, events: seq<FormEvent>): Session
    decreases |events|
  {
    if |events| == 0 then Session(f, [])
    else
      var s := Apply(f, events[0]);
      var rest := Run(s.form, events[1..]);
      var now := if s.emitted.Some? then [s.emitted.value] else [];
      Session(rest.form, now + rest.published)
  }

  /** A session split after its first event. */
  lemma RunCons(f: Form, e: FormEvent, rest: seq<FormEvent>)
    ensures var s := Apply(f, e);
            Run(f, [e] + rest)
            == Session(Run(s.form, rest).form,
                       (if s.emitted.Some? then [s.emitted.value] else []) + Run(s.form, rest).published)
  {
    assert ([e] + rest)[0] == e && ([e] + rest)[1..] == rest;
  }

  /** `errors` is append-only: no sequence of edits and submits ever shrinks or clears it. */
  lemma {:induction false} ErrorsAppendOnly(f: Form, events: seq<FormEvent>)
    ensures f.errors <= Run(f, events).form.errors
    decreases |events|
  {
    if |events| > 0 {
      var s := Apply(f, events[0]);
      assert f.errors <= s.form.errors;
      ErrorsAppendOnly(s.form, events[1..]);
    }
  }

  /** `n` submits in a row. */
  function Submits(n: nat): (evs: seq<FormEvent>)
    ensures |evs| == n && forall e :: e in evs ==> e == Submit
  {
    if n == 0 then [] else [Submit] + Submits(n - 1)
  }

  /** `m` concatenated `n` times. */
  function Repeat(m: seq<string>, n: nat): seq<string> {
    if n == 0 then [] else m + Repeat(m, n - 1)
  }

  /** Repeated failed submits pile the same messages up once per attempt, and
      publish nothing. */
  lemma {:induction false} RepeatedFailures(f: Form, n: nat)
    requires !Complete(f)
    ensures Run(f, Submits(n)).form == f.(errors := f.errors + Repeat(MissingMessages(f), n))
    ensures Run(f, Submits(n)).published == []
    decreases n
  {
    var m := MissingMessages(f);
    if n == 0 {
      assert f.errors + Repeat(m, 0) == f.errors;
    } else {
      var g := f.(errors := f.errors + m);
      var tail := Submits(n - 1);
      assert Submits(n) == [Submit] + tail;
      FailedSubmitStep(f, tail);
      assert Checks(g) == Checks(f);
      RepeatedFailures(g, n - 1);
      var later := Repeat(m, n - 1);
      assert Run(g, tail).form == g.(errors := (f.errors + m) + later);
      assert (f.errors + m) + later == f.errors + Repeat(m, n);
      assert Run(f, Submits(n)) == Run(g, tail);
    }
  }

  /** A session that opens with a failed submit continues from the form with the
      messages appended. */
  lemma FailedSubmitStep(f: Form, rest: seq<FormEvent>)
    requires !Complete(f)
    ensures Run(f, [Submit] + rest) == Run(f.(errors := f.errors + MissingMessages(f)), rest)
  {
    assert ([Submit] + rest)[0] == Submit && ([Submit] + rest)[1..] == rest;
  }

  /** A successful submit leaves earlier error messages in place. */
  lemma SuccessKeepsErrors(f: Form)
    requires Complete(f)
    ensures OnSubmit(f).form.errors == f.errors
    ensures !Complete(OnSubmit(f).form)
  {
  }

  /** A filled-in form: Ann's review of the socks is published and the fields reset. */
  lemma ExampleComplete()
    ensures OnSubmit(Form(Some("Ann"), Some("Great socks"), Some(5), Some("Yes"), [])).emitted
         == Some(Review("Ann", "Great socks", 5, "Yes"))
    ensures OnSubmit(Form(Some("Ann"), Some("Great socks"), Some(5), Some("Yes"), [])).form == Initial()
  {
  }

  /** Only the name is missing: exactly one message, nothing published. */
  lemma ExampleNameMissing()
    ensures OnSubmit(Form(None, Some("x"), Some(4), Some("Yes"), [])).form.errors == [NameRequired]
    ensures OnSubmit(Form(None, Some("x"), Some(4), Some("Yes"), [])).emitted == None
  {
  }

  /** Submitting the untouched form reports all four fields, in check order. */
  lemma ExampleEmptySubmit()
    ensures OnSubmit(Initial()).form.errors == Messages
    ensures OnSubmit(Initial()).emitted == None
  {
    var cs := Checks(Initial());
    assert cs[1..][1..][1..][1..] == [];
  }
}
