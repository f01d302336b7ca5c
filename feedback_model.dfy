/** Record shape of Backend/models/Feedback.js. */
module FeedbackModel {
  import opened Common

  datatype MealType = Breakfast | Lunch | Dinner

  /** The stored text of a meal type, as the schema's enum spells it. */
  function MealName(m: MealType): string
  {
    match m
    case Breakfast => "breakfast"
    case Lunch => "lunch"
    case Dinner => "dinner"
  }

  /** The schema's meal-type enum: a text outside it fails validation at save. */
  function ParseMeal(s: string): (r: Option<MealType>)
    ensures r.Some? <==> s == "breakfast" || s == "lunch" || s == "dinner"
    ensures r.Some? ==> MealName(r.value) == s
  {
    if s == "breakfast" then Some(Breakfast)
    else if s == "lunch" then Some(Lunch)
    else if s == "dinner" then Some(Dinner)
    else None
  }

  lemma MealNameInjective(a: MealType, b: MealType)
    ensures MealName(a) == MealName(b) <==> a == b
  {
    if a != b {
      assert MealName(a)[0] != MealName(b)[0];
    }
  }

  /** The schema's bounds on `rating`. */
  const MIN_RATING: int := 1
  const MAX_RATING: int := 5

  predicate RatingInRange(rating: int)
  {
    MIN_RATING <= rating <= MAX_RATING
  }

  /** A stored feedback record; `createdAt` is the insertion time. */
  datatype Feedback = Feedback(
    studentId: nat,
    mealType: MealType,
    rating: int,
    description: Option<string>,
    createdAt: int)

  /** Every stored record passed the schema's validation. */
  ghost predicate RatingsValid(fs: seq<Feedback>)
  {
    forall i :: 0 <= i < |fs| ==> RatingInRange(fs[i].rating)
  }
}
