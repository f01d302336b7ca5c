/** The feedback collection as `submitFeedback` in
    Backend/controllers/feedbackController.js changes it. */
module FeedbackController {
  import opened Common
  import opened FeedbackModel
  import opened Feedbacks

  const FEEDBACK_MISSING := Response(BAD_REQUEST, "Meal type and rating are required")
  const FEEDBACK_TWICE := Response(CONFLICT, "You have already submitted feedback for this meal today.")

  class FeedbackCollection {
    var feedback: seq<Feedback>
    /** How far the server's local time is ahead of UTC, in ms. */
    const tz: int

    /** One record per student, meal and local day; every rating in range. */
    ghost predicate Valid()
      reads this
    {
      OnePerDay(feedback, tz) && RatingsValid(feedback)
    }

    constructor (tz: int)
      ensures Valid() && feedback == [] && this.tz == tz
    {
      this.tz := tz;
      feedback := [];
    }

    /** POST /feedback (`submitFeedback`): the falsy check, then the per-day
        duplicate check, then the schema's validation at save. */
    method SubmitFeedback(callerId: nat, mealType: string, rating: Option<int>, description: Option<string>, now: int)
      returns (resp: Response)
      requires Valid()
      modifies this
      ensures Valid()
      ensures MissingFields(mealType, rating) ==> resp == FEEDBACK_MISSING
      ensures !MissingFields(mealType, rating) && RatedToday(old(feedback), callerId, mealType, now, tz) ==> resp == FEEDBACK_TWICE
      ensures (!MissingFields(mealType, rating) && !RatedToday(old(feedback), callerId, mealType, now, tz)
               && (ParseMeal(mealType).None? || !RatingInRange(rating.value))) ==> resp == ServerError
      ensures resp.status == CREATED <==>
        !MissingFields(mealType, rating) && !RatedToday(old(feedback), callerId, mealType, now, tz)
        && ParseMeal(mealType).Some? && RatingInRange(rating.value)
      ensures resp.status == CREATED ==>
        && resp == Response(CREATED, "Feedback submitted successfully")
        && feedback == old(feedback) + [NewFeedback(callerId, ParseMeal(mealType).value, rating.value, description, now)]
      ensures resp.status != CREATED ==> feedback == old(feedback)
    {
      if MissingFields(mealType, rating) {
        return FEEDBACK_MISSING;
      }
      if RatedToday(feedback, callerId, mealType, now, tz) {
        return FEEDBACK_TWICE;
      }
      var meal := ParseMeal(mealType);
      if meal.None? || !RatingInRange(rating.value) {
        return ServerError;
      }
      var f := NewFeedback(callerId, meal.value, rating.value, description, now);
      InsertKeepsOnePerDay(feedback, tz, f);
      feedback := feedback + [f];
      resp := Response(CREATED, "Feedback submitted successfully");
    }
  }
}
