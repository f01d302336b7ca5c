/** The decisions and queries of Backend/controllers/feedbackController.js:
    the request check, the "already today" window, the one-per-day invariant
    it protects, and the two listings. */
module Feedbacks {
  import opened Common
  import opened Users
  import opened FeedbackModel

  /** Milliseconds in a day. */
  const DAY_MS: int := 86400000

  /** The local calendar day of instant `t` (ms since the epoch) on a server
      whose local time is `tz` ms ahead of UTC. */
  function DayOf(t: int, tz: int): int
  {
    (t + tz) / DAY_MS
  }

  /** `startOfDay.setHours(0, 0, 0, 0)`: local midnight of the day of `now`,
      the first instant of that local day. */
  function StartOfDay(now: int, tz: int): (r: int)
    ensures r <= now && DayOf(r, tz) == DayOf(now, tz)
    ensures DayOf(r - 1, tz) == DayOf(now, tz) - 1
  {
    var d := (now + tz) / DAY_MS;
    assert now - (now + tz) % DAY_MS + tz == d * DAY_MS;
    assert (d * DAY_MS) / DAY_MS == d;
    assert (d * DAY_MS - 1) / DAY_MS == d - 1 by {
      assert d * DAY_MS - 1 == (d - 1) * DAY_MS + (DAY_MS - 1);
    }
    now - (now + tz) % DAY_MS
  }

  /** `endOfDay.setHours(23, 59, 59, 999)`: the last millisecond of that
      local day. */
  function EndOfDay(now: int, tz: int): (r: int)
    ensures now <= r && DayOf(r, tz) == DayOf(now, tz)
    ensures DayOf(r + 1, tz) == DayOf(now, tz) + 1
  {
    var d := (now + tz) / DAY_MS;
    var r := StartOfDay(now, tz) + DAY_MS - 1;
    assert r + tz == d * DAY_MS + (DAY_MS - 1);
    assert (d * DAY_MS + (DAY_MS - 1)) / DAY_MS == d;
    assert (r + 1 + tz) / DAY_MS == d + 1 by {
      assert r + 1 + tz == (d + 1) * DAY_MS;
    }
    r
  }

  /** The query window `[startOfDay, endOfDay]` holds exactly the instants of
      the same local day as `now`. */
  lemma TodayWindowIsLocalDay(now: int, t: int, tz: int)
    ensures StartOfDay(now, tz) <= t <= EndOfDay(now, tz) <==> DayOf(t, tz) == DayOf(now, tz)
  {
    var d := DayOf(now, tz);
    assert StartOfDay(now, tz) + tz == d * DAY_MS;
    var q, r := (t + tz) / DAY_MS, (t + tz) % DAY_MS;
    assert t + tz == q * DAY_MS + r && 0 <= r < DAY_MS;
    if q < d {
      assert q * DAY_MS <= (d - 1) * DAY_MS;
    } else if q > d {
      assert q * DAY_MS >= (d + 1) * DAY_MS;
    }
  }

  /** `!mealType || !rating`: a missing meal type, or a missing or zero rating. */
  predicate MissingFields(mealType: string, rating: Option<int>)
  {
    mealType == "" || rating.None? || rating.value == 0
  }

  /** The `findOne` of `submitFeedback`: some record of this student, with this
      meal-type text, created inside the window of today. */
  function RatedToday(fs: seq<Feedback>, studentId: nat, mealType: string, now: int, tz: int): (b: bool)
    ensures b <==> exists i :: 0 <= i < |fs| && fs[i].studentId == studentId
                              && ParseMeal(mealType) == Some(fs[i].mealType)
                              && DayOf(fs[i].createdAt, tz) == DayOf(now, tz)
  {
    forall i | 0 <= i < |fs| ensures
      (MealName(fs[i].mealType) == mealType <==> ParseMeal(mealType) == Some(fs[i].mealType))
      && (StartOfDay(now, tz) <= fs[i].createdAt <= EndOfDay(now, tz) <==> DayOf(fs[i].createdAt, tz) == DayOf(now, tz))
    {
      TodayWindowIsLocalDay(now, fs[i].createdAt, tz);
      if MealName(fs[i].mealType) != mealType && ParseMeal(mealType).Some? {
        MealNameInjective(fs[i].mealType, ParseMeal(mealType).value);
      }
    }
    exists i :: 0 <= i < |fs| && fs[i].studentId == studentId && MealName(fs[i].mealType) == mealType
                && StartOfDay(now, tz) <= fs[i].createdAt <= EndOfDay(now, tz)
  }

  /** The invariant the check protects: at most one record per student, meal
      type and local day. */
  ghost predicate OnePerDay(fs: seq<Feedback>, tz: int)
  {
    forall i, j :: 0 <= i < j < |fs| ==>
      !(fs[i].studentId == fs[j].studentId && fs[i].mealType == fs[j].mealType
        && DayOf(fs[i].createdAt, tz) == DayOf(fs[j].createdAt, tz))
  }

  /** Inserting a record stamped `now` after the check found nothing for its
      student, meal and day keeps the invariant. */
  lemma InsertKeepsOnePerDay(fs: seq<Feedback>, tz: int, f: Feedback)
    requires OnePerDay(fs, tz)
    requires !RatedToday(fs, f.studentId, MealName(f.mealType), f.createdAt, tz)
    ensures OnePerDay(fs + [f], tz)
  {
    var all := fs + [f];
    forall i, j | 0 <= i < j < |all|
      ensures !(all[i].studentId == all[j].studentId && all[i].mealType == all[j].mealType
                && DayOf(all[i].createdAt, tz) == DayOf(all[j].createdAt, tz))
    {
      if j == |fs| {
        assert all[i] == fs[i] && all[j] == f;
      } else {
        assert all[i] == fs[i] && all[j] == fs[j];
      }
    }
  }

  /** What the check blocks: only the same student rating the same meal again
      on the same local day. A record for another meal, or for the same meal
      on another day, does not block. */
  lemma OnlySameMealSameDayBlocks(fs: seq<Feedback>, studentId: nat, meal: MealType, now: int, tz: int)
    requires forall i :: 0 <= i < |fs| && fs[i].studentId == studentId ==>
               fs[i].mealType != meal || DayOf(fs[i].createdAt, tz) != DayOf(now, tz)
    ensures !RatedToday(fs, studentId, MealName(meal), now, tz)
  {
  }

  /** The record `submitFeedback` adds. */
  function NewFeedback(studentId: nat, meal: MealType, rating: int, description: Option<string>, now: int): Feedback
  {
    Feedback(studentId, meal, rating, description, now)
  }

  /** `Feedback.find({ mealType })`, in insertion order. */
  function OfMeal(fs: seq<Feedback>, mealType: string): (r: seq<Feedback>)
    ensures forall f :: f in r <==> f in fs && MealName(f.mealType) == mealType
    ensures forall f :: multiset(r)[f] == if MealName(f.mealType) == mealType then multiset(fs)[f] else 0
    ensures multiset(r) <= multiset(fs)
    decreases |fs|
  {
    if |fs| == 0 then []
    else
      assert fs == [fs[0]] + fs[1..];
      var rest := OfMeal(fs[1..], mealType);
      if MealName(fs[0].mealType) == mealType then [fs[0]] + rest else rest
  }

  /** GET /feedback/:mealType: secretaries only; then exactly the records of
      that meal type. A caller without an account makes `user.role` throw. */
  function FeedbackByMealType(users: seq<User>, fs: seq<Feedback>, callerId: nat, mealType: string): (r: Listing<Feedback>)
    ensures r.Listed? <==> CallerRole(users, callerId) == Some(Secretary)
    ensures r.Listed? ==> r.items == OfMeal(fs, mealType)
    ensures CallerRole(users, callerId) == Some(Student) ==> r == Refused(Response(FORBIDDEN, "Only secretaries can view feedback"))
    ensures CallerRole(users, callerId).None? ==> r == Refused(ServerError)
  {
    match CallerRole(users, callerId)
    case None => Refused(ServerError)
    case Some(role) =>
      if role != Secretary then Refused(Response(FORBIDDEN, "Only secretaries can view feedback"))
      else Listed(OfMeal(fs, mealType))
  }

  /** GET /feedback: every record, whoever asks; it takes no caller. */
  function AllFeedback(fs: seq<Feedback>): seq<Feedback>
  {
    fs
  }

  /** The meal-type listing is the part of the full listing with that meal type. */
  lemma ByMealIsPartOfAll(fs: seq<Feedback>, meal: MealType)
    ensures forall f :: f in AllFeedback(fs) && f.mealType == meal <==> f in OfMeal(fs, MealName(meal))
  {
    forall f | f in fs ensures MealName(f.mealType) == MealName(meal) <==> f.mealType == meal {
      MealNameInjective(f.mealType, meal);
    }
  }
}
