/** Dated menus (Backend/models/Menu.js) and the pure parts of
    Backend/controllers/menuController.js: the listing and what an update writes. */
module Menus {
  import opened Common
  import opened Ordering

  /** One dated menu: three item lists, its author, and two timestamps. */
  datatype Menu = Menu(
    id: nat,
    date: int,
    breakfast: seq<string>,
    lunch: seq<string>,
    dinner: seq<string>,
    createdBy: nat,
    createdAt: int,
    updatedAt: int)

  function MenuId(m: Menu): nat { m.id }
  function MenuDate(m: Menu): int { m.date }

  /** `limit(10)` of GET /menu. */
  const MENU_LIMIT: nat := 10

  /** GET /menu: `Menu.find().sort({ date: -1 }).limit(10)`: at most ten stored
      menus, latest date first, and none left out is later than one returned. */
  function LatestMenus(menus: seq<Menu>): (r: seq<Menu>)
    ensures |r| == if |menus| < MENU_LIMIT then |menus| else MENU_LIMIT
    ensures SortedDesc(r, MenuDate)
    ensures multiset(r) <= multiset(menus)
    ensures forall m, x :: m in multiset(menus) - multiset(r) && x in r ==> m.date <= x.date
  {
    var sorted := SortDesc(menus, MenuDate);
    PrefixDominates(sorted, MenuDate, MENU_LIMIT);
    var r := Take(sorted, MENU_LIMIT);
    assert SortedDesc(r, MenuDate) by {
      forall i, j | 0 <= i < j < |r| ensures r[i].date >= r[j].date {
        assert r[i] == sorted[i] && r[j] == sorted[j];
      }
    }
    r
  }

  /** What `findByIdAndUpdate(menuId, { breakfast, lunch, dinner, updatedAt })`
      writes: the three lists and the update time; date, author and creation
      time stay. */
  function WithMeals(m: Menu, breakfast: seq<string>, lunch: seq<string>, dinner: seq<string>, now: int): (r: Menu)
    ensures r.breakfast == breakfast && r.lunch == lunch && r.dinner == dinner && r.updatedAt == now
    ensures r.id == m.id && r.date == m.date && r.createdBy == m.createdBy && r.createdAt == m.createdAt
  {
    m.(breakfast := breakfast, lunch := lunch, dinner := dinner, updatedAt := now)
  }
}
