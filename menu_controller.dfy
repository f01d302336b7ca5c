/** The menus collection as Backend/controllers/menuController.js changes it:
    create and update, each followed by a mail to every student. */
module MenuController {
  import opened Common
  import opened Users
  import opened Menus

  const MENU_SUBJECT := "Menu Updated"

  class MenuCollection {
    var menus: seq<Menu>
    /** The next document id; ids are never reused. */
    var nextId: nat

    ghost predicate Valid()
      reads this
    {
      IdsOrdered(menus, MenuId, nextId)
    }

    constructor ()
      ensures Valid() && menus == [] && nextId == 0
    {
      menus, nextId := [], 0;
    }

    /** POST /menu (`createMenu`): secretaries only; a missing date fails the
        schema at save and answers 500. */
    method CreateMenu(users: seq<User>, callerId: nat, date: Option<int>,
                      breakfast: seq<string>, lunch: seq<string>, dinner: seq<string>, now: int)
      returns (resp: Response, mails: seq<Mail>)
      requires Valid()
      modifies this
      ensures Valid()
      ensures CallerRole(users, callerId).None? ==> resp == ServerError
      ensures CallerRole(users, callerId) == Some(Student) ==> resp == Response(FORBIDDEN, "Only secretaries can create menus")
      ensures CallerRole(users, callerId) == Some(Secretary) && date.None? ==> resp == ServerError
      ensures resp.status == CREATED <==> CallerRole(users, callerId) == Some(Secretary) && date.Some?
      ensures resp.status == CREATED ==>
        && resp == Response(CREATED, "Menu created and notification sent")
        && menus == old(menus) + [Menu(old(nextId), date.value, breakfast, lunch, dinner, callerId, now, now)]
        && nextId == old(nextId) + 1
        && mails == MailsTo(StudentEmails(users), MENU_SUBJECT)
      ensures resp.status != CREATED ==> menus == old(menus) && nextId == old(nextId) && mails == []
    {
      var role := CallerRole(users, callerId);
      if role.None? {
        return ServerError, [];
      }
      if role.value != Secretary {
        return Response(FORBIDDEN, "Only secretaries can create menus"), [];
      }
      if date.None? {
        return ServerError, [];
      }
      var m := Menu(nextId, date.value, breakfast, lunch, dinner, callerId, now, now);
      IdsOrderedAppend(menus, MenuId, nextId, m);
      menus := menus + [m];
      nextId := nextId + 1;
      mails := MailsTo(StudentEmails(users), MENU_SUBJECT);
      resp := Response(CREATED, "Menu created and notification sent");
    }

    /** PUT /menu/:menuId (`updateMenu`): role, then existence. */
    method UpdateMenu(users: seq<User>, callerId: nat, menuId: nat,
                      breakfast: seq<string>, lunch: seq<string>, dinner: seq<string>, now: int)
      returns (resp: Response, mails: seq<Mail>)
      requires Valid()
      modifies this
      ensures Valid() && nextId == old(nextId)
      ensures CallerRole(users, callerId).None? ==> resp == ServerError
      ensures CallerRole(users, callerId) == Some(Student) ==> resp == Response(FORBIDDEN, "Only secretaries can update menus")
      ensures CallerRole(users, callerId) == Some(Secretary) && IndexOf(old(menus), MenuId, menuId).None? ==>
        resp == Response(NOT_FOUND, "Menu not found")
      ensures resp.status == OK <==> CallerRole(users, callerId) == Some(Secretary) && IndexOf(old(menus), MenuId, menuId).Some?
      ensures var found := IndexOf(old(menus), MenuId, menuId);
        resp.status == OK ==>
          && resp == Response(OK, "Menu updated and notification sent")
          && menus == old(menus)[found.value := WithMeals(old(menus)[found.value], breakfast, lunch, dinner, now)]
          && mails == MailsTo(StudentEmails(users), MENU_SUBJECT)
      ensures resp.status != OK ==> menus == old(menus) && mails == []
    {
      var role := CallerRole(users, callerId);
      if role.None? {
        return ServerError, [];
      }
      if role.value != Secretary {
        return Response(FORBIDDEN, "Only secretaries can update menus"), [];
      }
      var found := IndexOf(menus, MenuId, menuId);
      if found.None? {
        return Response(NOT_FOUND, "Menu not found"), [];
      }
      var updated := WithMeals(menus[found.value], breakfast, lunch, dinner, now);
      IdsOrderedReplace(menus, MenuId, nextId, found.value, updated);
      menus := menus[found.value := updated];
      mails := MailsTo(StudentEmails(users), MENU_SUBJECT);
      resp := Response(OK, "Menu updated and notification sent");
    }
  }
}
