/**
  `UsersController`'s state-changing actions over the `users` and `couples`
  tables: `update` and the two branches of `destroy`.
 */
module UsersController {
  import opened Wrappers
  import opened Text
  import opened Records
  import opened Replacement
  import opened ProfileUpdate

  /** Where the controller sends the browser next. */
  datatype Response =
    | ShowUser(id: Id)                          // redirect to users.show
    | SearchPage                                // redirect to users.search
    | Back                                      // redirect back to the previous page
    | ValidationFailed(fields: set<string>)     // the fields whose rule failed

  /** The fields of a delete request. */
  datatype DestroyForm = DestroyForm(
    replaceDeleteButton: bool,      // the replace-and-delete button was pressed
    replacementUserId: Option<Id>,  // `replacement_user_id`
    userId: Option<Id>)             // `user_id`, the echoed confirmation

  /** The two tables. */
  class FamilyStore {
    var users: map<Id, User>
    var couples: map<Id, Couple>

    constructor (users0: map<Id, User>, couples0: map<Id, Couple>)
      ensures users == users0 && couples == couples0
    {
      users := users0;
      couples := couples0;
    }

    /** `DB::table('users')->where(c, from)->update([c => to])` */
    method SetUsersWhere(c: UserColumn, from: Id, to: Id)
      modifies this
      ensures users == UsersWhereSet(old(users), c, from, to) && couples == old(couples)
    {
      users := UsersWhereSet(users, c, from, to);
    }

    /** `DB::table('couples')->where(c, from)->update([c => to])` */
    method SetCouplesWhere(c: CoupleColumn, from: Id, to: Id)
      modifies this
      ensures couples == CouplesWhereSet(old(couples), c, from, to) && users == old(users)
    {
      couples := CouplesWhereSet(couples, c, from, to);
    }

    /** The three `UPDATE users` statements of the replace branch, in order. */
    method RepointUserReferences(from: Id, to: Id)
      modifies this
      ensures users - {from} == ReplacedUsers(old(users), from, to)
      ensures users.Keys == old(users).Keys && couples == old(couples)
    {
      ghost var users0 := users;
      SetUsersWhere(FatherColumn, from, to);
      SetUsersWhere(MotherColumn, from, to);
      SetUsersWhere(ManagerColumn, from, to);
      UserStatementsReplace(users0, from, to);
    }

    /** The three `UPDATE couples` statements of the replace branch, in order. */
    method RepointCoupleReferences(from: Id, to: Id)
      modifies this
      ensures couples == ReplacedCouples(old(couples), from, to) && users == old(users)
    {
      ghost var couples0 := couples;
      SetCouplesWhere(HusbandColumn, from, to);
      SetCouplesWhere(WifeColumn, from, to);
      SetCouplesWhere(CoupleManagerColumn, from, to);
      CoupleStatementsReplace(couples0, from, to);
    }

    /**
      The replace branch of `destroy`: a replacement that is given and names an
      existing user inherits every reference to the deleted user; otherwise
      validation fails and nothing changes.
     */
    method ReplaceAndDelete(id: Id, replacement: Option<Id>) returns (response: Response)
      requires id in users
      modifies this
      ensures !(replacement.Some? && replacement.value in old(users)) ==>
        response == ValidationFailed({"replacement_user_id"}) && users == old(users) && couples == old(couples)
      ensures replacement.Some? && replacement.value in old(users) ==>
        && response == ShowUser(replacement.value)
        && users == ReplacedUsers(old(users), id, replacement.value)
        && couples == ReplacedCouples(old(couples), id, replacement.value)
        && users.Keys == old(users).Keys - {id}
        && couples.Keys == old(couples).Keys
      ensures replacement.Some? && replacement.value in old(users) && replacement.value != id ==>
        id !in users && NoReferenceTo(users, couples, id) && replacement.value in users
      ensures replacement.Some? && replacement.value in old(users) && replacement.value != id
              && ReferencesResolve(old(users), old(couples)) ==>
        ReferencesResolve(users, couples)
    {
      if !(replacement.Some? && replacement.value in users) {
        return ValidationFailed({"replacement_user_id"});
      }
      var to := replacement.value;
      ghost var users0, couples0 := users, couples;
      RepointUserReferences(id, to);
      RepointCoupleReferences(id, to);
      users := users - {id};
      if to != id {
        ReplacementLeavesNoReference(users0, couples0, id, to);
        if ReferencesResolve(users0, couples0) {
          ReplacementKeepsReferencesResolved(users0, couples0, id, to);
        }
      }
      response := ShowUser(to);
    }

    /**
      The fallback branch of `destroy`: the row goes only when the echoed
      `user_id` equals the user's id and the delete succeeds (`deleted`);
      otherwise nothing changes.
     */
    method GuardedDelete(id: Id, userId: Option<Id>, deleted: bool) returns (response: Response)
      requires id in users
      modifies this
      ensures couples == old(couples)
      ensures userId.None? ==> response == ValidationFailed({"user_id"}) && users == old(users)
      ensures userId == Some(id) && deleted ==> response == SearchPage && users == old(users) - {id}
      ensures userId.Some? && !(userId.value == id && deleted) ==> response == Back && users == old(users)
    {
      if userId.None? {
        return ValidationFailed({"user_id"});
      }
      if userId.value == id && deleted {
        users := users - {id};
        response := SearchPage;
      } else {
        response := Back;
      }
    }

    /** `destroy`: the pressed button chooses the branch. */
    method Destroy(id: Id, form: DestroyForm, deleted: bool) returns (response: Response)
      requires id in users
      modifies this
      ensures form.replaceDeleteButton ==>
        var r := form.replacementUserId;
        if r.Some? && r.value in old(users) then
          response == ShowUser(r.value)
          && users == ReplacedUsers(old(users), id, r.value)
          && couples == ReplacedCouples(old(couples), id, r.value)
        else
          response == ValidationFailed({"replacement_user_id"}) && users == old(users) && couples == old(couples)
      ensures !form.replaceDeleteButton ==> couples == old(couples)
      ensures !form.replaceDeleteButton && form.userId.None? ==>
        response == ValidationFailed({"user_id"}) && users == old(users)
      ensures !form.replaceDeleteButton && form.userId == Some(id) && deleted ==>
        response == SearchPage && users == old(users) - {id}
      ensures !form.replaceDeleteButton && form.userId.Some? && !(form.userId.value == id && deleted) ==>
        response == Back && users == old(users)
    {
      if form.replaceDeleteButton {
        response := ReplaceAndDelete(id, form.replacementUserId);
      } else {
        response := GuardedDelete(id, form.userId, deleted);
      }
    }

    /**
      `update`: a valid form is assigned field by field to the user's row and
      saved; an invalid one changes nothing and reports its failing fields.
     */
    method Update(id: Id, form: UpdateForm, bcrypt: string -> string) returns (response: Response)
      requires id in users
      modifies this
      ensures couples == old(couples)
      ensures !Valid(form) ==> response == ValidationFailed(UpdateErrors(form)) && users == old(users)
      ensures Valid(form) ==>
        && response == ShowUser(id)
        && users == old(users)[id := Edited(old(users)[id], form, bcrypt)]
        && users[id].yod == (if form.dod.Some? then Some(form.dod.value[..4]) else form.yod)
        && users[id].password == (if form.password.Some? then Some(bcrypt(form.password.value)) else old(users)[id].password)
    {
      var errors := UpdateErrors(form);
      if errors != {} {
        return ValidationFailed(errors);
      }
      var u := users[id];
      u := u.(nickname := form.nickname.value);
      u := u.(name := form.name.value);
      u := u.(genderId := form.genderId.value);
      u := u.(dob := form.dob);
      u := u.(dod := form.dod);
      if Truthy(form.dod) {
        u := u.(yod := Some(Prefix(form.dod.value, 4)));
      } else {
        u := u.(yod := form.yod);
      }
      u := u.(phone := form.phone);
      u := u.(address := form.address);
      u := u.(city := form.city);
      u := u.(email := form.email);
      if Truthy(form.password) {
        u := u.(password := Some(bcrypt(form.password.value)));
      }
      EditedYearOfDeath(old(users)[id], form, bcrypt);
      EditedPassword(old(users)[id], form, bcrypt);
      users := users[id := u];
      response := ShowUser(id);
    }
  }
}
