/**
  The replace-and-delete branch of `UsersController::destroy`: six bulk
  `UPDATE ... SET col = to WHERE col = from` statements over `users` and
  `couples`, then the removal of the old user row.
 */
module Replacement {
  import opened Wrappers
  import opened Records

  /** One `UPDATE users SET c = to WHERE c = from`. */
  function UsersWhereSet(users: map<Id, User>, c: UserColumn, from: Id, to: Id): (r: map<Id, User>)
    ensures r.Keys == users.Keys
    ensures forall k :: k in r && UserRef(users[k], c) != Some(from) ==> r[k] == users[k]
    ensures from != to ==> forall k :: k in r ==> UserRef(r[k], c) != Some(from)
    ensures forall k :: k in r && UserRef(users[k], c) == Some(from) ==> UserRef(r[k], c) == Some(to)
    ensures forall k, d :: k in r && d != c ==> UserRef(r[k], d) == UserRef(users[k], d)
    ensures forall k :: k in r ==> SameUserData(users[k], r[k])
  {
    map k | k in users :: if UserRef(users[k], c) == Some(from) then WithUserRef(users[k], c, Some(to)) else users[k]
  }

  /** One `UPDATE couples SET c = to WHERE c = from`. */
  function CouplesWhereSet(couples: map<Id, Couple>, c: CoupleColumn, from: Id, to: Id): (r: map<Id, Couple>)
    ensures r.Keys == couples.Keys
    ensures forall k :: k in r && CoupleRef(couples[k], c) != Some(from) ==> r[k] == couples[k]
    ensures from != to ==> forall k :: k in r ==> CoupleRef(r[k], c) != Some(from)
    ensures forall k :: k in r && CoupleRef(couples[k], c) == Some(from) ==> CoupleRef(r[k], c) == Some(to)
    ensures forall k, d :: k in r && d != c ==> CoupleRef(r[k], d) == CoupleRef(couples[k], d)
  {
    map k | k in couples :: if CoupleRef(couples[k], c) == Some(from) then WithCoupleRef(couples[k], c, Some(to)) else couples[k]
  }

  /** A foreign key that held `from` now holds `to`; any other value stays. */
  function Repoint(f: Ref, from: Id, to: Id): Ref {
    if f == Some(from) then Some(to) else f
  }

  function RepointUser(u: User, from: Id, to: Id): User {
    u.(fatherId := Repoint(u.fatherId, from, to),
       motherId := Repoint(u.motherId, from, to),
       managerId := Repoint(u.managerId, from, to))
  }

  function RepointCouple(p: Couple, from: Id, to: Id): Couple {
    Couple(Repoint(p.husbandId, from, to), Repoint(p.wifeId, from, to), Repoint(p.managerId, from, to))
  }

  /** The users table after the whole branch: every reference repointed, the old row gone. */
  function ReplacedUsers(users: map<Id, User>, from: Id, to: Id): (r: map<Id, User>)
    ensures r.Keys == users.Keys - {from}
    ensures forall k :: k in r ==> SameUserData(users[k], r[k])
    ensures from != to ==> forall k, c :: k in r ==> UserRef(r[k], c) != Some(from)
  {
    map k | k in users && k != from :: RepointUser(users[k], from, to)
  }

  /** The couples table after the whole branch. */
  function ReplacedCouples(couples: map<Id, Couple>, from: Id, to: Id): (r: map<Id, Couple>)
    ensures r.Keys == couples.Keys
    ensures from != to ==> forall k, c :: k in r ==> CoupleRef(r[k], c) != Some(from)
  {
    map k | k in couples :: RepointCouple(couples[k], from, to)
  }

  /** The three statements on `users`, in the controller's order, then the delete, give ReplacedUsers. */
  lemma UserStatementsReplace(users: map<Id, User>, from: Id, to: Id)
    ensures UsersWhereSet(UsersWhereSet(UsersWhereSet(users, FatherColumn, from, to), MotherColumn, from, to), ManagerColumn, from, to) - {from}
         == ReplacedUsers(users, from, to)
  {
    var u1 := UsersWhereSet(users, FatherColumn, from, to);
    var u2 := UsersWhereSet(u1, MotherColumn, from, to);
    var u3 := UsersWhereSet(u2, ManagerColumn, from, to);
    var r := ReplacedUsers(users, from, to);
    forall k | k in users && k != from
      ensures (u3 - {from})[k] == r[k]
    {
      var u := users[k];
      assert u1[k] == u.(fatherId := Repoint(u.fatherId, from, to));
      assert u2[k] == u1[k].(motherId := Repoint(u.motherId, from, to));
      assert u3[k] == u2[k].(managerId := Repoint(u.managerId, from, to));
    }
    assert (u3 - {from}).Keys == r.Keys;
  }

  /** The three statements on `couples`, in the controller's order, give ReplacedCouples. */
  lemma CoupleStatementsReplace(couples: map<Id, Couple>, from: Id, to: Id)
    ensures CouplesWhereSet(CouplesWhereSet(CouplesWhereSet(couples, HusbandColumn, from, to), WifeColumn, from, to), CoupleManagerColumn, from, to)
         == ReplacedCouples(couples, from, to)
  {
    var c1 := CouplesWhereSet(couples, HusbandColumn, from, to);
    var c2 := CouplesWhereSet(c1, WifeColumn, from, to);
    var c3 := CouplesWhereSet(c2, CoupleManagerColumn, from, to);
    var r := ReplacedCouples(couples, from, to);
    forall k | k in couples
      ensures c3[k] == r[k]
    {
      var p := couples[k];
      assert c1[k] == p.(husbandId := Repoint(p.husbandId, from, to));
      assert c2[k] == c1[k].(wifeId := Repoint(p.wifeId, from, to));
      assert c3[k] == c2[k].(managerId := Repoint(p.managerId, from, to));
    }
    assert c3.Keys == r.Keys;
  }

  /** Only foreign keys that held the old id change, and they change to the replacement. */
  lemma ReplacedChangesOnlyOldReferences(users: map<Id, User>, couples: map<Id, Couple>, from: Id, to: Id)
    ensures forall k :: k in ReplacedUsers(users, from, to) ==> SameUserData(users[k], ReplacedUsers(users, from, to)[k])
    ensures forall k, c :: k in ReplacedUsers(users, from, to) && UserRef(users[k], c) != Some(from)
              ==> UserRef(ReplacedUsers(users, from, to)[k], c) == UserRef(users[k], c)
    ensures forall k, c :: k in ReplacedUsers(users, from, to) && UserRef(users[k], c) == Some(from)
              ==> UserRef(ReplacedUsers(users, from, to)[k], c) == Some(to)
    ensures forall k, c :: k in couples && CoupleRef(couples[k], c) != Some(from)
              ==> CoupleRef(ReplacedCouples(couples, from, to)[k], c) == CoupleRef(couples[k], c)
    ensures forall k, c :: k in couples && CoupleRef(couples[k], c) == Some(from)
              ==> CoupleRef(ReplacedCouples(couples, from, to)[k], c) == Some(to)
  {
    var r := ReplacedUsers(users, from, to);
    forall k, c | k in r
      ensures UserRef(r[k], c) == Repoint(UserRef(users[k], c), from, to)
    {
    }
    forall k, c | k in couples
      ensures CoupleRef(ReplacedCouples(couples, from, to)[k], c) == Repoint(CoupleRef(couples[k], c), from, to)
    {
    }
  }

  /** With a replacement other than the old id, nothing refers to the old id afterwards, and its row is gone. */
  lemma ReplacementLeavesNoReference(users: map<Id, User>, couples: map<Id, Couple>, from: Id, to: Id)
    requires to != from
    ensures from !in ReplacedUsers(users, from, to)
    ensures NoReferenceTo(ReplacedUsers(users, from, to), ReplacedCouples(couples, from, to), from)
  {
    ReplacedChangesOnlyOldReferences(users, couples, from, to);
  }

  /**
    If every foreign key named an existing user before, it still does after a
    replacement by an existing user other than the old one.
   */
  lemma ReplacementKeepsReferencesResolved(users: map<Id, User>, couples: map<Id, Couple>, from: Id, to: Id)
    requires ReferencesResolve(users, couples)
    requires to in users && to != from
    ensures ReferencesResolve(ReplacedUsers(users, from, to), ReplacedCouples(couples, from, to))
  {
    var ru := ReplacedUsers(users, from, to);
    var rc := ReplacedCouples(couples, from, to);
    ReplacedChangesOnlyOldReferences(users, couples, from, to);
    forall k, c | k in ru && UserRef(ru[k], c).Some?
      ensures UserRef(ru[k], c).value in ru
    {
      if UserRef(users[k], c) == Some(from) {
        assert UserRef(ru[k], c) == Some(to);
      } else {
        assert UserRef(ru[k], c) == UserRef(users[k], c);
      }
    }
    forall k, c | k in rc && CoupleRef(rc[k], c).Some?
      ensures CoupleRef(rc[k], c).value in ru
    {
      if CoupleRef(couples[k], c) == Some(from) {
        assert CoupleRef(rc[k], c) == Some(to);
      } else {
        assert CoupleRef(rc[k], c) == CoupleRef(couples[k], c);
      }
    }
  }

  /** With the old id as its own replacement, no reference moves: the branch only deletes the row. */
  lemma SelfReplacementOnlyDeletes(users: map<Id, User>, couples: map<Id, Couple>, x: Id)
    ensures ReplacedUsers(users, x, x) == users - {x}
    ensures ReplacedCouples(couples, x, x) == couples
  {
    var r := ReplacedUsers(users, x, x);
    forall k | k in r
      ensures r[k] == users[k]
    {
    }
    assert r.Keys == (users - {x}).Keys;
    var rc := ReplacedCouples(couples, x, x);
    forall k | k in rc
      ensures rc[k] == couples[k]
    {
    }
  }

  /**
    A child whose father replaces himself keeps a father id that no longer
    names a user: self-replacement leaves a dangling reference.
   */
  lemma SelfReplacementDangles(father: User, child: User)
    requires child.fatherId == Some(1)
    ensures 1 !in ReplacedUsers(map[1 := father, 2 := child], 1, 1)
    ensures ReplacedUsers(map[1 := father, 2 := child], 1, 1)[2].fatherId == Some(1)
    ensures !ReferencesResolve(ReplacedUsers(map[1 := father, 2 := child], 1, 1), map[])
  {
    var r := ReplacedUsers(map[1 := father, 2 := child], 1, 1);
    assert 2 in r && UserRef(r[2], FatherColumn) == Some(1);
  }

  /**
    A, the father of X and the husband in couple U, is replaced by B:
    afterwards X's father and U's husband are B, and A is gone.
   */
  lemma ReplacementScenario(a: User, b: User, x: User, u: Couple)
    requires x.fatherId == Some(1) && u.husbandId == Some(1)
    ensures var users := ReplacedUsers(map[1 := a, 2 := b, 3 := x], 1, 2);
      var couples := ReplacedCouples(map[10 := u], 1, 2);
      && 1 !in users && 3 in users && users[3].fatherId == Some(2)
      && 10 in couples && couples[10].husbandId == Some(2)
  {
  }

  /**
    A child chosen to replace its own father becomes its own father: nothing
    stops a replacement from being one of the rows it is written into.
   */
  lemma ReplacementByChildSelfParents(father: User, child: User)
    requires child.fatherId == Some(1)
    ensures var users := ReplacedUsers(map[1 := father, 2 := child], 1, 2);
      2 in users && users[2].fatherId == Some(2)
  {
    var users := ReplacedUsers(map[1 := father, 2 := child], 1, 2);
    assert users[2] == RepointUser(child, 1, 2);
  }
}
