/**
  Rows of the `users` and `couples` tables. Every foreign key is an integer or
  null; a table is a map from row id to row.
 */
module Records {
  import opened Wrappers

  type Id = int

  /** A nullable foreign key. */
  type Ref = Option<Id>

  /** A person. */
  datatype User = User(
    nickname: string,
    name: string,
    genderId: int,
    dob: Option<string>,
    dod: Option<string>,
    yod: Option<string>,
    phone: Option<string>,
    address: Option<string>,
    city: Option<string>,
    email: Option<string>,
    password: Option<string>,
    photoPath: Option<string>,
    fatherId: Ref,
    motherId: Ref,
    managerId: Ref)

  /** A marriage between two people. */
  datatype Couple = Couple(husbandId: Ref, wifeId: Ref, managerId: Ref)

  /** The foreign-key columns of `users`. */
  datatype UserColumn = FatherColumn | MotherColumn | ManagerColumn

  /** The foreign-key columns of `couples`. */
  datatype CoupleColumn = HusbandColumn | WifeColumn | CoupleManagerColumn

  function UserRef(u: User, c: UserColumn): Ref {
    match c
    case FatherColumn => u.fatherId
    case MotherColumn => u.motherId
    case ManagerColumn => u.managerId
  }

  function CoupleRef(p: Couple, c: CoupleColumn): Ref {
    match c
    case HusbandColumn => p.husbandId
    case WifeColumn => p.wifeId
    case CoupleManagerColumn => p.managerId
  }

  /** Two user rows agree on every column that is not a foreign key. */
  predicate SameUserData(u: User, v: User) {
    u.(fatherId := None, motherId := None, managerId := None)
      == v.(fatherId := None, motherId := None, managerId := None)
  }

  /** Sets one foreign-key column of a user row. */
  function WithUserRef(u: User, c: UserColumn, v: Ref): (r: User)
    ensures UserRef(r, c) == v
    ensures forall d :: d != c ==> UserRef(r, d) == UserRef(u, d)
    ensures SameUserData(u, r)
  {
    match c
    case FatherColumn => u.(fatherId := v)
    case MotherColumn => u.(motherId := v)
    case ManagerColumn => u.(managerId := v)
  }

  /** Sets one foreign-key column of a couple row. */
  function WithCoupleRef(p: Couple, c: CoupleColumn, v: Ref): (r: Couple)
    ensures CoupleRef(r, c) == v
    ensures forall d :: d != c ==> CoupleRef(r, d) == CoupleRef(p, d)
  {
    match c
    case HusbandColumn => p.(husbandId := v)
    case WifeColumn => p.(wifeId := v)
    case CoupleManagerColumn => p.(managerId := v)
  }

  /** No row of either table holds x in a foreign-key column. */
  predicate NoReferenceTo(users: map<Id, User>, couples: map<Id, Couple>, x: Id) {
    && (forall k, c :: k in users ==> UserRef(users[k], c) != Some(x))
    && (forall k, c :: k in couples ==> CoupleRef(couples[k], c) != Some(x))
  }

  /** Every non-null foreign key names an existing user. */
  predicate ReferencesResolve(users: map<Id, User>, couples: map<Id, Couple>) {
    && (forall k, c :: k in users && UserRef(users[k], c).Some? ==> UserRef(users[k], c).value in users)
    && (forall k, c :: k in couples && CoupleRef(couples[k], c).Some? ==> CoupleRef(couples[k], c).value in users)
  }
}
