/**
  The form of `UsersController::update`: its validation rules, and the user
  row that results from assigning the form's fields.
 */
module ProfileUpdate {
  import opened Wrappers
  import opened Text
  import opened Records

  /** The submitted fields; an absent or empty field is None. */
  datatype UpdateForm = UpdateForm(
    nickname: Option<string>,
    name: Option<string>,
    genderId: Option<int>,
    dob: Option<string>,
    dod: Option<string>,
    yod: Option<string>,
    phone: Option<string>,
    address: Option<string>,
    city: Option<string>,
    email: Option<string>,
    password: Option<string>)

  const MaxLength: nat := 255

  /** `required|string|max:255` */
  predicate RequiredText(o: Option<string>) {
    o.Some? && o.value != "" && |o.value| <= MaxLength
  }

  /** `nullable|string|max:255` */
  predicate OptionalText(o: Option<string>) {
    o.None? || |o.value| <= MaxLength
  }

  /** `nullable|date|date_format:Y-m-d` (the shape only) */
  predicate OptionalDate(o: Option<string>) {
    o.None? || IsYmd(o.value)
  }

  /** `nullable|date_format:Y` */
  predicate OptionalYear(o: Option<string>) {
    o.None? || IsYear(o.value)
  }

  /** `nullable|min:6|max:15` */
  predicate OptionalPassword(o: Option<string>) {
    o.None? || 6 <= |o.value| <= 15
  }

  /** The names of the fields whose rule fails; the update applies only when there are none. */
  function UpdateErrors(f: UpdateForm): (errors: set<string>)
    ensures errors == {} <==>
      && RequiredText(f.nickname) && RequiredText(f.name) && f.genderId.Some?
      && OptionalDate(f.dob) && OptionalDate(f.dod) && OptionalYear(f.yod)
      && OptionalText(f.phone) && OptionalText(f.address) && OptionalText(f.city) && OptionalText(f.email)
      && OptionalPassword(f.password)
  {
    (if RequiredText(f.nickname) then {} else {"nickname"})
    + (if RequiredText(f.name) then {} else {"name"})
    + (if f.genderId.Some? then {} else {"gender_id"})
    + (if OptionalDate(f.dob) then {} else {"dob"})
    + (if OptionalDate(f.dod) then {} else {"dod"})
    + (if OptionalYear(f.yod) then {} else {"yod"})
    + (if OptionalText(f.phone) then {} else {"phone"})
    + (if OptionalText(f.address) then {} else {"address"})
    + (if OptionalText(f.city) then {} else {"city"})
    + (if OptionalText(f.email) then {} else {"email"})
    + (if OptionalPassword(f.password) then {} else {"password"})
  }

  /** The validation gate: it lets a form through only with its required fields present. */
  predicate Valid(f: UpdateForm)
    ensures Valid(f) ==> f.nickname.Some? && f.name.Some? && f.genderId.Some?
    ensures Valid(f) ==> OptionalYear(f.yod) && OptionalDate(f.dod)
  {
    UpdateErrors(f) == {}
  }

  /**
    The row saved by `update`: every form field assigned, the year of death
    taken from the date of death when one is given, and the password hash
    replaced only when a password is given.
   */
  function Edited(u: User, f: UpdateForm, bcrypt: string -> string): (r: User)
    requires Valid(f)
    ensures r.fatherId == u.fatherId && r.motherId == u.motherId && r.managerId == u.managerId
    ensures r.photoPath == u.photoPath
    ensures OptionalYear(r.yod)
    ensures f.password.None? ==> r.password == u.password
  {
    u.(nickname := f.nickname.value,
       name := f.name.value,
       genderId := f.genderId.value,
       dob := f.dob,
       dod := f.dod,
       yod := if Truthy(f.dod) then Some(Prefix(f.dod.value, 4)) else f.yod,
       phone := f.phone,
       address := f.address,
       city := f.city,
       email := f.email,
       password := if Truthy(f.password) then Some(bcrypt(f.password.value)) else u.password)
  }

  /**
    A given date of death decides the year of death (its first four
    characters), whatever year was supplied; otherwise the supplied year is
    stored, possibly null. Either way the stored year is null or four digits.
   */
  lemma EditedYearOfDeath(u: User, f: UpdateForm, bcrypt: string -> string)
    requires Valid(f)
    ensures f.dod.Some? ==> Edited(u, f, bcrypt).yod == Some(f.dod.value[..4])
    ensures f.dod.None? ==> Edited(u, f, bcrypt).yod == f.yod
    ensures OptionalYear(Edited(u, f, bcrypt).yod)
  {
    if f.dod.Some? {
      YmdYear(f.dod.value);
    }
  }

  /** The stored hash changes exactly when a password is given, and then to its hash. */
  lemma EditedPassword(u: User, f: UpdateForm, bcrypt: string -> string)
    requires Valid(f)
    ensures f.password.Some? ==> Edited(u, f, bcrypt).password == Some(bcrypt(f.password.value))
    ensures f.password.None? ==> Edited(u, f, bcrypt).password == u.password
  {
    if f.password.Some? {
      assert |f.password.value| >= 6;
      assert f.password.value != "0" && f.password.value != "";
    }
  }

  /** The form's fields are stored as given; family links and the photo are untouched. */
  lemma EditedKeepsLinks(u: User, f: UpdateForm, bcrypt: string -> string)
    requires Valid(f)
    ensures var r := Edited(u, f, bcrypt);
      && r.nickname == f.nickname.value && r.name == f.name.value && r.genderId == f.genderId.value
      && r.dob == f.dob && r.dod == f.dod
      && r.phone == f.phone && r.address == f.address && r.city == f.city && r.email == f.email
      && r.fatherId == u.fatherId && r.motherId == u.motherId && r.managerId == u.managerId
      && r.photoPath == u.photoPath
  {
  }

  /** A date of death of 1990-05-03 stores the year 1990 even when 1985 is supplied. */
  lemma DateOfDeathOverridesYear(u: User, bcrypt: string -> string)
    ensures var f := UpdateForm(Some("Budi"), Some("Budi Santoso"), Some(1), None, Some("1990-05-03"), Some("1985"),
                                None, None, None, None, None);
      Valid(f) && Edited(u, f, bcrypt).yod == Some("1990")
  {
    var f := UpdateForm(Some("Budi"), Some("Budi Santoso"), Some(1), None, Some("1990-05-03"), Some("1985"),
                        None, None, None, None, None);
    assert IsYmd("1990-05-03");
    assert IsYear("1985");
    assert Valid(f);
    assert "1990-05-03"[..4] == "1990";
  }
}
