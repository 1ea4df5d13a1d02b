# Silsilah person and couple records, modelled in Dafny

Silsilah is a genealogy web application. It stores people in a `users` table and marriages in a `couples` table. Each person row has nullable foreign keys: `father_id`, `mother_id` and `manager_id`. Each couple row has `husband_id`, `wife_id` and `manager_id`. This project models the record logic of `UsersController`:

- **Replace-and-delete.** This is `destroy` when the replace-and-delete button is pressed. The chosen replacement must be an existing user. Six bulk `UPDATE ... WHERE col = old` statements then move every reference to the deleted person onto the replacement, and the deleted person's row is removed.
- **Guarded self-delete.** This is `destroy` otherwise. The row is removed only when the echoed `user_id` equals the person's id.
- **Update.** This is `update`. The form is validated, and then its fields are assigned one by one. The year of death is taken from the date of death when one is given. The password hash is replaced only when a password is given.
- **Search.** This is `search`. It returns the users whose name or nickname contains the keyword, ordered by name, first page of 24. It returns nothing when there is no keyword. The substring reading holds for keywords without `%`, `_` or `\`: the code passes those characters to `LIKE` unescaped.
- **Chart column span.** In `chart`, the span is `max(children, 4)`.

Layout:

- `wrappers.dfy`: `Option`.
- `text.dfy` (module `Text`): PHP truthiness, `substr`, `LIKE '%q%'` as a substring test, the name order, and the `Y` and `Y-m-d` formats.
- `records.dfy` (module `Records`): the rows, their foreign-key columns, and the predicates "no reference to x" and "every reference resolves".
- `replacement.dfy` (module `Replacement`): the tables after replace-and-delete, and what is proved about them.
- `profile_update.dfy` (module `ProfileUpdate`): the update form, its validation, and the saved row.
- `user_search.dfy` (module `UserSearch`): search.
- `chart.dfy` (module `Chart`): the column span.
- `users_controller.dfy` (module `UsersController`): class `FamilyStore`. Its fields are the two tables as maps. Its methods are `Update`, `Destroy` and the two branches of `Destroy`. `SetUsersWhere` and `SetCouplesWhere` each model one SQL `UPDATE` statement. `RepointUserReferences` and `RepointCoupleReferences` each run the three statements on one table, in the source's order.

The controller receives `$user` through route model binding, so every controller method requires the id to be in `users`.

The model follows the code as written in these places:

- The code repoints six columns: the four parent and spouse columns, and `manager_id` in both tables.
- Search treats the keyword `"0"` like an absent keyword. This is because the code tests `if ($q)` with PHP truthiness.
- The code does not reject a replacement equal to the deleted id. `Replacement.SelfReplacementOnlyDeletes` shows that the rewrite is then a no-op. `Replacement.SelfReplacementDangles` exhibits the dangling reference this leaves. The no-dangling-reference guarantee is stated under `replacement != id`.
- The code does not reject a replacement that is a child of the deleted person. `Replacement.ReplacementByChildSelfParents` shows that such a child becomes its own father.
- The guarded self-delete does not repoint anything. Any row that referred to the deleted person keeps a dangling id, unless database constraints not shown here reject the delete or rewrite those rows.

## Model

| member | source | states |
|---|---|---|
| Text.Truthy | app/Http/Controllers/UsersController.php:23 | PHP truthiness of a request value, as tested at lines 23, 147 and 158: a truthy value is present and non-empty, and every value of two or more characters is truthy |
| Text.Contains | app/Http/Controllers/UsersController.php:25-26 | `LIKE '%q%'` as a substring test: a match needs the keyword to be no longer than the text, and the empty keyword matches everything |
| Text.Prefix | app/Http/Controllers/UsersController.php:148 | `substr(s, 0, n)` is a prefix of s, n long, or all of s when s is shorter |
| Text.ContainsAt | app/Http/Controllers/UsersController.php:25-26 | every occurrence of the keyword at any position makes `LIKE '%q%'` match |
| Text.ContainsWitness | app/Http/Controllers/UsersController.php:25-26 | `LIKE '%q%'` matches only when the keyword occurs at some position |
| Text.NameLeReflexive | app/Http/Controllers/UsersController.php:28 | the name order is reflexive |
| Text.NameLeTotal | app/Http/Controllers/UsersController.php:28 | any two names are comparable in the name order |
| Text.NameLeTransitive | app/Http/Controllers/UsersController.php:28 | the name order is transitive |
| Text.NameLeAntisymmetric | app/Http/Controllers/UsersController.php:28 | names ordered both ways are equal |
| Text.YmdYear | app/Http/Controllers/UsersController.php:132-133 | the first four characters of a valid `Y-m-d` date are a valid `Y` year, and such a date is truthy |
| ProfileUpdate.UpdateErrors | app/Http/Controllers/UsersController.php:127-139 | the set of failing fields is empty exactly when every validation rule of the update form holds |
| ProfileUpdate.Valid | app/Http/Controllers/UsersController.php:127-139 | the validation gate: a form that passes has its nickname, name and gender present, a null or four-digit year of death, and a null or `Y-m-d` date of death |
| ProfileUpdate.Edited | app/Http/Controllers/UsersController.php:141-160 | the row `update` saves: father, mother, manager and photo are kept, the year of death is null or four digits, and without a password the old credential is kept |
| ProfileUpdate.EditedYearOfDeath | app/Http/Controllers/UsersController.php:147-151 | a given date of death sets the year of death to its first four characters, whatever year was supplied; otherwise the supplied year, possibly null, is stored; the stored year is always null or four digits |
| ProfileUpdate.EditedPassword | app/Http/Controllers/UsersController.php:158-160 | the stored password becomes the hash of the given password when one is given, and the old credential is kept otherwise |
| ProfileUpdate.EditedKeepsLinks | app/Http/Controllers/UsersController.php:141-156 | every other form field is stored as given; father, mother, manager and photo are untouched |
| ProfileUpdate.DateOfDeathOverridesYear | app/Http/Controllers/UsersController.php:147-151 | a form with date of death 1990-05-03 and year 1985 is valid and stores the year 1990 |
| Replacement.UsersWhereSet | app/Http/Controllers/UsersController.php:189-199 | one `UPDATE users SET c = to WHERE c = from`: the ids are unchanged, rows holding `from` in c now hold `to`, every other row is unchanged, no row holds `from` in c when `to` differs, and other columns are unchanged |
| Replacement.CouplesWhereSet | app/Http/Controllers/UsersController.php:201-211 | one `UPDATE couples SET c = to WHERE c = from`: the ids are unchanged, rows holding `from` in c now hold `to`, every other row is unchanged, no row holds `from` in c when `to` differs, and other columns are unchanged |
| Replacement.ReplacedUsers | app/Http/Controllers/UsersController.php:189-213 | the users table after the replace branch: the ids lose exactly the old id, non-key data is kept, and with a different replacement no foreign key holds the old id |
| Replacement.ReplacedCouples | app/Http/Controllers/UsersController.php:189-211 | the couples table after the replace branch: the ids are unchanged, and with a different replacement no foreign key holds the old id |
| Replacement.UserStatementsReplace | app/Http/Controllers/UsersController.php:189-199 | the three `UPDATE users` statements, in the source's order, followed by the delete, give the declarative replaced table |
| Replacement.CoupleStatementsReplace | app/Http/Controllers/UsersController.php:201-211 | the three `UPDATE couples` statements, in the source's order, give the declarative replaced table |
| Replacement.ReplacedChangesOnlyOldReferences | app/Http/Controllers/UsersController.php:189-211 | non-key data of every surviving row is unchanged; a foreign key that held the old id now holds the replacement; every other foreign key is unchanged |
| Replacement.ReplacementLeavesNoReference | app/Http/Controllers/UsersController.php:186-214 | with a replacement other than the old id, the old row is gone and no user or couple foreign key holds the old id |
| Replacement.ReplacementKeepsReferencesResolved | app/Http/Controllers/UsersController.php:180-213 | if all foreign keys named existing users before, they still do after replacing by an existing user other than the old one |
| Replacement.SelfReplacementOnlyDeletes | app/Http/Controllers/UsersController.php:180-213 | with the old id as its own replacement, no reference moves and only the old row is removed |
| Replacement.SelfReplacementDangles | app/Http/Controllers/UsersController.php:180-213 | a concrete case: a father who replaces himself leaves his child's `father_id` naming a deleted user |
| Replacement.ReplacementScenario | app/Http/Controllers/UsersController.php:189-213 | replacing A (father of X, husband in U) by B makes X's father and U's husband B, and removes A |
| Replacement.ReplacementByChildSelfParents | app/Http/Controllers/UsersController.php:189-191 | a concrete case: a child chosen to replace its father gets its own id as `father_id` |
| UserSearch.Earliest | app/Http/Controllers/UsersController.php:28 | the chosen id is in the set, and its name comes no later than any other in the set |
| UserSearch.ByName | app/Http/Controllers/UsersController.php:28 | the ordering enumerates exactly the given ids, as many as there are, sorted by name |
| UserSearch.Search | app/Http/Controllers/UsersController.php:20-29 | at most 24 results; every result is a user whose name or nickname contains the keyword, read as a literal substring; results are sorted by name |
| UserSearch.SearchWithoutKeyword | app/Http/Controllers/UsersController.php:20-23 | an absent, empty or `"0"` keyword gives no results |
| UserSearch.SearchIsFirstPage | app/Http/Controllers/UsersController.php:23-29 | with a keyword, the page holds min(24, matches) distinct users; all matches appear when there are at most 24; no match left off the page sorts before one on it |
| Chart.Colspan | app/Http/Controllers/UsersController.php:82-84 | the span is at least 4 and at least the child count, and equals one of them, so it is their maximum |
| UsersController.FamilyStore.SetUsersWhere | app/Http/Controllers/UsersController.php:189-199 | one `UPDATE users SET c = to WHERE c = from`: `users` becomes `UsersWhereSet` of the old table, and `couples` is unchanged |
| UsersController.FamilyStore.SetCouplesWhere | app/Http/Controllers/UsersController.php:201-211 | one `UPDATE couples SET c = to WHERE c = from`: `couples` becomes `CouplesWhereSet` of the old table, and `users` is unchanged |
| UsersController.FamilyStore.RepointUserReferences | app/Http/Controllers/UsersController.php:189-199 | the three `UPDATE users` statements, in order, leave the same ids and a table that, without the old row, is `ReplacedUsers` of the old one; `couples` is unchanged |
| UsersController.FamilyStore.RepointCoupleReferences | app/Http/Controllers/UsersController.php:201-211 | the three `UPDATE couples` statements, in order, turn `couples` into `ReplacedCouples` of the old table; `users` is unchanged |
| UsersController.FamilyStore.ReplaceAndDelete | app/Http/Controllers/UsersController.php:179-216 | a missing or unknown replacement fails validation and changes nothing; otherwise both tables become the replaced tables and the response shows the replacement; with replacement != id, no reference to the id remains and resolved references stay resolved |
| UsersController.FamilyStore.GuardedDelete | app/Http/Controllers/UsersController.php:219-227 | a missing `user_id` fails validation; the row is removed only when `user_id` equals the id and the delete succeeds; any other case changes nothing and goes back |
| UsersController.FamilyStore.Destroy | app/Http/Controllers/UsersController.php:175-228 | the replace-and-delete button selects the replace branch, with its validation failure or replaced tables. Without the button, a missing `user_id` fails validation; a matching `user_id` with a successful delete removes the row and shows the search page; anything else goes back. The fallback branch leaves `couples` unchanged |
| UsersController.FamilyStore.Update | app/Http/Controllers/UsersController.php:125-165 | an invalid form reports its failing fields and changes nothing; a valid one saves the edited row, with the year of death and password rules, and shows the user |

## Left out

- `photoUpload`: storage-disk checks, deletion and storing are file I/O, and the disk is chosen from an environment variable.
- `show`, `edit` and `tree`: these only assemble display lists for templates, including the marriage labels and the gender-filtered candidate lists.
- `chart`'s father, mother and grandparent lookups and `siblings()`: these go through relations defined in the `User` model, which is not part of this model. Only the column span is modelled.
- `authorize`: the authorization policy is an external collaborator.
- `DB::beginTransaction` and `commit`: the replace branch is one method and no failure midway is modelled.
- Laravel's validation internals are not modelled.
  - The `date` rule's calendar check is not modelled. Only the `Y-m-d` shape is checked.
  - A numeric `gender_id` is modelled as an integer.
  - `exists:users,id` is modelled as membership in the `users` map.
  - Request values are assumed to be already trimmed, with empty strings turned into null.
- UsersController.FamilyStore.GuardedDelete: `request('user_id') == $user->id` is PHP loose comparison of a request string with an integer. It is modelled as integer equality. The ORM's `delete()` outcome is the parameter `deleted`.
- bcrypt is modelled as a function parameter about which nothing is assumed.
- UserSearch.Search: the code builds the pattern as `'%'.$q.'%'` without escaping the keyword. In the keyword, `%` and `_` therefore act as SQL wildcards, and `\` acts as MySQL's escape character: `q=%` finds every user. The model reads every keyword as a literal substring, so its guarantees hold only for keywords without these characters.
- SQL `LIKE` collation and case folding are left out. The keyword test is a plain substring test, and the name order is lexicographic on characters.
- UserSearch.Search: it returns user ids, not the eager-loaded `father` and `mother` relations. It does not fix the order among users with equal names, since SQL leaves that order unspecified.
- Pagination beyond the first page is left out.
- The birthdays listing template is presentation only. Its ages and days-remaining values are computed elsewhere.
