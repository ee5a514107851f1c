# movies-backend: user registration and the two listings

This project models the logic of the two controllers of a small Express
"movie notes" service:

- `POST /users` (`UsersController.create`): three required-field checks in a
  fixed order (name, email, password), then a lookup of the email in the
  `users` table, then one insert of a row holding the name, the email and a
  bcrypt digest of the password. Each failure throws an `AppError` with a
  fixed message.
- `GET /users` (`UsersController.index`): the `name` and `email` columns of
  every user.
- `GET /movies` (`MoviesController.index`): the `title`, `description` and
  `rating` columns of every movie, ordered by title.

Files:

- `common.dfy` (module `Common`): `Option`, `Result` and `Outcome`.
- `users.dfy` (module `Users`): rows, request bodies and errors; the query
  `WithEmail`; the pure registration rule `Register`; the projection `Listing`;
  the class `UsersController`, whose `users` field is the table, whose `hash`
  constant is the password digest, and whose methods `Create` and `Index` are
  the two handlers.
- `movies.dfy` (module `Movies`): the movie row, with the columns the listing
  does not select kept abstract; the projection `Project`; an insertion sort
  `SortByTitle`; the listing `Index`; and lemmas about them.

Environment choices:

- The table order of `users` and `movies` is the order of a sequence.
- The bcrypt digest is an uninterpreted function `hash(password, rounds, salt)`.
  It is given to the controller when the controller is built. The random salt
  bcrypt draws on each call is a parameter of `Create`. The cost factor 8 is
  the constant `SaltRounds`.
- The database collation behind `orderBy("title")` is a parameter `le`. It is
  required only to be a total preorder on titles. The lemmas that
  require `TotalOrder` also require it to be antisymmetric, that is, to rank
  no two distinct titles equal.
- A body field counts as missing under `!field` when it is absent or the
  empty string.

The user listing is not sorted: `index` (`src/controllers/UsersController.js:12`)
selects without an order, so `Listing` keeps table order. Each failed check
of `create` throws an `AppError` with one of four messages, and the model
carries those exact strings.

## Model

| member | source | states |
|---|---|---|
| `Users.Missing` | src/controllers/UsersController.js:27-37 | a field that passes the `!field` test is present and non-empty |
| `Users.WithEmail` | src/controllers/UsersController.js:39-41 | every row returned by `where({email})` holds that email and comes from the table; every row of the table holding the email is returned, as often as it occurs in the table; the result is empty exactly when no row of the table holds the email |
| `Users.Register` | src/controllers/UsersController.js:24-51 | a missing name gives "The name is required!" whatever else is wrong; with a name, a missing email gives "The email is required!"; with both, a missing password gives "The password is required!"; with all three, an email already in the table gives "This email has already registered!"; it succeeds exactly when all fields are present and the email is new; on success the new table is the old table plus one row with the given name and email and `hash(password, 8, salt)`; success keeps emails unique |
| `Users.Listing` | src/controllers/UsersController.js:11-14 | one entry per user, in table order, holding that user's name and email |
| `Users.ListingIgnoresPasswords` | src/controllers/UsersController.js:6-12 | two tables that agree on names and emails row by row have the same listing, so the listing reveals nothing about password digests |
| `Users.ListingAfterRegister` | src/controllers/UsersController.js:45-51 | after a successful registration the listing is the old listing plus the new name and email |
| `Users.RegisterTwiceFails` | src/controllers/UsersController.js:39-43 | once an email is registered, registering it again with complete fields fails with "This email has already registered!" |
| `Users.UsersController.constructor` | src/controllers/UsersController.js:1-5 | the controller starts with the given table and hash |
| `Users.UsersController.Index` | src/controllers/UsersController.js:11-15 | returns the listing of the current table and changes nothing |
| `Users.UsersController.Create` | src/controllers/UsersController.js:24-54 | the result and the new table are those `Register` gives: on any error the table is unchanged; on success exactly one row is appended and the old rows are kept; unique emails stay unique |
| `Movies.Entry` | src/controllers/MoviesController.js:12 | the three selected columns of one row |
| `Movies.Project` | src/controllers/MoviesController.js:11-12 | one entry per row, in table order, carrying that row's title, description and rating |
| `Movies.Insert` | src/controllers/MoviesController.js:13 | inserting into a title-sorted sequence gives a title-sorted sequence with that entry added once |
| `Movies.SortByTitle` | src/controllers/MoviesController.js:13 | the result is in non-decreasing title order and is a permutation of the input |
| `Movies.Index` | src/controllers/MoviesController.js:10-16 | as many entries as table rows; non-decreasing title order; a permutation of the projected rows; an entry appears exactly when some row projects to it |
| `Movies.SortSortedIsIdentity` | src/controllers/MoviesController.js:13 | the model's insertion sort returns a sequence already in title order unchanged; among equal titles this is the model's tie order |
| `Movies.IndexOfSortedTable` | src/controllers/MoviesController.js:11-13 | when the table is already in title order, the model's listing is its projection in table order; among equal titles this is the model's tie order |
| `Movies.IndexIgnoresHiddenColumns` | src/controllers/MoviesController.js:12 | two tables that agree on title, description and rating row by row have the same listing |
| `Movies.SortedPermutationsAgreeOnTitles` | src/controllers/MoviesController.js:13 | under a total order, two title-sorted permutations of the same entries have the same title sequence |
| `Movies.IndexTitlesDetermined` | src/controllers/MoviesController.js:11-13 | when the collation ranks no two distinct titles equal, the listing's title sequence equals that of every title-sorted permutation of the projected rows, so tie-breaking does not affect it |

## Left out

- Transport: `src/server.js` and the routers are Express set-up and route registration. The error middleware sends an `AppError` with its own status code and any other error as 500 "Internal server error" (`src/server.js:19-32`). That mapping is not modelled. The default status code of `AppError` comes from a file that is not part of this model.
- Database and async: knex queries and `await` are modelled as reads and writes of in-memory sequences. Each handler runs as one atomic step. Two concurrent registrations with the same email could both pass the lookup in the real service; the model does not capture that race.
- Any columns the database adds on insert are not modelled. The model's user row holds only the three inserted columns.
- bcrypt: the digest is uninterpreted, so nothing is proved about it beyond what is stored.
- `Users.Register`: email equality is exact string equality. A case-insensitive database collation would also match emails that differ in case.
- `Users.Listing`: SQL without `ORDER BY` does not fix the row order. The model returns table order.
- `Movies.Index`: the order among rows of equal title is unspecified in SQL. The model picks the one insertion sort gives. When the collation ranks no two distinct titles equal, `Movies.IndexTitlesDetermined` shows that the title column does not depend on this choice. Under a collation that ranks distinct titles equal (a case-insensitive one), the title column itself may differ between valid orders.
- `Movies.SortSortedIsIdentity`: states the model's insertion sort, which keeps rows of equal title in input order; `orderBy("title")` promises no such stability.
- `Movies.IndexOfSortedTable`: on a table with two rows of equal title, it states the model's tie order; the database may return such rows the other way round.
- `Users.Missing`: JavaScript falsiness of non-string values (0, false, null) is not modelled. Body fields are optional strings.
- The two controllers contain no rating validation, movie ownership, tags, update or delete operations, and none is modelled.
