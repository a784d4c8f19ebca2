# Recipe site request handlers, modelled in Dafny

This project models the request handlers of a small Flask recipe site
(`app.py`). Three parts are covered:

- **Recipe form flattening.** `add_recipe` receives a variable number of
  ingredient and step fields and flattens each group into one string. The
  values are joined with `" ~ "`, and a recipe page later splits the string
  back into a list.
- **Accounts and the session.** Register, login, logout, profile view and
  profile edit work over a users collection keyed by lower-cased username and
  a session that holds at most one username.
- **The two view guards.** `login_required` and `anonymous_required`.

Files:

- `text.dfy` (module `Text`): `startswith`, ASCII `lower()`, `sep.join`,
  `find` and `split` with an explicit separator, and the join/split round trip.
- `form.dfy` (module `Form`): the submitted form as a sequence of
  (name, value) fields, `form.get`, and the flattening loop as a method with
  loop invariants. The method is proved equal to
  `Join(" ~ ", values whose field name has the prefix)`.
- `app.dfy` (module `App`): the guards, the user and recipe documents, the
  password-stripping loop, and class `Site`. `Site` holds the users map, the
  recipes sequence and the session. Each handler is a method that updates them.

Each handler method includes its guard. A refused request returns
`RedirectToLogin` or `OnlyForAnonymous` and changes nothing. Flashed messages
and redirects are folded into one `Outcome` tag per distinct response.

Behaviour of the code worth noting:

- The steps are collected by the prefix `"step"`, not `"steps"`.
- The guards test only whether the session holds a `"user"`. They do not look
  the user up in the database.
- The round trip holds only under a stronger condition than "no value contains
  `" ~ "`". If there is at least one value and no value contains `'~'` at all,
  `split(" ~ ")` of the join gives the values back (`Text.SplitJoin`). A recipe
  with no ingredient (or no step) fields stores `""` for that group
  (`Form.NoMatchingFieldsGiveEmpty`), and splitting `""` gives `[""]`, one
  empty entry rather than an empty list (`Text.SplitOfEmpty`). Forbidding only `" ~ "` is not enough:
  `["a ~", "b"]` joins to `"a ~ ~ b"`, which splits into `["a", "~ b"]`
  (`Text.SplitJoinFailsAtSeparatorEdge`). More generally, the round trip fails
  whenever the first of two or more values ends in `" ~"`
  (`Text.SplitJoinFailsAfterTrailingTilde`).
- Registration keeps e-mail addresses lower-case and unique only until the
  first profile edit. The edit stores the address as typed and does not check
  whether another user has it. After that, `register` can accept a second
  account whose address equals an existing one ignoring case
  (`App.ProfileEditBreaksCaseFolding`, `App.ProfileEditLetsRegisterDuplicateEmail`).
- The profile edit updates the session's user. The username in the URL is
  ignored.
- The profile view checks whether the session username is empty only after the
  database lookup. An empty username that is stored therefore gets a redirect
  to login.
- `app.py` holds no pagination, no admin guard and no product or category
  management handlers.

## Model

| member | source | states |
|---|---|---|
| `Text.StartsWith` | app.py:261-268 | `key.startswith(prefix)`: the prefix is no longer than the key and the key's first characters are the prefix |
| `Form.FlattenFields` | app.py:256-274 | the loop's two accumulators end as the values of the fields whose names start with "ingridients" (resp. "step"), in form order, joined by " ~ " |
| `Form.ValuesWithPrefixStep` | app.py:260-274 | one more field adds its value to a group exactly when its name has the group's prefix |
| `Form.ValuesWithPrefixMembers` | app.py:260-274 | a value is in a group iff some field whose name has the prefix carries it |
| `Form.NoMatchingFieldsGiveEmpty` | app.py:256-274 | a group is empty iff no field name has its prefix, and then its stored string is "" |
| `Form.PrefixesDisjoint` | app.py:261-268 | no field name starts with both "ingridients" and "step" |
| `Form.GroupsShareNoField` | app.py:260-274 | each field lands in at most one group, so the two groups hold at most as many values as the form has fields |
| `Form.OtherFieldsContributeNothing` | app.py:260-274 | a field without the prefix changes nothing in the group, wherever in the form it stands |
| `Form.FlattenedGroupsSplitBack` | app.py:250-284 | a non-empty group whose values hold no '~' splits back on " ~ " into exactly its values, whatever the other fields hold |
| `Form.Lookup` | app.py:277-282 | `form.get(key)` is None iff no field has that name, else the value of a field with that name |
| `Text.JoinSnoc` | app.py:262-267 | appending a value to a group appends " ~ " and the value, except that the first value gets no separator |
| `Text.JoinLength` | app.py:256-274 | a join of k >= 1 values holds the values' characters plus k - 1 separators; of none, the empty string |
| `Text.IndexOf` | app.py:250-255 | the index returned is the leftmost occurrence of the separator, and None means there is none |
| `Text.Split` | app.py:250-255 | splitting yields at least one piece, no piece contains the separator, joining the pieces gives the string back, and every cut falls at the leftmost occurrence in what remains of the string (no cut iff there is none) |
| `Text.SplitJoin` | app.py:250-255 | for a non-empty list of values without '~', split(join(values)) == values |
| `Text.SplitOfEmpty` | app.py:250-255 | an empty group joins to "" and splits back into one empty piece, so the round trip fails for the empty list |
| `Text.SplitJoinFailsAfterTrailingTilde` | app.py:250-255 | for every list of two or more values whose first value ends in " ~", the round trip fails |
| `Text.SplitJoinFailsAtSeparatorEdge` | app.py:250-255 | one counterexample: ["a ~", "b"], whose values hold no " ~ ", splits back into ["a", "~ b"] |
| `Text.Lower` | app.py:186-189 | lower-casing keeps the length, leaves non-capitals alone, turns each capital into its lower-case letter (32 code points on) and yields a lower-case string |
| `Text.LowerOfLower` | app.py:164-165 | a string is lower case iff lowering leaves it unchanged, and lowering is idempotent |
| `App.LoginRequiredAdmits` | app.py:33-44 | `login_required` runs the wrapped view iff the session holds a user; the handlers behind it return RedirectToLogin otherwise |
| `App.AnonymousRequiredAdmits` | app.py:47-60 | `anonymous_required` runs the wrapped view iff the session holds no user; the handlers behind it return OnlyForAnonymous otherwise |
| `App.ExactlyOneGuardAdmits` | app.py:33-60 | for every session exactly one of `login_required` and `anonymous_required` lets the request through |
| `App.NewUser` | app.py:185-191 | the inserted user's first name, last name and e-mail are the submitted ones lower-cased (hence lower case) and its hash is the hash of the password |
| `App.EmailInUse` | app.py:171-172 | `users.find_one({"email": email})` finds a document iff some stored user has exactly that e-mail |
| `App.RegisterKeepsEmailsCaseFolded` | app.py:171-192 | inserting a user whose lower-cased e-mail no one has keeps every stored e-mail lower case and distinct |
| `App.CaseFoldedEmailsDifferIgnoringCase` | app.py:171-176 | while e-mails are case-folded and distinct, no two users' addresses are equal ignoring case |
| `App.EditProfile` | app.py:211-218 | the `$set` replaces first name, last name and e-mail of the named user as given, and leaves the hash, all other users and the key set alone |
| `App.ProfileEditBreaksCaseFolding` | app.py:211-218 | a profile edit can store an e-mail that is not lower case |
| `App.ProfileEditLetsRegisterDuplicateEmail` | app.py:171-218 | after such an edit the register e-mail lookup misses an address equal ignoring case |
| `App.WithoutKeyMembers` | app.py:226-230 | a field survives removal of a key iff its name is not that key |
| `App.WithoutKeyKeepsOtherKeys` | app.py:226-230 | after removing a key it is absent and every other key maps to its old value |
| `App.WithoutKeyAt` | app.py:226-230 | in a dict, deleting a key is cutting out the one entry with that key |
| `App.StripPassword` | app.py:226-230 | the delete-and-break loop returns the user dict without its "password" entry, all else in order |
| `App.UserDocument` | app.py:185-191 | the stored user document has distinct keys and its "password" entry is the hash |
| `App.ProfileDocumentHidesPassword` | app.py:222-233 | the profile page shows username, names and e-mail, and not the hash |
| `App.Site.Register` | app.py:155-197 | anonymous only; rejects a taken username, then a taken e-mail, then differing passwords, changing nothing; a username or (while e-mails are case-folded) an e-mail equal ignoring case is rejected; otherwise inserts exactly one lower-cased user and logs it in |
| `App.Site.Login` | app.py:110-138 | anonymous only; logs in the lower-cased username iff it is stored and the password checks; unknown user and wrong password give the same answer and leave the session empty |
| `App.Site.Logout` | app.py:143-152 | behind `login_required`; leaves no user in the session |
| `App.Site.UpdateProfile` | app.py:202-220 | behind `login_required`; the users map becomes the profile edit of the session's user |
| `App.Site.ViewProfile` | app.py:222-239 | behind `login_required`; a missing user document raises, an empty session username redirects to login, otherwise the page shows the user document without the password |
| `App.Site.AddRecipe` | app.py:242-291 | behind `login_required`; a missing name, category, description or image URL raises (ServerError) with nothing stored; otherwise appends one recipe with lower-cased text fields, the flattened ingredients and steps, the date and the session user |

## Left out

- Database driver: the MongoDB calls (`find_one`, `insert_one`, `update`, `find().sort`) are modelled as operations on an in-memory map and sequence. The `_id` field each document gets is not modelled.
- Flask: routing, `render_template`, `redirect`/`url_for` and flashing are reduced to the `Outcome` tag. The GET branches that only render a template are not modelled, and neither is the category listing of the add-recipe page.
- Password hashing: `generate_password_hash` and `check_password_hash` are library code. They are passed in as the function parameters `hashPassword` and `checkPassword`, so the random salt is not modelled.
- Session: modelled as an optional username. Other session keys, such as flashed messages, are not modelled.
- `index` (random quote), `recipes`, `products`, `get_current_year` and `context_processor`: random choice, plain listing queries or clock reads. The creation date is a parameter, `today`.
- `Text.Lower`: only ASCII letters are lower-cased. Python's `str.lower()` also maps non-ASCII capitals.
- App.Site.Register: the registration form is a record whose fields are all present. With a field missing, `form.get` returns None. A missing username or e-mail then raises on `None.lower()`. If exactly one of the two passwords is missing, the passwords differ. If both are missing, they compare equal, and a missing first or last name or the hashing of None then raises. None of these paths is modelled.
- App.Site.Login: the login form is a record whose fields are all present. A missing username raises on `None.lower()`, and a missing password reaches `check_password_hash` as None. Neither path is modelled.
- App.Site.UpdateProfile: the profile form is a record whose fields are all present. The `$set` lower-cases nothing, so a missing first name, last name or e-mail would be stored as null and would not raise. That is not modelled.
- Form field names: the form is modelled as the sequence `request.form.items()` yields, with one field per name (`DistinctKeys`, required by `FlattenFields` and `AddRecipe`). How Werkzeug merges repeated names is library code and is not modelled.
- Concurrency: the username and e-mail checks and the insert are separate database calls, so two concurrent registrations can both pass them. Each handler is modelled as one atomic step.
- Client-side scripts (`static/js/*.js`): form validation rules and page effects in browser libraries; they are not part of this model.
