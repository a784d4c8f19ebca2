/** The request handlers of the recipe site: the two session guards, account
    registration, login, logout, the profile page and its edit form, and
    adding a recipe. The users collection is a map from (lower-cased)
    username to the rest of the user document, the recipes collection a
    sequence, and the session an optional username. */
module App {
  import opened Text
  import opened Form

  /** A user document without its username, which is the map key. */
  datatype User = User(firstName: string, lastName: string, email: string, passwordHash: string)

  datatype RegisterForm = RegisterForm(
    username: string, firstname: string, lastname: string,
    email: string, password: string, password2: string)

  datatype LoginForm = LoginForm(username: string, password: string)

  datatype ProfileForm = ProfileForm(firstname: string, lastname: string, email: string)

  /** A recipe document. Cook and prep time are stored as `form.get` returns
      them, so a missing field is stored as None. */
  datatype Recipe = Recipe(
    name: string, category: string, description: string,
    cookTime: Option<string>, prepTime: Option<string>, imageUrl: string,
    ingredients: string, steps: string, created: string, createdBy: string)

  /** What a handler answers with; the flashed message is implied by the tag. */
  datatype Outcome =
    | RedirectToLogin         // not logged in (no flash), or an empty session username
    | OnlyForAnonymous        // "That page is only for unauthenticated users", redirect ".."
    | UsernameExists          // "Username already exists!", back to register
    | EmailExists             // "Email already exists!", back to register
    | PasswordsDiffer         // "Both passwords must match!", back to register
    | Registered              // "Registration Successfull!", to the index
    | LoginFailed             // "Incorect Username and/or Password", back to login
    | LoggedIn                // "Welcome, ...", to the index
    | LoggedOut               // "You have been logged out.", to login
    | ProfileUpdated          // "Profile Updated", to the session user's profile
    | ProfilePage(user: seq<Field>)  // the profile page, showing this document
    | RecipeAdded             // "Recipe Successfully Added", to the profile
    | ServerError             // an exception escaped the handler

  /** `login_required`: the wrapped view runs iff the session holds a user. */
  predicate LoginRequiredAdmits(session: Option<string>) {
    session.Some?
  }

  /** `anonymous_required`: the wrapped view runs iff the session holds no
      user. */
  predicate AnonymousRequiredAdmits(session: Option<string>) {
    session.None?
  }

  /** Every request gets through exactly one of the two guards. */
  lemma ExactlyOneGuardAdmits(session: Option<string>)
    ensures LoginRequiredAdmits(session) != AnonymousRequiredAdmits(session)
  {
  }

  /** Some user document already holds this e-mail address:
      `users.find_one({"email": email})` finds a document. */
  predicate EmailInUse(users: map<string, User>, email: string) {
    exists name :: name in users && users[name].email == email
  }

  /** What registration establishes for e-mail addresses: each is stored in
      lower case and no two users share one, so no two are equal ignoring
      case. */
  ghost predicate EmailsCaseFolded(users: map<string, User>) {
    && (forall name :: name in users ==> IsLower(users[name].email))
    && (forall a, b :: a in users && b in users && a != b ==> users[a].email != users[b].email)
  }

  /** Under EmailsCaseFolded, two distinct users' addresses differ even after
      lower-casing. */
  lemma CaseFoldedEmailsDifferIgnoringCase(users: map<string, User>, a: string, b: string)
    requires EmailsCaseFolded(users)
    requires a in users && b in users && a != b
    ensures Lower(users[a].email) != Lower(users[b].email)
  {
    LowerOfLower(users[a].email);
    LowerOfLower(users[b].email);
  }

  /** The user document `register` inserts: names and e-mail lower-cased, the
      password replaced by its hash. */
  function NewUser(form: RegisterForm, passwordHash: string): (u: User)
    ensures IsLower(u.firstName) && IsLower(u.lastName) && IsLower(u.email)
    ensures u.firstName == Lower(form.firstname) && u.lastName == Lower(form.lastname)
    ensures u.email == Lower(form.email) && u.passwordHash == passwordHash
  {
    User(Lower(form.firstname), Lower(form.lastname), Lower(form.email), passwordHash)
  }

  /** Inserting a user whose lower-case e-mail no one has keeps the e-mail
      addresses case-folded and unique. */
  lemma RegisterKeepsEmailsCaseFolded(users: map<string, User>, name: string, u: User)
    requires EmailsCaseFolded(users)
    requires name !in users
    requires IsLower(u.email) && !EmailInUse(users, u.email)
    ensures EmailsCaseFolded(users[name := u])
  {
  }

  /** The `$set` of the profile form: first name, last name and e-mail of the
      user `name` are overwritten, as given (neither lower-cased nor checked
      for uniqueness); every other user and the password hash stay as they
      were, and an unknown `name` changes nothing. */
  function EditProfile(users: map<string, User>, name: string, form: ProfileForm): (r: map<string, User>)
    ensures r.Keys == users.Keys
    ensures forall other :: other in users && other != name ==> r[other] == users[other]
    ensures name in users ==> r[name].passwordHash == users[name].passwordHash
    ensures name in users ==>
      r[name].firstName == form.firstname && r[name].lastName == form.lastname && r[name].email == form.email
  {
    if name in users then
      users[name := users[name].(firstName := form.firstname, lastName := form.lastname, email := form.email)]
    else users
  }

  /** A profile edit can break what registration established: an e-mail with
      an upper-case letter is stored as typed. */
  lemma ProfileEditBreaksCaseFolding()
    ensures var users := map["alice" := User("alice", "smith", "a@x.org", "h")];
      && EmailsCaseFolded(users)
      && !EmailsCaseFolded(EditProfile(users, "alice", ProfileForm("alice", "smith", "B@x.org")))
  {
    var edited := EditProfile(map["alice" := User("alice", "smith", "a@x.org", "h")], "alice",
                              ProfileForm("alice", "smith", "B@x.org"));
    assert !IsLowerChar(edited["alice"].email[0]);
  }

  /** After that edit, registering "b@x.org" passes the e-mail check (the
      lookup is by exact value), so two accounts end up with addresses equal
      ignoring case. */
  lemma ProfileEditLetsRegisterDuplicateEmail()
    ensures var edited := EditProfile(map["alice" := User("alice", "smith", "a@x.org", "h")], "alice",
                                      ProfileForm("alice", "smith", "B@x.org"));
      && "bob" !in edited
      && !EmailInUse(edited, Lower("b@x.org"))
      && Lower(edited["alice"].email) == Lower("b@x.org")
  {
    var edited := EditProfile(map["alice" := User("alice", "smith", "a@x.org", "h")], "alice",
                              ProfileForm("alice", "smith", "B@x.org"));
    assert Lower("b@x.org") == "b@x.org" by { LowerOfLower("b@x.org"); }
    assert edited.Keys == {"alice"};
    assert edited["alice"].email != "b@x.org" by { assert edited["alice"].email[0] == 'B'; }
    var l := Lower(edited["alice"].email);
    assert l[0] == 'b';
    assert forall i :: 1 <= i < |l| ==> l[i] == "b@x.org"[i];
  }

  const PasswordKey: string := "password"

  /** The fields of a document without those named `key`, in order. */
  function WithoutKey(doc: seq<Field>, key: string): (r: seq<Field>)
    ensures |r| <= |doc|
  {
    if |doc| == 0 then []
    else (if doc[0].key == key then [] else [doc[0]]) + WithoutKey(doc[1..], key)
  }

  /** A field survives the removal exactly when its name is not `key`. */
  lemma {:induction false} WithoutKeyMembers(doc: seq<Field>, key: string, f: Field)
    ensures f in WithoutKey(doc, key) <==> f in doc && f.key != key
  {
    if |doc| > 0 {
      WithoutKeyMembers(doc[1..], key, f);
      assert doc == [doc[0]] + doc[1..];
    }
  }

  lemma {:induction false} WithoutKeyAppend(a: seq<Field>, b: seq<Field>, key: string)
    ensures WithoutKey(a + b, key) == WithoutKey(a, key) + WithoutKey(b, key)
  {
    if |a| > 0 {
      assert (a + b)[1..] == a[1..] + b;
      WithoutKeyAppend(a[1..], b, key);
    } else {
      assert a + b == b;
    }
  }

  lemma {:induction false} WithoutAbsentKey(doc: seq<Field>, key: string)
    requires forall j :: 0 <= j < |doc| ==> doc[j].key != key
    ensures WithoutKey(doc, key) == doc
  {
    if |doc| > 0 {
      WithoutAbsentKey(doc[1..], key);
    }
  }

  /** Removing one key from a document leaves every other key with the value
      it had, and the removed key absent. */
  lemma {:induction false} WithoutKeyKeepsOtherKeys(doc: seq<Field>, key: string, other: string)
    ensures Lookup(WithoutKey(doc, key), key) == None
    ensures other != key ==> Lookup(WithoutKey(doc, key), other) == Lookup(doc, other)
  {
    if |doc| > 0 {
      WithoutKeyKeepsOtherKeys(doc[1..], key, other);
      var rest := WithoutKey(doc[1..], key);
      if doc[0].key != key {
        assert ([doc[0]] + rest)[1..] == rest;
      } else {
        assert [] + rest == rest;
      }
    }
  }

  /** The loop of the profile view that deletes the "password" key from the
      user dictionary: it walks the keys in order, deletes the first one equal
      to "password" and stops. Dictionary keys are distinct, so this removes
      exactly the "password" entry and keeps the rest in order. */
  method StripPassword(doc: seq<Field>) returns (r: seq<Field>)
    requires DistinctKeys(doc)
    ensures r == WithoutKey(doc, PasswordKey)
  {
    r := doc;
    var i := 0;
    while i < |doc|
      invariant 0 <= i <= |doc|
      invariant forall j :: 0 <= j < i ==> doc[j].key != PasswordKey
    {
      if doc[i].key == PasswordKey {
        r := doc[..i] + doc[i + 1..];
        break;
      }
      i := i + 1;
    }
    if i < |doc| {
      WithoutKeyAt(doc, i, PasswordKey);
    } else {
      WithoutAbsentKey(doc, PasswordKey);
    }
  }

  /** In a document with distinct keys, removing a key is cutting out the one
      field that has it. */
  lemma WithoutKeyAt(doc: seq<Field>, i: nat, key: string)
    requires DistinctKeys(doc)
    requires i < |doc| && doc[i].key == key
    ensures WithoutKey(doc, key) == doc[..i] + doc[i + 1..]
  {
    assert doc == doc[..i] + [doc[i]] + doc[i + 1..];
    WithoutKeyAppend(doc[..i] + [doc[i]], doc[i + 1..], key);
    WithoutKeyAppend(doc[..i], [doc[i]], key);
    assert WithoutKey([doc[i]], key) == [];
    WithoutAbsentKey(doc[..i], key);
    WithoutAbsentKey(doc[i + 1..], key);
  }

  /** The user document as the database returns it, fields in insertion
      order. */
  function UserDocument(name: string, u: User): (doc: seq<Field>)
    ensures DistinctKeys(doc)
    ensures Lookup(doc, PasswordKey) == Some(u.passwordHash)
  {
    var doc := [Field("username", name), Field("first_name", u.firstName), Field("last_name", u.lastName),
                Field("email", u.email), Field(PasswordKey, u.passwordHash)];
    assert forall i :: 0 <= i < 4 ==> doc[i].key != PasswordKey by {
      assert |doc[0].key| == 8 && |doc[1].key| == 10 && |doc[2].key| == 9 && |doc[3].key| == 5;
      assert doc[0].key[0] != 'p' && doc[1].key[0] != 'p' && doc[2].key[0] != 'p' && doc[3].key[0] != 'p';
    }
    assert doc[0].key != doc[1].key && doc[0].key != doc[2].key && doc[0].key != doc[3].key;
    assert doc[1].key != doc[2].key && doc[1].key != doc[3].key && doc[2].key != doc[3].key;
    assert Lookup(doc, PasswordKey) == Some(u.passwordHash) by {
      var found := Lookup(doc, PasswordKey);
      assert found.Some? by { assert doc[4].key == PasswordKey; }
      var i :| 0 <= i < |doc| && doc[i] == Field(PasswordKey, found.value);
      assert i == 4;
    }
    doc
  }

  /** The document the profile page shows: everything but the hash. */
  lemma ProfileDocumentHidesPassword(name: string, u: User)
    ensures WithoutKey(UserDocument(name, u), PasswordKey)
         == [Field("username", name), Field("first_name", u.firstName),
             Field("last_name", u.lastName), Field("email", u.email)]
  {
    WithoutKeyAt(UserDocument(name, u), 4, PasswordKey);
  }

  /** The site's persistent state and the current request's session. */
  class Site {
    var users: map<string, User>
    var recipes: seq<Recipe>
    var session: Option<string>

    /** What every handler keeps: stored usernames are lower case, and a
        logged-in session names a stored user. */
    ghost predicate Valid()
      reads this
    {
      && (forall name :: name in users ==> IsLower(name))
      && (session.Some? ==> session.value in users)
    }

    constructor ()
      ensures Valid()
      ensures users == map[] && recipes == [] && session == None
    {
      users, recipes, session := map[], [], None;
    }

    /** `register` (POST). Behind `anonymous_required`. Rejects, in this
        order, a taken username, a taken e-mail and differing passwords, each
        with nothing changed; otherwise stores one new user under the
        lower-cased username and logs that user in. */
    method Register(form: RegisterForm, hashPassword: string -> string) returns (r: Outcome)
      requires Valid()
      modifies this
      ensures Valid() && recipes == old(recipes)
      ensures !AnonymousRequiredAdmits(old(session)) ==> r == OnlyForAnonymous
      ensures old(session).None? ==>
        var name := Lower(form.username);
        r == (if name in old(users) then UsernameExists
              else if EmailInUse(old(users), Lower(form.email)) then EmailExists
              else if form.password != form.password2 then PasswordsDiffer
              else Registered)
      ensures r != Registered ==> users == old(users) && session == old(session)
      ensures old(session).None? && (exists other :: other in old(users) && Lower(other) == Lower(form.username))
        ==> r == UsernameExists
      ensures old(session).None? && EmailsCaseFolded(old(users)) && Lower(form.username) !in old(users)
        && (exists other :: other in old(users) && Lower(old(users)[other].email) == Lower(form.email))
        ==> r == EmailExists
      ensures r == Registered ==>
        var name := Lower(form.username);
        && name !in old(users)
        && users == old(users)[name := NewUser(form, hashPassword(form.password))]
        && |users| == |old(users)| + 1
        && session == Some(name)
      ensures EmailsCaseFolded(old(users)) ==> EmailsCaseFolded(users)
    {
      if !AnonymousRequiredAdmits(session) {
        return OnlyForAnonymous;
      }
      forall other | other in users ensures Lower(other) == other {
        LowerOfLower(other);
      }
      if EmailsCaseFolded(users) {
        forall other | other in users ensures Lower(users[other].email) == users[other].email {
          LowerOfLower(users[other].email);
        }
      }
      var name := Lower(form.username);
      if name in users {
        return UsernameExists;
      }
      var email := Lower(form.email);
      if EmailInUse(users, email) {
        return EmailExists;
      }
      if form.password != form.password2 {
        return PasswordsDiffer;
      }
      var u := NewUser(form, hashPassword(form.password));
      ghost var before := users;
      users := users[name := u];
      if EmailsCaseFolded(before) {
        RegisterKeepsEmailsCaseFolded(before, name, u);
      }
      session := Some(name);
      r := Registered;
    }

    /** `login` (POST). Behind `anonymous_required`. Logs in exactly when a
        user is stored under the lower-cased username and the password checks
        against its hash; an unknown user and a wrong password get the same
        answer and leave the session as it was. */
    method Login(form: LoginForm, checkPassword: (string, string) -> bool) returns (r: Outcome)
      requires Valid()
      modifies this`session
      ensures Valid()
      ensures !AnonymousRequiredAdmits(old(session)) ==> r == OnlyForAnonymous && session == old(session)
      ensures old(session).None? ==>
        var name := Lower(form.username);
        if name in users && checkPassword(users[name].passwordHash, form.password)
        then r == LoggedIn && session == Some(name)
        else r == LoginFailed && session == None
    {
      if !AnonymousRequiredAdmits(session) {
        return OnlyForAnonymous;
      }
      var name := Lower(form.username);
      if name in users {
        if checkPassword(users[name].passwordHash, form.password) {
          session := Some(name);
          return LoggedIn;
        } else {
          return LoginFailed;
        }
      } else {
        return LoginFailed;
      }
    }

    /** `logout`. Behind `login_required`. Afterwards no user is logged in,
        whichever way the request went. */
    method Logout() returns (r: Outcome)
      requires Valid()
      modifies this`session
      ensures Valid() && session == None
      ensures r == if LoginRequiredAdmits(old(session)) then LoggedOut else RedirectToLogin
    {
      if !LoginRequiredAdmits(session) {
        return RedirectToLogin;
      }
      session := None;
      r := LoggedOut;
    }

    /** `profile` (POST). Behind `login_required`. Overwrites first name, last
        name and e-mail of the session's user, whatever username the URL
        names; nothing else changes. */
    method UpdateProfile(urlUsername: string, form: ProfileForm) returns (r: Outcome)
      requires Valid()
      modifies this`users
      ensures Valid()
      ensures !LoginRequiredAdmits(session) ==> r == RedirectToLogin && users == old(users)
      ensures session.Some? ==> r == ProfileUpdated && users == EditProfile(old(users), session.value, form)
    {
      if !LoginRequiredAdmits(session) {
        return RedirectToLogin;
      }
      var name := session.value;
      if name in users {
        var u := users[name];
        users := users[name := u.(firstName := form.firstname, lastName := form.lastname, email := form.email)];
      }
      r := ProfileUpdated;
    }

    /** `profile` (GET). Behind `login_required`. Finds the session's user,
        removes the password from the document and shows it; a missing
        document raises, and an empty session username redirects to login
        (that test comes after the lookup). */
    method ViewProfile(urlUsername: string) returns (r: Outcome)
      ensures !LoginRequiredAdmits(session) ==> r == RedirectToLogin
      ensures session.Some? && session.value !in users ==> r == ServerError
      ensures session.Some? && session.value in users ==>
        r == if session.value == "" then RedirectToLogin
             else ProfilePage(WithoutKey(UserDocument(session.value, users[session.value]), PasswordKey))
      ensures Valid() ==> r != ServerError
    {
      if !LoginRequiredAdmits(session) {
        return RedirectToLogin;
      }
      var name := session.value;
      if name !in users {
        return ServerError;
      }
      var doc := StripPassword(UserDocument(name, users[name]));
      if name == "" {
        return RedirectToLogin;
      }
      r := ProfilePage(doc);
    }

    /** `add_recipe` (POST). Behind `login_required`. Flattens the ingredient
        and step fields, then builds the recipe document; a missing name,
        category, description or image URL raises (`None.lower()`), leaving
        the collection as it was. */
    method AddRecipe(form: seq<Field>, today: string) returns (r: Outcome)
      requires Valid()
      requires DistinctKeys(form)
      modifies this`recipes
      ensures Valid()
      ensures !LoginRequiredAdmits(old(session)) ==> r == RedirectToLogin && recipes == old(recipes)
      ensures r != RecipeAdded ==> recipes == old(recipes)
      ensures session.Some? ==>
        (r == RecipeAdded <==>
          && Lookup(form, "recipename").Some? && Lookup(form, "category").Some?
          && Lookup(form, "recipedesc").Some? && Lookup(form, "imageurl").Some?)
      ensures session.Some? ==>
        (r == ServerError <==>
          || Lookup(form, "recipename").None? || Lookup(form, "category").None?
          || Lookup(form, "recipedesc").None? || Lookup(form, "imageurl").None?)
      ensures r == RecipeAdded ==>
        recipes == old(recipes) + [Recipe(
          Lower(Lookup(form, "recipename").value), Lower(Lookup(form, "category").value),
          Lower(Lookup(form, "recipedesc").value),
          Lookup(form, "cooktime"), Lookup(form, "preptime"),
          Lower(Lookup(form, "imageurl").value),
          Join(Sep, ValuesWithPrefix(form, IngredientPrefix)),
          Join(Sep, ValuesWithPrefix(form, StepPrefix)),
          today, session.value)]
    {
      if !LoginRequiredAdmits(session) {
        return RedirectToLogin;
      }
      var ingredients, steps := FlattenFields(form);
      var name := Lookup(form, "recipename");
      var category := Lookup(form, "category");
      var description := Lookup(form, "recipedesc");
      var imageUrl := Lookup(form, "imageurl");
      if name.None? || category.None? || description.None? || imageUrl.None? {
        return ServerError;
      }
      var recipe := Recipe(
        Lower(name.value), Lower(category.value), Lower(description.value),
        Lookup(form, "cooktime"), Lookup(form, "preptime"), Lower(imageUrl.value),
        ingredients, steps, today, session.value);
      recipes := recipes + [recipe];
      r := RecipeAdded;
    }
  }
}
