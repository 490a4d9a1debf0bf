/**
 * The user controller's state changes on a loaded user document: the
 * favorites list (duplicate-rejecting append, filtering removal), the
 * conditional profile update, and registration's field and uniqueness
 * checks. A `findById` miss is a null `User?`; the songs that exist are the
 * set `catalog`; the usernames and emails already stored are sets given to
 * the operation.
 */
module UserController {
  import opened Common

  datatype Role = UserRole | AdminRole
  datatype AccountStatus = Active | Deactivated | Locked

  datatype UserError =
    | UserNotFound
    | SongNotFound
    | AlreadyInFavorites
    | NotInFavorites
    | UsernameTaken
    | EmailTaken
    | MissingFields
    | UserExists

  /** The schema default of `profilePicture`. */
  const DefaultProfilePicture: string := "/images/default-avatar.png"

  /** A stored user document. */
  class User {
    var username: string
    var email: string
    var passwordHash: string
    var role: Role
    var accountStatus: AccountStatus
    var favorites: seq<SongId>
    var profilePicture: string

    /** A new document with the schema defaults. */
    constructor (username: string, email: string, passwordHash: string)
      ensures this.username == username && this.email == email && this.passwordHash == passwordHash
      ensures role == UserRole && accountStatus == Active
      ensures favorites == [] && profilePicture == DefaultProfilePicture
    {
      this.username := username;
      this.email := email;
      this.passwordHash := passwordHash;
      role := UserRole;
      accountStatus := Active;
      favorites := [];
      profilePicture := DefaultProfilePicture;
    }
  }

  /** No song id occurs twice. */
  ghost predicate NoDuplicates(xs: seq<SongId>)
  {
    forall i, j :: 0 <= i < j < |xs| ==> xs[i] != xs[j]
  }

  /**
   * The favorites filter: `xs` without any occurrence of `x`, the other ids
   * kept in order.
   */
  function Without(xs: seq<SongId>, x: SongId): (r: seq<SongId>)
    ensures x !in r
    ensures forall y :: y in r <==> y in xs && y != x
    ensures multiset(r) == multiset(xs)[x := 0]
  {
    if |xs| == 0 then []
    else
      assert xs == [xs[0]] + xs[1..];
      (if xs[0] == x then [] else [xs[0]]) + Without(xs[1..], x)
  }

  /** The filter works element by element, so it keeps the order of what it keeps. */
  lemma {:induction false} WithoutConcat(a: seq<SongId>, b: seq<SongId>, x: SongId)
    ensures Without(a + b, x) == Without(a, x) + Without(b, x)
  {
    if |a| > 0 {
      WithoutConcat(a[1..], b, x);
      assert (a + b)[1..] == a[1..] + b;
    } else {
      assert a + b == b;
    }
  }

  /** Filtering out an id that does not occur changes nothing. */
  lemma {:induction false} WithoutAbsent(xs: seq<SongId>, x: SongId)
    requires x !in xs
    ensures Without(xs, x) == xs
  {
    if |xs| > 0 {
      WithoutAbsent(xs[1..], x);
      assert xs == [xs[0]] + xs[1..];
    }
  }

  /** Removing a favorite just added gives back the list before the add. */
  lemma AddThenRemove(xs: seq<SongId>, x: SongId)
    requires x !in xs
    ensures Without(xs + [x], x) == xs
  {
    WithoutConcat(xs, [x], x);
    WithoutAbsent(xs, x);
    assert Without([x], x) == [];
  }

  /** Filtering keeps a duplicate-free list duplicate-free. */
  lemma {:induction false} WithoutNoDuplicates(xs: seq<SongId>, x: SongId)
    requires NoDuplicates(xs)
    ensures NoDuplicates(Without(xs, x))
  {
    if |xs| > 0 {
      assert NoDuplicates(xs[1..]) by {
        forall i, j | 0 <= i < j < |xs| - 1
          ensures xs[1..][i] != xs[1..][j]
        {
          assert xs[1..][i] == xs[i + 1] && xs[1..][j] == xs[j + 1];
        }
      }
      WithoutNoDuplicates(xs[1..], x);
      assert xs[0] !in xs[1..] by {
        forall i | 0 <= i < |xs| - 1
          ensures xs[1..][i] != xs[0]
        {
          assert xs[1..][i] == xs[i + 1];
        }
      }
    }
  }

  /**
   * `addToFavorites`: fails for a missing user, a song that does not exist,
   * or a song already in the list; otherwise appends the song id.
   */
  method AddToFavorites(u: User?, songId: SongId, catalog: set<SongId>) returns (r: Outcome<UserError>)
    modifies u
    ensures u == null ==> r == Fail(UserNotFound)
    ensures u != null && songId !in catalog ==> r == Fail(SongNotFound) && unchanged(u)
    ensures u != null && songId in catalog && songId in old(u.favorites) ==>
      r == Fail(AlreadyInFavorites) && unchanged(u)
    ensures u != null && songId in catalog && songId !in old(u.favorites) ==>
      && r == Pass
      && u.favorites == old(u.favorites) + [songId]
      && u.username == old(u.username) && u.email == old(u.email)
      && u.passwordHash == old(u.passwordHash) && u.profilePicture == old(u.profilePicture)
      && u.role == old(u.role) && u.accountStatus == old(u.accountStatus)
    ensures u != null && NoDuplicates(old(u.favorites)) ==> NoDuplicates(u.favorites)
  {
    if u == null {
      return Fail(UserNotFound);
    }
    if songId !in catalog {
      return Fail(SongNotFound);
    }
    if songId in u.favorites {
      return Fail(AlreadyInFavorites);
    }
    u.favorites := u.favorites + [songId];
    r := Pass;
  }

  /**
   * `removeFromFavorites`: fails for a missing user or a song not in the
   * list; otherwise keeps every other id, in order.
   */
  method RemoveFromFavorites(u: User?, songId: SongId) returns (r: Outcome<UserError>)
    modifies u
    ensures u == null ==> r == Fail(UserNotFound)
    ensures u != null && songId !in old(u.favorites) ==> r == Fail(NotInFavorites) && unchanged(u)
    ensures u != null && songId in old(u.favorites) ==>
      && r == Pass
      && u.favorites == Without(old(u.favorites), songId)
      && songId !in u.favorites
      && |u.favorites| < |old(u.favorites)|
      && u.username == old(u.username) && u.email == old(u.email)
      && u.passwordHash == old(u.passwordHash) && u.profilePicture == old(u.profilePicture)
      && u.role == old(u.role) && u.accountStatus == old(u.accountStatus)
    ensures u != null && NoDuplicates(old(u.favorites)) ==> NoDuplicates(u.favorites)
  {
    if u == null {
      return Fail(UserNotFound);
    }
    if songId !in u.favorites {
      return Fail(NotInFavorites);
    }
    ghost var before := u.favorites;
    if NoDuplicates(before) {
      WithoutNoDuplicates(before, songId);
    }
    u.favorites := Without(u.favorites, songId);
    assert |multiset(u.favorites)| < |multiset(before)|;
    r := Pass;
  }

  /** A provided profile value that differs from the stored one. */
  predicate Changes(value: Option<string>, current: string)
  {
    Truthy(value) && value.value != current
  }

  /**
   * `updateProfile`: a username or email is changed only when provided,
   * different from the stored one and not already taken; a taken one fails.
   * The username is checked before the email. The picture is replaced
   * whenever one is provided. A failure saves nothing, so the stored user is
   * unchanged even where the source already assigned the username in memory.
   */
  method UpdateProfile(u: User?, username: Option<string>, email: Option<string>, profilePicture: Option<string>,
                       takenUsernames: set<string>, takenEmails: set<string>)
    returns (r: Outcome<UserError>)
    modifies u
    ensures u == null ==> r == Fail(UserNotFound)
    ensures u != null && Changes(username, old(u.username)) && username.value in takenUsernames ==>
      r == Fail(UsernameTaken) && unchanged(u)
    ensures u != null && !(Changes(username, old(u.username)) && username.value in takenUsernames)
            && Changes(email, old(u.email)) && email.value in takenEmails ==>
      r == Fail(EmailTaken) && unchanged(u)
    ensures u != null && !(Changes(username, old(u.username)) && username.value in takenUsernames)
            && !(Changes(email, old(u.email)) && email.value in takenEmails) ==>
      && r == Pass
      && u.username == (if Truthy(username) then username.value else old(u.username))
      && u.email == (if Truthy(email) then email.value else old(u.email))
      && u.profilePicture == (if Truthy(profilePicture) then profilePicture.value else old(u.profilePicture))
      && u.favorites == old(u.favorites) && u.passwordHash == old(u.passwordHash)
      && u.role == old(u.role) && u.accountStatus == old(u.accountStatus)
  {
    if u == null {
      return Fail(UserNotFound);
    }
    var newUsername := u.username;
    if Truthy(username) && username.value != u.username {
      if username.value in takenUsernames {
        return Fail(UsernameTaken);
      }
      newUsername := username.value;
    }
    var newEmail := u.email;
    if Truthy(email) && email.value != u.email {
      if email.value in takenEmails {
        return Fail(EmailTaken);
      }
      newEmail := email.value;
    }
    u.username := newUsername;
    u.email := newEmail;
    if Truthy(profilePicture) {
      u.profilePicture := profilePicture.value;
    }
    r := Pass;
  }

  /**
   * The checks `register` makes before creating a user: all three fields
   * must be present and non-empty, and neither the email nor the username
   * may belong to a stored user.
   */
  function ValidateRegistration(username: Option<string>, email: Option<string>, password: Option<string>,
                                takenUsernames: set<string>, takenEmails: set<string>): (r: Outcome<UserError>)
    ensures r == Fail(MissingFields) <==> !Truthy(username) || !Truthy(email) || !Truthy(password)
    ensures r == Fail(UserExists) <==>
      Truthy(username) && Truthy(email) && Truthy(password)
      && (username.value in takenUsernames || email.value in takenEmails)
    ensures r == Pass ==> username.value !in takenUsernames && email.value !in takenEmails
    ensures r.Pass? || r == Fail(MissingFields) || r == Fail(UserExists)
  {
    if !Truthy(username) || !Truthy(email) || !Truthy(password) then Fail(MissingFields)
    else if username.value in takenUsernames || email.value in takenEmails then Fail(UserExists)
    else Pass
  }

  /**
   * `register`: on passing the checks, a new user with the schema defaults,
   * holding `passwordHash`, the hash of the given password.
   */
  method Register(username: Option<string>, email: Option<string>, password: Option<string>,
                  takenUsernames: set<string>, takenEmails: set<string>, passwordHash: string)
    returns (u: User?, r: Outcome<UserError>)
    ensures r == ValidateRegistration(username, email, password, takenUsernames, takenEmails)
    ensures r.Pass? <==> u != null
    ensures u != null ==>
      && fresh(u)
      && u.username == username.value && u.email == email.value && u.passwordHash == passwordHash
      && u.role == UserRole && u.accountStatus == Active
      && u.favorites == [] && u.profilePicture == DefaultProfilePicture
  {
    r := ValidateRegistration(username, email, password, takenUsernames, takenEmails);
    if r.Fail? {
      return null, r;
    }
    u := new User(username.value, email.value, passwordHash);
  }
}
