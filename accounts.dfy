/**
 * The `newUser` table as the two handlers see it: a sequence of records in the
 * store's order, the `findFirst` query both handlers issue, and the record with
 * its password digest removed that both return to the client.
 */
module Accounts {
  import opened Wrappers

  /** One stored account; `password` holds the bcrypt digest, never the plaintext. */
  datatype User = User(id: string, username: string, fullname: string, email: string, password: string)

  /** `const { password: _, ...userWithoutPassword } = user`: the record minus its digest. */
  datatype PublicUser = PublicUser(id: string, username: string, fullname: string, email: string)

  function Strip(u: User): PublicUser {
    PublicUser(u.id, u.username, u.fullname, u.email)
  }

  /** Two records strip to the same client view exactly when they differ at most in `password`. */
  lemma StripForgetsOnlyPassword(u: User, v: User)
    ensures Strip(u) == Strip(v) <==> u.(password := v.password) == v
  {
  }

  /** The `where: { OR: [{ email }, { username }] }` filter. */
  predicate MatchesEither(u: User, email: string, username: string) {
    u.email == email || u.username == username
  }

  /**
   * `findFirst({ where: { OR: [{ email }, { username }] } })`: the index of the
   * first record, in store order, whose email equals `email` or whose username
   * equals `username` (exact comparison), or None when no record does.
   */
  function FindFirst(users: seq<User>, email: string, username: string): (r: Option<nat>)
    ensures r.Some? ==> r.value < |users| && MatchesEither(users[r.value], email, username)
    ensures r.Some? ==> forall j :: 0 <= j < r.value ==> !MatchesEither(users[j], email, username)
    ensures r.None? <==> forall u :: u in users ==> !MatchesEither(u, email, username)
  {
    if users == [] then None
    else if MatchesEither(users[0], email, username) then Some(0)
    else match FindFirst(users[1..], email, username)
      case None => None
      case Some(i) => Some(i + 1)
  }

  /** The store invariant the sign-up duplicate check aims at: emails and usernames are each pairwise distinct. */
  ghost predicate Unique(users: seq<User>) {
    && (forall i, j :: 0 <= i < j < |users| ==> users[i].email != users[j].email)
    && (forall i, j :: 0 <= i < j < |users| ==> users[i].username != users[j].username)
  }

  /** Appending a record whose email and username are both new keeps the store unique. */
  lemma AppendFreshKeepsUnique(users: seq<User>, u: User)
    requires Unique(users)
    requires forall v :: v in users ==> v.email != u.email && v.username != u.username
    ensures Unique(users + [u])
  {
    var s := users + [u];
    forall i, j | 0 <= i < j < |s|
      ensures s[i].email != s[j].email && s[i].username != s[j].username
    {
      if j == |users| {
        assert s[i] in users;
      }
    }
  }
}
