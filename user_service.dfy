/** UserService: identity creation with a unique email and one freshly generated key pair,
    and lookup by email. */
module Users {
  import opened Wrappers
  import opened Jca
  import Cryptography
  import opened Entities

  /** What `loadUserByUsername` hands to the authentication layer. */
  datatype UserDetails = UserDetails(username: string, password: string, authorities: seq<string>)

  const EmailInUseMessage: string := "Email já está em uso"
  const UserNotFoundPrefix: string := "Usuário não encontrado: "

  /** The first user with the given email. */
  function FindEmail(users: seq<User>, email: string): (r: Option<User>)
    ensures r.Some? ==> r.value in users && r.value.email == email
    ensures r.None? <==> forall u :: u in users ==> u.email != email
  {
    if |users| == 0 then None
    else if users[0].email == email then Some(users[0])
    else
      assert forall u :: u in users ==> u == users[0] || u in users[1..];
      FindEmail(users[1..], email)
  }

  /** No two users share an email (the column is declared unique). */
  predicate EmailsUnique(users: seq<User>) {
    forall i, j :: 0 <= i < j < |users| ==> users[i].email != users[j].email
  }

  /** With unique emails, looking up a user's email finds that user. */
  lemma {:induction false} FindEmailFinds(users: seq<User>, k: nat)
    requires EmailsUnique(users) && k < |users|
    ensures FindEmail(users, users[k].email) == Some(users[k])
  {
    if k > 0 {
      assert EmailsUnique(users[1..]) by {
        forall i, j | 0 <= i < j < |users[1..]| ensures users[1..][i].email != users[1..][j].email {
          assert users[1..][i] == users[i + 1] && users[1..][j] == users[j + 1];
        }
      }
      assert users[0].email != users[k].email;
      FindEmailFinds(users[1..], k - 1);
    }
  }

  /** The user repository and the service around it. */
  class UserService {
    const provider: Provider
    /** `PasswordEncoder.encode`. */
    const passwordEncoder: string -> string
    var users: seq<User>

    /** Emails are unique and user i has the i-th identity value. */
    ghost predicate Valid()
      reads this
    {
      EmailsUnique(users) && forall i :: 0 <= i < |users| ==> users[i].id == UserId(i)
    }

    constructor (provider: Provider, passwordEncoder: string -> string)
      ensures Valid()
      ensures this.provider == provider && this.passwordEncoder == passwordEncoder && users == []
    {
      this.provider := provider;
      this.passwordEncoder := passwordEncoder;
      users := [];
    }

    /** `findByEmail`. */
    function FindByEmail(email: string): (r: Option<User>)
      reads this
      ensures r.Some? ==> r.value in users && r.value.email == email
      ensures r.None? <==> forall u :: u in users ==> u.email != email
    {
      FindEmail(users, email)
    }

    /** `loadUserByUsername`: the user's email, encoded password and no authorities, or
        the not-found error naming the email. */
    function LoadUserByUsername(email: string): (r: Result<UserDetails>)
      reads this
      ensures r.Failure? <==> forall u :: u in users ==> u.email != email
      ensures r.Failure? ==> r.error == UserNotFoundPrefix + email
      ensures r.Success? ==> exists u :: u in users && u.email == email
                               && r.value == UserDetails(email, u.password, [])
    {
      match FindByEmail(email)
      case None => Failure(UserNotFoundPrefix + email)
      case Some(user) => Success(UserDetails(user.email, user.password, []))
    }

    /** `createUser`: refuse a taken email; otherwise generate one key pair, then save a user
        with the encoded password and that pair. Key generation precedes the save, so its
        failure leaves the store as it was. */
    method CreateUser(name: string, email: string, password: string, entropy: nat) returns (r: Result<User>)
      requires Valid()
      modifies this
      ensures Valid()
      ensures old(FindByEmail(email)).Some? ==> r == Failure(EmailInUseMessage) && users == old(users)
      ensures old(FindByEmail(email)).None? && Cryptography.GenerateKeyPair(provider, entropy).Failure? ==>
                r == Failure(Cryptography.GenerateKeyPair(provider, entropy).error) && users == old(users)
      ensures old(FindByEmail(email)).None? && Cryptography.GenerateKeyPair(provider, entropy).Success? ==>
                var keyPair := Cryptography.GenerateKeyPair(provider, entropy).value;
                && r == Success(User(UserId(|old(users)|), name, email, passwordEncoder(password),
                                     keyPair.publicKey, keyPair.privateKey))
                && users == old(users) + [r.value]
                && FindByEmail(email) == Some(r.value)
                && Issued(provider, Keys(r.value))
    {
      if FindByEmail(email).Some? {
        return Failure(EmailInUseMessage);
      }
      var keyPair := Cryptography.GenerateKeyPair(provider, entropy);
      if keyPair.Failure? {
        return Failure(keyPair.error);
      }
      var user := User(UserId(|users|), name, email, passwordEncoder(password),
                       keyPair.value.publicKey, keyPair.value.privateKey);
      users := users + [user];
      FindEmailFinds(users, |users| - 1);
      r := Success(user);
    }
  }
}
