/** The register and login routes (server/Routes/Auth.js) over an
    in-memory user collection. The database lookups are first-match
    searches of the collection; whether `save` succeeds, the generated
    UID, the bcrypt hash of the password and the bcrypt comparison are
    inputs. `genderEncoder` (server/Helper/genderEncoder.js) is not part of
    this model and is a function parameter. The access token is represented
    by the UID it is issued for. */
module Auth {
  import opened Js

  /** A stored user as the route builds it; `hash` is `None` once cleared. */
  datatype Account = Account(uid: string, gender: string, username: string, hash: Option<string>,
                             displayName: string, email: string, relationshipStatus: Option<string>)

  /** The HTTP status, the `type` and `message` of the JSON body, the user
      object and the UID the token is issued for, when the body has them. */
  datatype Response = Response(status: nat, kind: string, message: string,
                               user: Option<Account>, tokenFor: Option<string>)

  const UserExists: string := "User already exists!"
  const EmailExists: string := "Email already exists!"
  const UsernameTooShort: string := "Username must be at least 4 characters!"
  const PasswordTooShort: string := "Password must be at least 8 characters!"
  const UsernameHasSpace: string := "Username cannot contain spaces!"
  const InvalidGender: string := "Invalid Gender!"

  predicate ValidGender(gender: string) {
    gender == "male" || gender == "female" || gender == "others"
  }

  /** `findOne({username})` / `findOne({email})`: some document matches. */
  predicate UsernameTaken(accounts: seq<Account>, username: string) {
    exists i :: 0 <= i < |accounts| && accounts[i].username == username
  }

  predicate EmailTaken(accounts: seq<Account>, email: string) {
    exists i :: 0 <= i < |accounts| && accounts[i].email == email
  }

  /** The first document with this username, as `findOne` returns it. */
  function FindByUsername(accounts: seq<Account>, username: string): (r: Option<nat>)
    ensures r.None? <==> !UsernameTaken(accounts, username)
    ensures r.Some? ==> r.value < |accounts| && accounts[r.value].username == username
                        && forall j :: 0 <= j < r.value ==> accounts[j].username != username
  {
    if accounts == [] then None
    else if accounts[0].username == username then Some(0)
    else
      match FindByUsername(accounts[1..], username)
      case None => None
      case Some(k) => Some(k + 1)
  }

  /** The guard chain of the register route on the lowercased username:
      the message of the first check that fails, or `None`. The two
      uniqueness checks come before every format check. */
  function RegisterCheck(username: string, password: string, gender: string,
                         usernameTaken: bool, emailTaken: bool): (r: Option<string>)
    ensures r.None? <==> !usernameTaken && !emailTaken && JsLength(username) >= 4 && JsLength(password) >= 8
                         && ' ' !in username && ValidGender(gender)
    ensures usernameTaken ==> r == Some(UserExists)
    ensures !usernameTaken && emailTaken ==> r == Some(EmailExists)
  {
    if usernameTaken then Some(UserExists)
    else if emailTaken then Some(EmailExists)
    else if JsLength(username) < 4 then Some(UsernameTooShort)
    else if JsLength(password) < 8 then Some(PasswordTooShort)
    else if ' ' in username then Some(UsernameHasSpace)
    else if !ValidGender(gender) then Some(InvalidGender)
    else None
  }

  /** The format guards report in their source order: a short username hides
      every later guard, a short password hides the space and gender guards,
      a space hides the gender guard. */
  lemma FormatGuardOrder(username: string, password: string, gender: string)
    ensures JsLength(username) < 4 ==> RegisterCheck(username, password, gender, false, false) == Some(UsernameTooShort)
    ensures JsLength(username) >= 4 && JsLength(password) < 8 ==>
              RegisterCheck(username, password, gender, false, false) == Some(PasswordTooShort)
    ensures JsLength(username) >= 4 && JsLength(password) >= 8 && ' ' in username ==>
              RegisterCheck(username, password, gender, false, false) == Some(UsernameHasSpace)
    ensures JsLength(username) >= 4 && JsLength(password) >= 8 && ' ' !in username && !ValidGender(gender) ==>
              RegisterCheck(username, password, gender, false, false) == Some(InvalidGender)
  {
  }

  predicate IsLower(s: string) {
    forall i :: 0 <= i < |s| ==> !('A' <= s[i] <= 'Z')
  }

  /** Lowercasing yields a lowercase string, changes nothing on one, and keeps
      spaces where they were. */
  lemma LowerFacts(s: string)
    ensures IsLower(ToLowerAscii(s))
    ensures IsLower(s) ==> ToLowerAscii(s) == s
    ensures ' ' in ToLowerAscii(s) <==> ' ' in s
  {
    var t := ToLowerAscii(s);
    forall i | 0 <= i < |s| ensures !('A' <= t[i] <= 'Z') && (t[i] == ' ' <==> s[i] == ' ') {
    }
    if ' ' in t {
      var i :| 0 <= i < |t| && t[i] == ' ';
      assert s[i] == ' ';
    }
    if ' ' in s {
      var i :| 0 <= i < |s| && s[i] == ' ';
      assert t[i] == ' ';
    }
  }

  /** `a` and `b` are the same name up to ASCII letter case, position by position. */
  predicate SameUpToCase(a: string, b: string) {
    |a| == |b|
    && forall i :: 0 <= i < |a| ==>
         a[i] == b[i]
         || ('A' <= a[i] <= 'Z' && b[i] == (a[i] as int + 32) as char)
         || ('A' <= b[i] <= 'Z' && a[i] == (b[i] as int + 32) as char)
  }

  /** Two spellings of a name that differ only in letter case lowercase to the
      same stored name, so both find the same account and get the same verdict
      from the registration guards. */
  lemma CaseInsensitiveNames(a: string, b: string, password: string, gender: string,
                             emailTaken: bool, accounts: seq<Account>)
    requires SameUpToCase(a, b)
    ensures ToLowerAscii(a) == ToLowerAscii(b)
    ensures FindByUsername(accounts, ToLowerAscii(a)) == FindByUsername(accounts, ToLowerAscii(b))
    ensures RegisterCheck(ToLowerAscii(a), password, gender, UsernameTaken(accounts, ToLowerAscii(a)), emailTaken)
            == RegisterCheck(ToLowerAscii(b), password, gender, UsernameTaken(accounts, ToLowerAscii(b)), emailTaken)
  {
  }

  /** The collection: user names are stored lowercased and are unique. */
  predicate UniqueLowerNames(accounts: seq<Account>) {
    (forall i :: 0 <= i < |accounts| ==> IsLower(accounts[i].username))
    && forall i, j :: 0 <= i < j < |accounts| ==> accounts[i].username != accounts[j].username
  }

  class UserCollection {
    var accounts: seq<Account>

    ghost predicate Valid()
      reads this
    {
      UniqueLowerNames(accounts)
    }

    constructor ()
      ensures Valid() && accounts == []
    {
      accounts := [];
    }

    /** POST /register. A document is created only when every check passes
        and the save succeeds; the stored name is the lowercased one, the
        display name is `<encoded gender>/<name>`; the user object sent back
        has no hash. */
    method Register(username: string, password: string, gender: string, email: string,
                    relationshipStatus: Option<string>, uid: string, hash: string,
                    encodeGender: string -> string, saveOk: bool)
      returns (res: Response)
      requires Valid()
      modifies this
      ensures Valid()
      ensures var name := ToLowerAscii(username);
              var check := RegisterCheck(name, password, gender, UsernameTaken(old(accounts), name),
                                         EmailTaken(old(accounts), email));
              var doc := Account(uid, gender, name, Some(hash), encodeGender(gender) + "/" + name,
                                 email, relationshipStatus);
              && (check.Some? ==>
                    res == Response(400, "error", check.value, None, None) && accounts == old(accounts))
              && (check.None? && !saveOk ==>
                    res == Response(500, "error", "Internal Server Error", None, None) && accounts == old(accounts))
              && (check.None? && saveOk ==>
                    res == Response(200, "success", "User successfully registered!", Some(doc.(hash := None)), Some(uid))
                    && accounts == old(accounts) + [doc])
    {
      var name := ToLowerAscii(username);
      LowerFacts(username);
      var check := RegisterCheck(name, password, gender, UsernameTaken(accounts, name), EmailTaken(accounts, email));
      if check.Some? {
        return Response(400, "error", check.value, None, None);
      }
      var doc := Account(uid, gender, name, Some(hash), encodeGender(gender) + "/" + name, email, relationshipStatus);
      if !saveOk {
        return Response(500, "error", "Internal Server Error", None, None);
      }
      accounts := accounts + [doc];
      res := Response(200, "success", "User successfully registered!", Some(doc.(hash := None)), Some(uid));
    }

    /** POST /login: 401 for an unknown name or a failed password comparison,
        otherwise the first document with the lowercased name, without its
        hash, and a token for its UID. The collection is not changed. */
    method Login(username: string, password: string, passwordMatches: (string, Option<string>) -> bool)
      returns (res: Response)
      ensures var name := ToLowerAscii(username);
              && (!UsernameTaken(accounts, name) ==>
                    res == Response(401, "failure", "User does not exist!", None, None))
              && (UsernameTaken(accounts, name) ==>
                    var k := FindByUsername(accounts, name).value;
                    && (!passwordMatches(password, accounts[k].hash) ==>
                          res == Response(401, "failure", "Incorrect password!", None, None))
                    && (passwordMatches(password, accounts[k].hash) ==>
                          res == Response(200, "success", "User successfully logged in!",
                                          Some(accounts[k].(hash := None)), Some(accounts[k].uid))))
    {
      var name := ToLowerAscii(username);
      var found := FindByUsername(accounts, name);
      if found.None? {
        return Response(401, "failure", "User does not exist!", None, None);
      }
      var existing := accounts[found.value];
      if !passwordMatches(password, existing.hash) {
        return Response(401, "failure", "Incorrect password!", None, None);
      }
      res := Response(200, "success", "User successfully logged in!", Some(existing.(hash := None)), Some(existing.uid));
    }
  }

  /** Once a name is registered, registering it again in any letter case is
      refused with "User already exists!", whatever the other fields are. */
  lemma RegisteredNameIsTaken(accounts: seq<Account>, doc: Account, other: string, password: string,
                              gender: string, emailTaken: bool)
    requires ToLowerAscii(other) == doc.username
    ensures UsernameTaken(accounts + [doc], ToLowerAscii(other))
    ensures RegisterCheck(ToLowerAscii(other), password, gender, UsernameTaken(accounts + [doc], ToLowerAscii(other)),
                          emailTaken) == Some(UserExists)
  {
    assert (accounts + [doc])[|accounts|] == doc;
  }

  /** In a collection with unique names, the login lookup finds the one
      document of that name. */
  lemma LoginFindsTheAccount(accounts: seq<Account>, k: nat)
    requires UniqueLowerNames(accounts) && k < |accounts|
    ensures FindByUsername(accounts, accounts[k].username) == Some(k)
  {
  }
}
