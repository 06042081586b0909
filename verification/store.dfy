/**
 * The persistent collections: users and tasks, keyed by their ids, with the
 * User schema's write-path hooks made explicit. `SaveUser` is `user.save()`
 * (validate, unique index, pre-save hash, write); `RemoveUser` is
 * `user.remove()` with its pre-remove cascade; `GenerateAuthToken` appends a
 * session token and saves; `SaveTask` and `DeleteTask` are the task
 * collection's validated write and its delete.
 */
module Store {
  import opened Wrappers
  import opened UserModel
  import opened TaskModel

  /** Every task belongs to an existing user. */
  ghost predicate NoOrphans(users: map<UserId, User>, tasks: map<TaskId, Task>) {
    forall t :: t in tasks ==> tasks[t].owner in users
  }

  /** What the auth check accepts: the user exists and still lists the presented token. */
  predicate IsLive(users: map<UserId, User>, id: UserId, token: Token) {
    id in users && token in users[id].tokens
  }

  /** Saving a document that changed only the token list or the avatar always succeeds. */
  lemma UnvalidatedSavePasses(users: map<UserId, User>, id: UserId, doc: Doc, isEmail: string -> bool)
    requires EmailsUnique(users) && id in users
    requires doc.modified <= {TokensPath, AvatarPath} && !doc.castError
    requires doc.user.email == users[id].email
    ensures SaveCheck(users, id, doc, isEmail) == Pass
  {
  }

  class Db {
    var users: map<UserId, User>
    var tasks: map<TaskId, Task>
    /** bcrypt's hash of a plaintext password. */
    const hash: string -> string
    /** The email-syntax check of the validator library. */
    const isEmail: string -> bool

    ghost predicate Valid()
      reads this
    {
      EmailsUnique(users) && NoOrphans(users, tasks)
    }

    constructor (hash: string -> string, isEmail: string -> bool)
      ensures Valid() && users == map[] && tasks == map[]
      ensures this.hash == hash && this.isEmail == isEmail
    {
      this.hash := hash;
      this.isEmail := isEmail;
      users := map[];
      tasks := map[];
    }

    /** `user.save()`: the validators and the unique index decide; the pre-save hook runs before the write. */
    method SaveUser(id: UserId, doc: Doc) returns (r: Outcome<UserError>)
      requires Valid()
      modifies this
      ensures Valid() && tasks == old(tasks)
      ensures r == SaveCheck(old(users), id, doc, isEmail)
      ensures users == if r.Pass? then old(users)[id := PreSave(doc, hash)] else old(users)
    {
      r := SaveCheck(users, id, doc, isEmail);
      if r.Pass? {
        var u := PreSave(doc, hash);
        assert u.email == doc.user.email;
        users := users[id := u];
      }
    }

    /** `generateAuthToken`: one entry appended at the end of the token list; nothing else changes. */
    method GenerateAuthToken(id: UserId, token: Token) returns (t: Token)
      requires Valid() && id in users
      modifies this
      ensures Valid() && tasks == old(tasks) && t == token
      ensures users == old(users)[id := old(users)[id].(tokens := old(users)[id].tokens + [token])]
    {
      var doc := AppendToken(users[id], token);
      TokenSaveKeepsPassword(users[id], token, hash);
      UnvalidatedSavePasses(users, id, doc, isEmail);
      var r := SaveUser(id, doc);
      t := token;
    }

    /** Saves a new token list for a user (logout, logout-all); the password is not re-hashed. */
    method SaveTokens(id: UserId, tokens: seq<Token>)
      requires Valid() && id in users
      modifies this
      ensures Valid() && tasks == old(tasks)
      ensures users == old(users)[id := old(users)[id].(tokens := tokens)]
    {
      var u := users[id];
      var doc := SetPath(Load(u), TokensPath, u.(tokens := tokens));
      UnvalidatedSavePasses(users, id, doc, isEmail);
      var r := SaveUser(id, doc);
    }

    /** Saves a new avatar for a user (upload, delete); the password is not re-hashed. */
    method SaveAvatar(id: UserId, avatar: Option<Bytes>)
      requires Valid() && id in users
      modifies this
      ensures Valid() && tasks == old(tasks)
      ensures users == old(users)[id := old(users)[id].(avatar := avatar)]
    {
      var u := users[id];
      var doc := SetPath(Load(u), AvatarPath, u.(avatar := avatar));
      UnvalidatedSavePasses(users, id, doc, isEmail);
      var r := SaveUser(id, doc);
    }

    /** `task.save()`: the task validators decide; a valid document is written under its id. */
    method SaveTask(id: TaskId, doc: TaskDoc) returns (r: Result<Task, TaskError>)
      requires Valid() && (doc.owner.Some? ==> doc.owner.value in users)
      modifies this
      ensures Valid() && users == old(users)
      ensures r == ValidateTask(doc)
      ensures tasks == if r.Ok? then old(tasks)[id := r.value] else old(tasks)
    {
      r := ValidateTask(doc);
      if r.Ok? {
        tasks := tasks[id := r.value];
      }
    }

    /** The delete half of `Task.findOneAndDelete`. */
    method DeleteTask(id: TaskId)
      requires Valid() && id in tasks
      modifies this
      ensures Valid() && users == old(users)
      ensures tasks == old(tasks) - {id}
    {
      tasks := tasks - {id};
    }

    /** `user.remove()`: the pre-remove hook deletes every task of the user, then the user goes. */
    method RemoveUser(id: UserId) returns (u: User)
      requires Valid() && id in users
      modifies this
      ensures Valid()
      ensures u == old(users)[id] && users == old(users) - {id}
      ensures tasks == PurgeOwner(old(tasks), id)
    {
      tasks := PurgeOwner(tasks, id);
      u := users[id];
      users := users - {id};
    }
  }
}
