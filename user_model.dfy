/**
 * The `User` model: its schema (required and unique fields), the document
 * whose pre-save hook hashes the password, `comparePassword`, and the `toJSON`
 * transform that strips the password from every serialised user.
 */
module UserModel {
  import opened Wrappers
  import opened Http
  import opened Crypto

  predicate IsLowerHex(c: char) { '0' <= c <= '9' || 'a' <= c <= 'f' }

  predicate IsHex(c: char) { IsLowerHex(c) || 'A' <= c <= 'F' }

  /** A MongoDB ObjectId in its canonical form: 24 lower-case hexadecimal digits. */
  type ObjectId = s: string | |s| == 24 && forall i :: 0 <= i < |s| ==> IsLowerHex(s[i])
    witness "000000000000000000000000"

  function LowerHex(c: char): (d: char)
    requires IsHex(c)
    ensures IsLowerHex(d)
    ensures IsLowerHex(c) ==> d == c
  {
    if 'A' <= c <= 'F' then (c as int - 'A' as int + 'a' as int) as char else c
  }

  /**
   * Mongoose's cast of a string to an ObjectId, as `findById`, `findByIdAndUpdate`
   * and `findByIdAndDelete` do: 24 hexadecimal digits in either case name the id
   * with those digits in lower case; any other string is a CastError (None).
   */
  function CastObjectId(s: string): (r: Option<ObjectId>)
    ensures r.Some? <==> |s| == 24 && forall i :: 0 <= i < |s| ==> IsHex(s[i])
    ensures r.Some? ==> forall i :: 0 <= i < 24 ==> r.value[i] == LowerHex(s[i])
    ensures (forall i :: 0 <= i < |s| ==> IsLowerHex(s[i])) && |s| == 24 ==> r == Some(s)
  {
    if |s| == 24 && forall i :: 0 <= i < |s| ==> IsHex(s[i]) then
      var t := seq(24, i requires 0 <= i < 24 => LowerHex(s[i]));
      assert (forall i :: 0 <= i < 24 ==> IsLowerHex(s[i])) ==> t == s;
      Some(t)
    else
      None
  }

  /** A stored user document (`_id` is its key in the collection). */
  datatype UserDoc = UserDoc(username: string, email: string, password: string)

  /** The collection: documents by `_id`. */
  type Users = map<ObjectId, UserDoc>

  /** `required: true` on `username`, `email` and `password`: Mongoose rejects a missing or empty string. */
  predicate Required(d: UserDoc)
  {
    d.username != "" && d.email != "" && d.password != ""
  }

  predicate EmailTaken(users: Users, email: string)
  {
    exists id :: id in users && users[id].email == email
  }

  predicate UsernameTaken(users: Users, username: string)
  {
    exists id :: id in users && users[id].username == username
  }

  /** `unique: true` on `username` and on `email`: the unique indexes MongoDB maintains. */
  ghost predicate Unique(users: Users)
  {
    forall a, b :: a in users && b in users && a != b ==>
      users[a].username != users[b].username && users[a].email != users[b].email
  }

  /**
   * A `findOne({ email })` under the unique index: at most one document has a
   * given email, and likewise a given username.
   */
  lemma UniqueFindsOne(users: Users, email: string, username: string)
    requires Unique(users)
    ensures forall a, b :: a in users && b in users && users[a].email == email && users[b].email == email ==> a == b
    ensures forall a, b :: a in users && b in users && users[a].username == username && users[b].username == username ==> a == b
  {
  }

  /** Whether putting `d` under `id` keeps the unique indexes (the `_id` index included). */
  predicate FitsIndexes(users: Users, id: ObjectId, d: UserDoc)
  {
    forall other :: other in users && other != id ==>
      users[other].username != d.username && users[other].email != d.email
  }

  /** Inserting or replacing a document that fits the indexes keeps the collection unique. */
  lemma {:induction false} FitsIndexesKeepsUnique(users: Users, id: ObjectId, d: UserDoc)
    requires Unique(users) && FitsIndexes(users, id, d)
    ensures Unique(users[id := d])
  {
    var u := users[id := d];
    forall a, b | a in u && b in u && a != b
      ensures u[a].username != u[b].username && u[a].email != u[b].email
    {
      if a == id {
        assert u[a] == d && u[b] == users[b];
      } else if b == id {
        assert u[b] == d && u[a] == users[a];
      } else {
        assert u[a] == users[a] && u[b] == users[b];
      }
    }
  }

  /**
   * `comparePassword(candidate)`: `bcrypt.compare(candidate, this.password)`.
   * With a lawful bcrypt it is true of the password a hash was made from, and
   * false whenever the stored string is not a bcrypt hash.
   */
  function ComparePassword(b: Bcrypt, d: UserDoc, candidate: string): (ok: bool)
    requires LawfulBcrypt(b)
    ensures (exists rounds, salt :: d.password == b.hash(candidate, rounds, salt)) ==> ok
    ensures |d.password| != HASH_LENGTH ==> !ok
  {
    b.compare(candidate, d.password)
  }

  /** The plain object Mongoose hands to `toJSON`: every field of the document. */
  function Fields(id: ObjectId, d: UserDoc): map<string, Value>
  {
    map["_id" := Str(id), "username" := Str(d.username), "email" := Str(d.email), "password" := Str(d.password)]
  }

  /** The `toJSON` transform: `delete ret.password; return ret`. */
  function Transform(ret: map<string, Value>): (r: map<string, Value>)
    ensures "password" !in r
    ensures r.Keys == ret.Keys - {"password"}
    ensures forall k :: k in r ==> r[k] == ret[k]
  {
    ret - {"password"}
  }

  /** A user as `res.json` serialises it: through `toJSON`, so without its password. */
  function UserJson(id: ObjectId, d: UserDoc): (v: Value)
    ensures v.Obj? && v.fields.Keys == {"_id", "username", "email"}
    ensures v.fields["_id"] == Str(id) && v.fields["username"] == Str(d.username) && v.fields["email"] == Str(d.email)
  {
    Obj(Transform(Fields(id, d)))
  }

  /**
   * The password the pre-save hook leaves: `if (!this.isModified('password')) return next();
   * this.password = await bcrypt.hash(this.password, 10)`.
   */
  function HookedPassword(b: Bcrypt, salt: Salt, password: string, modified: bool): string
  {
    if modified then b.hash(password, SALT_ROUNDS, salt) else password
  }

  /**
   * The `required` validators still hold after the hook: a hashed password is
   * never empty, so a document that passed validation stays valid once hashed.
   */
  lemma HookKeepsRequired(b: Bcrypt, salt: Salt, d: UserDoc, modified: bool)
    requires LawfulBcrypt(b)
    ensures Required(d) ==> Required(d.(password := HookedPassword(b, salt, d.password, modified)))
  {
  }

  /**
   * A User document in memory, before or after `save()`. A new document counts
   * every path it was given as modified.
   */
  class UserDocument {
    var username: string
    var email: string
    var password: string
    var passwordModified: bool

    /** `new User({ username, email, password })` */
    constructor (username: string, email: string, password: string)
      ensures this.username == username && this.email == email && this.password == password
      ensures passwordModified
    {
      this.username := username;
      this.email := email;
      this.password := password;
      passwordModified := true;
    }

    function Snapshot(): UserDoc
      reads this
    {
      UserDoc(username, email, password)
    }

    /**
     * The `pre('save')` hook: a modified password is replaced by its bcrypt hash
     * (so the plaintext is not what gets stored); an unmodified one, which is
     * already a hash, is left as it is. Nothing else changes.
     */
    method PreSave(b: Bcrypt, salt: Salt)
      requires LawfulBcrypt(b)
      modifies this`password
      ensures password == HookedPassword(b, salt, old(password), passwordModified)
      ensures passwordModified ==> password != old(password) && b.compare(old(password), password)
      ensures !passwordModified ==> password == old(password)
    {
      if !passwordModified {
        return;
      }
      password := b.hash(password, SALT_ROUNDS, salt);
    }

    /** After a successful save Mongoose resets the modified paths. */
    method MarkSaved()
      modifies this`passwordModified
      ensures !passwordModified
    {
      passwordModified := false;
    }
  }

  /**
   * Saving twice hashes once: the first save replaces the new password by its
   * hash, the second finds the password unmodified and keeps that hash, which
   * still matches the original password.
   */
  method SaveTwice(doc: UserDocument, b: Bcrypt, salt1: Salt, salt2: Salt)
    requires LawfulBcrypt(b) && doc.passwordModified
    modifies doc
    ensures doc.password == b.hash(old(doc.password), SALT_ROUNDS, salt1)
    ensures b.compare(old(doc.password), doc.password)
    ensures doc.username == old(doc.username) && doc.email == old(doc.email)
  {
    doc.PreSave(b, salt1);
    doc.MarkSaved();
    doc.PreSave(b, salt2);
    doc.MarkSaved();
  }
}
