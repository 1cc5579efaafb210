/**
 * models/password_entry.py: one credential.  The windows and the database
 * service change its fields in place, so it is a class; EntryData is the
 * value of all its fields at one moment.
 */
module PasswordEntries {
  import opened Wrappers
  import opened Timestamps

  datatype EntryData = EntryData(
    id: int, website: string, username: string, email: string,
    password: string, notes: string, dateCreated: Timestamp, dateModified: Timestamp)

  /** n asterisks. */
  function Stars(n: nat): (s: string)
    ensures |s| == n && forall i :: 0 <= i < n ==> s[i] == '*'
  {
    seq(n, i => '*')
  }

  class PasswordEntry {
    var id: int               // 0: not stored yet
    var website: string
    var username: string
    var email: string
    var password: string
    var notes: string
    var dateCreated: Timestamp
    var dateModified: Timestamp

    /** PasswordEntry(...) and __post_init__: a timestamp that is not
        supplied is read from the clock (one reading for each); a supplied
        one is kept. */
    constructor (id: int, website: string, username: string, email: string, password: string,
                 notes: string, dateCreated: Option<Timestamp>, dateModified: Option<Timestamp>,
                 clockAtCreated: Timestamp, clockAtModified: Timestamp)
      ensures Data() == EntryData(id, website, username, email, password, notes,
        if dateCreated.Some? then dateCreated.value else clockAtCreated,
        if dateModified.Some? then dateModified.value else clockAtModified)
    {
      this.id := id;
      this.website := website;
      this.username := username;
      this.email := email;
      this.password := password;
      this.notes := notes;
      this.dateCreated := if dateCreated.Some? then dateCreated.value else clockAtCreated;
      this.dateModified := if dateModified.Some? then dateModified.value else clockAtModified;
    }

    /** PasswordEntry() with every field defaulted: id 0, empty texts,
        both timestamps from the clock. */
    constructor Default(clockAtCreated: Timestamp, clockAtModified: Timestamp)
      ensures Data() == EntryData(0, [], [], [], [], [], clockAtCreated, clockAtModified)
    {
      id, website, username, email, password, notes := 0, [], [], [], [], [];
      dateCreated, dateModified := clockAtCreated, clockAtModified;
    }

    function Data(): EntryData
      reads this
    {
      EntryData(id, website, username, email, password, notes, dateCreated, dateModified)
    }

    /** masked_password: one '*' per character of the password, and the
        empty string for an empty password. */
    function MaskedPassword(): (m: string)
      reads this
      ensures |m| == |password|
      ensures forall i :: 0 <= i < |m| ==> m[i] == '*'
      ensures password == [] ==> m == []
    {
      if password != [] then Stars(|password|) else []
    }
  }
}
