/**
 * gui/entry_window.py: the dialog that creates or edits one entry.  The
 * widgets' contents are fields of the window; Save validates them, writes
 * the stripped texts into the entry and hands it back, Cancel hands back
 * nothing, and Generate fills the password box with 16 random characters.
 */
module EntryWindows {
  import opened Wrappers
  import opened Text
  import opened Timestamps
  import opened PasswordEntries

  const WebsiteRequired: string := "Website/Service field is required."
  const PasswordRequired: string := "Password field is required."

  /** What pressing Save does with the form: an error for the first
      required field that is empty once stripped, or the entry's new value. */
  datatype SaveOutcome = Rejected(message: string) | Accepted(data: EntryData)

  /** _save on values.  The notes come from a Tk text box, which hands back
      its contents followed by a newline; every field but the notes box is
      read verbatim from an entry box.  The id and both timestamps are never
      touched. */
  function SaveForm(before: EntryData, website: string, username: string, email: string,
                    password: string, notesText: string): (o: SaveOutcome)
    ensures o.Rejected? <==> Strip(website) == [] || Strip(password) == []
    ensures o.Rejected? ==>
      o.message == if Strip(website) == [] then WebsiteRequired else PasswordRequired
    ensures o.Accepted? ==>
      && o.data.id == before.id
      && o.data.dateCreated == before.dateCreated && o.data.dateModified == before.dateModified
      && o.data.website == Strip(website) && o.data.password == Strip(password)
      && o.data.username == Strip(username) && o.data.email == Strip(email)
      && o.data.notes == Strip(notesText)
      && WellFormed(o.data)
  {
    var w := Strip(website);
    var p := Strip(password);
    if w == [] then Rejected(WebsiteRequired)
    else if p == [] then Rejected(PasswordRequired)
    else
      StripAppendSpace(notesText, '\n');
      Accepted(before.(website := w, username := Strip(username), email := Strip(email),
                       password := p, notes := Strip(notesText + "\n")))
  }

  /** The accepted value, spelled out as _save assigns it. */
  lemma SaveFormAccepts(before: EntryData, website: string, username: string, email: string,
                        password: string, notesText: string)
    requires Strip(website) != [] && Strip(password) != []
    ensures SaveForm(before, website, username, email, password, notesText)
      == Accepted(before.(website := Strip(website), username := Strip(username), email := Strip(email),
                          password := Strip(password), notes := Strip(notesText + "\n")))
  {
  }

  /** A saved entry always has a website and a password, and none of its
      texts has whitespace at either end. */
  predicate WellFormed(d: EntryData) {
    d.website != [] && d.password != [] &&
    Trimmed(d.website) && Trimmed(d.password) && Trimmed(d.username) && Trimmed(d.email) && Trimmed(d.notes)
  }

  /** Opening a well-formed entry and pressing Save without editing gives
      back the same entry. */
  lemma {:induction false} ReopenAndSaveKeepsEntry(d: EntryData)
    requires WellFormed(d)
    ensures SaveForm(d, d.website, d.username, d.email, d.password, d.notes) == Accepted(d)
  {
    StripTrimmed(d.website);
    StripTrimmed(d.username);
    StripTrimmed(d.email);
    StripTrimmed(d.password);
    StripTrimmed(d.notes);
  }

  /** count consecutive characters from first */
  function CharRange(first: char, count: nat): (r: string)
    requires first as int + count <= 0xD800
    ensures |r| == count
    ensures forall i :: 0 <= i < count ==> r[i] as int == first as int + i
  {
    seq(count, i requires 0 <= i < count => (first as int + i) as char)
  }

  const Punctuation: string := "!@#$%^&*"

  /** string.ascii_letters + string.digits + "!@#$%^&*": a-z, A-Z, 0-9 and
      eight punctuation marks, 70 characters. */
  const PasswordAlphabet: string := CharRange('a', 26) + CharRange('A', 26) + CharRange('0', 10) + Punctuation

  /** Every character of the alphabet is printable and not whitespace. */
  lemma AlphabetHasNoSpace()
    ensures |PasswordAlphabet| == 70
    ensures forall i :: 0 <= i < |PasswordAlphabet| ==> !IsSpace(PasswordAlphabet[i])
  {
    var lower, upper, digits := CharRange('a', 26), CharRange('A', 26), CharRange('0', 10);
    assert PasswordAlphabet == lower + upper + digits + Punctuation;
    assert forall i :: 0 <= i < |Punctuation| ==> Punctuation[i] as int >= 33;
    forall i | 0 <= i < |PasswordAlphabet| ensures PasswordAlphabet[i] as int >= 33 {
      if i < 26 {
        assert PasswordAlphabet[i] == lower[i];
      } else if i < 52 {
        assert PasswordAlphabet[i] == upper[i - 26];
      } else if i < 62 {
        assert PasswordAlphabet[i] == digits[i - 52];
      } else {
        assert PasswordAlphabet[i] == Punctuation[i - 62];
      }
    }
  }
  /** The alphabet holds exactly the ASCII letters, the digits and the
      eight punctuation marks. */
  lemma PasswordAlphabetMembers(c: char)
    ensures c in PasswordAlphabet <==> 'a' <= c <= 'z' || 'A' <= c <= 'Z' || '0' <= c <= '9' || c in Punctuation
  {
    var lower, upper, digits := CharRange('a', 26), CharRange('A', 26), CharRange('0', 10);
    assert PasswordAlphabet == lower + upper + digits + Punctuation;
    if 'a' <= c <= 'z' {
      assert PasswordAlphabet[c as int - 'a' as int] == c;
    } else if 'A' <= c <= 'Z' {
      assert PasswordAlphabet[26 + c as int - 'A' as int] == c;
    } else if '0' <= c <= '9' {
      assert PasswordAlphabet[52 + c as int - '0' as int] == c;
    } else if c !in Punctuation {
      forall i | 0 <= i < |PasswordAlphabet| ensures PasswordAlphabet[i] != c {
        if i < 26 {
          assert PasswordAlphabet[i] == lower[i];
        } else if i < 52 {
          assert PasswordAlphabet[i] == upper[i - 26];
        } else if i < 62 {
          assert PasswordAlphabet[i] == digits[i - 52];
        } else {
          assert PasswordAlphabet[i] == Punctuation[i - 62];
        }
      }
    }
  }

  const GeneratedLength: nat := 16

  /** picks[i] stands for the i-th draw of secrets.choice over the alphabet. */
  predicate ValidPicks(picks: seq<nat>) {
    |picks| == GeneratedLength && forall i :: 0 <= i < |picks| ==> picks[i] < |PasswordAlphabet|
  }

  function GeneratedPassword(picks: seq<nat>): (pw: string)
    requires ValidPicks(picks)
    ensures |pw| == GeneratedLength
    ensures forall i :: 0 <= i < |pw| ==> pw[i] in PasswordAlphabet
  {
    seq(GeneratedLength, i requires 0 <= i < GeneratedLength => PasswordAlphabet[picks[i]])
  }

  /** No character of the alphabet is whitespace, so a generated password
      survives the strip of _save and is never rejected as empty. */
  lemma GeneratedPasswordPassesSave(picks: seq<nat>)
    requires ValidPicks(picks)
    ensures Strip(GeneratedPassword(picks)) == GeneratedPassword(picks)
    ensures GeneratedPassword(picks) != []
  {
    var pw := GeneratedPassword(picks);
    AlphabetHasNoSpace();
    StripTrimmed(pw);
  }

  /** The first position of c in s. */
  function IndexOf(s: string, c: char): (k: nat)
    requires c in s
    ensures k < |s| && s[k] == c
    ensures forall j :: 0 <= j < k ==> s[j] != c
  {
    if s[0] == c then 0 else 1 + IndexOf(s[1..], c)
  }

  /** Every 16-character string over the alphabet can be generated. */
  lemma GeneratorCoversAlphabet(pw: string)
    requires |pw| == GeneratedLength && forall i :: 0 <= i < |pw| ==> pw[i] in PasswordAlphabet
    ensures exists picks :: ValidPicks(picks) && GeneratedPassword(picks) == pw
  {
    var picks := seq(GeneratedLength, i requires 0 <= i < GeneratedLength => IndexOf(PasswordAlphabet, pw[i]));
    assert ValidPicks(picks);
    assert GeneratedPassword(picks) == pw;
  }

  class EntryWindow {
    var entry: PasswordEntry
    var result: Option<PasswordEntry>
    var title: string
    // the contents of the five input widgets
    var websiteText: string
    var usernameText: string
    var emailText: string
    var passwordText: string
    var notesText: string
    var errorMessage: Option<string>   // the last validation dialog shown
    var closed: bool

    /** A result, once there is one, is the window's own entry and is
        well formed. */
    ghost predicate Valid()
      reads this, entry
    {
      result.Some? ==> result.value == entry && WellFormed(entry.Data())
    }

    /** EntryWindow(parent, entry): a given entry is edited in place and its
        fields fill the widgets; without one a fresh default entry is made
        and the widgets start empty. */
    constructor (given: Option<PasswordEntry>, clockAtCreated: Timestamp, clockAtModified: Timestamp)
      ensures Valid() && result == None && errorMessage == None && !closed
      ensures given.Some? ==> entry == given.value && title == "Edit Entry"
      ensures given.None? ==>
        fresh(entry) && title == "Add Entry" &&
        entry.Data() == EntryData(0, [], [], [], [], [], clockAtCreated, clockAtModified)
      ensures websiteText == entry.website && usernameText == entry.username && emailText == entry.email
      ensures passwordText == entry.password && notesText == entry.notes
    {
      if given.Some? {
        entry := given.value;
        title := "Edit Entry";
      } else {
        entry := new PasswordEntry.Default(clockAtCreated, clockAtModified);
        title := "Add Entry";
      }
      result, errorMessage, closed := None, None, false;
      new;
      LoadEntryData();
    }

    /** _load_entry_data */
    method LoadEntryData()
      modifies this`websiteText, this`usernameText, this`emailText, this`passwordText, this`notesText
      ensures websiteText == entry.website && usernameText == entry.username && emailText == entry.email
      ensures passwordText == entry.password && notesText == entry.notes
    {
      websiteText := entry.website;
      usernameText := entry.username;
      emailText := entry.email;
      passwordText := entry.password;
      notesText := entry.notes;
    }

    /** _generate_password: the password box is replaced by 16 characters
        drawn from the alphabet. */
    method GeneratePassword(picks: seq<nat>)
      requires ValidPicks(picks)
      modifies this`passwordText
      ensures passwordText == GeneratedPassword(picks)
    {
      var pw: string := [];
      for i := 0 to GeneratedLength
        invariant pw == GeneratedPassword(picks)[..i]
      {
        pw := pw + [PasswordAlphabet[picks[i]]];
      }
      passwordText := pw;
    }

    /** _save: on a rejection the error is shown and nothing else changes;
        otherwise the entry takes the form's value, becomes the result and
        the window closes. */
    method Save()
      requires Valid()
      modifies this`result, this`errorMessage, this`closed,
        entry`website, entry`username, entry`email, entry`password, entry`notes
      ensures Valid()
      ensures var o := old(SaveForm(entry.Data(), websiteText, usernameText, emailText, passwordText, notesText));
        && (o.Rejected? ==>
              errorMessage == Some(o.message) && result == old(result) && closed == old(closed)
              && entry.Data() == old(entry.Data()))
        && (o.Accepted? ==>
              entry.Data() == o.data && result == Some(entry) && closed && errorMessage == old(errorMessage))
    {
      var website := Strip(websiteText);
      var password := Strip(passwordText);
      if website == [] {
        errorMessage := Some(WebsiteRequired);
        return;
      }
      if password == [] {
        errorMessage := Some(PasswordRequired);
        return;
      }
      var username := Strip(usernameText);
      var email := Strip(emailText);
      var notes := Strip(notesText + "\n");
      SaveFormAccepts(entry.Data(), websiteText, usernameText, emailText, passwordText, notesText);
      Accept(website, username, email, password, notes);
    }

    /** The success path of _save: the stripped texts are written into the
        entry, which becomes the result, and the window closes. */
    method Accept(website: string, username: string, email: string, password: string, notes: string)
      modifies this`result, this`closed,
        entry`website, entry`username, entry`email, entry`password, entry`notes
      ensures entry.Data() == old(entry.Data()).(website := website, username := username,
        email := email, password := password, notes := notes)
      ensures result == Some(entry) && closed
    {
      entry.website := website;
      entry.username := username;
      entry.email := email;
      entry.password := password;
      entry.notes := notes;
      result := Some(entry);
      closed := true;
    }

    /** _cancel, also bound to Escape and the close button. */
    method Cancel()
      modifies this`result, this`closed
      ensures result == None && closed
    {
      result := None;
      closed := true;
    }

    /** show(): the entry saved in this window, or None. */
    function Show(): (r: Option<PasswordEntry>)
      reads this, entry
      requires Valid()
      ensures r.Some? ==> r.value == entry && WellFormed(entry.Data())
      ensures r.None? <==> result.None?
    {
      result
    }
  }
}
