/**
 * gui/main_window.py, the logic behind the list: loading the entries, the
 * search filter, the rows the tree shows (masked password, notes cut to 50
 * characters), the entry count, and finding the selected entry by its id.
 */
module MainWindows {
  import opened Wrappers
  import opened Text
  import opened Timestamps
  import opened PasswordEntries
  import opened DatabaseServices

  const NotesPreviewLength: nat := 50

  /** The notes column of the tree: notes longer than 50 characters show
      their first 50 followed by "...", shorter ones are shown whole. */
  function NotesPreview(notes: string): (shown: string)
    ensures |notes| <= NotesPreviewLength ==> shown == notes
    ensures |notes| > NotesPreviewLength ==>
      |shown| == NotesPreviewLength + 3 && shown[..NotesPreviewLength] == notes[..NotesPreviewLength]
      && shown[NotesPreviewLength..] == "..."
  {
    if |notes| > NotesPreviewLength then notes[..NotesPreviewLength] + "..." else notes
  }

  /** One line of the tree, tagged with the entry's id. */
  datatype TreeRow = TreeRow(website: string, username: string, email: string,
                             password: string, notes: string, tag: int)

  function DisplayRow(e: PasswordEntry): (row: TreeRow)
    reads e
    ensures row.tag == e.id && row.website == e.website
    ensures row.username == e.username && row.email == e.email
    ensures |row.password| == |e.password| && forall i :: 0 <= i < |row.password| ==> row.password[i] == '*'
    ensures row.notes == NotesPreview(e.notes)
  {
    TreeRow(e.website, e.username, e.email, e.MaskedPassword(), NotesPreview(e.notes), e.id)
  }

  /** The search test of _on_search, for an already lower-cased query: the
      query occurs in the lower-cased website, username or email.  Password
      and notes play no part. */
  function Matches(e: PasswordEntry, query: string): (b: bool)
    reads e
    ensures b <==> || (exists i :: OccursAt(Lower(e.website), query, i))
                   || (exists i :: OccursAt(Lower(e.username), query, i))
                   || (exists i :: OccursAt(Lower(e.email), query, i))
  {
    Contains(Lower(e.website), query) || Contains(Lower(e.username), query) || Contains(Lower(e.email), query)
  }

  ghost predicate IsSubsequence<T>(a: seq<T>, b: seq<T>)
    decreases |b|
  {
    a == [] || (b != [] && (if a[0] == b[0] then IsSubsequence(a[1..], b[1..]) else IsSubsequence(a, b[1..])))
  }

  /** The list comprehension of _on_search: the matching entries, in their
      order, and nothing else. */
  function Filter(es: seq<PasswordEntry>, query: string): (r: seq<PasswordEntry>)
    reads es
    ensures forall i :: 0 <= i < |r| ==> r[i] in es && Matches(r[i], query)
    ensures forall i :: 0 <= i < |es| && Matches(es[i], query) ==> es[i] in r
    ensures |r| <= |es|
    ensures IsSubsequence(r, es)
  {
    if es == [] then []
    else if Matches(es[0], query) then [es[0]] + Filter(es[1..], query)
    else Filter(es[1..], query)
  }

  /** The comprehension keeps every occurrence of a matching entry: the
      filtered list holds each matching entry as often as the list does,
      and no other entry. */
  lemma {:induction false} FilterKeepsEveryCopy(es: seq<PasswordEntry>, query: string, x: PasswordEntry)
    ensures multiset(Filter(es, query))[x] == if Matches(x, query) then multiset(es)[x] else 0
  {
    if es != [] {
      FilterKeepsEveryCopy(es[1..], query, x);
      assert es == [es[0]] + es[1..];
    }
  }

  /** An empty query matches every entry, so filtering with it keeps the
      whole list: the source's separate branch for the empty search text
      gives the same list as the comprehension would. */
  lemma {:induction false} FilterEmptyQuery(es: seq<PasswordEntry>)
    ensures Filter(es, []) == es
  {
    if es != [] {
      EmptyIsContained(Lower(es[0].website));
      FilterEmptyQuery(es[1..]);
    }
  }

  /** Two entries that agree on website, username and email match the same
      queries, whatever their passwords and notes. */
  lemma MatchIgnoresPasswordAndNotes(a: PasswordEntry, b: PasswordEntry, query: string)
    requires a.website == b.website && a.username == b.username && a.email == b.email
    ensures Matches(a, query) == Matches(b, query)
  {
  }

  /** The index of the first entry with the given id, or |es| if none has it. */
  function IndexOfId(es: seq<PasswordEntry>, id: int): (k: nat)
    reads es
    ensures k <= |es|
    ensures forall j :: 0 <= j < k ==> es[j].id != id
    ensures k < |es| ==> es[k].id == id
  {
    if es == [] then 0
    else if es[0].id == id then 0
    else 1 + IndexOfId(es[1..], id)
  }

  /** Every id shown in the filtered list is found in the full list. */
  lemma {:induction false} SubsequenceMembers<T>(a: seq<T>, b: seq<T>)
    requires IsSubsequence(a, b)
    ensures forall x :: x in a ==> x in b
    decreases |b|
  {
    if a != [] {
      assert forall x :: x in a ==> x == a[0] || x in a[1..];
      assert forall x :: x in b[1..] ==> x in b;
      if a[0] == b[0] { SubsequenceMembers(a[1..], b[1..]); } else { SubsequenceMembers(a, b[1..]); }
    }
  }

  class MainWindow {
    var db: DatabaseService
    var entries: seq<PasswordEntry>
    var filteredEntries: seq<PasswordEntry>
    var searchText: string     // the contents of the search box
    var tree: seq<TreeRow>     // the rows the tree view shows
    var entryCount: nat        // the count label reads "<entryCount> entries"
    var status: string
    var loadFailed: bool       // the "Failed to load entries" dialog was shown

    ghost predicate Valid()
      reads this, db
    {
      db.Valid() && IsSubsequence(filteredEntries, entries)
    }

    /** MainWindow(...): empty lists, then a first load. */
    constructor (db: DatabaseService, now: Timestamp)
      requires db.Valid()
      ensures Valid() && this.db == db && searchText == []
      ensures var loaded := db.Loaded(now);
        && (loaded.Some? ==> && !loadFailed && filteredEntries == entries && |entries| == |loaded.value|
                             && (forall i :: 0 <= i < |entries| ==> entries[i].Data() == loaded.value[i])
                             && entryCount == |entries| && |tree| == |entries| && status == "Ready"
                             && (forall i :: 0 <= i < |tree| ==> tree[i] == DisplayRow(entries[i])))
        && (loaded.None? ==> && loadFailed && entries == [] && filteredEntries == []
                             && tree == [] && entryCount == 0 && status == "Ready")
    {
      this.db := db;
      entries, filteredEntries, searchText, tree := [], [], [], [];
      entryCount, status, loadFailed := 0, "Ready", false;
      new;
      LoadEntries(now);
    }

    /** _refresh_tree: one tree row per filtered entry, in order. */
    method RefreshTree()
      modifies this`tree
      ensures |tree| == |filteredEntries|
      ensures forall i :: 0 <= i < |tree| ==> tree[i] == DisplayRow(filteredEntries[i])
    {
      tree := [];
      for i := 0 to |filteredEntries|
        invariant |tree| == i
        invariant forall j :: 0 <= j < i ==> tree[j] == DisplayRow(filteredEntries[j])
      {
        tree := tree + [DisplayRow(filteredEntries[i])];
      }
    }

    /** _update_status */
    method UpdateStatus()
      modifies this`entryCount, this`status
      ensures entryCount == |filteredEntries| && status == "Ready"
    {
      entryCount := |filteredEntries|;
      status := "Ready";
    }

    /** _load_entries: the list becomes what the database returns and the
        filtered list a copy of it, whatever the search box holds.  When
        loading raises, an error is shown and the lists stay as they were. */
    method LoadEntries(now: Timestamp)
      requires Valid()
      modifies this`entries, this`filteredEntries, this`tree, this`entryCount, this`status, this`loadFailed
      ensures Valid() && db == old(db) && searchText == old(searchText)
      ensures var loaded := db.Loaded(now);
        && (loaded.Some? ==>
              && !loadFailed && filteredEntries == entries && |entries| == |loaded.value|
              && (forall i :: 0 <= i < |entries| ==> entries[i].Data() == loaded.value[i])
              && entryCount == |entries| && |tree| == |entries| && status == "Ready"
              && (forall i :: 0 <= i < |tree| ==> tree[i] == DisplayRow(entries[i])))
        && (loaded.None? ==>
              && loadFailed && entries == old(entries) && filteredEntries == old(filteredEntries)
              && tree == old(tree) && entryCount == old(entryCount) && status == old(status))
    {
      var r := db.GetAllEntries(now);
      if r.None? {
        ReportLoadFailure();
        return;
      }
      ShowEntries(r.value);
    }

    /** The except branch of _load_entries: the error dialog is shown and
        nothing else changes. */
    method ReportLoadFailure()
      requires Valid()
      modifies this`loadFailed
      ensures Valid() && loadFailed
    {
      loadFailed := true;
    }

    /** The success path of _load_entries: the list and its filtered copy
        become the loaded entries, then the tree and the count are redrawn. */
    method ShowEntries(loaded: seq<PasswordEntry>)
      requires db.Valid()
      modifies this`entries, this`filteredEntries, this`tree, this`entryCount, this`status, this`loadFailed
      ensures Valid() && !loadFailed
      ensures entries == loaded && filteredEntries == loaded
      ensures entryCount == |loaded| && |tree| == |loaded| && status == "Ready"
      ensures forall i :: 0 <= i < |tree| ==> tree[i] == DisplayRow(loaded[i])
      ensures forall i :: 0 <= i < |loaded| ==> loaded[i].Data() == old(loaded[i].Data())
    {
      entries := loaded;
      filteredEntries := loaded;
      SubsequenceReflexive(loaded);
      loadFailed := false;
      RefreshTree();
      UpdateStatus();
    }

    /** _on_search: the filtered list becomes the entries whose website,
        username or email contains the lower-cased search text, or all
        entries when that text is empty; then the tree and the count follow. */
    method OnSearch()
      modifies this`filteredEntries, this`tree, this`entryCount, this`status
      ensures filteredEntries == old(if Lower(searchText) == [] then entries else Filter(entries, Lower(searchText)))
      ensures entryCount == |filteredEntries| && |tree| == |filteredEntries| && status == "Ready"
      ensures forall i :: 0 <= i < |tree| ==> tree[i] == DisplayRow(filteredEntries[i])
      ensures IsSubsequence(filteredEntries, entries)
    {
      var query := Lower(searchText);
      if query == [] {
        filteredEntries := entries;
        SubsequenceReflexive(entries);
      } else {
        filteredEntries := Filter(entries, query);
      }
      RefreshTree();
      UpdateStatus();
    }

    /** _get_selected_entry: the first entry of the full list (not the
        filtered one) whose id is the tag of the first selected tree row;
        None when nothing is selected or no entry has that id. */
    method GetSelectedEntry(selection: seq<int>) returns (r: Option<PasswordEntry>)
      ensures selection == [] ==> r == None
      ensures selection != [] ==>
        r == if IndexOfId(entries, selection[0]) < |entries| then Some(entries[IndexOfId(entries, selection[0])]) else None
    {
      if selection == [] {
        return None;
      }
      var entryId := selection[0];
      var i := 0;
      while i < |entries|
        invariant 0 <= i <= |entries|
        invariant forall j :: 0 <= j < i ==> entries[j].id != entryId
      {
        if entries[i].id == entryId {
          return Some(entries[i]);
        }
        i := i + 1;
      }
      return None;
    }
  }

  lemma {:induction false} SubsequenceReflexive<T>(s: seq<T>)
    ensures IsSubsequence(s, s)
    decreases |s|
  {
    if s != [] { SubsequenceReflexive(s[1..]); }
  }
}
