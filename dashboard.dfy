/**
 * The dashboard's list logic: the title/content guard before a create or an
 * update is sent, the list updates after the server answered, and the search
 * filter. Server replies and the `window.confirm` answer are parameters.
 */
module Dashboard {
  import opened Wrappers
  import JsText
  import JsArray

  /** A note as the list shows it. The client ignores the `userId` the server
      sends and keeps the ISO timestamp strings as they arrive; only the id,
      title and content take part in the list logic. */
  datatype Note = Note(id: string, title: string, content: string, createdAt: string, updatedAt: string)

  datatype Draft = Draft(title: string, content: string)

  datatype ErrorKey = Create | Edit

  datatype Board = Board(notes: seq<Note>, newNote: Draft, showCreateModal: bool,
                         editingNote: Option<Note>, errors: map<ErrorKey, string>)

  /** How a create or update request ended: the server sent `note`, the server
      refused with `error` ("" when absent), or `fetch` threw `detail`. */
  datatype SaveReply = Saved(note: Note) | Refused(error: string) | NetworkError(detail: string)

  /** How a delete request ended. */
  datatype DeleteReply = Deleted | DeleteRefused | DeleteNetworkError

  /** The next board, and whether a request was sent. */
  datatype Outcome = Outcome(board: Board, requestSent: bool)

  const FieldsRequired := "Both title and content are required"

  /** `!s.trim()`: the string is empty or all white space. */
  function Blank(s: string): (r: bool)
    ensures r <==> forall i :: 0 <= i < |s| ==> JsText.IsSpace(s[i])
  {
    JsText.TrimEmptyIff(s);
    JsText.Trim(s) == ""
  }

  /** The message shown when a save fails. */
  function SaveError(reply: SaveReply): string
    requires !reply.Saved?
  {
    match reply
    case Refused(error) => if error == "" then "Failed" else error
    case NetworkError(detail) => "Network error. Please try again." + detail
  }

  // --------------------------------------------------------------- list updates

  /** `[data.note, ...notes]`. */
  function Prepend(notes: seq<Note>, n: Note): (r: seq<Note>)
    ensures |r| == |notes| + 1 && r[0] == n && r[1..] == notes
  {
    [n] + notes
  }

  /** `notes.map(note => note.id === id ? n : note)`. */
  function ReplaceById(notes: seq<Note>, id: string, n: Note): (r: seq<Note>)
    ensures |r| == |notes|
    ensures forall i :: 0 <= i < |notes| && notes[i].id == id ==> r[i] == n
    ensures forall i :: 0 <= i < |notes| && notes[i].id != id ==> r[i] == notes[i]
  {
    seq(|notes|, i requires 0 <= i < |notes| => if notes[i].id == id then n else notes[i])
  }

  /** `notes.filter(note => note.id !== id)`. */
  function RemoveById(notes: seq<Note>, id: string): (r: seq<Note>)
    ensures forall n :: n in r <==> n in notes && n.id != id
    ensures forall n :: multiset(r)[n] == if n.id != id then multiset(notes)[n] else 0
    ensures JsArray.IsSubsequence(r, notes)
  {
    JsArray.FilterMembers(notes, (n: Note) => n.id != id);
    JsArray.FilterIsSubsequence(notes, (n: Note) => n.id != id);
    JsArray.Filter(notes, (n: Note) => n.id != id)
  }

  /** An update touches only the notes with the edited id: removing that id
      afterwards gives what removing it before gives. */
  lemma {:induction false} ReplaceThenRemove(notes: seq<Note>, id: string, n: Note)
    requires n.id == id
    ensures RemoveById(ReplaceById(notes, id, n), id) == RemoveById(notes, id)
  {
    if notes != [] {
      ReplaceThenRemove(notes[1..], id, n);
      assert ReplaceById(notes, id, n)[1..] == ReplaceById(notes[1..], id, n);
    }
  }

  /** Deleting twice is deleting once. */
  lemma {:induction false} RemoveIdempotent(notes: seq<Note>, id: string)
    ensures RemoveById(RemoveById(notes, id), id) == RemoveById(notes, id)
  {
    var r := RemoveById(notes, id);
    JsArray.FilterKeepsAll(r, (n: Note) => n.id != id);
  }

  // -------------------------------------------------------------------- search

  /** The search test for one note: its lower-cased title or content contains the
      lower-cased term. The empty term matches every note, and a longer term than
      both title and content matches none. */
  function MatchesSearch(n: Note, term: string): (r: bool)
    ensures term == "" ==> r
    ensures r ==> |term| <= |n.title| || |term| <= |n.content|
  {
    var t := JsText.ToLower(term);
    assert term == "" ==> JsText.StartsWith(JsText.ToLower(n.title)[0..], t);
    JsText.Includes(JsText.ToLower(n.title), t) || JsText.Includes(JsText.ToLower(n.content), t)
  }

  /** `filteredNotes`: the notes matching the term, in list order. */
  function FilteredNotes(notes: seq<Note>, term: string): (r: seq<Note>)
    ensures forall n :: n in r <==> n in notes && MatchesSearch(n, term)
    ensures forall n :: multiset(r)[n] == if MatchesSearch(n, term) then multiset(notes)[n] else 0
    ensures JsArray.IsSubsequence(r, notes)
  {
    JsArray.FilterMembers(notes, (n: Note) => MatchesSearch(n, term));
    JsArray.FilterIsSubsequence(notes, (n: Note) => MatchesSearch(n, term));
    JsArray.Filter(notes, (n: Note) => MatchesSearch(n, term))
  }

  /** An empty search shows every note. */
  lemma EmptySearchKeepsAll(notes: seq<Note>)
    ensures FilteredNotes(notes, "") == notes
  {
    JsArray.FilterKeepsAll(notes, (n: Note) => MatchesSearch(n, ""));
  }

  /** Case does not matter to the search (ASCII letters). */
  lemma SearchIgnoresCase(n: Note, term: string)
    ensures MatchesSearch(n, term) <==> MatchesSearch(n, JsText.ToLower(term))
  {
    var t := JsText.ToLower(term);
    assert JsText.ToLower(t) == t;
  }

  // --------------------------------------------------------------- handlers

  /** `handleCreateNote`: refused without a request when the title or content is
      blank; after a saved note the list starts with it. */
  function HandleCreateNote(b: Board, reply: SaveReply): (o: Outcome)
    ensures o.requestSent <==> !Blank(b.newNote.title) && !Blank(b.newNote.content)
    ensures !o.requestSent ==> o.board == b.(errors := map[Create := FieldsRequired])
    ensures o.requestSent && reply.Saved? ==>
      o.board == b.(notes := Prepend(b.notes, reply.note), newNote := Draft("", ""),
                    showCreateModal := false, errors := map[])
    ensures o.requestSent && !reply.Saved? ==>
      o.board == b.(errors := map[Create := SaveError(reply)])
  {
    if Blank(b.newNote.title) || Blank(b.newNote.content) then
      Outcome(b.(errors := map[Create := FieldsRequired]), false)
    else match reply
      case Saved(n) =>
        Outcome(b.(notes := [n] + b.notes, newNote := Draft("", ""), showCreateModal := false, errors := map[]), true)
      case _ => Outcome(b.(errors := map[Create := SaveError(reply)]), true)
  }

  /** `handleUpdateNote`, reachable only while a note is being edited: refused
      without a request when blank; after a saved note every entry with the
      edited id is replaced by it. */
  function HandleUpdateNote(b: Board, reply: SaveReply): (o: Outcome)
    requires b.editingNote.Some?
    ensures o.requestSent <==> !Blank(b.editingNote.value.title) && !Blank(b.editingNote.value.content)
    ensures !o.requestSent ==> o.board == b.(errors := map[Edit := FieldsRequired])
    ensures o.requestSent && reply.Saved? ==>
      o.board == b.(notes := ReplaceById(b.notes, b.editingNote.value.id, reply.note),
                    editingNote := None, errors := map[])
    ensures o.requestSent && !reply.Saved? ==>
      o.board == b.(errors := map[Edit := SaveError(reply)])
  {
    var editing := b.editingNote.value;
    if Blank(editing.title) || Blank(editing.content) then
      Outcome(b.(errors := map[Edit := FieldsRequired]), false)
    else match reply
      case Saved(n) =>
        Outcome(b.(notes := ReplaceById(b.notes, editing.id, n), editingNote := None, errors := map[]), true)
      case _ => Outcome(b.(errors := map[Edit := SaveError(reply)]), true)
  }

  /** `handleDeleteNote`: asks first; only a successful delete changes the list,
      removing every note with that id. */
  function HandleDeleteNote(b: Board, confirmed: bool, noteId: string, reply: DeleteReply): (o: Outcome)
    ensures o.requestSent == confirmed
    ensures o.board.notes == if confirmed && reply.Deleted? then RemoveById(b.notes, noteId) else b.notes
    ensures o.board == b.(notes := o.board.notes)
  {
    if !confirmed then Outcome(b, false)
    else if reply.Deleted? then Outcome(b.(notes := RemoveById(b.notes, noteId)), true)
    else Outcome(b, true)
  }
}
