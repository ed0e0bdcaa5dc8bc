/** Notes and their comments (`NoteService`). */
module Notes {
  import opened Errors
  import opened Sequences
  import opened LinkedMaps

  /** A note (the record `Notes`); `comments` counts the comments ever created for it. */
  datatype Note = Note(id: int, ownerId: int, title: string, text: string, date: int, comments: int)

  datatype NoteComment = NoteComment(
    id: int,
    userId: int,
    noteId: int,
    ownerId: int,
    date: int,
    message: string,
    isDeleted: bool)

  function NoteDate(n: Note): int { n.date }

  function CommentDate(c: NoteComment): int { c.date }

  /** The comments `getComments` lists for `noteId`: those of that note not deleted. */
  function ActiveOf(noteId: int): NoteComment -> bool {
    (c: NoteComment) => c.noteId == noteId && !c.isDeleted
  }

  /** The notes `get` lists for `ownerId`. */
  function OwnedBy(ownerId: int): Note -> bool {
    (n: Note) => n.ownerId == ownerId
  }

  /**
   * The `when (sort)` of `get` and `getComments`: 0 sorts by ascending date, 1 by descending date
   * (both stable), any other value keeps the storage order.
   */
  function Ordered<T>(s: seq<T>, date: T -> int, sort: int): (r: seq<T>)
    ensures multiset(r) == multiset(s)
    ensures sort == 0 ==> StableSortOf(r, s, date)
    ensures sort == 1 ==> StableSortDescendingOf(r, s, date)
    ensures sort != 0 && sort != 1 ==> r == s
  {
    if sort == 0 then
      SortByIsStableSort(s, date);
      SortBy(s, date)
    else if sort == 1 then
      SortByDescendingIsStableSort(s, date);
      SortByDescending(s, date)
    else
      s
  }

  /** The comment table after every comment of `noteId` whose id is in `among` has been marked deleted. */
  function Tombstoned(entries: map<int, NoteComment>, noteId: int, among: set<int>): (r: map<int, NoteComment>)
  {
    map id | id in entries ::
      if id in among && entries[id].noteId == noteId then entries[id].(isDeleted := true) else entries[id]
  }

  /** Visiting one more comment of the table extends the set of visited ids by it. */
  lemma TombstoneStep(entries: map<int, NoteComment>, noteId: int, among: set<int>, k: int)
    requires k in entries
    ensures
      var cur := Tombstoned(entries, noteId, among);
      (if cur[k].noteId == noteId then cur[k := cur[k].(isDeleted := true)] else cur)
        == Tombstoned(entries, noteId, among + {k})
  {
    var cur := Tombstoned(entries, noteId, among);
    var next := Tombstoned(entries, noteId, among + {k});
    if cur[k].noteId == noteId {
      assert cur[k := cur[k].(isDeleted := true)] == next;
    } else {
      assert cur == next;
    }
  }

  class NoteService {
    var notes: LinkedMap<Note>
    var comments: LinkedMap<NoteComment>
    var nextNoteId: int
    var nextCommentId: int

    /**
     * Every entry is stored under its own id; notes carry ids issued by the note counter and the
     * owner 0; a comment is owned by its author and refers to a note id that was issued (the
     * note itself may be gone).
     */
    ghost predicate Valid()
      reads this
    {
      && notes.Valid()
      && comments.Valid()
      && 1 <= nextNoteId
      && 1 <= nextCommentId
      && (forall id :: id in notes.entries ==>
            notes.entries[id].id == id && 1 <= id < nextNoteId && notes.entries[id].ownerId == 0)
      && (forall id :: id in comments.entries ==>
            && comments.entries[id].id == id
            && comments.entries[id].userId == comments.entries[id].ownerId
            && 1 <= comments.entries[id].noteId < nextNoteId)
    }

    constructor ()
      ensures Valid()
      ensures notes == Empty() && comments == Empty() && nextNoteId == 1 && nextCommentId == 1
    {
      notes, comments := Empty(), Empty();
      nextNoteId, nextCommentId := 1, 1;
    }

    /** `add`: a new note owned by 0, with no comments, under the next note id. */
    method Add(title: string, text: string, now: int) returns (id: int)
      requires Valid()
      modifies this
      ensures Valid()
      ensures id == old(nextNoteId) && id !in old(notes.entries)
      ensures nextNoteId == old(nextNoteId) + 1 && nextCommentId == old(nextCommentId)
      ensures notes == old(notes).Put(id, Note(id, 0, title, text, now, 0))
      ensures comments == old(comments)
    {
      id := nextNoteId;
      nextNoteId := nextNoteId + 1;
      notes := notes.Put(id, Note(id, 0, title, text, now, 0));
    }

    /**
     * `createComment`: stores a comment on an existing note under `commentId`, or under the next
     * comment id when none is given (overwriting any comment already stored there), and adds one
     * to the note's comment counter.
     */
    method CreateComment(noteId: int, ownerId: int, message: string, commentId: Option<int>, now: int)
      returns (r: Result<int>)
      requires Valid()
      modifies this
      ensures Valid()
      ensures nextNoteId == old(nextNoteId)
      ensures noteId !in old(notes.entries) ==> r == Err(NoteNotFound) && unchanged(this)
      ensures noteId in old(notes.entries) ==>
        var id := if commentId.Some? then commentId.value else old(nextCommentId);
        var note := old(notes.entries[noteId]);
        && r == Ok(id)
        && nextCommentId == (if commentId.Some? then old(nextCommentId) else old(nextCommentId) + 1)
        && comments == old(comments).Put(id, NoteComment(id, ownerId, noteId, ownerId, now, message, false))
        && notes == old(notes).Put(noteId, note.(comments := note.comments + 1))
    {
      if noteId !in notes.entries {
        return Err(NoteNotFound);
      }
      var note := notes.entries[noteId];
      var id;
      if commentId.Some? {
        id := commentId.value;
      } else {
        id := nextCommentId;
        nextCommentId := nextCommentId + 1;
      }
      comments := comments.Put(id, NoteComment(id, ownerId, noteId, ownerId, now, message, false));
      notes := notes.Put(noteId, note.(comments := note.comments + 1));
      r := Ok(id);
    }

    /**
     * The `filter { it.noteId == noteId }.forEach { it.isDeleted = true }` pass over the comment
     * table: afterwards every comment of the note is marked deleted and nothing else has changed.
     */
    method TombstoneComments(noteId: int)
      requires comments.Valid()
      modifies this
      ensures comments.Valid()
      ensures comments == LinkedMap(old(comments.keys), Tombstoned(old(comments.entries), noteId, old(comments.entries.Keys)))
      ensures notes == old(notes) && nextNoteId == old(nextNoteId) && nextCommentId == old(nextCommentId)
    {
      var keys := comments.keys;
      ghost var before := comments.entries;
      ghost var visited: set<int> := {};
      var i := 0;
      while i < |keys|
        invariant 0 <= i <= |keys|
        invariant visited <= before.Keys
        invariant forall j :: 0 <= j < i ==> keys[j] in visited
        invariant comments.Valid()
        invariant comments == LinkedMap(keys, Tombstoned(before, noteId, visited))
        invariant notes == old(notes) && nextNoteId == old(nextNoteId) && nextCommentId == old(nextCommentId)
      {
        var c := comments.entries[keys[i]];
        TombstoneStep(before, noteId, visited, keys[i]);
        if c.noteId == noteId {
          comments := comments.Put(keys[i], c.(isDeleted := true));
        }
        visited := visited + {keys[i]};
        i := i + 1;
      }
      forall k | k in before ensures k in visited {
        var j :| 0 <= j < |keys| && keys[j] == k;
      }
    }

    /**
     * `delete`: removes the note and marks every comment of that note deleted, leaving every
     * other comment as it was.
     */
    method Delete(noteId: int) returns (r: Result<bool>)
      requires Valid()
      modifies this
      ensures Valid()
      ensures nextNoteId == old(nextNoteId) && nextCommentId == old(nextCommentId)
      ensures noteId !in old(notes.entries) ==> r == Err(NoteNotFound) && unchanged(this)
      ensures noteId in old(notes.entries) ==>
        && r == Ok(true)
        && notes == old(notes).Remove(noteId)
        && comments.keys == old(comments.keys)
        && comments.entries.Keys == old(comments.entries.Keys)
        && forall id :: id in comments.entries ==>
             comments.entries[id] ==
               if old(comments.entries[id]).noteId == noteId
               then old(comments.entries[id]).(isDeleted := true)
               else old(comments.entries[id])
    {
      if noteId !in notes.entries {
        return Err(NoteNotFound);
      }
      TombstoneComments(noteId);
      notes := notes.Remove(noteId);
      r := Ok(true);
    }

    /**
     * `deleteComment`: CommentNotFound, then IllegalArgument for another owner, then
     * CommentDeleted if it is already deleted; otherwise only its flag is set.
     */
    method DeleteComment(commentId: int, ownerId: int) returns (r: Result<bool>)
      requires Valid()
      modifies this
      ensures Valid()
      ensures commentId !in old(comments.entries) ==> r == Err(CommentNotFound)
      ensures commentId in old(comments.entries) ==>
        var c := old(comments.entries[commentId]);
        r == if c.ownerId != ownerId then Err(IllegalArgument)
             else if c.isDeleted then Err(CommentDeleted)
             else Ok(true)
      ensures r.Err? ==> unchanged(this)
      ensures r.Ok? ==>
        && comments == old(comments).Put(commentId, old(comments.entries[commentId]).(isDeleted := true))
        && notes == old(notes)
        && nextNoteId == old(nextNoteId) && nextCommentId == old(nextCommentId)
    {
      if commentId !in comments.entries {
        return Err(CommentNotFound);
      }
      var c := comments.entries[commentId];
      if c.ownerId != ownerId {
        return Err(IllegalArgument);
      }
      if c.isDeleted {
        return Err(CommentDeleted);
      }
      comments := comments.Put(commentId, c.(isDeleted := true));
      r := Ok(true);
    }

    /** `edit`: replaces the title and text of an existing note; id, owner, date and counter stay. */
    method Edit(noteId: int, title: string, text: string) returns (r: Result<bool>)
      requires Valid()
      modifies this
      ensures Valid()
      ensures noteId !in old(notes.entries) ==> r == Err(NoteNotFound) && unchanged(this)
      ensures noteId in old(notes.entries) ==>
        var before := old(notes.entries[noteId]);
        && r == Ok(true)
        && notes.keys == old(notes.keys)
        && notes.entries == old(notes.entries)[noteId := notes.entries[noteId]]
        && var after := notes.entries[noteId];
           && after.title == title && after.text == text
           && after.id == before.id && after.ownerId == before.ownerId
           && after.date == before.date && after.comments == before.comments
      ensures comments == old(comments)
      ensures nextNoteId == old(nextNoteId) && nextCommentId == old(nextCommentId)
    {
      if noteId !in notes.entries {
        return Err(NoteNotFound);
      }
      var note := notes.entries[noteId];
      notes := notes.Put(noteId, note.(title := title, text := text));
      r := Ok(true);
    }

    /**
     * `editComment`: the same checks as `deleteComment`, failing with CommentDeleted on a deleted
     * comment; otherwise only the comment's message changes.
     */
    method EditComment(commentId: int, ownerId: int, message: string) returns (r: Result<bool>)
      requires Valid()
      modifies this
      ensures Valid()
      ensures commentId !in old(comments.entries) ==> r == Err(CommentNotFound)
      ensures commentId in old(comments.entries) ==>
        var c := old(comments.entries[commentId]);
        r == if c.ownerId != ownerId then Err(IllegalArgument)
             else if c.isDeleted then Err(CommentDeleted)
             else Ok(true)
      ensures r.Err? ==> unchanged(this)
      ensures r.Ok? ==>
        && comments == old(comments).Put(commentId, old(comments.entries[commentId]).(message := message))
        && notes == old(notes)
        && nextNoteId == old(nextNoteId) && nextCommentId == old(nextCommentId)
    {
      if commentId !in comments.entries {
        return Err(CommentNotFound);
      }
      var c := comments.entries[commentId];
      if c.ownerId != ownerId {
        return Err(IllegalArgument);
      }
      if c.isDeleted {
        return Err(CommentDeleted);
      }
      comments := comments.Put(commentId, c.(message := message));
      r := Ok(true);
    }

    /** `getById`: the note, if it exists and belongs to `ownerId`. */
    function GetById(noteId: int, ownerId: int): (r: Result<Note>)
      reads this
      requires Valid()
      ensures r.Ok? <==> noteId in notes.entries && notes.entries[noteId].ownerId == ownerId
      ensures r.Ok? ==> r.value.id == noteId && r.value == notes.entries[noteId]
      ensures r.Err? ==> r.error == if noteId in notes.entries then IllegalArgument else NoteNotFound
    {
      if noteId !in notes.entries then Err(NoteNotFound)
      else if notes.entries[noteId].ownerId != ownerId then Err(IllegalArgument)
      else Ok(notes.entries[noteId])
    }

    /** `c` is the stored comment under its id, belongs to `noteId` and is not deleted. */
    ghost predicate IsActiveComment(c: NoteComment, noteId: int)
      reads this
    {
      c.id in comments.entries && comments.entries[c.id] == c && c.noteId == noteId && !c.isDeleted
    }

    /** The comments of a note that are not deleted, in storage (key) order. */
    function ActiveComments(noteId: int): (cs: seq<NoteComment>)
      reads this
      requires Valid()
      ensures forall c :: c in cs <==> IsActiveComment(c, noteId)
      ensures IsFilterOf(cs, comments.Values(), ActiveOf(noteId))
    {
      var vs := comments.Values();
      assert forall c :: c in vs ==> c.id in comments.entries && comments.entries[c.id] == c by {
        forall c | c in vs ensures c.id in comments.entries && comments.entries[c.id] == c {
          var i :| 0 <= i < |vs| && vs[i] == c;
          var id := comments.keys[i];
          assert id in comments.entries && vs[i] == comments.entries[id];
        }
      }
      assert forall c :: IsActiveComment(c, noteId) ==> c in vs by {
        forall c | IsActiveComment(c, noteId) ensures c in vs {
          var i :| 0 <= i < |comments.keys| && comments.keys[i] == c.id;
          assert vs[i] == c;
        }
      }
      FilterIsFilterOf(vs, ActiveOf(noteId));
      Filter(vs, ActiveOf(noteId))
    }

    /**
     * `getComments`: for an existing note of `ownerId`, exactly its comments that are not
     * deleted, ordered by the `sort` rule.
     */
    function GetComments(noteId: int, ownerId: int, sort: int): (r: Result<seq<NoteComment>>)
      reads this
      requires Valid()
      ensures r.Ok? <==> noteId in notes.entries && notes.entries[noteId].ownerId == ownerId
      ensures r.Err? ==> r.error == if noteId in notes.entries then IllegalArgument else NoteNotFound
      ensures r.Ok? ==> forall c :: c in r.value <==> IsActiveComment(c, noteId)
      ensures r.Ok? && sort == 0 ==> StableSortOf(r.value, ActiveComments(noteId), CommentDate)
      ensures r.Ok? && sort == 1 ==> StableSortDescendingOf(r.value, ActiveComments(noteId), CommentDate)
      ensures r.Ok? && sort != 0 && sort != 1 ==> r.value == ActiveComments(noteId)
    {
      if noteId !in notes.entries then Err(NoteNotFound)
      else if notes.entries[noteId].ownerId != ownerId then Err(IllegalArgument)
      else
        var active := ActiveComments(noteId);
        var r := Ordered(active, CommentDate, sort);
        assert forall c :: c in r <==> c in active by {
          forall c ensures c in r <==> c in active {
            assert c in r <==> c in multiset(r);
            assert c in active <==> c in multiset(active);
          }
        }
        Ok(r)
    }

    /** `n` is the stored note under its id and belongs to `ownerId`. */
    ghost predicate IsNoteOf(n: Note, ownerId: int)
      reads this
    {
      n.id in notes.entries && notes.entries[n.id] == n && n.ownerId == ownerId
    }

    /** The notes of `ownerId`, in storage (key) order. */
    function NotesOf(ownerId: int): (ns: seq<Note>)
      reads this
      requires Valid()
      ensures forall n :: n in ns <==> IsNoteOf(n, ownerId)
      ensures IsFilterOf(ns, notes.Values(), OwnedBy(ownerId))
    {
      var vs := notes.Values();
      assert forall n :: n in vs ==> n.id in notes.entries && notes.entries[n.id] == n by {
        forall n | n in vs ensures n.id in notes.entries && notes.entries[n.id] == n {
          var i :| 0 <= i < |vs| && vs[i] == n;
          var id := notes.keys[i];
          assert id in notes.entries && vs[i] == notes.entries[id];
        }
      }
      assert forall n :: IsNoteOf(n, ownerId) ==> n in vs by {
        forall n | IsNoteOf(n, ownerId) ensures n in vs {
          var i :| 0 <= i < |notes.keys| && notes.keys[i] == n.id;
          assert vs[i] == n;
        }
      }
      FilterIsFilterOf(vs, OwnedBy(ownerId));
      Filter(vs, OwnedBy(ownerId))
    }

    /** `get`: exactly the notes of `ownerId`, ordered by the `sort` rule; never fails. */
    function Get(ownerId: int, sort: int): (r: seq<Note>)
      reads this
      requires Valid()
      ensures forall n :: n in r <==> IsNoteOf(n, ownerId)
      ensures sort == 0 ==> StableSortOf(r, NotesOf(ownerId), NoteDate)
      ensures sort == 1 ==> StableSortDescendingOf(r, NotesOf(ownerId), NoteDate)
      ensures sort != 0 && sort != 1 ==> r == NotesOf(ownerId)
    {
      var owned := NotesOf(ownerId);
      var r := Ordered(owned, NoteDate, sort);
      assert forall n :: n in r <==> n in owned by {
        forall n ensures n in r <==> n in owned {
          assert n in r <==> n in multiset(r);
          assert n in owned <==> n in multiset(owned);
        }
      }
      r
    }

    /**
     * `restoreComment`: CommentNotFound, then IllegalArgument for another owner, then
     * CommentDeleted if it is not deleted, then NoteDeleted if its note is gone; otherwise only
     * its flag is cleared.
     */
    method RestoreComment(commentId: int, ownerId: int) returns (r: Result<bool>)
      requires Valid()
      modifies this
      ensures Valid()
      ensures commentId !in old(comments.entries) ==> r == Err(CommentNotFound)
      ensures commentId in old(comments.entries) ==>
        var c := old(comments.entries[commentId]);
        r == if c.ownerId != ownerId then Err(IllegalArgument)
             else if !c.isDeleted then Err(CommentDeleted)
             else if c.noteId !in old(notes.entries) then Err(NoteDeleted)
             else Ok(true)
      ensures r.Err? ==> unchanged(this)
      ensures r.Ok? ==>
        && comments == old(comments).Put(commentId, old(comments.entries[commentId]).(isDeleted := false))
        && notes == old(notes)
        && nextNoteId == old(nextNoteId) && nextCommentId == old(nextCommentId)
    {
      if commentId !in comments.entries {
        return Err(CommentNotFound);
      }
      var c := comments.entries[commentId];
      if c.ownerId != ownerId {
        return Err(IllegalArgument);
      }
      if !c.isDeleted {
        return Err(CommentDeleted);
      }
      if c.noteId !in notes.entries {
        return Err(NoteDeleted);
      }
      comments := comments.Put(commentId, c.(isDeleted := false));
      r := Ok(true);
    }

    /** `clear`: empties both tables and restarts both counters at 1. */
    method Clear()
      requires Valid()
      modifies this
      ensures Valid()
      ensures notes == Empty() && comments == Empty() && nextNoteId == 1 && nextCommentId == 1
    {
      notes, comments := Empty(), Empty();
      nextNoteId, nextCommentId := 1, 1;
    }
  }

  /** Deleting a comment and restoring it again gives back the comment table as it was. */
  method RestoreUndoesDelete(s: NoteService, commentId: int, ownerId: int)
    returns (deleted: Result<bool>, restored: Result<bool>)
    requires s.Valid() && commentId in s.comments.entries
    requires s.comments.entries[commentId].ownerId == ownerId && !s.comments.entries[commentId].isDeleted
    requires s.comments.entries[commentId].noteId in s.notes.entries
    modifies s
    ensures s.Valid()
    ensures deleted == Ok(true) && restored == Ok(true)
    ensures s.comments == old(s.comments) && s.notes == old(s.notes)
  {
    ghost var before := s.comments;
    ghost var c := before.entries[commentId];
    deleted := s.DeleteComment(commentId, ownerId);
    restored := s.RestoreComment(commentId, ownerId);
    PutTwice(before, commentId, c.(isDeleted := true), c.(isDeleted := false));
    assert c.(isDeleted := false) == c;
    assert before.entries[commentId := c] == before.entries;
  }

  /** Once its note is deleted, a comment of that note can no longer be restored. */
  method RestoreAfterNoteDeleted(s: NoteService, commentId: int, ownerId: int)
    returns (deleted: Result<bool>, restored: Result<bool>)
    requires s.Valid() && commentId in s.comments.entries
    requires s.comments.entries[commentId].ownerId == ownerId
    requires s.comments.entries[commentId].noteId in s.notes.entries
    modifies s
    ensures s.Valid()
    ensures deleted == Ok(true) && restored == Err(NoteDeleted)
  {
    deleted := s.Delete(s.comments.entries[commentId].noteId);
    restored := s.RestoreComment(commentId, ownerId);
  }

  /** A deleted comment is no longer listed among its note's comments (notes belong to owner 0). */
  method DeletedCommentIsHidden(s: NoteService, commentId: int, ownerId: int, sort: int)
    returns (deleted: Result<bool>, listed: Result<seq<NoteComment>>)
    requires s.Valid() && commentId in s.comments.entries
    requires s.comments.entries[commentId].ownerId == ownerId && !s.comments.entries[commentId].isDeleted
    requires s.comments.entries[commentId].noteId in s.notes.entries
    modifies s
    ensures deleted == Ok(true)
    ensures listed.Ok? && forall c :: c in listed.value ==> c.id != commentId
  {
    var noteId := s.comments.entries[commentId].noteId;
    deleted := s.DeleteComment(commentId, ownerId);
    listed := s.GetComments(noteId, 0, sort);
  }
}
