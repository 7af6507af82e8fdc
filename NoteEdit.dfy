/**
 * The note editor of Views/NoteEditView.swift: in add mode its Save button
 * creates a note from the trimmed text, after which the screen shows that
 * note's detail view; in edit mode it hands back the existing note, with the
 * trimmed text and a new timestamp only when the text changed.
 */
module NoteEdit {
  import opened Wrappers
  import opened Components
  import Text
  import NoteDetail

  datatype Mode = Add | Edit

  /** The note an edit-mode save hands to `onSave`: the existing note itself
      when the trimmed text equals its content, otherwise a copy with the
      trimmed text and the time `now`. Either way the id, the pin, the owner
      and the sync bookkeeping are those of the existing note. */
  function EditedNote(existing: Note, content: string, now: int): (n: Note)
    ensures n.id == existing.id && n.isPinned == existing.isPinned && n.userId == existing.userId
    ensures n.syncState == existing.syncState && n.needsSync == existing.needsSync
    ensures n.content == Text.Trim(content)
    ensures existing.content == Text.Trim(content) ==> n == existing
    ensures existing.content != Text.Trim(content) ==> n.timestamp == now
  {
    var trimmed := Text.Trim(content);
    if existing.content != trimmed then existing.(content := trimmed, timestamp := now)
    else existing
  }

  /** Saving the same text again hands back the note unchanged: once the note
      holds the trimmed text, a second save keeps its timestamp. */
  lemma EditedNoteStable(existing: Note, content: string, t1: int, t2: int)
    ensures EditedNote(EditedNote(existing, content, t1), content, t2) == EditedNote(existing, content, t1)
  {
    var once := EditedNote(existing, content, t1);
    assert once.content == Text.Trim(content);
  }

  /** The Save button is disabled only for empty text, so text made of
      whitespace alone is saved, as a note with empty content. */
  lemma BlankTextSavesEmptyNote(freshId: string, content: string, now: int, user: Option<string>)
    requires Text.IsBlank(content)
    ensures NoteDetail.NewNote(freshId, content, now, user).content == []
  {
    Text.TrimEmptyIffBlank(content);
  }

  class NoteEditView {
    const mode: Mode
    const user: Option<string>
    var content: string
    var currentNote: Option<Note>
    /** The notes handed to `onSave`, oldest first. */
    var saved: seq<Note>

    constructor (user: Option<string>, mode: Mode, content: string, existingNote: Option<Note>)
      ensures this.user == user && this.mode == mode && this.content == content
      ensures currentNote == existingNote && saved == []
    {
      this.user := user;
      this.mode := mode;
      this.content := content;
      currentNote := existingNote;
      saved := [];
    }

    /** In add mode, once a note has been saved the screen shows its detail
        view instead of the editor, so the editor's buttons are gone. */
    predicate ShowsEditor()
      reads this
    {
      !(mode == Add && currentNote.Some?)
    }

    function WordCount(): (n: nat)
      reads this
      ensures n == 0 <==> Text.IsBlank(content)
      ensures n == Text.WordEnds(content)
    {
      Text.WordCountZeroIffBlank(content);
      Text.WordCount(content)
    }

    /** The Paste button: appends the clipboard text, if there is any. */
    method Paste(clipboard: Option<string>)
      modifies this`content
      ensures clipboard.None? ==> content == old(content)
      ensures clipboard.Some? ==> content == old(content) + clipboard.value
      ensures Text.HasPrefix(content, old(content))
    {
      if clipboard.Some? {
        content := content + clipboard.value;
      }
    }

    /** The Save/Done button, which does nothing while disabled (empty text) or
        hidden (add mode after a save). In add mode it saves a new note with
        the trimmed text and remembers it; in edit mode it hands back the
        existing note as `EditedNote` gives it, and does nothing without one.
        The remembered note is not updated by an edit, so later saves compare
        against the note the editor was opened with. */
    method SaveTapped(freshId: string, now: int)
      modifies this`currentNote, this`saved
      ensures content == [] || !old(ShowsEditor()) ==>
                currentNote == old(currentNote) && saved == old(saved)
      ensures content != [] && mode == Add && old(currentNote).None? ==>
                var n := NoteDetail.NewNote(freshId, content, now, user);
                saved == old(saved) + [n] && currentNote == Some(n) && !ShowsEditor()
      ensures content != [] && mode == Edit ==> currentNote == old(currentNote)
      ensures content != [] && mode == Edit && old(currentNote).None? ==> saved == old(saved)
      ensures content != [] && mode == Edit && old(currentNote).Some? ==>
                saved == old(saved) + [EditedNote(old(currentNote).value, content, now)]
    {
      if content == [] || !ShowsEditor() {
        return;
      }
      if mode == Add {
        var newNote := MakeNote(freshId, Text.Trim(content), now, user.GetOr(""));
        saved := saved + [newNote];
        currentNote := Some(newNote);
      } else if currentNote.Some? {
        var existingNote := currentNote.value;
        var trimmedContent := Text.Trim(content);
        if existingNote.content != trimmedContent {
          var updatedNote := existingNote.(content := trimmedContent, timestamp := now);
          saved := saved + [updatedNote];
        } else {
          saved := saved + [existingNote];
        }
      }
    }
  }
}
