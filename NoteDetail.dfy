/**
 * The note detail screen of Views/NoteDetailView.swift: the split of a note's
 * content into 1000-character chunks for display, the word count, and the
 * editing state machine (edit, save, cancel, the unsaved-changes alert). The
 * same file also holds an older `NoteEditView`, modelled at the end.
 */
module NoteDetail {
  import opened Wrappers
  import opened Components
  import Text

  // ---------------------------------------------------------------------------
  // loadNoteContent: stride(from: 0, to: content.count, by: 1000).map { ... }
  // ---------------------------------------------------------------------------

  const ChunkSize: nat := 1000

  /** The number of strides, ceil(n / 1000): the fewest chunks of 1000 that
      cover `n` characters. */
  function ChunkCount(n: nat): (c: nat)
    ensures c * ChunkSize >= n
    ensures c == 0 || (c - 1) * ChunkSize < n
  {
    (n + ChunkSize - 1) / ChunkSize
  }

  /** Chunk `j` runs from offset `j * 1000` for `min(1000, n - j * 1000)`
      characters. Every chunk but the last is 1000 characters long and the
      last one holds between 1 and 1000. */
  function ContentChunks(content: string): (chunks: seq<string>)
    ensures |chunks| == ChunkCount(|content|)
    ensures forall j :: 0 <= j < |chunks| ==> 1 <= |chunks[j]| <= ChunkSize
    ensures forall j :: 0 <= j < |chunks| - 1 ==> |chunks[j]| == ChunkSize
  {
    var n := |content|;
    seq(ChunkCount(n), j requires 0 <= j < ChunkCount(n) =>
      content[j * ChunkSize .. j * ChunkSize + Text.Min(ChunkSize, n - j * ChunkSize)])
  }

  /** The first chunk, followed by the chunks of the rest. */
  lemma ChunksUnfold(content: string)
    requires content != []
    ensures var k := Text.Min(ChunkSize, |content|);
            ContentChunks(content) == [content[..k]] + ContentChunks(content[k..])
  {
    var n := |content|;
    var k := Text.Min(ChunkSize, n);
    var rest := content[k..];
    var whole := ContentChunks(content);
    var tail := ContentChunks(rest);
    assert ChunkCount(n) == 1 + ChunkCount(n - k);
    forall j | 1 <= j < |whole| ensures whole[j] == tail[j - 1] {
      assert k == ChunkSize;
      var a := (j - 1) * ChunkSize;
      assert j * ChunkSize == a + ChunkSize;
      var len := Text.Min(ChunkSize, n - j * ChunkSize);
      assert 0 <= len && a + ChunkSize + len <= n;
      var here, there := rest[a .. a + len], content[a + ChunkSize .. a + ChunkSize + len];
      assert forall t :: 0 <= t < len ==> here[t] == there[t];
      assert here == there;
    }
    assert whole == [content[..k]] + tail;
  }

  /** Showing the chunks one after another shows the content exactly. */
  lemma {:induction false} ChunksJoin(content: string)
    ensures Text.Concat(ContentChunks(content)) == content
    decreases |content|
  {
    if content != [] {
      var k := Text.Min(ChunkSize, |content|);
      ChunksUnfold(content);
      ChunksJoin(content[k..]);
      assert ([content[..k]] + ContentChunks(content[k..]))[1..] == ContentChunks(content[k..]);
      assert content == content[..k] + content[k..];
    }
  }

  /** Empty content shows no chunks, and any other content at least one. */
  lemma ChunksEmptyIffContentEmpty(content: string)
    ensures ContentChunks(content) == [] <==> content == []
  {
    if content != [] {
      assert ChunkCount(|content|) >= 1;
    }
  }

  // ---------------------------------------------------------------------------
  // NoteDetailView
  // ---------------------------------------------------------------------------

  class NoteDetailView {
    var note: Note
    var editedContent: string
    var isEditing: bool
    var isSaving: bool
    var isLoading: bool
    var contentChunks: seq<string>
    var showingUnsavedChangesAlert: bool
    var dismissed: bool
    /** The notes handed to `onSave`, oldest first. */
    var saved: seq<Note>

    constructor (note: Note)
      ensures this.note == note && editedContent == note.content
      ensures !isEditing && !isSaving && isLoading && contentChunks == []
      ensures !showingUnsavedChangesAlert && !dismissed && saved == []
    {
      this.note := note;
      editedContent := note.content;
      isEditing := false;
      isSaving := false;
      isLoading := true;
      contentChunks := [];
      showingUnsavedChangesAlert := false;
      dismissed := false;
      saved := [];
    }

    /** `wordCount`, over the text being edited: zero exactly for blank text. */
    function WordCount(): (n: nat)
      reads this
      ensures n == 0 <==> Text.IsBlank(editedContent)
      ensures n == Text.WordEnds(editedContent)
    {
      Text.WordCountZeroIffBlank(editedContent);
      Text.WordCount(editedContent)
    }

    /** `loadNoteContent`: the note's content is cut into chunks, which together
        give back that content, and copied into the editor. */
    method LoadNoteContent()
      modifies this`contentChunks, this`editedContent, this`isLoading
      ensures contentChunks == ContentChunks(note.content)
      ensures Text.Concat(contentChunks) == note.content
      ensures editedContent == note.content && !isLoading
    {
      var content := note.content;
      contentChunks := ContentChunks(content);
      ChunksJoin(content);
      editedContent := content;
      isLoading := false;
    }

    /** `saveNote`: ignored while a save is under way. Otherwise the save
        starts, and if the editor text differs from the note, the note takes
        that text and the time `now` and is handed to `onSave` once; if it does
        not differ, the note stays as it is and `onSave` is not called. Either
        way the note then holds the editor text. */
    method SaveNote(now: int)
      modifies this`isSaving, this`note, this`saved
      ensures isSaving
      ensures old(isSaving) ==> note == old(note) && saved == old(saved)
      ensures !old(isSaving) ==> note.content == editedContent
      ensures !old(isSaving) && old(note.content) != editedContent ==>
                note == old(note).(content := editedContent, timestamp := now) && saved == old(saved) + [note]
      ensures !old(isSaving) && old(note.content) == editedContent ==>
                note == old(note) && saved == old(saved)
    {
      if isSaving {
        return;
      }
      isSaving := true;
      if note.content != editedContent {
        note := note.(content := editedContent, timestamp := now);
        saved := saved + [note];
      }
    }

    /** The block `saveNote` schedules half a second later: editing ends, the
        save is over and the content is reloaded from the note. */
    method SaveFinished()
      modifies this`isEditing, this`isSaving, this`contentChunks, this`editedContent, this`isLoading
      ensures !isEditing && !isSaving
      ensures contentChunks == ContentChunks(note.content) && editedContent == note.content && !isLoading
    {
      isEditing := false;
      isSaving := false;
      LoadNoteContent();
    }

    /** The Edit/Save button: disabled while a save is under way; in editing
        mode it saves, otherwise it enters editing mode. */
    method EditTapped(now: int)
      modifies this`isEditing, this`isSaving, this`note, this`saved
      ensures old(isEditing && isSaving) ==>
                isEditing && isSaving && note == old(note) && saved == old(saved)
      ensures !old(isEditing) ==>
                isEditing && isSaving == old(isSaving) && note == old(note) && saved == old(saved)
      ensures old(isEditing) && !old(isSaving) ==>
                isEditing && isSaving && note.content == editedContent
                && (old(note.content) != editedContent ==>
                      note == old(note).(content := editedContent, timestamp := now) && saved == old(saved) + [note])
                && (old(note.content) == editedContent ==> note == old(note) && saved == old(saved))
    {
      if isEditing && isSaving {
        return;
      }
      if isEditing {
        SaveNote(now);
      } else {
        isEditing := true;
      }
    }

    /** `cancelEdit`: leaves editing mode and restores the note's content. */
    method CancelEdit()
      modifies this`isEditing, this`editedContent
      ensures !isEditing && editedContent == note.content
    {
      isEditing := false;
      editedContent := note.content;
    }

    /** The Cancel button: with unsaved changes it raises the alert and keeps
        the edits; without them it cancels directly. Edits are never dropped
        without the alert. */
    method CancelTapped()
      modifies this`showingUnsavedChangesAlert, this`isEditing, this`editedContent
      ensures old(editedContent) != note.content ==>
                showingUnsavedChangesAlert && isEditing == old(isEditing) && editedContent == old(editedContent)
      ensures old(editedContent) == note.content ==>
                !isEditing && editedContent == note.content
                && showingUnsavedChangesAlert == old(showingUnsavedChangesAlert)
    {
      if editedContent != note.content {
        showingUnsavedChangesAlert := true;
      } else {
        CancelEdit();
      }
    }

    /** `onDisappear`: leaving the screen while editing raises the alert. */
    method Disappeared()
      modifies this`showingUnsavedChangesAlert
      ensures showingUnsavedChangesAlert == (old(showingUnsavedChangesAlert) || isEditing)
    {
      if isEditing {
        showingUnsavedChangesAlert := true;
      }
    }

    /** The alert's Save button: saves as `saveNote` does, then navigates back. */
    method AlertSave(now: int)
      modifies this`showingUnsavedChangesAlert, this`isSaving, this`note, this`saved, this`dismissed
      ensures !showingUnsavedChangesAlert && dismissed && isSaving
      ensures old(isSaving) ==> note == old(note) && saved == old(saved)
      ensures !old(isSaving) && old(note.content) != editedContent ==>
                note == old(note).(content := editedContent, timestamp := now) && saved == old(saved) + [note]
      ensures !old(isSaving) && old(note.content) == editedContent ==>
                note == old(note) && saved == old(saved)
    {
      showingUnsavedChangesAlert := false;
      SaveNote(now);
      dismissed := true;
    }

    /** The alert's Discard button: navigates back without saving. */
    method AlertDiscard()
      modifies this`showingUnsavedChangesAlert, this`dismissed
      ensures !showingUnsavedChangesAlert && dismissed
    {
      showingUnsavedChangesAlert := false;
      dismissed := true;
    }
  }

  // ---------------------------------------------------------------------------
  // The older NoteEditView kept in the same file. Its save ignores the mode
  // (which only sets the title), so the model has none.
  // ---------------------------------------------------------------------------

  /** The note both editors save in add mode: a fresh note with the trimmed
      text, unpinned and waiting to be pushed. */
  function NewNote(freshId: string, content: string, now: int, user: Option<string>): (n: Note)
    ensures n.id == freshId && n.timestamp == now && n.userId == user.GetOr("")
    ensures n.content == Text.Trim(content) && Text.Trim(n.content) == n.content
    ensures !n.isPinned && n.syncState == NotSynced && n.needsSync
  {
    Text.TrimIdempotent(content);
    MakeNote(freshId, Text.Trim(content), now, user.GetOr(""))
  }

  class NoteEditView {
    const user: Option<string>
    var content: string
    var saved: seq<Note>
    var dismissed: bool

    constructor (user: Option<string>, content: string)
      ensures this.user == user && this.content == content && saved == [] && !dismissed
    {
      this.user := user;
      this.content := content;
      saved := [];
      dismissed := false;
    }

    function WordCount(): (n: nat)
      reads this
      ensures n == 0 <==> Text.IsBlank(content)
      ensures n == Text.WordEnds(content)
    {
      Text.WordCountZeroIffBlank(content);
      Text.WordCount(content)
    }

    /** The Paste button: appends the clipboard text, if there is any. */
    method Paste(clipboard: Option<string>)
      modifies this`content
      ensures clipboard.None? ==> content == old(content)
      ensures clipboard.Some? ==> content == old(content) + clipboard.value
      ensures Text.HasPrefix(content, old(content))
    {
      if clipboard.Some? {
        content := content + clipboard.value;
      }
    }

    /** The Save button: disabled for empty text; otherwise hands a new note
        with the trimmed text to `onSave` and dismisses the editor. */
    method SaveTapped(freshId: string, now: int)
      modifies this`saved, this`dismissed
      ensures content == [] ==> saved == old(saved) && dismissed == old(dismissed)
      ensures content != [] ==> saved == old(saved) + [NewNote(freshId, content, now, user)] && dismissed
    {
      if content == [] {
        return;
      }
      var newNote := NewNote(freshId, content, now, user);
      saved := saved + [newNote];
      dismissed := true;
    }
  }
}
