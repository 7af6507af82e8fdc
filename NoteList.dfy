/**
 * The value-level logic of the note list in ContentView.swift: the order of
 * `filteredNotes` (pinned first, then newest first), the case-insensitive
 * search filter, `firstIndex(where:)` by id, the pinned-only filter, and the
 * `"userId:noteId"` tombstone encoding with its prefix-strip decoding.
 */
module NoteList {
  import opened Wrappers
  import opened Components
  import Text

  // ---------------------------------------------------------------------------
  // Ordering
  // ---------------------------------------------------------------------------

  /** The comparator handed to `notes.sorted`: `a` goes strictly before `b`.
      A pinned note goes before every unpinned one, and an unpinned note never
      goes before a pinned one. */
  predicate Before(a: Note, b: Note)
    ensures a.isPinned && !b.isPinned ==> Before(a, b)
    ensures Before(a, b) ==> a.isPinned || !b.isPinned
  {
    if a.isPinned == b.isPinned then a.timestamp > b.timestamp
    else a.isPinned && !b.isPinned
  }

  /** The comparator is a strict order: it never puts two notes before each
      other, and the notes it leaves unordered are the ties, with the same pin
      state and the same timestamp. */
  lemma BeforeIsStrict(a: Note, b: Note)
    ensures Before(a, b) ==> !Before(b, a)
    ensures !Before(a, b) && !Before(b, a) ==> a.isPinned == b.isPinned && a.timestamp == b.timestamp
  {
  }

  /** No note is preceded by one it should go before. */
  ghost predicate Ordered(s: seq<Note>) {
    forall i, j :: 0 <= i < j < |s| ==> !Before(s[j], s[i])
  }

  /** What an ordered list means for its reader: every pinned note comes before
      every unpinned one, and notes of the same pin state run from newest to
      oldest. */
  lemma OrderedMeaning(s: seq<Note>, i: int, j: int)
    requires Ordered(s) && 0 <= i < j < |s|
    ensures s[j].isPinned ==> s[i].isPinned
    ensures s[i].isPinned == s[j].isPinned ==> s[i].timestamp >= s[j].timestamp
  {
    assert !Before(s[j], s[i]);
  }

  /** No note of `s` goes strictly before `h`. */
  ghost predicate NoneBefore(s: seq<Note>, h: Note) {
    forall j :: 0 <= j < |s| ==> !Before(s[j], h)
  }

  /** A note that nothing in an ordered list goes before can head it. */
  lemma ConsOrdered(h: Note, t: seq<Note>)
    requires Ordered(t) && NoneBefore(t, h)
    ensures Ordered([h] + t)
  {
    var r := [h] + t;
    forall i, j | 0 <= i < j < |r| ensures !Before(r[j], r[i]) {
      assert r[j] == t[j - 1];
      if i > 0 {
        assert r[i] == t[i - 1];
      }
    }
  }

  /** `NoneBefore` depends only on which notes the list holds. */
  lemma NoneBeforePermutation(t: seq<Note>, u: seq<Note>, h: Note)
    requires multiset(t) == multiset(u) && NoneBefore(u, h)
    ensures NoneBefore(t, h)
  {
    forall j | 0 <= j < |t| ensures !Before(t[j], h) {
      assert t[j] in multiset(u);
      var k :| 0 <= k < |u| && u[k] == t[j];
    }
  }

  /** Places `x` before the first note that does not go strictly before it. */
  function Insert(x: Note, s: seq<Note>): (r: seq<Note>)
    requires Ordered(s)
    ensures Ordered(r)
    ensures multiset(r) == multiset(s) + multiset{x}
  {
    if s == [] then [x]
    else if !Before(s[0], x) then
      assert NoneBefore(s, x) by {
        forall j | 0 < j < |s| ensures !Before(s[j], x) {
          assert !Before(s[j], s[0]);
        }
      }
      ConsOrdered(x, s);
      [x] + s
    else
      var rest := s[1..];
      assert Ordered(rest) by {
        forall i, j | 0 <= i < j < |rest| ensures !Before(rest[j], rest[i]) {
          assert rest[j] == s[j + 1] && rest[i] == s[i + 1];
        }
      }
      var tail := Insert(x, rest);
      assert NoneBefore(rest + [x], s[0]) by {
        forall j | 0 <= j < |rest| ensures !Before((rest + [x])[j], s[0]) {
          assert (rest + [x])[j] == s[j + 1];
        }
      }
      NoneBeforePermutation(tail, rest + [x], s[0]);
      ConsOrdered(s[0], tail);
      assert s == [s[0]] + rest;
      [s[0]] + tail
  }

  /** `notes.sorted { ... }`: an ordered permutation of the input. Swift's sort
      is not stable, so the relative order of notes with the same pin state and
      timestamp is left open by the source; this model settles it by insertion. */
  function SortNotes(s: seq<Note>): (r: seq<Note>)
    ensures Ordered(r)
    ensures multiset(r) == multiset(s)
  {
    if s == [] then []
    else
      assert s == [s[0]] + s[1..];
      Insert(s[0], SortNotes(s[1..]))
  }

  // ---------------------------------------------------------------------------
  // Filtering
  // ---------------------------------------------------------------------------

  /** `Array.filter`: no longer than the input, and every note it returns is
      one to keep. */
  function Filter(s: seq<Note>, keep: Note -> bool): (r: seq<Note>)
    ensures |r| <= |s|
    ensures forall j :: 0 <= j < |r| ==> keep(r[j])
  {
    if s == [] then []
    else (if keep(s[0]) then [s[0]] else []) + Filter(s[1..], keep)
  }

  /** Filtering keeps every copy of a kept note and no copy of a dropped one. */
  lemma {:induction false} FilterCount(s: seq<Note>, keep: Note -> bool, n: Note)
    ensures multiset(Filter(s, keep))[n] == if keep(n) then multiset(s)[n] else 0
  {
    if s != [] {
      FilterCount(s[1..], keep, n);
      assert s == [s[0]] + s[1..];
    }
  }

  /** Filtering a list in two parts filters each part in place: the kept
      notes of the first part come first, in their own order. */
  lemma {:induction false} FilterAppend(x: seq<Note>, y: seq<Note>, keep: Note -> bool)
    ensures Filter(x + y, keep) == Filter(x, keep) + Filter(y, keep)
    decreases |x|
  {
    if x == [] {
      assert x + y == y;
    } else {
      assert (x + y)[0] == x[0];
      assert (x + y)[1..] == x[1..] + y;
      FilterAppend(x[1..], y, keep);
    }
  }

  /** Filtering an ordered list leaves it ordered (it keeps relative order). */
  lemma {:induction false} FilterKeepsOrder(s: seq<Note>, keep: Note -> bool)
    requires Ordered(s)
    ensures Ordered(Filter(s, keep))
  {
    if s != [] {
      var tail := Filter(s[1..], keep);
      FilterKeepsOrder(s[1..], keep);
      if keep(s[0]) {
        forall j | 0 <= j < |tail| ensures !Before(tail[j], s[0]) {
          FilterCount(s[1..], keep, tail[j]);
          assert tail[j] in multiset(tail);
          var k :| 0 <= k < |s[1..]| && s[1..][k] == tail[j];
          assert s[k + 1] == tail[j];
        }
        assert ([s[0]] + tail)[1..] == tail;
      }
    }
  }

  /** The search match: the lowercased content contains the lowercased query. */
  predicate MatchesSearch(n: Note, searchText: string) {
    Text.Contains(Text.Lowercased(n.content), Text.Lowercased(searchText))
  }

  /** Case never matters to the search: lowercasing the query or the content
      first matches the same notes. */
  lemma SearchIgnoresCase(n: Note, searchText: string)
    ensures MatchesSearch(n, searchText) == MatchesSearch(n, Text.Lowercased(searchText))
    ensures MatchesSearch(n, searchText) == MatchesSearch(n.(content := Text.Lowercased(n.content)), searchText)
  {
    Text.LowercasedIdempotent(searchText);
    Text.LowercasedIdempotent(n.content);
  }

  /** `filteredNotes`: the sorted notes, narrowed to the matching ones when the
      search text is not empty; the result is always in comparator order. */
  function Filtered(notes: seq<Note>, searchText: string): (r: seq<Note>)
    ensures Ordered(r)
  {
    var sorted := SortNotes(notes);
    if searchText == [] then sorted
    else
      var keep := n => MatchesSearch(n, searchText);
      FilterKeepsOrder(sorted, keep);
      Filter(sorted, keep)
  }

  /** The visible list is ordered (pinned first, newest first) and holds every
      copy of each note of `notes` that matches the search, and nothing else;
      with an empty search it is a permutation of `notes`. */
  lemma FilteredNotesSpec(notes: seq<Note>, searchText: string)
    ensures Ordered(Filtered(notes, searchText))
    ensures searchText == [] ==> multiset(Filtered(notes, searchText)) == multiset(notes)
    ensures forall n :: multiset(Filtered(notes, searchText))[n] ==
              if searchText == [] || MatchesSearch(n, searchText) then multiset(notes)[n] else 0
  {
    var keep := n => MatchesSearch(n, searchText);
    if searchText != [] {
      FilterKeepsOrder(SortNotes(notes), keep);
      forall n ensures multiset(Filtered(notes, searchText))[n] ==
                       if MatchesSearch(n, searchText) then multiset(notes)[n] else 0 {
        FilterCount(SortNotes(notes), keep, n);
      }
    }
  }

  /** `notes.filter { $0.isPinned }`: only pinned notes, no more than there
      were. */
  function PinnedOnly(notes: seq<Note>): (r: seq<Note>)
    ensures |r| <= |notes|
    ensures forall j :: 0 <= j < |r| ==> r[j].isPinned
  {
    Filter(notes, (n: Note) => n.isPinned)
  }

  /** Keeping the pinned notes keeps each of them with its multiplicity, drops
      every unpinned one, and keeps their relative order whatever the order of
      `notes`: cutting `notes` anywhere, the pinned notes before the cut come
      first, and a single note stays exactly when it is pinned. An ordered list
      stays ordered. */
  lemma PinnedOnlySpec(notes: seq<Note>)
    ensures forall n :: multiset(PinnedOnly(notes))[n] == if n.isPinned then multiset(notes)[n] else 0
    ensures forall i :: 0 <= i <= |notes| ==> PinnedOnly(notes) == PinnedOnly(notes[..i]) + PinnedOnly(notes[i..])
    ensures forall i :: 0 <= i < |notes| ==> PinnedOnly(notes[i..i + 1]) == if notes[i].isPinned then [notes[i]] else []
    ensures Ordered(notes) ==> Ordered(PinnedOnly(notes))
  {
    forall i | 0 <= i <= |notes| ensures PinnedOnly(notes) == PinnedOnly(notes[..i]) + PinnedOnly(notes[i..]) {
      FilterAppend(notes[..i], notes[i..], (n: Note) => n.isPinned);
      assert notes[..i] + notes[i..] == notes;
    }
    forall i | 0 <= i < |notes| ensures PinnedOnly(notes[i..i + 1]) == if notes[i].isPinned then [notes[i]] else [] {
      assert notes[i..i + 1] == [notes[i]];
      assert [notes[i]][1..] == [];
    }
    forall n ensures multiset(PinnedOnly(notes))[n] == if n.isPinned then multiset(notes)[n] else 0 {
      FilterCount(notes, (n: Note) => n.isPinned, n);
    }
    if Ordered(notes) {
      FilterKeepsOrder(notes, (n: Note) => n.isPinned);
    }
  }

  // ---------------------------------------------------------------------------
  // firstIndex(where: { $0.id == id })
  // ---------------------------------------------------------------------------

  function IndexOfId(s: seq<Note>, id: string): (r: Option<nat>)
    ensures r.None? ==> forall j :: 0 <= j < |s| ==> s[j].id != id
    ensures r.Some? ==> r.value < |s| && s[r.value].id == id
                        && forall j :: 0 <= j < r.value ==> s[j].id != id
  {
    if s == [] then None
    else if s[0].id == id then Some(0)
    else match IndexOfId(s[1..], id)
      case None => None
      case Some(k) => Some(k + 1)
  }

  /** An index whose note has the id while no earlier note does is the one
      `firstIndex(where:)` finds. */
  lemma IndexOfIdAt(s: seq<Note>, id: string, i: nat)
    requires i < |s| && s[i].id == id && forall j :: 0 <= j < i ==> s[j].id != id
    ensures IndexOfId(s, id) == Some(i)
  {
  }

  /** `notes.remove(at:)` at the index `firstIndex` finds: the list is the
      same when no note has the id; otherwise exactly the first note with the
      id is taken out, and putting it back at its index gives the list back,
      so the other notes keep their order. */
  function RemoveFirstWithId(s: seq<Note>, id: string): (r: seq<Note>)
    ensures IndexOfId(s, id).None? ==> r == s
    ensures IndexOfId(s, id).Some? ==>
              var i := IndexOfId(s, id).value;
              i <= |r| && s == r[..i] + [s[i]] + r[i..]
              && multiset(r) == multiset(s) - multiset{s[i]}
    ensures forall n :: n in s && n.id != id ==> n in r
  {
    match IndexOfId(s, id)
    case None => s
    case Some(i) =>
      var r := s[..i] + s[i + 1..];
      assert r[..i] == s[..i] && r[i..] == s[i + 1..];
      assert s == s[..i] + [s[i]] + s[i + 1..];
      forall j | 0 <= j < |s| && s[j].id != id ensures s[j] in r {
        if j < i { assert r[j] == s[j]; } else { assert r[j - 1] == s[j]; }
      }
      r
  }

  /** Writing back a note with the same id where `firstIndex` found it
      (`notes[index] = updatedNote`) keeps the lookup stable: that id is still
      found at the same index, and every other id where it was before. */
  lemma ReplaceKeepsIndex(s: seq<Note>, id: string, x: Note, other: string)
    requires IndexOfId(s, id).Some? && x.id == id
    ensures IndexOfId(s[IndexOfId(s, id).value := x], id) == IndexOfId(s, id)
    ensures other != id ==> IndexOfId(s[IndexOfId(s, id).value := x], other) == IndexOfId(s, other)
  {
    var i := IndexOfId(s, id).value;
    var t := s[i := x];
    IndexOfIdAt(t, id, i);
    if other != id {
      match IndexOfId(s, other)
      case Some(j) => IndexOfIdAt(t, other, j);
      case None =>
        assert forall j :: 0 <= j < |t| ==> t[j].id != other;
    }
  }

  // ---------------------------------------------------------------------------
  // Tombstones: "\(userId):\(noteId)"
  // ---------------------------------------------------------------------------

  /** `"\(userId):\(noteId)"`: an entry with the user's prefix, one character
      longer than the two ids together. */
  function TombstoneKey(userId: string, noteId: string): (t: string)
    ensures IsTombstoneOf(t, userId) && |t| == |userId| + 1 + |noteId|
  {
    assert (userId + ":" + noteId)[..|userId| + 1] == userId + ":";
    userId + ":" + noteId
  }

  /** `hasPrefix("\(userId):")`. */
  predicate IsTombstoneOf(entry: string, userId: string) {
    Text.HasPrefix(entry, userId + ":")
  }

  /** `String(entry.dropFirst(userId.count + 1))`: a suffix of the entry,
      all of the entry after the prefix when the entry has it. */
  function TombstoneNoteId(entry: string, userId: string): (noteId: string)
    ensures |noteId| <= |entry| && noteId == entry[|entry| - |noteId|..]
    ensures IsTombstoneOf(entry, userId) ==> |noteId| == |entry| - |userId| - 1
  {
    Text.DropFirst(entry, |userId| + 1)
  }

  /** The note ids `syncPendingChanges` decodes for a user. */
  function PendingDeletions(tombstones: set<string>, userId: string): set<string> {
    set t | t in tombstones && IsTombstoneOf(t, userId) :: TombstoneNoteId(t, userId)
  }

  /** Decoding inverts encoding: a user's tombstone carries that user's prefix
      and stripping it gives back the note id. */
  lemma TombstoneRoundTrip(userId: string, noteId: string)
    ensures IsTombstoneOf(TombstoneKey(userId, noteId), userId)
    ensures TombstoneNoteId(TombstoneKey(userId, noteId), userId) == noteId
  {
    assert (userId + ":" + noteId)[..|userId| + 1] == userId + ":";
  }

  /** An entry with the user's prefix is exactly the encoding of the id it
      decodes to. */
  lemma TombstoneDecodeEncodes(entry: string, userId: string)
    requires IsTombstoneOf(entry, userId)
    ensures entry == TombstoneKey(userId, TombstoneNoteId(entry, userId))
  {
    assert entry == entry[..|userId| + 1] + entry[|userId| + 1..];
  }

  /** For a user the decoded ids are exactly the ids of that user's tombstones:
      the entries written as `"\(userId):\(noteId)"` and nothing else. */
  lemma PendingDeletionsExact(tombstones: set<string>, userId: string, noteId: string)
    ensures noteId in PendingDeletions(tombstones, userId) <==> TombstoneKey(userId, noteId) in tombstones
  {
    if noteId in PendingDeletions(tombstones, userId) {
      var t :| t in tombstones && IsTombstoneOf(t, userId) && TombstoneNoteId(t, userId) == noteId;
      TombstoneDecodeEncodes(t, userId);
    }
    if TombstoneKey(userId, noteId) in tombstones {
      TombstoneRoundTrip(userId, noteId);
    }
  }

  /** The prefix selects only the user's own tombstones provided user ids hold
      no ':' (Firebase uids are alphanumeric). */
  lemma TombstoneOwner(u: string, v: string, noteId: string)
    requires ':' !in u && ':' !in v
    ensures IsTombstoneOf(TombstoneKey(v, noteId), u) <==> u == v
  {
    var e := TombstoneKey(v, noteId);
    var p := u + ":";
    if u == v {
      TombstoneRoundTrip(v, noteId);
    } else if |v| < |u| {
      assert e[|v|] == ':' && p[|v|] == u[|v|];
    } else if |u| < |v| {
      assert p[|u|] == ':' && e[|u|] == v[|u|];
    } else {
      var k :| 0 <= k < |u| && u[k] != v[k];
      assert p[k] == u[k] && e[k] == v[k];
    }
  }

  /** Without that proviso the prefix test is ambiguous: the tombstone of user
      "a:b" for note "c" is also read as user "a"'s tombstone for note "b:c". */
  lemma TombstoneAmbiguousWithColon()
    ensures IsTombstoneOf(TombstoneKey("a:b", "c"), "a")
    ensures TombstoneNoteId(TombstoneKey("a:b", "c"), "a") == "b:c"
  {
    assert TombstoneKey("a:b", "c") == "a:" + "b:c";
    TombstoneRoundTrip("a", "b:c");
  }
}
