/**
 * The Foundation string operations the note logic relies on, stated over
 * sequences of Unicode scalar values: the `.whitespacesAndNewlines` character
 * set, `trimmingCharacters(in:)`, `components(separatedBy:)` followed by the
 * word filter, `lowercased()` (ASCII letters only) and `contains(_:)`.
 */
module Text {

  /** Membership in `CharacterSet.whitespacesAndNewlines`: U+0009 to U+000D,
      U+0085 and the Unicode space, line and paragraph separators. */
  predicate IsWhitespace(c: char) {
    var n := c as int;
    (9 <= n <= 13) || n == 0x20 || n == 0x85 || n == 0xA0 || n == 0x1680
    || (0x2000 <= n <= 0x200A) || n == 0x2028 || n == 0x2029
    || n == 0x202F || n == 0x205F || n == 0x3000
  }

  predicate IsBlank(s: string) {
    forall i :: 0 <= i < |s| ==> IsWhitespace(s[i])
  }

  function Min(a: int, b: int): int {
    if a <= b then a else b
  }

  // ---------------------------------------------------------------------------
  // trimmingCharacters(in: .whitespacesAndNewlines)
  // ---------------------------------------------------------------------------

  /** Drops the leading whitespace: the result is the suffix of `s` that starts
      at its first non-whitespace character. */
  function TrimStart(s: string): (r: string)
    ensures |r| <= |s| && r == s[|s| - |r|..]
    ensures IsBlank(s[..|s| - |r|])
    ensures r == [] || !IsWhitespace(r[0])
  {
    if s != [] && IsWhitespace(s[0]) then
      var r := TrimStart(s[1..]);
      var k := |s| - |r|;
      assert s[1..][k - 1..] == s[k..];
      forall i | 0 < i < k ensures IsWhitespace(s[..k][i]) {
        assert s[..k][i] == s[1..][..k - 1][i - 1];
      }
      r
    else s
  }

  /** Drops the trailing whitespace: the result is the prefix of `s` that ends
      at its last non-whitespace character. */
  function TrimEnd(s: string): (r: string)
    ensures |r| <= |s| && r == s[..|r|]
    ensures IsBlank(s[|r|..])
    ensures r == [] || !IsWhitespace(r[|r| - 1])
  {
    if s != [] && IsWhitespace(s[|s| - 1]) then
      var r := TrimEnd(s[..|s| - 1]);
      forall i | 0 <= i < |s| - 1 - |r| ensures IsWhitespace(s[|r|..][i]) {
        assert s[|r|..][i] == s[..|s| - 1][|r|..][i];
      }
      r
    else s
  }

  /** `trimmingCharacters(in: .whitespacesAndNewlines)`: never longer than
      `s`; `TrimSpec` and `TrimEdges` say exactly what is cut. */
  function Trim(s: string): (r: string)
    ensures |r| <= |s|
  {
    TrimEnd(TrimStart(s))
  }

  /** Where the trimmed text starts in `s`. */
  function TrimOffset(s: string): nat {
    |s| - |TrimStart(s)|
  }

  /** Trimming cuts `s` into a blank prefix, the result and a blank suffix. */
  lemma TrimSpec(s: string)
    ensures TrimOffset(s) + |Trim(s)| <= |s|
    ensures Trim(s) == s[TrimOffset(s)..TrimOffset(s) + |Trim(s)|]
    ensures IsBlank(s[..TrimOffset(s)]) && IsBlank(s[TrimOffset(s) + |Trim(s)|..])
  {
    PrefixOfSuffix(s, TrimStart(s), Trim(s));
  }

  /** The trimmed text neither starts nor ends with whitespace, so the blank
      runs `TrimSpec` cuts off are the maximal ones. */
  lemma TrimEdges(s: string)
    ensures Trim(s) == [] || (!IsWhitespace(Trim(s)[0]) && !IsWhitespace(Trim(s)[|Trim(s)| - 1]))
  {
    PrefixOfSuffix(s, TrimStart(s), Trim(s));
  }

  /** A prefix `r` of a suffix `t` of `s` is a slice of `s`, and what follows
      it in `t` follows it in `s`. */
  lemma PrefixOfSuffix(s: string, t: string, r: string)
    requires |t| <= |s| && t == s[|s| - |t|..]
    requires |r| <= |t| && r == t[..|r|]
    ensures var i := |s| - |t|;
            r == s[i..i + |r|] && t[|r|..] == s[i + |r|..] && (r != [] ==> r[0] == t[0])
  {
  }

  /** Only a blank text trims to the empty string. */
  lemma {:induction false} TrimEmptyIffBlank(s: string)
    ensures Trim(s) == [] <==> IsBlank(s)
  {
    TrimSpec(s);
    TrimEdges(s);
    var i := TrimOffset(s);
    if Trim(s) != [] {
      assert s[i] == Trim(s)[0];
    } else {
      assert s == s[..i] + s[i..];
    }
  }

  /** Trimming twice is trimming once. */
  lemma TrimIdempotent(s: string)
    ensures Trim(Trim(s)) == Trim(s)
  {
    TrimEdges(s);
  }

  // ---------------------------------------------------------------------------
  // components(separatedBy: .whitespacesAndNewlines).filter { !$0.isEmpty }.count
  // ---------------------------------------------------------------------------

  /** The characters of `s` that are not whitespace, in order. */
  function NonWhitespace(s: string): string {
    if s == [] then []
    else (if IsWhitespace(s[0]) then [] else [s[0]]) + NonWhitespace(s[1..])
  }

  /** The whitespace characters of `s`, in order. */
  function Whitespaces(s: string): string {
    if s == [] then []
    else (if IsWhitespace(s[0]) then [s[0]] else []) + Whitespaces(s[1..])
  }

  function Concat(pieces: seq<string>): string {
    if pieces == [] then [] else pieces[0] + Concat(pieces[1..])
  }

  /** `components(separatedBy:)`: every whitespace character ends one piece
      and starts the next, so a text with k whitespace characters has k + 1
      pieces; no piece holds whitespace and together they hold every other
      character of `s`, in order. */
  function Components(s: string): (pieces: seq<string>)
    ensures |pieces| == |Whitespaces(s)| + 1
    ensures forall j :: 0 <= j < |pieces| ==> NonWhitespace(pieces[j]) == pieces[j]
    ensures Concat(pieces) == NonWhitespace(s)
  {
    if s == [] then [[]]
    else
      var rest := Components(s[1..]);
      if IsWhitespace(s[0]) then [[]] + rest
      else
        assert NonWhitespace([s[0]] + rest[0]) == [s[0]] + NonWhitespace(rest[0]) by {
          assert ([s[0]] + rest[0])[1..] == rest[0];
        }
        assert Concat(rest) == rest[0] + Concat(rest[1..]);
        [[s[0]] + rest[0]] + rest[1..]
  }

  /** The pieces with the separators put back between them: `Interleave(p, w)`
      is `p[0] + [w[0]] + p[1] + ... + [w[k - 1]] + p[k]`. */
  function Interleave(pieces: seq<string>, seps: string): string
    requires |pieces| == |seps| + 1
    decreases |seps|
  {
    if seps == [] then pieces[0]
    else pieces[0] + [seps[0]] + Interleave(pieces[1..], seps[1..])
  }

  /** The split loses nothing and falls exactly at the whitespace: putting
      each whitespace character of `s` back, in order, between consecutive
      pieces rebuilds `s`. */
  lemma {:induction false} ComponentsRoundTrip(s: string)
    ensures Interleave(Components(s), Whitespaces(s)) == s
  {
    if s != [] {
      var rest := Components(s[1..]);
      var seps := Whitespaces(s[1..]);
      ComponentsRoundTrip(s[1..]);
      if IsWhitespace(s[0]) {
        var pieces := [[]] + rest;
        assert Components(s) == pieces && Whitespaces(s) == [s[0]] + seps;
        assert pieces[1..] == rest && ([s[0]] + seps)[1..] == seps;
        assert s == [s[0]] + s[1..];
      } else {
        var pieces := [[s[0]] + rest[0]] + rest[1..];
        assert Components(s) == pieces && Whitespaces(s) == seps;
        if seps == [] {
          assert s == [s[0]] + rest[0];
        } else {
          var tail := Interleave(rest[1..], seps[1..]);
          assert pieces[1..] == rest[1..];
          assert s[1..] == rest[0] + [seps[0]] + tail;
          assert s == [s[0]] + s[1..];
          assert Interleave(pieces, seps) == ([s[0]] + rest[0]) + [seps[0]] + tail;
        }
      }
    }
  }

  function NonEmpty(pieces: seq<string>): seq<string> {
    if pieces == [] then []
    else (if pieces[0] == [] then [] else [pieces[0]]) + NonEmpty(pieces[1..])
  }

  /** The word count shown under the editors: the number of places where a
      word ends. */
  function WordCount(s: string): (n: nat)
    ensures n == WordEnds(s)
  {
    NonEmptyPiecesAreWordEnds(s);
    |NonEmpty(Components(s))|
  }

  /** Independent reference: the number of positions where a word ends, i.e.
      a non-whitespace character followed by whitespace or the end of text. */
  function WordEnds(s: string): nat {
    if s == [] then 0
    else (if !IsWhitespace(s[0]) && (|s| == 1 || IsWhitespace(s[1])) then 1 else 0)
         + WordEnds(s[1..])
  }

  lemma FirstComponentEmpty(s: string)
    ensures Components(s)[0] == [] <==> (s == [] || IsWhitespace(s[0]))
  {
  }

  /** The number of non-empty pieces equals the number of word ends. */
  lemma {:induction false} NonEmptyPiecesAreWordEnds(s: string)
    ensures |NonEmpty(Components(s))| == WordEnds(s)
  {
    if s != [] {
      var rest := Components(s[1..]);
      NonEmptyPiecesAreWordEnds(s[1..]);
      if IsWhitespace(s[0]) {
        assert Components(s) == [[]] + rest;
        assert NonEmpty([[]] + rest) == NonEmpty(rest) by {
          assert ([[]] + rest)[1..] == rest;
        }
      } else {
        FirstComponentEmpty(s[1..]);
        var pieces := [[s[0]] + rest[0]] + rest[1..];
        assert Components(s) == pieces;
        assert pieces[1..] == rest[1..];
        assert NonEmpty(pieces) == [pieces[0]] + NonEmpty(rest[1..]);
        assert NonEmpty(rest) == (if rest[0] == [] then [] else [rest[0]]) + NonEmpty(rest[1..]);
        assert |s| == 1 || IsWhitespace(s[1]) <==> rest[0] == [] by {
          if |s| > 1 { assert s[1..][0] == s[1]; }
        }
      }
    }
  }

  lemma {:induction false} WordEndsZeroIffBlank(s: string)
    ensures WordEnds(s) == 0 <==> IsBlank(s)
  {
    if s != [] {
      WordEndsZeroIffBlank(s[1..]);
      assert IsBlank(s) <==> IsWhitespace(s[0]) && IsBlank(s[1..]) by {
        if IsWhitespace(s[0]) && IsBlank(s[1..]) {
          forall i | 0 <= i < |s| ensures IsWhitespace(s[i]) {
            if i > 0 { assert s[i] == s[1..][i - 1]; }
          }
        }
      }
      if |s| > 1 { assert s[1..][0] == s[1]; }
    }
  }

  /** A text counts zero words exactly when it is blank (empty or whitespace only). */
  lemma WordCountZeroIffBlank(s: string)
    ensures WordCount(s) == 0 <==> IsBlank(s)
  {
    WordEndsZeroIffBlank(s);
  }

  // ---------------------------------------------------------------------------
  // lowercased() and contains(_:)
  // ---------------------------------------------------------------------------

  function LowerChar(c: char): char {
    if 'A' <= c <= 'Z' then (c as int + 32) as char else c
  }

  /** `lowercased()`: same length, no ASCII capital left, each capital
      replaced by its small letter and every other character kept. */
  function Lowercased(s: string): (r: string)
    ensures |r| == |s|
    ensures forall i :: 0 <= i < |r| ==> !('A' <= r[i] <= 'Z')
    ensures forall i :: 0 <= i < |s| && 'A' <= s[i] <= 'Z' ==> r[i] as int == s[i] as int + 32
    ensures forall i :: 0 <= i < |s| && !('A' <= s[i] <= 'Z') ==> r[i] == s[i]
  {
    seq(|s|, i requires 0 <= i < |s| => LowerChar(s[i]))
  }

  /** Lowercasing twice is lowercasing once. */
  lemma LowercasedIdempotent(s: string)
    ensures Lowercased(Lowercased(s)) == Lowercased(s)
  {
    var once := Lowercased(s);
    forall i | 0 <= i < |s| ensures Lowercased(once)[i] == once[i] {
      assert !('A' <= once[i] <= 'Z');
    }
  }

  predicate OccursAt(text: string, part: string, i: int) {
    0 <= i <= |text| - |part| && text[i..i + |part|] == part
  }

  /** Foundation's `contains` (`range(of:) != nil`): a non-empty part that
      occurs somewhere in the text. A contained part is never longer than the
      text, and the empty string is contained in no text. */
  predicate Contains(text: string, part: string)
    ensures Contains(text, part) ==> |part| <= |text|
    ensures part == [] ==> !Contains(text, part)
  {
    part != [] && exists i | 0 <= i <= |text| - |part| :: OccursAt(text, part, i)
  }

  // ---------------------------------------------------------------------------
  // hasPrefix(_:) and dropFirst(_:)
  // ---------------------------------------------------------------------------

  predicate HasPrefix(s: string, p: string) {
    |p| <= |s| && s[..|p|] == p
  }

  /** Swift's `dropFirst(n)`: the empty string when `n` exceeds the length. */
  function DropFirst(s: string, n: nat): string {
    if n <= |s| then s[n..] else []
  }
}
