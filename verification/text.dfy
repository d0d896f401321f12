/**
 * String operations the handlers rely on: the case-insensitive pattern match
 * of a `$regex` with option "i" (for patterns without metacharacters, a
 * substring search after an ASCII lower-case fold), and `String.split` on
 * a single separator character.
 */
module Text {
  import opened Common

  /** ASCII lower-case fold of one character. */
  function LowerChar(c: char): char {
    if 'A' <= c <= 'Z' then (c as int + 32) as char else c
  }

  /** ASCII lower-case fold of a string. */
  function Lower(s: string): string {
    seq(|s|, i requires 0 <= i < |s| => LowerChar(s[i]))
  }

  /** Folding twice is folding once. */
  lemma LowerIdempotent(s: string)
    ensures Lower(Lower(s)) == Lower(s)
  {
  }

  /** `needle` occurs in `hay` starting at index `i`. */
  predicate OccursAt(hay: string, needle: string, i: nat) {
    i + |needle| <= |hay| && hay[i..i + |needle|] == needle
  }

  /** The first index at or after `from` where `needle` occurs in `hay`. */
  function Search(hay: string, needle: string, from: nat): (r: Option<nat>)
    ensures r.Some? ==> from <= r.value && OccursAt(hay, needle, r.value)
    ensures r.Some? ==> forall j :: from <= j < r.value ==> !OccursAt(hay, needle, j)
    ensures r.None? ==> forall j :: from <= j ==> !OccursAt(hay, needle, j)
    decreases |hay| - from
  {
    if from + |needle| > |hay| then None
    else if OccursAt(hay, needle, from) then Some(from)
    else Search(hay, needle, from + 1)
  }

  /** The match of `{ $regex: needle, $options: "i" }` against `hay`. */
  predicate ContainsIgnoreCase(hay: string, needle: string) {
    Search(Lower(hay), Lower(needle), 0).Some?
  }

  /** The match holds exactly when the folded pattern occurs somewhere in the folded text. */
  lemma ContainsIgnoreCaseMeaning(hay: string, needle: string)
    ensures ContainsIgnoreCase(hay, needle) <==> exists i: nat :: OccursAt(Lower(hay), Lower(needle), i)
  {
  }

  /** A pattern that literally occurs in the text matches it. */
  lemma {:induction false} SubstringMatches(pre: string, needle: string, post: string)
    ensures ContainsIgnoreCase(pre + needle + post, needle)
  {
    var hay := pre + needle + post;
    assert Lower(hay)[|pre|..|pre| + |needle|] == Lower(needle);
    assert OccursAt(Lower(hay), Lower(needle), |pre|);
  }

  /** The match ignores case on both sides. */
  lemma FoldInvariant(hay: string, needle: string)
    ensures ContainsIgnoreCase(Lower(hay), Lower(needle)) == ContainsIgnoreCase(hay, needle)
  {
    LowerIdempotent(hay);
    LowerIdempotent(needle);
  }

  /** `parts[0] + sep + parts[1] + sep + ...`: the inverse of `Split`. */
  function Join(parts: seq<string>, sep: char): string
    requires |parts| >= 1
  {
    if |parts| == 1 then parts[0] else parts[0] + [sep] + Join(parts[1..], sep)
  }

  /**
   * `s.split(sep)` for a one-character separator: the pieces between
   * consecutive separators, empty pieces included.
   */
  function Split(s: string, sep: char): (parts: seq<string>)
    ensures |parts| >= 1
    ensures forall k :: 0 <= k < |parts| ==> sep !in parts[k]
    ensures Join(parts, sep) == s
  {
    if s == [] then [""]
    else
      var rest := Split(s[1..], sep);
      if s[0] == sep then
        assert s == [] + [sep] + Join(rest, sep);
        [""] + rest
      else
        var r := [[s[0]] + rest[0]] + rest[1..];
        assert r[1..] == rest[1..];
        assert s == [s[0]] + s[1..];
        r
  }

  /** Splitting a join of separator-free pieces gives the pieces back. */
  lemma {:induction false} SplitJoin(parts: seq<string>, sep: char)
    requires |parts| >= 1
    requires forall k :: 0 <= k < |parts| ==> sep !in parts[k]
    ensures Split(Join(parts, sep), sep) == parts
  {
    if |parts| == 1 {
      SplitAlone(parts[0], sep);
    } else {
      SplitJoin(parts[1..], sep);
      SplitPiece(parts[0], parts[1..], sep);
    }
  }

  /** A separator-free string splits into itself alone. */
  lemma {:induction false} SplitAlone(piece: string, sep: char)
    requires sep !in piece
    ensures Split(piece, sep) == [piece]
  {
    if piece != [] {
      assert sep !in piece[1..];
      SplitAlone(piece[1..], sep);
      assert [piece[0]] + piece[1..] == piece;
    }
  }

  /** Splitting `piece` (separator-free), a separator and the join of `tail` puts `piece` in front of `tail`. */
  lemma {:induction false} SplitPiece(piece: string, tail: seq<string>, sep: char)
    requires sep !in piece
    requires |tail| >= 1 && Split(Join(tail, sep), sep) == tail
    ensures Split(piece + [sep] + Join(tail, sep), sep) == [piece] + tail
  {
    var s := piece + [sep] + Join(tail, sep);
    if piece == [] {
      assert s[0] == sep && s[1..] == Join(tail, sep);
      assert Split(s, sep) == [""] + Split(s[1..], sep);
    } else {
      assert sep !in piece[1..];
      SplitPiece(piece[1..], tail, sep);
      assert s[1..] == piece[1..] + [sep] + Join(tail, sep);
      var rest := Split(s[1..], sep);
      assert rest == [piece[1..]] + tail;
      assert s[0] == piece[0] && s[0] != sep;
      assert Split(s, sep) == [[s[0]] + rest[0]] + rest[1..];
      assert rest[0] == piece[1..] && rest[1..] == tail;
      assert [s[0]] + rest[0] == piece;
    }
  }
}
