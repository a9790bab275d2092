/**
 * `value.split(';').filter(Boolean)`: the `SongFolders` value cut at every
 * `;`, with the empty pieces dropped. Pieces are not trimmed.
 */
module SongList {

  const FolderSeparator: char := ';'

  /** `Array.prototype.join(sep)` on strings: the pieces with `sep` between neighbours. */
  function JoinWith(pieces: seq<string>, sep: char): (s: string)
    decreases |pieces|
  {
    if |pieces| == 0 then ""
    else if |pieces| == 1 then pieces[0]
    else pieces[0] + [sep] + JoinWith(pieces[1..], sep)
  }

  /**
   * `String.prototype.split(sep)` for a one-character separator: every
   * maximal `sep`-free stretch, including the empty ones before the first,
   * between two adjacent, and after the last separator. `"".split(sep)` is `[""]`.
   */
  function Split(s: string, sep: char): (pieces: seq<string>)
    ensures |pieces| >= 1
    ensures forall i :: 0 <= i < |pieces| ==> sep !in pieces[i]
    ensures JoinWith(pieces, sep) == s
    ensures forall i, k :: 0 <= i < |pieces| && 0 <= k < |pieces[i]| ==> pieces[i][k] in s
    decreases |s|
  {
    if s == [] then [""]
    else
      var rest := Split(s[1..], sep);
      if s[0] == sep then
        assert s == [sep] + s[1..];
        [""] + rest
      else
        var pieces := [[s[0]] + rest[0]] + rest[1..];
        assert pieces[1..] == rest[1..];
        assert s == [s[0]] + s[1..];
        assert forall i, k :: 0 <= i < |pieces| && 0 <= k < |pieces[i]| ==> pieces[i][k] in s by {
          forall i, k | 0 <= i < |pieces| && 0 <= k < |pieces[i]| ensures pieces[i][k] in s {
            if i == 0 && k > 0 {
              assert pieces[i][k] == rest[0][k - 1];
            } else if i > 0 {
              assert pieces[i] == rest[i];
            }
          }
        }
        pieces
  }

  /** `filter(Boolean)` on strings: keeps exactly the non-empty ones. */
  function DropEmpty(xs: seq<string>): (r: seq<string>)
    ensures forall i :: 0 <= i < |r| ==> r[i] != ""
    ensures multiset(r) == multiset(xs)["" := 0]
    decreases |xs|
  {
    if xs == [] then []
    else
      assert xs == [xs[0]] + xs[1..];
      if xs[0] == "" then DropEmpty(xs[1..]) else [xs[0]] + DropEmpty(xs[1..])
  }

  /** The song directories listed in a `SongFolders` value. */
  function SongDirectories(value: string): (dirs: seq<string>)
    ensures forall i :: 0 <= i < |dirs| ==> dirs[i] != "" && FolderSeparator !in dirs[i]
    ensures forall i, k :: 0 <= i < |dirs| && 0 <= k < |dirs[i]| ==> dirs[i][k] in value
  {
    var pieces := Split(value, FolderSeparator);
    var dirs := DropEmpty(pieces);
    assert forall i :: 0 <= i < |dirs| ==> dirs[i] in pieces by {
      forall i | 0 <= i < |dirs| ensures dirs[i] in pieces {
        assert dirs[i] in multiset(dirs);
      }
    }
    dirs
  }

  /** Split is the only way to cut `s` into `sep`-free pieces that join back to `s`. */
  lemma {:induction false} SplitIsUnique(s: string, sep: char, pieces: seq<string>)
    requires |pieces| >= 1
    requires forall i :: 0 <= i < |pieces| ==> sep !in pieces[i]
    requires JoinWith(pieces, sep) == s
    ensures pieces == Split(s, sep)
    decreases |pieces|
  {
    if |pieces| == 1 {
      SplitWithoutSeparator(s, sep);
    } else {
      var t := JoinWith(pieces[1..], sep);
      SplitIsUnique(t, sep, pieces[1..]);
      SplitAfterPiece(pieces[0], sep, t);
      assert pieces == [pieces[0]] + pieces[1..];
    }
  }

  lemma {:induction false} SplitWithoutSeparator(s: string, sep: char)
    requires sep !in s
    ensures Split(s, sep) == [s]
    decreases |s|
  {
    if s != [] {
      SplitWithoutSeparator(s[1..], sep);
      assert s == [s[0]] + s[1..];
    }
  }

  lemma {:induction false} SplitAfterPiece(p: string, sep: char, t: string)
    requires sep !in p
    ensures Split(p + [sep] + t, sep) == [p] + Split(t, sep)
    decreases |p|
  {
    if p == [] {
      assert [] + [sep] + t == [sep] + t;
      assert ([sep] + t)[1..] == t;
    } else {
      var s := p + [sep] + t;
      assert s[1..] == p[1..] + [sep] + t;
      SplitAfterPiece(p[1..], sep, t);
      assert [p[0]] + p[1..] == p;
    }
  }

  /** `filter` keeps the order: it distributes over concatenation. */
  lemma {:induction false} DropEmptyDistributes(xs: seq<string>, ys: seq<string>)
    ensures DropEmpty(xs + ys) == DropEmpty(xs) + DropEmpty(ys)
    decreases |xs|
  {
    if xs != [] {
      assert (xs + ys)[1..] == xs[1..] + ys;
      DropEmptyDistributes(xs[1..], ys);
    } else {
      assert xs + ys == ys;
    }
  }

  /** With no empty piece, `filter` changes nothing. */
  lemma {:induction false} DropEmptyKeepsNonEmpty(xs: seq<string>)
    requires forall i :: 0 <= i < |xs| ==> xs[i] != ""
    ensures DropEmpty(xs) == xs
    decreases |xs|
  {
    if xs != [] {
      DropEmptyKeepsNonEmpty(xs[1..]);
    }
  }

  /**
   * `s` has no empty `sep`-separated piece: it is not empty, does not start
   * or end with `sep`, and never has two `sep` side by side.
   */
  ghost predicate WellSeparated(s: string, sep: char) {
    && s != ""
    && s[0] != sep
    && s[|s| - 1] != sep
    && forall i :: 0 <= i < |s| - 1 ==> !(s[i] == sep && s[i + 1] == sep)
  }

  lemma {:induction false} NoEmptyPieceIffWellSeparated(pieces: seq<string>, sep: char)
    requires |pieces| >= 1
    requires forall i :: 0 <= i < |pieces| ==> sep !in pieces[i]
    ensures (forall i :: 0 <= i < |pieces| ==> pieces[i] != "") <==> WellSeparated(JoinWith(pieces, sep), sep)
    decreases |pieces|
  {
    if |pieces| > 1 {
      var rest := pieces[1..];
      NoEmptyPieceIffWellSeparated(rest, sep);
      WellSeparatedAfterPiece(pieces[0], sep, JoinWith(rest, sep));
      assert forall i :: 1 <= i < |pieces| ==> pieces[i] == rest[i - 1];
    }
  }

  /** A piece, a separator and more text are well separated exactly when the piece is non-empty and the text is. */
  lemma WellSeparatedAfterPiece(p: string, sep: char, t: string)
    requires sep !in p
    ensures WellSeparated(p + [sep] + t, sep) <==> p != "" && WellSeparated(t, sep)
  {
    var j := p + [sep] + t;
    assert j[|p|] == sep;
    assert forall k :: 0 <= k < |t| ==> j[|p| + 1 + k] == t[k];
    assert forall k :: 0 <= k < |p| ==> j[k] == p[k];
    if p != "" && WellSeparated(t, sep) {
      forall i | 0 <= i < |j| - 1 ensures !(j[i] == sep && j[i + 1] == sep) {
        if i > |p| {
          assert !(t[i - |p| - 1] == sep && t[i - |p|] == sep);
        }
      }
    }
    if WellSeparated(j, sep) {
      assert t != "";
      assert !(j[|p|] == sep && j[|p| + 1] == sep);
      forall i | 0 <= i < |t| - 1 ensures !(t[i] == sep && t[i + 1] == sep) {
        assert !(j[|p| + 1 + i] == sep && j[|p| + 1 + i + 1] == sep);
      }
    }
  }

  /**
   * The entries are the value's `;`-separated pieces themselves, untrimmed
   * and in order: joining them with `;` gives the value back exactly when the
   * value had no empty piece to drop (or was empty).
   */
  lemma SongDirectoriesRoundTrip(value: string)
    ensures JoinWith(SongDirectories(value), FolderSeparator) == value
        <==> value == "" || WellSeparated(value, FolderSeparator)
  {
    var pieces := Split(value, FolderSeparator);
    var dirs := SongDirectories(value);
    NoEmptyPieceIffWellSeparated(pieces, FolderSeparator);
    if WellSeparated(value, FolderSeparator) {
      DropEmptyKeepsNonEmpty(pieces);
    } else if value == "" {
      assert pieces == [""];
      assert dirs == DropEmpty([""][1..]) == [];
    } else if JoinWith(dirs, FolderSeparator) == value {
      assert |dirs| >= 1;
      SplitIsUnique(value, FolderSeparator, dirs);
      assert false;
    }
  }
}
