/** The few Python `str` operations the upload handler is built from:
    `split` on a one-character separator, `replace` of one character by
    another, `replace` of a substring by another string, and the slice
    `[:n]`.  Each is defined the way CPython computes it. */
module PyStr {

  /** Index of the first `c` in `s`, or `|s|` when `s` holds no `c`. */
  function FirstIndex(s: string, c: char): (k: nat)
    ensures k <= |s|
    ensures forall i :: 0 <= i < k ==> s[i] != c
    ensures k < |s| ==> s[k] == c
    ensures k == |s| <==> c !in s
  {
    if s == [] then 0
    else if s[0] == c then 0
    else 1 + FirstIndex(s[1..], c)
  }

  /** `sep.join(parts)` */
  function Join(parts: seq<string>, sep: string): string
  {
    if parts == [] then []
    else if |parts| == 1 then parts[0]
    else parts[0] + sep + Join(parts[1..], sep)
  }

  /** `s.split(sep)` for a one-character `sep`: the pieces between the
      occurrences of `sep`, empty pieces included. */
  function Split(s: string, sep: char): (parts: seq<string>)
    ensures |parts| >= 1
    ensures forall i :: 0 <= i < |parts| ==> sep !in parts[i]
  {
    if s == [] then [[]]
    else
      var rest := Split(s[1..], sep);
      if s[0] == sep then [[]] + rest
      else [[s[0]] + rest[0]] + rest[1..]
  }

  /** Joining the pieces of a split with the separator gives back the text. */
  lemma {:induction false} SplitJoin(s: string, sep: char)
    ensures Join(Split(s, sep), [sep]) == s
  {
    if s != [] {
      var rest := Split(s[1..], sep);
      SplitJoin(s[1..], sep);
      if s[0] == sep {
        assert Split(s, sep) == [[]] + rest;
        assert ([[]] + rest)[1..] == rest;
      } else {
        assert Split(s, sep) == [[s[0]] + rest[0]] + rest[1..];
        JoinConsHead(s[0], rest, [sep]);
      }
      assert s == [s[0]] + s[1..];
    }
  }

  /** Prepending a character to the first piece prepends it to the join. */
  lemma JoinConsHead(c: char, parts: seq<string>, sep: string)
    requires |parts| >= 1
    ensures Join([[c] + parts[0]] + parts[1..], sep) == [c] + Join(parts, sep)
  {
    var ps := [[c] + parts[0]] + parts[1..];
    assert ps[1..] == parts[1..];
  }

  /** `Split` cut at the first separator: the first piece runs up to it, and
      the other pieces are those of the text after it. */
  lemma SplitAtFirst(s: string, sep: char)
    ensures var k := FirstIndex(s, sep);
      Split(s, sep)[0] == s[..k] &&
      (k == |s| ==> |Split(s, sep)| == 1) &&
      (k < |s| ==> Split(s, sep)[1..] == Split(s[k + 1..], sep))
  {
    SplitHead(s, sep);
    SplitTail(s, sep);
  }

  /** The first piece of `Split` is the text before the first separator. */
  lemma {:induction false} SplitHead(s: string, sep: char)
    ensures Split(s, sep)[0] == s[..FirstIndex(s, sep)]
  {
    if s != [] && s[0] != sep {
      var rest := Split(s[1..], sep);
      assert Split(s, sep) == [[s[0]] + rest[0]] + rest[1..];
      SplitHead(s[1..], sep);
      assert s[..FirstIndex(s, sep)] == [s[0]] + s[1..][..FirstIndex(s[1..], sep)];
    }
  }

  /** After the first separator come the pieces of the rest; without one
      there is a single piece. */
  lemma {:induction false} SplitTail(s: string, sep: char)
    ensures FirstIndex(s, sep) == |s| ==> |Split(s, sep)| == 1
    ensures FirstIndex(s, sep) < |s| ==> Split(s, sep)[1..] == Split(s[FirstIndex(s, sep) + 1..], sep)
  {
    if s != [] && s[0] != sep {
      var rest := Split(s[1..], sep);
      assert Split(s, sep) == [[s[0]] + rest[0]] + rest[1..];
      assert Split(s, sep)[1..] == rest[1..];
      SplitTail(s[1..], sep);
      var k1 := FirstIndex(s[1..], sep);
      assert FirstIndex(s, sep) == k1 + 1;
      if k1 < |s[1..]| {
        assert s[1..][k1 + 1..] == s[k1 + 2..];
      }
    }
  }

  /** `s.replace(from, to)` for single characters. */
  function ReplaceChar(s: string, from: char, to: char): (r: string)
    ensures |r| == |s|
    ensures from != to ==> from !in r
    ensures forall i :: 0 <= i < |s| && s[i] != from ==> r[i] == s[i]
    ensures forall i :: 0 <= i < |s| && s[i] == from ==> r[i] == to
  {
    seq(|s|, i requires 0 <= i < |s| => if s[i] == from then to else s[i])
  }

  /** Replacing one character is the general `replace` with one-character
      strings. */
  lemma {:induction false} ReplaceCharIsReplaceAll(s: string, from: char, to: char)
    ensures ReplaceChar(s, from, to) == ReplaceAll(s, [from], [to])
    decreases |s|
  {
    if s != [] {
      ReplaceCharIsReplaceAll(s[1..], from, to);
      var head := if s[0] == from then to else s[0];
      assert ReplaceChar(s, from, to) == [head] + ReplaceChar(s[1..], from, to);
      assert s[..1] == [s[0]];
    }
  }

  /** `s[:n]` for a non-negative `n`. */
  function Take(s: string, n: nat): (r: string)
    ensures |r| == if |s| <= n then |s| else n
    ensures r == s[..|r|]
  {
    if |s| <= n then s else s[..n]
  }

  /** `pat` occurs in `s` starting at index `k`. */
  predicate OccursAt(pat: string, s: string, k: nat)
  {
    k + |pat| <= |s| && s[k..k + |pat|] == pat
  }

  /** `pat` occurs in `s` as a contiguous substring. */
  predicate Occurs(pat: string, s: string)
  {
    exists k: nat | k <= |s| :: OccursAt(pat, s, k)
  }

  /** `s.replace(pat, rep)` for a non-empty `pat`: scanning left to right,
      every non-overlapping occurrence of `pat` is replaced by `rep`. */
  function ReplaceAll(s: string, pat: string, rep: string): string
    requires pat != []
    decreases |s|
  {
    if |s| < |pat| then s
    else if s[..|pat|] == pat then rep + ReplaceAll(s[|pat|..], pat, rep)
    else [s[0]] + ReplaceAll(s[1..], pat, rep)
  }

  /** The stretches of `s` that `ReplaceAll` leaves alone: the text before,
      between and after the occurrences of `pat` it replaces. */
  function Pieces(s: string, pat: string): (ps: seq<string>)
    requires pat != []
    ensures |ps| >= 1
    decreases |s|
  {
    if |s| < |pat| then [s]
    else if s[..|pat|] == pat then [[]] + Pieces(s[|pat|..], pat)
    else
      var rest := Pieces(s[1..], pat);
      [[s[0]] + rest[0]] + rest[1..]
  }

  /** The first piece is a prefix of the text. */
  lemma {:induction false} FirstPieceIsPrefix(s: string, pat: string)
    requires pat != []
    ensures |Pieces(s, pat)[0]| <= |s| && Pieces(s, pat)[0] == s[..|Pieces(s, pat)[0]|]
    decreases |s|
  {
    if |s| >= |pat| && s[..|pat|] != pat {
      FirstPieceIsPrefix(s[1..], pat);
    }
  }

  /** `s.replace(pat, rep)` changes `s` exactly at the replaced occurrences:
      `s` and the result are the same pieces, joined by `pat` in one and by
      `rep` in the other, and no piece holds another occurrence of `pat`.
      For a pattern that can overlap itself these three facts do not fix
      the cut (`aaa` with `aa` could also be cut as `a` and the empty
      piece); `Pieces` is the leftmost one, the cut `ReplaceAll` makes.
      For a `HeadUnique` pattern such as `.png` the cut is unique. */
  lemma ReplaceAllByPieces(s: string, pat: string, rep: string)
    requires pat != []
    ensures Join(Pieces(s, pat), pat) == s
    ensures Join(Pieces(s, pat), rep) == ReplaceAll(s, pat, rep)
    ensures forall i :: 0 <= i < |Pieces(s, pat)| ==> !Occurs(pat, Pieces(s, pat)[i])
  {
    PiecesJoin(s, pat, rep);
    PiecesJoin(s, pat, pat);
    ReplaceAllSelf(s, pat);
    PiecesAvoid(s, pat);
  }

  /** Replacing `pat` by itself changes nothing. */
  lemma {:induction false} ReplaceAllSelf(s: string, pat: string)
    requires pat != []
    ensures ReplaceAll(s, pat, pat) == s
    decreases |s|
  {
    if |s| >= |pat| {
      if s[..|pat|] == pat {
        ReplaceAllSelf(s[|pat|..], pat);
        assert s == s[..|pat|] + s[|pat|..];
      } else {
        ReplaceAllSelf(s[1..], pat);
        assert s == [s[0]] + s[1..];
      }
    }
  }

  /** Joining the pieces with `rep` is `s.replace(pat, rep)`. */
  lemma {:induction false} PiecesJoin(s: string, pat: string, rep: string)
    requires pat != []
    ensures Join(Pieces(s, pat), rep) == ReplaceAll(s, pat, rep)
    decreases |s|, 1
  {
    if |s| >= |pat| {
      if s[..|pat|] == pat {
        PiecesJoinHit(s, pat, rep);
      } else {
        PiecesJoinSkip(s, pat, rep);
      }
    }
  }

  /** `PiecesJoin` when `s` starts with an occurrence of `pat`. */
  lemma {:induction false} PiecesJoinHit(s: string, pat: string, rep: string)
    requires pat != [] && |s| >= |pat| && s[..|pat|] == pat
    ensures Join(Pieces(s, pat), rep) == ReplaceAll(s, pat, rep)
    decreases |s|, 0
  {
    var tail := Pieces(s[|pat|..], pat);
    PiecesJoin(s[|pat|..], pat, rep);
    ReplaceAllHit(s, pat, rep);
    assert Pieces(s, pat) == [[]] + tail;
    assert ([[]] + tail)[1..] == tail;
    assert Join([[]] + tail, rep) == [] + rep + Join(tail, rep);
  }

  /** `PiecesJoin` when no occurrence starts at the front of `s`. */
  lemma {:induction false} PiecesJoinSkip(s: string, pat: string, rep: string)
    requires pat != [] && |s| >= |pat| && s[..|pat|] != pat
    ensures Join(Pieces(s, pat), rep) == ReplaceAll(s, pat, rep)
    decreases |s|, 0
  {
    var rest := Pieces(s[1..], pat);
    PiecesJoin(s[1..], pat, rep);
    ReplaceAllSkip(s, pat, rep);
    assert Pieces(s, pat) == [[s[0]] + rest[0]] + rest[1..];
    JoinConsHead(s[0], rest, rep);
  }

  /** No piece holds an occurrence of `pat`. */
  lemma {:induction false} PiecesAvoid(s: string, pat: string)
    requires pat != []
    ensures forall i :: 0 <= i < |Pieces(s, pat)| ==> !Occurs(pat, Pieces(s, pat)[i])
    decreases |s|
  {
    var ps := Pieces(s, pat);
    if |s| < |pat| {
      assert ps == [s];
      forall k: nat ensures !OccursAt(pat, s, k) { }
    } else if s[..|pat|] == pat {
      var tail := Pieces(s[|pat|..], pat);
      PiecesAvoid(s[|pat|..], pat);
      assert ps == [[]] + tail;
      forall i | 0 <= i < |ps| ensures !Occurs(pat, ps[i]) {
        if i == 0 {
          assert ps[0] == [];
        } else {
          assert ps[i] == tail[i - 1];
        }
      }
    } else {
      var rest := Pieces(s[1..], pat);
      PiecesAvoid(s[1..], pat);
      var head := [s[0]] + rest[0];
      assert ps == [head] + rest[1..];
      assert !Occurs(pat, head) by {
        FirstPieceIsPrefix(s[1..], pat);
        assert head == s[..|head|];
        forall k: nat | k + |pat| <= |head| ensures !OccursAt(pat, head, k) {
          if k == 0 {
            assert head[..|pat|] == s[..|pat|];
          } else {
            assert head[k..k + |pat|] == rest[0][k - 1..k - 1 + |pat|];
            assert !OccursAt(pat, rest[0], k - 1);
          }
        }
      }
      forall i | 0 <= i < |ps| ensures !Occurs(pat, ps[i]) {
        if i > 0 {
          assert ps[i] == rest[i];
        }
      }
    }
  }

  /** Text without an occurrence of `pat` is left unchanged. */
  lemma {:induction false} ReplaceAllAbsent(s: string, pat: string, rep: string)
    requires pat != [] && !Occurs(pat, s)
    ensures ReplaceAll(s, pat, rep) == s
    decreases |s|
  {
    if |s| >= |pat| {
      assert !OccursAt(pat, s, 0);
      assert !Occurs(pat, s[1..]) by {
        forall k: nat | k + |pat| <= |s[1..]| ensures !OccursAt(pat, s[1..], k) {
          assert s[1..][k..k + |pat|] == s[k + 1..k + 1 + |pat|];
          assert !OccursAt(pat, s, k + 1);
        }
      }
      ReplaceAllAbsent(s[1..], pat, rep);
      assert s == [s[0]] + s[1..];
    }
  }

  /** `pat` starts with a character that does not occur again in it, so
      two occurrences of `pat` can never overlap (true of ".png"). */
  predicate HeadUnique(pat: string)
  {
    pat != [] && forall k :: 0 < k < |pat| ==> pat[k] != pat[0]
  }

  /** One step of `ReplaceAll` at an occurrence. */
  lemma ReplaceAllHit(s: string, pat: string, rep: string)
    requires pat != [] && |s| >= |pat| && s[..|pat|] == pat
    ensures ReplaceAll(s, pat, rep) == rep + ReplaceAll(s[|pat|..], pat, rep)
  {
  }

  /** One step of `ReplaceAll` past a character that starts no occurrence. */
  lemma ReplaceAllSkip(s: string, pat: string, rep: string)
    requires pat != [] && |s| >= |pat| && s[..|pat|] != pat
    ensures ReplaceAll(s, pat, rep) == [s[0]] + ReplaceAll(s[1..], pat, rep)
  {
  }

  /** A trailing `pat` is always replaced, whatever precedes it. */
  lemma {:induction false} ReplaceAllTrailing(u: string, pat: string, rep: string)
    requires HeadUnique(pat)
    ensures ReplaceAll(u + pat, pat, rep) == ReplaceAll(u, pat, rep) + rep
    decreases |u|, 1
  {
    var s := u + pat;
    if u == [] {
      assert s == pat && s[..|pat|] == pat && s[|pat|..] == [];
      ReplaceAllHit(s, pat, rep);
    } else if |u| < |pat| {
      TrailingAfterShort(u, pat, rep);
    } else if u[..|pat|] == pat {
      TrailingAfterHit(u, pat, rep);
    } else {
      TrailingAfterSkip(u, pat, rep);
    }
  }

  /** `ReplaceAllTrailing` when `u` is shorter than `pat`: no occurrence
      starts in `u`, since it would hold `pat[0]` where `pat` does not. */
  lemma {:induction false} TrailingAfterShort(u: string, pat: string, rep: string)
    requires HeadUnique(pat) && u != [] && |u| < |pat|
    ensures ReplaceAll(u + pat, pat, rep) == ReplaceAll(u, pat, rep) + rep
    decreases |u|, 0
  {
    var s := u + pat;
    assert s[|u|] == pat[0];
    assert s[..|pat|][|u|] == s[|u|];
    assert pat[|u|] != pat[0];
    assert s[..|pat|] != pat;
    assert s[1..] == u[1..] + pat;
    ReplaceAllSkip(s, pat, rep);
    ReplaceAllTrailing(u[1..], pat, rep);
    ReplaceAllShort(u, pat, rep);
    ReplaceAllShort(u[1..], pat, rep);
    assert u == [u[0]] + u[1..];
  }

  /** `ReplaceAllTrailing` when `u` starts with an occurrence of `pat`. */
  lemma {:induction false} TrailingAfterHit(u: string, pat: string, rep: string)
    requires HeadUnique(pat) && |u| >= |pat| && u[..|pat|] == pat
    ensures ReplaceAll(u + pat, pat, rep) == ReplaceAll(u, pat, rep) + rep
    decreases |u|, 0
  {
    var s := u + pat;
    assert s[..|pat|] == u[..|pat|];
    assert s[|pat|..] == u[|pat|..] + pat;
    ReplaceAllHit(s, pat, rep);
    ReplaceAllHit(u, pat, rep);
    ReplaceAllTrailing(u[|pat|..], pat, rep);
  }

  /** `ReplaceAllTrailing` when no occurrence starts at the front of `u`. */
  lemma {:induction false} TrailingAfterSkip(u: string, pat: string, rep: string)
    requires HeadUnique(pat) && |u| >= |pat| && u[..|pat|] != pat
    ensures ReplaceAll(u + pat, pat, rep) == ReplaceAll(u, pat, rep) + rep
    decreases |u|, 0
  {
    var s := u + pat;
    assert s[..|pat|] == u[..|pat|];
    assert s[1..] == u[1..] + pat;
    ReplaceAllSkip(s, pat, rep);
    ReplaceAllSkip(u, pat, rep);
    ReplaceAllTrailing(u[1..], pat, rep);
  }

  /** Text shorter than `pat` is left unchanged. */
  lemma ReplaceAllShort(s: string, pat: string, rep: string)
    requires pat != [] && |s| < |pat|
    ensures ReplaceAll(s, pat, rep) == s
  {
  }

  /** Appending text that holds no occurrence of `pat` and starts with a
      character foreign to `pat` creates no new occurrence. */
  lemma {:induction false} ReplaceAllInertSuffix(u: string, w: string, pat: string, rep: string)
    requires pat != [] && w != [] && w[0] !in pat && !Occurs(pat, w)
    ensures ReplaceAll(u + w, pat, rep) == ReplaceAll(u, pat, rep) + w
    decreases |u|
  {
    var s := u + w;
    if u == [] {
      assert s == w;
      ReplaceAllAbsent(w, pat, rep);
    } else if |u| < |pat| {
      if |s| < |pat| {
        ReplaceAllShort(s, pat, rep);
        ReplaceAllShort(u, pat, rep);
      } else {
        // the window at 0 holds w[0] at |u|, a character pat lacks
        assert s[..|pat|][|u|] == w[0];
        assert pat[|u|] in pat;
        assert s[..|pat|] != pat;
        assert s[1..] == u[1..] + w;
        ReplaceAllInertSuffix(u[1..], w, pat, rep);
        ReplaceAllShort(u, pat, rep);
        ReplaceAllShort(u[1..], pat, rep);
        assert u == [u[0]] + u[1..];
      }
    } else if u[..|pat|] == pat {
      assert s[..|pat|] == u[..|pat|];
      assert s[|pat|..] == u[|pat|..] + w;
      ReplaceAllInertSuffix(u[|pat|..], w, pat, rep);
    } else {
      assert s[..|pat|] == u[..|pat|];
      assert s[1..] == u[1..] + w;
      ReplaceAllInertSuffix(u[1..], w, pat, rep);
    }
  }
}
