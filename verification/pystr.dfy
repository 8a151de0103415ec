/** The two Python string operations the path handling relies on,
    `str.split(sep)` and `str.replace(pat, rep)`, for a separator or pattern
    that is never empty. Both scan the string left to right and match
    non-overlapping occurrences, exactly as CPython does. */
module PyStr {

  /** `p` occurs in `s` starting at position `i`. */
  predicate OccursAt(s: string, p: string, i: int) {
    0 <= i && i + |p| <= |s| && s[i..i + |p|] == p
  }

  predicate Occurs(s: string, p: string) {
    exists i :: 0 <= i <= |s| && OccursAt(s, p, i)
  }

  predicate StartsWith(s: string, p: string) {
    |p| <= |s| && s[..|p|] == p
  }

  lemma OccursAtShift(s: string, p: string, i: int)
    requires |s| > 0 && i >= 1
    ensures OccursAt(s, p, i) <==> OccursAt(s[1..], p, i - 1)
  {
    if i + |p| <= |s| {
      var t := s[1..];
      var u := s[i..i + |p|];
      var v := t[i - 1..i - 1 + |p|];
      forall k | 0 <= k < |p|
        ensures u[k] == v[k]
      {
        assert t[i - 1 + k] == s[i + k];
      }
      assert u == v;
    }
  }

  /** An occurrence in the tail is an occurrence in the whole string. */
  lemma OccursInTail(s: string, p: string)
    requires |s| > 0 && Occurs(s[1..], p)
    ensures Occurs(s, p)
  {
    var i :| 0 <= i <= |s[1..]| && OccursAt(s[1..], p, i);
    OccursAtShift(s, p, i + 1);
  }

  /** `sep.join(parts)`. */
  function Join(parts: seq<string>, sep: string): string
    decreases |parts|
  {
    if |parts| == 0 then ""
    else if |parts| == 1 then parts[0]
    else parts[0] + sep + Join(parts[1..], sep)
  }

  function Last(parts: seq<string>): string
    requires |parts| > 0
  {
    parts[|parts| - 1]
  }

  /** `s.split(sep)`: the pieces between the occurrences of `sep`. There is
      always at least one piece, possibly empty. */
  function Split(s: string, sep: string): (parts: seq<string>)
    requires |sep| > 0
    ensures |parts| >= 1
    decreases |s|
  {
    if StartsWith(s, sep) then
      [""] + Split(s[|sep|..], sep)
    else if |s| == 0 then
      [""]
    else
      var tail := Split(s[1..], sep);
      [[s[0]] + tail[0]] + tail[1..]
  }

  /** `s.replace(pat, rep)`. A string without an occurrence of `pat` comes
      back unchanged. */
  function Replace(s: string, pat: string, rep: string): (r: string)
    requires |pat| > 0
    ensures !Occurs(s, pat) ==> r == s
    decreases |s|
  {
    if StartsWith(s, pat) then
      assert OccursAt(s, pat, 0);
      rep + Replace(s[|pat|..], pat, rep)
    else if |s| == 0 then
      ""
    else
      var tail := Replace(s[1..], pat, rep);
      if Occurs(s[1..], pat) then OccursInTail(s, pat); [s[0]] + tail
      else [s[0]] + tail
  }

  lemma JoinCons(a: string, rest: seq<string>, sep: string)
    requires |rest| >= 1
    ensures Join([a] + rest, sep) == a + sep + Join(rest, sep)
  {
    assert ([a] + rest)[1..] == rest;
  }

  /** Growing the first piece grows the joined string at the front. */
  lemma JoinGrowFirst(x: char, parts: seq<string>, sep: string)
    requires |parts| >= 1
    ensures Join([[x] + parts[0]] + parts[1..], sep) == [x] + Join(parts, sep)
  {
    if |parts| > 1 {
      JoinCons([x] + parts[0], parts[1..], sep);
      JoinCons(parts[0], parts[1..], sep);
      assert [parts[0]] + parts[1..] == parts;
      var j := Join(parts[1..], sep);
      assert ([x] + parts[0]) + sep + j == [x] + (parts[0] + sep + j);
    }
  }

  /** Joining the pieces of a split with the same separator restores the
      string: `sep.join(s.split(sep)) == s`. */
  lemma {:induction false} JoinSplit(s: string, sep: string)
    requires |sep| > 0
    ensures Join(Split(s, sep), sep) == s
    decreases |s|
  {
    if StartsWith(s, sep) {
      var rest := s[|sep|..];
      JoinSplit(rest, sep);
      JoinCons("", Split(rest, sep), sep);
      assert Split(s, sep) == [""] + Split(rest, sep);
      assert s == s[..|sep|] + rest;
    } else if |s| > 0 {
      var tail := Split(s[1..], sep);
      JoinSplit(s[1..], sep);
      JoinGrowFirst(s[0], tail, sep);
      assert Split(s, sep) == [[s[0]] + tail[0]] + tail[1..];
      assert [s[0]] + s[1..] == s;
    }
  }

  /** A piece put in front of a string that does not start with `sep` and
      does not contain it stays free of `sep`. */
  lemma ConsAvoids(x: char, t: string, s: string, sep: string)
    requires |s| > 0 && s[0] == x && !StartsWith(s, sep)
    requires |t| < |s| && t == s[1..][..|t|] && !Occurs(t, sep)
    ensures !Occurs([x] + t, sep)
  {
    var u := [x] + t;
    forall i | 0 <= i <= |u|
      ensures !OccursAt(u, sep, i)
    {
      if i == 0 {
        if |sep| <= |u| {
          assert u[..|sep|] == s[..|sep|];
        }
      } else {
        OccursAtShift(u, sep, i);
        assert u[1..] == t;
      }
    }
  }

  /** The first piece of a split is a prefix of the string. */
  lemma {:induction false} FirstPieceIsPrefix(s: string, sep: string)
    requires |sep| > 0
    ensures |Split(s, sep)[0]| <= |s| && Split(s, sep)[0] == s[..|Split(s, sep)[0]|]
    decreases |s|
  {
    if !StartsWith(s, sep) && |s| > 0 {
      FirstPieceIsPrefix(s[1..], sep);
    }
  }

  /** No piece of a split contains the separator. */
  lemma {:induction false} SplitPiecesAvoidSeparator(s: string, sep: string)
    requires |sep| > 0
    ensures forall k :: 0 <= k < |Split(s, sep)| ==> !Occurs(Split(s, sep)[k], sep)
    decreases |s|
  {
    if StartsWith(s, sep) {
      SplitPiecesAvoidSeparator(s[|sep|..], sep);
      assert !Occurs("", sep);
    } else if |s| == 0 {
      assert !Occurs("", sep);
    } else {
      var tail := Split(s[1..], sep);
      SplitPiecesAvoidSeparator(s[1..], sep);
      FirstPieceIsPrefix(s[1..], sep);
      ConsAvoids(s[0], tail[0], s, sep);
    }
  }

  /** Python's identity `s.replace(pat, rep) == rep.join(s.split(pat))`:
      the scanning replacement and the split-then-join agree. */
  lemma {:induction false} ReplaceIsJoinOfSplit(s: string, pat: string, rep: string)
    requires |pat| > 0
    ensures Replace(s, pat, rep) == Join(Split(s, pat), rep)
    decreases |s|
  {
    if StartsWith(s, pat) {
      var rest := s[|pat|..];
      ReplaceIsJoinOfSplit(rest, pat, rep);
      JoinCons("", Split(rest, pat), rep);
      assert "" + rep == rep;
    } else if |s| > 0 {
      ReplaceIsJoinOfSplit(s[1..], pat, rep);
      JoinGrowFirst(s[0], Split(s[1..], pat), rep);
    }
  }

  /** Replacing one character by another keeps the length and changes
      exactly the positions holding that character. */
  lemma {:induction false} ReplaceChar(s: string, a: char, b: char)
    ensures |Replace(s, [a], [b])| == |s|
    ensures forall i :: 0 <= i < |s| ==>
      Replace(s, [a], [b])[i] == (if s[i] == a then b else s[i])
    decreases |s|
  {
    if |s| > 0 {
      ReplaceChar(s[1..], a, b);
      var r := Replace(s, [a], [b]);
      var tail := Replace(s[1..], [a], [b]);
      if s[0] == a {
        assert StartsWith(s, [a]);
        assert r == [b] + tail;
      } else {
        assert r == [s[0]] + tail;
      }
    }
  }

  /** A string in which `[c]` does not occur does not contain `c`. */
  lemma NotOccursChar(l: string, c: char)
    requires !Occurs(l, [c])
    ensures c !in l
  {
    forall k | 0 <= k < |l|
      ensures l[k] != c
    {
      assert !OccursAt(l, [c], k);
      assert l[k..k + 1] == [l[k]];
    }
  }

  /** `l` is the text after the last `c` in `s` (all of `s` if there is none). */
  predicate IsTextAfterLast(s: string, c: char, l: string) {
    && c !in l
    && |l| <= |s|
    && s[|s| - |l|..] == l
    && (|l| == |s| || s[|s| - |l| - 1] == c)
  }

  lemma AfterLastExtends(s: string, c: char, l: string)
    requires |s| > 0
    requires IsTextAfterLast(s[1..], c, l)
    requires |l| < |s| - 1 || s[0] == c
    ensures IsTextAfterLast(s, c, l)
  {
    assert s[|s| - |l|..] == s[1..][|s[1..]| - |l|..];
  }

  /** The last piece of `s.split(c)` is the text after the last `c`. */
  lemma {:induction false} LastPiece(s: string, c: char)
    ensures IsTextAfterLast(s, c, Last(Split(s, [c])))
    decreases |s|
  {
    var parts := Split(s, [c]);
    SplitPiecesAvoidSeparator(s, [c]);
    NotOccursChar(Last(parts), c);
    if StartsWith(s, [c]) {
      LastPiece(s[1..], c);
      assert s[0] == c by {
        assert s[..1] == [c];
      }
      AfterLastExtends(s, c, Last(parts));
    } else if |s| > 0 {
      var tail := Split(s[1..], [c]);
      LastPiece(s[1..], c);
      if |tail| == 1 {
        JoinSplit(s[1..], [c]);
        JoinSplit(s, [c]);
        assert parts == [[s[0]] + tail[0]];
        assert Last(parts) == s;
      } else {
        assert Last(parts) == Last(tail);
        if |Last(tail)| == |s| - 1 {
          JoinSplit(s[1..], [c]);
          LastPieceShorter(tail, c);
        }
        AfterLastExtends(s, c, Last(parts));
      }
    }
  }

  /** With two pieces or more the last one is shorter than the joined whole. */
  lemma LastPieceShorter(parts: seq<string>, c: char)
    requires |parts| >= 2
    ensures |Last(parts)| < |Join(parts, [c])|
    decreases |parts|
  {
    if |parts| > 2 {
      LastPieceShorter(parts[1..], c);
    }
  }

  /** When no occurrence of `pat` starts inside `t`, `(t + pat).replace(pat,
      rep)` only replaces the final `pat`. */
  lemma {:induction false} ReplaceSuffixOnly(t: string, pat: string, rep: string)
    requires |pat| > 0
    requires forall i :: 0 <= i < |t| ==> !OccursAt(t + pat, pat, i)
    ensures Replace(t + pat, pat, rep) == t + rep
    decreases |t|
  {
    if |t| == 0 {
      assert t + pat == pat;
      assert StartsWith(pat, pat);
      assert pat[|pat|..] == "";
    } else {
      var s := t + pat;
      assert !StartsWith(s, pat) by {
        assert !OccursAt(s, pat, 0);
      }
      assert s[1..] == t[1..] + pat;
      forall i | 0 <= i < |t[1..]|
        ensures !OccursAt(t[1..] + pat, pat, i)
      {
        OccursAtShift(s, pat, i + 1);
      }
      ReplaceSuffixOnly(t[1..], pat, rep);
      assert [t[0]] + (t[1..] + rep) == t + rep;
    }
  }

  /** The text after the last `c` is unique. */
  lemma TextAfterLastUnique(s: string, c: char, l1: string, l2: string)
    requires IsTextAfterLast(s, c, l1) && IsTextAfterLast(s, c, l2)
    ensures l1 == l2
  {
    if |l1| < |l2| {
      assert false;
    } else if |l2| < |l1| {
      assert false;
    }
  }
}
