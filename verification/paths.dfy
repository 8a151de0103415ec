/** How the uploader turns a file path into the recipe's `filename` and
    `format` fields (cake2.py:20-24), using nothing but Python string
    operations. */
module Paths {
  import opened PyStr

  datatype PathParts = PathParts(filename: string, format: string)

  /** `path.replace('\\', '/')`: every backslash becomes a slash, nothing
      else changes. */
  function Normalize(path: string): (p: string)
    ensures |p| == |path|
    ensures forall i :: 0 <= i < |path| ==> p[i] == (if path[i] == '\\' then '/' else path[i])
  {
    ReplaceChar(path, '\\', '/');
    Replace(path, "\\", "/")
  }

  /** `path.replace('\\', '/').split('/')[-1]`: the final component of the
      path, with either kind of slash as separator. It is a suffix of the
      path, holds no separator, and is either the whole path or preceded by
      a separator. */
  function BaseName(path: string): (base: string)
    ensures '/' !in base && '\\' !in base
    ensures |base| <= |path| && path[|path| - |base|..] == base
    ensures |base| == |path| || path[|path| - |base| - 1] == '/' || path[|path| - |base| - 1] == '\\'
  {
    BaseNameFacts(path);
    Last(Split(Normalize(path), "/"))
  }

  lemma BaseNameFacts(path: string)
    ensures var base := Last(Split(Normalize(path), "/"));
      && '/' !in base && '\\' !in base
      && |base| <= |path| && path[|path| - |base|..] == base
      && (|base| == |path| || path[|path| - |base| - 1] == '/' || path[|path| - |base| - 1] == '\\')
  {
    LastComponent(path, Normalize(path));
  }

  lemma LastComponent(path: string, n: string)
    requires |n| == |path|
    requires forall i :: 0 <= i < |path| ==> n[i] == (if path[i] == '\\' then '/' else path[i])
    ensures var base := Last(Split(n, "/"));
      && '/' !in base && '\\' !in base
      && |base| <= |path| && path[|path| - |base|..] == base
      && (|base| == |path| || path[|path| - |base| - 1] == '/' || path[|path| - |base| - 1] == '\\')
  {
    LastPiece(n, '/');
    UnnormalizedSuffix(path, n, Last(Split(n, "/")));
  }

  /** The text after the last '/' of the normalized path is, in the path
      itself, a suffix free of both separators that follows a separator
      or is the whole path. */
  lemma UnnormalizedSuffix(path: string, n: string, base: string)
    requires |n| == |path|
    requires forall i :: 0 <= i < |path| ==> n[i] == (if path[i] == '\\' then '/' else path[i])
    requires IsTextAfterLast(n, '/', base)
    ensures '/' !in base && '\\' !in base
    ensures |base| <= |path| && path[|path| - |base|..] == base
    ensures |base| == |path| || path[|path| - |base| - 1] == '/' || path[|path| - |base| - 1] == '\\'
  {
    forall k | 0 <= k < |base|
      ensures path[|path| - |base| + k] == base[k] && base[k] != '\\'
    {
      assert base[k] == n[|n| - |base| + k];
    }
    assert path[|path| - |base|..] == base;
  }

  /** No occurrence of a pattern starting with '.' in a string without '.'. */
  lemma NoDotPattern(s: string, rest: string)
    requires '.' !in s
    ensures !Occurs(s, "." + rest)
  {
    forall i | 0 <= i <= |s|
      ensures !OccursAt(s, "." + rest, i)
    {
      if i + |"." + rest| <= |s| {
        assert s[i..i + |"." + rest|][0] == s[i];
      }
    }
  }

  /** The path split of cake2.py:20-24. `format` is the text after the last
      '.' of the base name (the whole base name when there is no '.'), and
      `filename` is the base name with EVERY occurrence of '.' + format
      removed, not just the final one. */
  function SplitPath(path: string): (parts: PathParts)
    ensures IsTextAfterLast(BaseName(path), '.', parts.format)
    ensures parts.filename == Join(Split(BaseName(path), "." + parts.format), "")
    ensures '.' !in BaseName(path) ==>
      parts.format == BaseName(path) && parts.filename == BaseName(path)
  {
    var base := BaseName(path);
    var format := Last(Split(base, "."));
    LastPiece(base, '.');
    ReplaceIsJoinOfSplit(base, "." + format, "");
    if '.' !in base then
      NoDotPattern(base, format);
      assert base[|base| - |format|..] == format;
      PathParts(Replace(base, "." + format, ""), format)
    else
      PathParts(Replace(base, "." + format, ""), format)
  }

  /** In `stem + pat`, where `pat` is '.' followed by text without '.',
      and `pat` does not occur in `stem`, no occurrence of `pat` starts
      inside `stem`. */
  lemma OnlyFinalOccurrence(stem: string, ext: string)
    requires '.' !in ext
    requires !Occurs(stem, "." + ext)
    ensures forall i :: 0 <= i < |stem| ==> !OccursAt(stem + ("." + ext), "." + ext, i)
  {
    var pat := "." + ext;
    var s := stem + pat;
    forall i | 0 <= i < |stem|
      ensures !OccursAt(s, pat, i)
    {
      if i + |pat| <= |stem| {
        assert s[i..i + |pat|] == stem[i..i + |pat|];
        assert !OccursAt(stem, pat, i);
      } else if i + |pat| <= |s| {
        var k := |stem| - i;
        assert s[i..i + |pat|][k] == s[|stem|] == '.';
        assert pat[k] == ext[k - 1];
      }
    }
  }

  /** When the base name is `stem.ext`, `ext` holds no '.', and `.ext`
      does not occur in `stem`, the split recovers exactly `stem` and
      `ext`. */
  lemma StemAndExtension(path: string, stem: string, ext: string)
    requires BaseName(path) == stem + "." + ext
    requires '.' !in ext
    requires !Occurs(stem, "." + ext)
    ensures SplitPath(path) == PathParts(stem, ext)
  {
    var base := BaseName(path);
    var pat := "." + ext;
    assert base == stem + pat;
    assert IsTextAfterLast(base, '.', ext) by {
      assert base[|base| - |ext|..] == ext;
      assert base[|base| - |ext| - 1] == '.';
    }
    TextAfterLastUnique(base, '.', SplitPath(path).format, ext);
    OnlyFinalOccurrence(stem, ext);
    ReplaceSuffixOnly(stem, pat, "");
    ReplaceIsJoinOfSplit(base, pat, "");
    assert stem + "" == stem;
  }
}
