/**
 * The string operations the watcher applies to file paths: pathlib's `name`,
 * `parent` and `suffix`, the `/` join of `Path(root) / file`, ASCII `lower()`,
 * and the media-file test built from them.
 *
 * Paths are plain strings with `/` as the separator. A path is taken to be
 * normalised the way pathlib prints it (no empty component, no trailing
 * slash except for the root "/"); `NormalPath` states that where a lemma
 * needs it.
 */
module Paths {

  /** Index of the last occurrence of `c` in `s`, or -1 when there is none (`str.rfind`). */
  function LastIndexOf(s: string, c: char): (i: int)
    ensures -1 <= i < |s|
  {
    if s == [] then -1
    else if s[|s| - 1] == c then |s| - 1
    else LastIndexOf(s[..|s| - 1], c)
  }

  /** The index found holds `c` and no later index does; -1 means `c` does not occur. */
  lemma {:induction false} LastIndexOfSpec(s: string, c: char)
    ensures LastIndexOf(s, c) >= 0 ==> s[LastIndexOf(s, c)] == c
    ensures forall j :: LastIndexOf(s, c) < j < |s| ==> s[j] != c
  {
    if s != [] && s[|s| - 1] != c {
      var init := s[..|s| - 1];
      LastIndexOfSpec(init, c);
      assert forall j :: 0 <= j < |init| ==> s[j] == init[j];
    }
  }

  /** The final component of a path (`PurePath.name`). */
  function Name(p: string): string
  {
    p[LastIndexOf(p, '/') + 1..]
  }

  /** The name is the part of the path after its last separator: a suffix of the path without '/', preceded by '/' when shorter. */
  lemma NameSpec(p: string)
    ensures '/' !in Name(p)
    ensures |Name(p)| <= |p| && Name(p) == p[|p| - |Name(p)|..]
    ensures |Name(p)| < |p| ==> p[|p| - |Name(p)| - 1] == '/'
  {
    NameHasNoSlash(p);
    NameEndsPath(p);
  }

  lemma NameHasNoSlash(p: string)
    ensures '/' !in Name(p)
  {
    var i := LastIndexOf(p, '/');
    var n := Name(p);
    LastIndexOfSpec(p, '/');
    assert n == p[i + 1..];
    forall j | 0 <= j < |n|
      ensures n[j] != '/'
    {
      assert n[j] == p[i + 1 + j];
    }
  }

  lemma NameEndsPath(p: string)
    ensures |Name(p)| <= |p| && Name(p) == p[|p| - |Name(p)|..]
    ensures |Name(p)| < |p| ==> p[|p| - |Name(p)| - 1] == '/'
  {
    var i := LastIndexOf(p, '/');
    LastIndexOfSpec(p, '/');
    assert Name(p) == p[i + 1..];
    assert |p| - |Name(p)| == i + 1;
  }

  /** The directory part of a path (`PurePath.parent`): "." when there is no slash, "/" for a top-level entry. */
  function Parent(p: string): string
  {
    var i := LastIndexOf(p, '/');
    if i < 0 then "." else if i == 0 then "/" else p[..i]
  }

  /** `str(Path(dir) / name)`: one separator between the two parts. */
  function Join(dir: string, name: string): string
  {
    if |dir| > 0 && dir[|dir| - 1] == '/' then dir + name else dir + "/" + name
  }

  /** The extension of the final component (`PurePath.suffix`): from its last dot, unless that dot starts or ends the name. */
  function Suffix(p: string): string
  {
    var n := Name(p);
    var i := LastIndexOf(n, '.');
    if 0 < i < |n| - 1 then n[i..] else []
  }

  /** A suffix is empty, or a dot followed by at least one character and no further dot, and it ends the path's name. */
  lemma SuffixSpec(p: string)
    ensures Suffix(p) == [] || (2 <= |Suffix(p)| && Suffix(p)[0] == '.' && '.' !in Suffix(p)[1..])
    ensures '/' !in Suffix(p)
  {
    var n := Name(p);
    var i := LastIndexOf(n, '.');
    NameSpec(p);
    if 0 < i < |n| - 1 {
      LastIndexOfSpec(n, '.');
      LastDotTail(p, n, i);
    }
  }

  /** The suffix ends the path. */
  lemma SuffixEndsPath(p: string)
    ensures |Suffix(p)| <= |p| && Suffix(p) == p[|p| - |Suffix(p)|..]
  {
    var n := Name(p);
    var i := LastIndexOf(n, '.');
    NameSpec(p);
    if 0 < i < |n| - 1 {
      assert Suffix(p) == n[i..] == p[|p| - |n| + i..];
    } else {
      assert p[|p|..] == [];
    }
  }

  /** The tail of a name from its last dot on is a dot with no further dot, and it ends the path. */
  lemma LastDotTail(p: string, n: string, i: int)
    requires |n| <= |p| && n == p[|p| - |n|..] && '/' !in n
    requires 0 < i < |n| - 1 && n[i] == '.'
    requires forall j :: i < j < |n| ==> n[j] != '.'
    ensures 2 <= |n[i..]| && n[i..][0] == '.' && '.' !in n[i..][1..]
    ensures '/' !in n[i..]
  {
    var r := n[i..];
    assert '.' !in r[1..] by {
      forall j | 0 <= j < |r| - 1 ensures r[1..][j] != '.' {
        assert r[1..][j] == n[i + 1 + j];
      }
    }
    assert '/' !in r by {
      forall j | 0 <= j < |r| ensures r[j] != '/' {
        assert r[j] == n[i + j] && n[i + j] in n;
      }
    }
  }

  /** A file `stem.ext` in a directory has the suffix `.ext`, whatever dots the stem holds. */
  lemma SuffixOfExtension(dir: string, stem: string, ext: string)
    requires NormalPath(dir) && stem != [] && ext != []
    requires '/' !in stem && '/' !in ext && '.' !in ext
    ensures Suffix(Join(dir, stem + "." + ext)) == "." + ext
  {
    var n := stem + "." + ext;
    DottedNameHasNoSlash(stem, ext);
    ParentNameOfJoin(dir, n);
    assert n == stem + ['.'] + ext;
    LastIndexOfSplit(stem, '.', ext);
    assert n[|stem|..] == "." + ext;
  }

  lemma DottedNameHasNoSlash(stem: string, ext: string)
    requires '/' !in stem && '/' !in ext
    ensures '/' !in stem + "." + ext
  {
    var n := stem + "." + ext;
    forall j | 0 <= j < |n| ensures n[j] != '/' {
      if j < |stem| {
        assert n[j] == stem[j];
      } else if j > |stem| {
        assert n[j] == ext[j - |stem| - 1];
      }
    }
  }

  /** A name with no dot after its first character has no suffix. */
  lemma NoInnerDotNoSuffix(p: string)
    ensures Name(p) == [] || '.' !in Name(p)[1..] ==> Suffix(p) == []
  {
    LastIndexOfSpec(Name(p), '.');
  }

  /** A name whose last character is a dot, as in `movie.mkv.`, has an empty suffix. */
  lemma TrailingDotNoSuffix(p: string)
    ensures Name(p) != [] && Name(p)[|Name(p)| - 1] == '.' ==> Suffix(p) == []
  {
    LastIndexOfSpec(Name(p), '.');
  }

  /** So `stem.ext` is a media file exactly when `.ext`, lower-cased, is a configured extension. */
  lemma MediaFileByExtension(extensions: seq<string>, dir: string, stem: string, ext: string)
    requires NormalPath(dir) && stem != [] && ext != []
    requires '/' !in stem && '/' !in ext && '.' !in ext
    ensures IsMediaFile(extensions, Join(dir, stem + "." + ext)) <==> "." + Lower(ext) in extensions
  {
    SuffixOfExtension(dir, stem, ext);
    LowerKeepsDot(ext);
  }

  lemma LowerKeepsDot(ext: string)
    ensures Lower("." + ext) == "." + Lower(ext)
  {
    var l := Lower("." + ext);
    assert |l| == 1 + |ext|;
    forall k | 0 <= k < |l| ensures l[k] == ("." + Lower(ext))[k] {
      if k > 0 {
        assert ("." + ext)[k] == ext[k - 1];
      }
    }
  }

  /** A dot-file: its final component starts with '.' (`name.startswith(".")`). */
  predicate IsHidden(p: string)
  {
    var n := Name(p);
    |n| > 0 && n[0] == '.'
  }

  function LowerChar(c: char): char
  {
    if 'A' <= c <= 'Z' then (c as int + 32) as char else c
  }

  /** `str.lower()` restricted to ASCII letters. */
  function Lower(s: string): string
  {
    seq(|s|, i requires 0 <= i < |s| => LowerChar(s[i]))
  }

  /** A file is a media file when its lower-cased suffix is one of the configured extensions. */
  predicate IsMediaFile(extensions: seq<string>, p: string)
  {
    Lower(Suffix(p)) in extensions
  }

  /** No empty component and no trailing slash, as pathlib prints paths. */
  predicate NormalPath(p: string)
  {
    && |p| > 0
    && (forall k :: 0 < k < |p| ==> !(p[k - 1] == '/' && p[k] == '/'))
    && (|p| > 1 ==> p[|p| - 1] != '/')
  }

  /** The last separator of `a + [c] + b` is the `c` between them when `b` has none. */
  lemma LastIndexOfSplit(a: string, c: char, b: string)
    requires c !in b
    ensures LastIndexOf(a + [c] + b, c) == |a|
  {
    var s := a + [c] + b;
    LastIndexOfSpec(s, c);
    var i := LastIndexOf(s, c);
    assert s[|a|] == c;
  }

  /** Splitting a path into parent and name and joining them again gives the path back. */
  lemma JoinParentName(p: string)
    requires NormalPath(p) && '/' in p
    ensures Join(Parent(p), Name(p)) == p
  {
    var i := LastIndexOf(p, '/');
    LastIndexOfSpec(p, '/');
    if i > 0 {
      assert p[i] == '/';
      assert p[i - 1] != '/';
      assert p[..i] + "/" + p[i + 1..] == p;
    } else {
      assert "/" + p[1..] == p;
    }
  }

  /** Joining a normal directory and a plain file name: the parent is the directory and the name is the file. */
  lemma ParentNameOfJoin(dir: string, name: string)
    requires NormalPath(dir) && name != [] && '/' !in name
    ensures Parent(Join(dir, name)) == dir
    ensures Name(Join(dir, name)) == name
  {
    var j := Join(dir, name);
    if dir[|dir| - 1] == '/' {
      assert dir == "/";
      assert j == [] + ['/'] + name;
      LastIndexOfSplit([], '/', name);
    } else {
      assert j == dir + ['/'] + name;
      LastIndexOfSplit(dir, '/', name);
      assert j[..|dir|] == dir;
    }
  }

  /** Whether a walked file is a media file or a dot-file is decided by its name alone, not by the directory it is in. */
  lemma JoinedFileClassifiedByName(extensions: seq<string>, dir: string, name: string)
    requires NormalPath(dir) && name != [] && '/' !in name
    ensures IsMediaFile(extensions, Join(dir, name)) <==> IsMediaFile(extensions, name)
    ensures IsHidden(Join(dir, name)) <==> IsHidden(name)
  {
    ParentNameOfJoin(dir, name);
    PlainNameIsItsOwnName(name);
    assert Suffix(Join(dir, name)) == Suffix(name);
  }

  /** A name without a separator is its own final component. */
  lemma PlainNameIsItsOwnName(name: string)
    requires '/' !in name
    ensures Name(name) == name
  {
    LastIndexOfSpec(name, '/');
  }

  /** A name that is only a dot and an extension has no suffix, so such dot-files are never media files. */
  lemma DotExtensionIsNotMedia(extensions: seq<string>, dir: string, ext: string)
    requires NormalPath(dir) && '/' !in ext && '.' !in ext
    requires [] !in extensions
    ensures !IsMediaFile(extensions, Join(dir, "." + ext))
  {
    var n := "." + ext;
    ParentNameOfJoin(dir, n);
    LastIndexOfSplit([], '.', ext);
    assert [] + ['.'] + ext == n;
    assert Suffix(Join(dir, n)) == [];
    assert Lower([]) == [];
  }
}
