/** The fallback solid name: the stem of the output path, as
    `std::filesystem::path(filename).stem()` gives it on a POSIX system with
    `/` as the only separator. The file name is what follows the last `/`;
    its stem drops the last `.` and what follows it, except when the file
    name is `.` or `..`, or when its only `.` is its first character. */
module PathNames {

  /** Position of the last `c` in `s`, or -1 when `c` does not occur. */
  function LastIndexOf(s: string, c: char): (r: int)
    ensures -1 <= r < |s|
    ensures r >= 0 ==> s[r] == c
    ensures forall k :: r < k < |s| ==> s[k] != c
  {
    if |s| == 0 then -1
    else if s[|s| - 1] == c then |s| - 1
    else LastIndexOf(s[..|s| - 1], c)
  }

  /** The last component of a path (`path::filename`). */
  function FileName(path: string): (name: string)
    ensures |name| <= |path| && name == path[|path| - |name|..]
    ensures '/' !in name
    ensures |name| < |path| ==> path[|path| - |name| - 1] == '/'
  {
    path[LastIndexOf(path, '/') + 1..]
  }

  /** The file name without its extension (`path::stem`). */
  function Stem(path: string): (stem: string)
    ensures '/' !in stem
    ensures stem <= FileName(path)
  {
    NameStem(FileName(path))
  }

  /** The stem of a file name: it drops the last `.` and what follows,
      except for `.`, `..`, and a name whose only `.` is its first
      character. */
  function NameStem(name: string): (stem: string)
    ensures stem <= name
  {
    if name == "." || name == ".." then name
    else
      var dot := LastIndexOf(name, '.');
      if dot <= 0 then name else name[..dot]
  }

  /** Whether `path::stem` drops an extension from the file name `name`: a
      dot after its first character, unless the name is `.` or `..`. */
  predicate HasExtension(name: string) {
    name != "." && name != ".." && |name| > 1 && '.' in name[1..]
  }

  /** A file name without an extension is its own stem (`out`, `.hidden`). */
  lemma {:induction false} StemWhole(path: string)
    requires !HasExtension(FileName(path))
    ensures Stem(path) == FileName(path)
  {
  }

  /** With an extension, the stem is the non-empty part of the file name
      before its last dot. With `stem <= FileName(path)` this determines the
      stem. */
  lemma {:induction false} StemBeforeExtension(path: string)
    requires HasExtension(FileName(path))
    ensures var name, stem := FileName(path), Stem(path);
      && 0 < |stem| < |name|
      && name[|stem|] == '.'
      && '.' !in name[|stem| + 1..]
  {
    NameStemBeforeExtension(FileName(path));
  }

  /** `StemBeforeExtension` for a file name on its own. */
  lemma {:induction false} NameStemBeforeExtension(name: string)
    requires HasExtension(name)
    ensures var stem := NameStem(name);
      && 0 < |stem| < |name|
      && name[|stem|] == '.'
      && '.' !in name[|stem| + 1..]
  {
    LastDotAfterFirst(name);
  }

  /** A dot after the first character puts the last dot there too, with no
      dot after it. */
  lemma {:induction false} LastDotAfterFirst(name: string)
    requires |name| > 1 && '.' in name[1..]
    ensures var dot := LastIndexOf(name, '.');
      1 <= dot < |name| && name[dot] == '.' && '.' !in name[dot + 1..]
  {
    var i :| 0 <= i < |name[1..]| && name[1..][i] == '.';
    assert name[i + 1] == '.';
  }

  /** Directory and extension are both removed: for a path made of a
      directory prefix (empty or ending in `/`), a non-empty base name and a
      non-empty extension without dots, the stem is the base name. */
  lemma {:induction false} StemOfPath(dir: string, base: string, ext: string)
    requires |dir| == 0 || dir[|dir| - 1] == '/'
    requires |base| > 0 && '/' !in base
    requires |ext| > 0 && '/' !in ext && '.' !in ext
    ensures Stem(dir + base + "." + ext) == base
  {
    var tail := ['.'] + ext;
    var name := base + tail;
    assert dir + base + "." + ext == dir + name;
    assert '/' !in name by {
      assert forall x :: x in name ==> x in base || x == '.' || x in ext;
    }
    FileNameAfterDirectory(dir, name);
    StemOfFileName(dir + name, base, ext);
  }

  /** A file name made of a non-empty base, a dot and an extension without
      dots has the base as its stem. */
  lemma {:induction false} StemOfFileName(path: string, base: string, ext: string)
    requires |base| > 0 && '.' !in ext && |ext| > 0
    requires FileName(path) == base + (['.'] + ext)
    ensures Stem(path) == base
  {
    var name := FileName(path);
    assert |name| >= 3;
    assert name != "." && name != "..";
    assert LastIndexOf(name, '.') == |base| by {
      assert base + (['.'] + ext) == base + ['.'] + ext;
      LastIndexOfMarker(base, ext, '.');
    }
    assert name[..|base|] == base;
  }

  /** Everything up to the last `/` is directory. */
  lemma {:induction false} FileNameAfterDirectory(dir: string, name: string)
    requires |dir| == 0 || dir[|dir| - 1] == '/'
    requires '/' !in name
    ensures FileName(dir + name) == name
  {
    var s := dir + name;
    LastIndexOfUnique(s, '/', |dir| - 1);
    assert s[|dir|..] == name;
  }

  /** A marker followed by text without markers is the last marker. */
  lemma {:induction false} LastIndexOfMarker(pre: string, suf: string, c: char)
    requires c !in suf
    ensures LastIndexOf(pre + [c] + suf, c) == |pre|
  {
    var s := pre + [c] + suf;
    assert s[|pre|] == c;
    assert forall k :: |pre| < k < |s| ==> s[k] != c by {
      forall k | |pre| < k < |s|
        ensures s[k] != c
      {
        assert s[k] == suf[k - |pre| - 1];
      }
    }
    LastIndexOfUnique(s, c, |pre|);
  }

  /** The last occurrence is fixed by the facts `LastIndexOf` promises. */
  lemma {:induction false} LastIndexOfUnique(s: string, c: char, r: int)
    requires -1 <= r < |s|
    requires r >= 0 ==> s[r] == c
    requires forall k :: r < k < |s| ==> s[k] != c
    ensures LastIndexOf(s, c) == r
  {
    if |s| > 0 && s[|s| - 1] != c {
      LastIndexOfUnique(s[..|s| - 1], c, r);
    }
  }
}
