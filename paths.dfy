/** The path helpers of Go's standard library that the core relies on, for
    slash-separated paths: filepath.Ext, strings.TrimSuffix, path.Base,
    filepath.Join (without its Clean step) and strings.ReplaceAll(s, "/", "_"). */
module Paths {

  /** filepath.Ext: the suffix from the last '.' of the last path element,
      or "" when that element has no '.'. */
  function Ext(p: string): string
  {
    if |p| == 0 || p[|p| - 1] == '/' then ""
    else if p[|p| - 1] == '.' then "."
    else
      var e := Ext(p[..|p| - 1]);
      if e == "" then "" else e + [p[|p| - 1]]
  }

  /** The extension is a suffix of the path; it is empty or starts with
      its only '.', and holds no '/'. When it is empty, every '.' of the
      path is followed by a '/'. */
  lemma {:induction false} ExtShape(p: string)
    ensures var e := Ext(p);
      |e| <= |p| && e == p[|p| - |e|..] &&
      (e == "" || e[0] == '.') &&
      (forall i :: 0 <= i < |e| ==> e[i] != '/') &&
      (forall i :: 0 < i < |e| ==> e[i] != '.') &&
      (e == "" ==> forall i :: 0 <= i < |p| && p[i] == '.' ==> '/' in p[i..])
  {
    if |p| > 0 && p[|p| - 1] != '/' && p[|p| - 1] != '.' {
      var q := p[..|p| - 1];
      ExtShape(q);
      var e := Ext(q);
      if e == "" {
        forall i | 0 <= i < |p| && p[i] == '.' ensures '/' in p[i..] {
          assert i < |q| && q[i] == '.';
          assert '/' in q[i..];
          var j :| 0 <= j < |q[i..]| && q[i..][j] == '/';
          assert p[i..][j] == '/';
        }
      } else {
        assert e + [p[|p| - 1]] == p[|p| - |e| - 1..];
      }
    } else if |p| > 0 && p[|p| - 1] == '/' {
      forall i | 0 <= i < |p| && p[i] == '.' ensures '/' in p[i..] {
        assert p[i..][|p| - 1 - i] == '/';
      }
    }
  }

  /** strings.TrimSuffix. */
  function TrimSuffix(s: string, suffix: string): string
  {
    if |suffix| <= |s| && s[|s| - |suffix|..] == suffix then s[..|s| - |suffix|] else s
  }

  /** TrimSuffix removes the suffix when s ends with it, and nothing otherwise. */
  lemma TrimSuffixSpec(s: string, suffix: string)
    ensures |suffix| <= |s| && s[|s| - |suffix|..] == suffix ==> TrimSuffix(s, suffix) + suffix == s
    ensures !(|suffix| <= |s| && s[|s| - |suffix|..] == suffix) ==> TrimSuffix(s, suffix) == s
  {
    if |suffix| <= |s| && s[|s| - |suffix|..] == suffix {
      assert s == s[..|s| - |suffix|] + s[|s| - |suffix|..];
    }
  }

  /** The name with its last extension removed, as NewImg stores it. */
  function StripExt(name: string): string
  {
    TrimSuffix(name, Ext(name))
  }

  /** StripExt and Ext split a name in two. */
  lemma StripExtSplits(name: string)
    ensures StripExt(name) + Ext(name) == name
  {
  }

  /** A name without any '.' has no extension and is stored unchanged. */
  lemma ExtOfDotless(name: string)
    requires forall i :: 0 <= i < |name| ==> name[i] != '.'
    ensures Ext(name) == "" && StripExt(name) == name
  {
  }

  /** A final extension made of a dot and dot-free, slash-free characters is
      the whole extension of any name it ends, and StripExt removes exactly it. */
  lemma {:induction false} ExtOfAppended(f: string, e: string)
    requires |e| > 0 && e[0] == '.'
    requires forall i :: 0 < i < |e| ==> e[i] != '.' && e[i] != '/'
    ensures Ext(f + e) == e
    ensures StripExt(f + e) == f
  {
    var p := f + e;
    if |e| > 1 {
      assert p[..|p| - 1] == f + e[..|e| - 1];
      ExtOfAppended(f, e[..|e| - 1]);
    }
  }

  /** strings.ReplaceAll(s, "/", "_"). */
  function Flatten(s: string): (r: string)
    ensures |r| == |s|
    ensures forall i :: 0 <= i < |s| ==> r[i] == (if s[i] == '/' then '_' else s[i])
    ensures forall i :: 0 <= i < |r| ==> r[i] != '/'
  {
    seq(|s|, i requires 0 <= i < |s| => if s[i] == '/' then '_' else s[i])
  }

  /** Flattening keeps a non-empty extension: the filter of the zip readers
      looks at the entry's own name, the stripping at the flattened one, and
      for a kept entry the two extensions are the same. */
  lemma {:induction false} ExtOfFlatten(p: string)
    requires Ext(p) != ""
    ensures Ext(Flatten(p)) == Ext(p)
  {
    var q := Flatten(p);
    assert |p| > 0 && p[|p| - 1] != '/';
    if p[|p| - 1] != '.' {
      assert q[..|q| - 1] == Flatten(p[..|p| - 1]);
      ExtOfFlatten(p[..|p| - 1]);
    }
  }

  /** Trimming a string's own suffix leaves the part before it. */
  lemma TrimOwnSuffix(s: string, n: nat)
    requires n <= |s|
    ensures TrimSuffix(s, s[n..]) == s[..n]
  {
  }

  /** Hence a kept zip entry's hint loses exactly its extension and has its
      slashes turned into underscores (`sub/dir/photo.png` gives
      `sub_dir_photo`). */
  lemma StripFlattened(p: string)
    requires Ext(p) != ""
    ensures StripExt(Flatten(p)) == Flatten(StripExt(p))
  {
    var e, q := Ext(p), Flatten(p);
    var n := |p| - |e|;
    ExtShape(p);
    ExtOfFlatten(p);
    assert q[n..] == e by {
      forall i | 0 <= i < |e| ensures q[n..][i] == e[i] {
        assert p[n + i] == e[i];
      }
    }
    TrimOwnSuffix(q, n);
    TrimOwnSuffix(p, n);
    assert q[..n] == Flatten(p[..n]);
  }

  lemma FlattenExample()
    ensures StripExt(Flatten("sub/dir/photo.png")) == "sub_dir_photo"
  {
    ExtOfAppended("sub_dir_photo", ".png");
    assert Flatten("sub/dir/photo.png") == "sub_dir_photo" + ".png";
  }

  lemma StripExtExample()
    ensures StripExt("a.b.png") == "a.b"
  {
    ExtOfAppended("a.b", ".png");
    assert "a.b" + ".png" == "a.b.png";
  }

  function TrimTrailingSlashes(p: string): string
  {
    if |p| > 0 && p[|p| - 1] == '/' then TrimTrailingSlashes(p[..|p| - 1]) else p
  }

  /** What follows the last '/' (everything when there is none). */
  function LastElement(p: string): string
  {
    if p == [] || p[|p| - 1] == '/' then [] else LastElement(p[..|p| - 1]) + [p[|p| - 1]]
  }

  /** path.Base: the last element after trailing slashes are removed; "."
      for the empty path and "/" for a path of slashes only. */
  function Base(p: string): string
  {
    if p == "" then "."
    else
      var l := LastElement(TrimTrailingSlashes(p));
      if l == "" then "/" else l
  }

  lemma {:induction false} LastElementSlashFree(p: string)
    ensures forall i :: 0 <= i < |LastElement(p)| ==> LastElement(p)[i] != '/'
  {
    if p != [] && p[|p| - 1] != '/' {
      LastElementSlashFree(p[..|p| - 1]);
    }
  }

  /** The base is never empty, and it holds no '/' unless it is "/". */
  lemma BaseShape(p: string)
    ensures Base(p) != ""
    ensures Base(p) == "/" || forall i :: 0 <= i < |Base(p)| ==> Base(p)[i] != '/'
  {
    if p != "" {
      LastElementSlashFree(TrimTrailingSlashes(p));
    }
  }

  /** filepath.Join of a directory and an entry name, without the Clean step. */
  function Join(dir: string, name: string): string
  {
    if dir == "" then name else dir + "/" + name
  }

  lemma {:induction false} LastElementOfSlashFree(d: string, name: string)
    requires forall i :: 0 <= i < |name| ==> name[i] != '/'
    ensures LastElement(d + "/" + name) == name
  {
    var p := d + "/" + name;
    if name == [] {
      assert p[|p| - 1] == '/';
    } else {
      assert p[..|p| - 1] == d + "/" + name[..|name| - 1];
      LastElementOfSlashFree(d, name[..|name| - 1]);
    }
  }

  lemma {:induction false} LastElementOfSlashFreeWhole(name: string)
    requires forall i :: 0 <= i < |name| ==> name[i] != '/'
    ensures LastElement(name) == name
  {
    if name != [] {
      LastElementOfSlashFreeWhole(name[..|name| - 1]);
    }
  }

  /** The base of a joined path is the entry name: NewImgByFilepath never
      lets the directory reach the image's Filename. */
  lemma BaseOfJoin(dir: string, name: string)
    requires name != "" && forall i :: 0 <= i < |name| ==> name[i] != '/'
    ensures Base(Join(dir, name)) == name
  {
    if dir == "" {
      LastElementOfSlashFreeWhole(name);
    } else {
      LastElementOfSlashFree(dir, name);
    }
  }
}
