/**
 * Local naming: the page title and the local output path, both derived from the
 * input path (src/main.rs:93-96, 229-230). Paths follow the rules of Rust's
 * `std::path::Path` on Unix: '/' separates components, repeated and trailing
 * separators are ignored, a "." component is dropped, and ".." names no file.
 */
module LocalNaming {
  import opened Wrappers

  const Fallback: string := "Document"

  /** True when the last component of `q` is ".". */
  predicate EndsWithCurDir(q: string) {
    q == "." || (|q| >= 2 && q[|q| - 2] == '/' && q[|q| - 1] == '.')
  }

  /** True when the character at `j` of `p` is a separator or makes up a whole "." component. */
  predicate Droppable(p: string, j: nat)
    requires j < |p|
  {
    p[j] == '/' || (p[j] == '.' && (j == 0 || p[j - 1] == '/') && (j + 1 == |p| || p[j + 1] == '/'))
  }

  /**
   * The path with trailing separators and trailing "." components removed, as Rust's
   * component parser skips them from the back; what remains ends in the last real component,
   * and everything removed is a separator or a "." component.
   */
  function StripTail(p: string): (q: string)
    ensures q <= p
    ensures q == [] || (q[|q| - 1] != '/' && !EndsWithCurDir(q))
    ensures forall j :: |q| <= j < |p| ==> Droppable(p, j)
    decreases |p|
  {
    if p == [] then []
    else if p[|p| - 1] == '/' || EndsWithCurDir(p) then
      var q := StripTail(p[..|p| - 1]);
      assert forall j :: |q| <= j < |p| ==> Droppable(p, j) by {
        forall j | |q| <= j < |p| - 1 ensures Droppable(p, j) {
          assert Droppable(p[..|p| - 1], j);
        }
      }
      q
    else p
  }

  /** Where the last component of `q` starts: just after its last '/', or 0. */
  function ComponentStart(q: string): (k: nat)
    ensures k <= |q|
    ensures '/' !in q[k..]
    ensures k > 0 ==> q[k - 1] == '/'
    decreases |q|
  {
    if q == [] || q[|q| - 1] == '/' then |q| else ComponentStart(q[..|q| - 1])
  }

  /** The last component of the path when it names a file (Rust's `file_name`). */
  function FileName(p: string): (name: Option<string>)
    ensures name.Some? ==> name.value != [] && '/' !in name.value
    ensures name.Some? ==> name.value != "." && name.value != ".."
  {
    var q := StripTail(p);
    var last := q[ComponentStart(q)..];
    if last == [] || last == ".." then None else Some(last)
  }

  /** The part of the path before its file name (the directory, with its separator). */
  function DirPart(p: string): (d: string)
    ensures d <= p
    ensures d == [] || d[|d| - 1] == '/'
  {
    var q := StripTail(p);
    q[..ComponentStart(q)]
  }

  /** Index of the last occurrence of `c` in `s`. */
  function LastIndexOf(s: string, c: char): (i: Option<nat>)
    ensures i.None? ==> c !in s
    ensures i.Some? ==> i.value < |s| && s[i.value] == c && c !in s[i.value + 1..]
    decreases |s|
  {
    if s == [] then None
    else if s[|s| - 1] == c then Some(|s| - 1)
    else LastIndexOf(s[..|s| - 1], c)
  }

  /**
   * Rust's `rsplit_file_at_dot` on a file name: the stem and the extension. The name is
   * cut at its last '.', except that ".." and a name whose only '.' leads it (".bashrc")
   * are all stem and have no extension.
   */
  function SplitAtDot(name: string): (parts: (string, Option<string>))
    ensures parts.1.None? ==> parts.0 == name
    ensures parts.1.Some? ==> name == parts.0 + "." + parts.1.value
  {
    if name == ".." then (name, None)
    else match LastIndexOf(name, '.')
      case None => (name, None)
      case Some(i) => if i == 0 then (name, None) else (name[..i], Some(name[i + 1..]))
  }

  /** The file name without its final extension (Rust's `file_stem`). */
  function FileStem(p: string): (stem: Option<string>)
    ensures stem.Some? <==> FileName(p).Some?
    ensures stem.Some? ==> stem.value <= FileName(p).value
  {
    match FileName(p)
    case None => None
    case Some(name) => Some(SplitAtDot(name).0)
  }

  /** The final extension of the file name, without its dot (Rust's `extension`). */
  function Extension(p: string): (ext: Option<string>)
    ensures ext.Some? ==> FileName(p).Some? && '.' !in ext.value
  {
    match FileName(p)
    case None => None
    case Some(name) => SplitAtDot(name).1
  }

  /** How a file name splits: a non-empty stem, then "." and an extension without '.', or
      no extension when the name has no '.' or only a leading one. */
  lemma SplitAtDotParts(name: string)
    requires name != [] && name != ".."
    ensures SplitAtDot(name).0 != []
    ensures SplitAtDot(name).1.Some? ==> '.' !in SplitAtDot(name).1.value
    ensures SplitAtDot(name).1.Some? ==>
      name == SplitAtDot(name).0 + "." + SplitAtDot(name).1.value
    ensures SplitAtDot(name).1.None? ==>
      name == SplitAtDot(name).0 && '.' !in name[1..]
  {
    match LastIndexOf(name, '.')
    case None =>
    case Some(i) =>
      if i == 0 {
        assert name[1..] == name[i + 1..];
      }
  }

  /** The stem and the extension put back together give the file name; the stem is never
      empty, and neither part holds a '/'; the extension holds no '.'. */
  lemma StemAndExtension(p: string)
    ensures FileStem(p).Some? <==> FileName(p).Some?
    ensures Extension(p).Some? ==> FileStem(p).Some?
    ensures FileStem(p).Some? ==> FileStem(p).value != [] && '/' !in FileStem(p).value
    ensures Extension(p).Some? ==> '.' !in Extension(p).value && '/' !in Extension(p).value
    ensures FileName(p).Some? ==>
      FileName(p).value == FileStem(p).value + (if Extension(p).Some? then "." + Extension(p).value else "")
    ensures FileName(p).Some? && Extension(p).None? ==>
      '.' !in FileName(p).value[1..]
  {
    if FileName(p).Some? {
      var name := FileName(p).value;
      SplitAtDotParts(name);
      NoSlashInParts(name);
    }
  }

  /** Neither the stem nor the extension of a name without '/' holds one. */
  lemma NoSlashInParts(name: string)
    requires '/' !in name
    ensures '/' !in SplitAtDot(name).0
    ensures SplitAtDot(name).1.Some? ==> '/' !in SplitAtDot(name).1.value
  {
    var (stem, ext) := SplitAtDot(name);
    assert stem == name[..|stem|];
    if ext.Some? {
      assert ext.value == name[|stem| + 1..];
    }
  }

  /** The page title: the file stem, or "Document" when there is none (src/main.rs:93-96).
      The input path is text, so the stem always is too: Rust's `to_str` cannot fail here. */
  function Title(p: string): (title: string)
    ensures title != []
    ensures FileName(p).None? ==> title == Fallback
    ensures FileName(p).Some? ==> Some(title) == FileStem(p)
  {
    StemAndExtension(p);
    FileStem(p).UnwrapOr(Fallback)
  }

  /** Where the stem ends in the original path: just after the stem of the last component. */
  function StemEnd(p: string): (k: nat)
    requires FileName(p).Some?
    ensures k <= |p|
  {
    var q := StripTail(p);
    ComponentStart(q) + |SplitAtDot(FileName(p).value).0|
  }

  /**
   * Rust's `with_extension`: when the path has a file stem, cut the path right after the
   * stem (dropping the old extension and any trailing separators or "." components) and
   * append "." and the new extension unless it is empty; otherwise leave the path as it is.
   */
  function WithExtension(p: string, ext: string): (r: string)
    ensures FileName(p).None? ==> r == p
    ensures FileName(p).Some? ==>
      r == DirPart(p) + FileStem(p).value + (if ext == [] then [] else "." + ext)
  {
    if FileName(p).None? then p
    else StemCut(p); p[..StemEnd(p)] + (if ext == [] then [] else "." + ext)
  }

  /** The local output path: the input path with its extension replaced by "html" (src/main.rs:230). */
  function OutputPath(p: string): (out: string)
    ensures FileName(p).None? ==> out == p
    ensures FileName(p).Some? ==> out == DirPart(p) + FileStem(p).value + ".html"
  {
    WithExtension(p, "html")
  }

  /** The file name sits right after the directory part in the path. */
  lemma DirThenName(p: string)
    requires FileName(p).Some?
    ensures DirPart(p) + FileName(p).value <= p
  {
  }

  /** Cutting the path where the stem ends leaves the directory part and the stem. */
  lemma StemCut(p: string)
    requires FileName(p).Some?
    ensures StemEnd(p) == |DirPart(p)| + |FileStem(p).value|
    ensures p[..StemEnd(p)] == DirPart(p) + FileStem(p).value
  {
    var q := StripTail(p);
    PrefixCut(p, q, ComponentStart(q), FileStem(p).value);
  }

  /** Cutting `p` after a prefix `q[..k]` and a prefix `s` of `q[k..]`. */
  lemma PrefixCut(p: string, q: string, k: nat, s: string)
    requires q <= p && k <= |q| && s <= q[k..]
    ensures p[..k + |s|] == q[..k] + s
  {
    assert q[k..][..|s|] == s;
  }

  /** A component appended after a directory part (empty or ending in '/') starts where the
      directory part ends. */
  lemma {:induction false} ComponentStartAfterDir(d: string, name: string)
    requires d == [] || d[|d| - 1] == '/'
    requires '/' !in name
    ensures ComponentStart(d + name) == |d|
    decreases |name|
  {
    if name == [] {
      assert d + name == d;
    } else {
      assert (d + name)[..|d + name| - 1] == d + name[..|name| - 1];
      assert name[|name| - 1] in name;
      ComponentStartAfterDir(d, name[..|name| - 1]);
    }
  }

  /** The file name of a directory part followed by a plain name is that name. */
  lemma NameAfterDir(d: string, name: string)
    requires d == [] || d[|d| - 1] == '/'
    requires name != [] && '/' !in name && name != "." && name != ".."
    ensures FileName(d + name) == Some(name)
    ensures DirPart(d + name) == d
  {
    var p := d + name;
    assert p[|p| - 1] == name[|name| - 1];
    assert name[|name| - 1] in name;
    assert StripTail(p) == p;
    ComponentStartAfterDir(d, name);
    assert p[|d|..] == name;
  }

  /** The last '.' of `stem + "." + ext` is the one before `ext` when `ext` holds no '.'. */
  lemma SplitAfterStem(stem: string, ext: string)
    requires stem != [] && ext != [] && '.' !in ext
    ensures SplitAtDot(stem + "." + ext) == (stem, Some(ext))
  {
    var name := stem + "." + ext;
    assert name[|stem|] == '.';
    var i := LastIndexOf(name, '.');
    assert i.Some?;
    var j := i.value;
    assert name[..|stem|] == stem;
    assert name[|stem| + 1..] == ext;
  }

  /** A name `stem + ".html"` after a directory part: its file name, stem and extension. */
  lemma HtmlNameAfterDir(d: string, stem: string)
    requires d == [] || d[|d| - 1] == '/'
    requires stem != [] && '/' !in stem
    ensures FileName(d + stem + ".html") == Some(stem + ".html")
    ensures DirPart(d + stem + ".html") == d
    ensures FileStem(d + stem + ".html") == Some(stem)
    ensures Extension(d + stem + ".html") == Some("html")
  {
    var name := stem + ".html";
    var p := d + name;
    assert d + stem + ".html" == p;
    assert '/' !in name;
    assert name[|name| - 1] == 'l';
    NameAfterDir(d, name);
    assert name == stem + "." + "html";
    SplitAfterStem(stem, "html");
    assert FileStem(p) == Some(stem);
    assert Extension(p) == Some("html");
  }

  /**
   * The output path keeps the input's directory, and its file name is the input's stem
   * followed by ".html"; without a file name the path is left as it is
   * (src/main.rs:229-230).
   */
  lemma OutputPathShape(p: string)
    ensures FileName(p).Some? ==> DirPart(OutputPath(p)) == DirPart(p)
    ensures FileName(p).Some? ==> FileName(OutputPath(p)) == Some(FileStem(p).value + ".html")
    ensures FileName(p).Some? ==> FileStem(OutputPath(p)) == FileStem(p)
    ensures FileName(p).Some? ==> Extension(OutputPath(p)) == Some("html")
  {
    if FileName(p).Some? {
      StemCut(p);
      StemAndExtension(p);
      var d, stem := DirPart(p), FileStem(p).value;
      assert OutputPath(p) == d + stem + ".html";
      HtmlNameAfterDir(d, stem);
    }
  }

  /** When the title is not the fallback, the output file is named after it:
      `title ++ ".html"` (src/main.rs:93-96, 229-230). */
  lemma OutputNamedAfterTitle(p: string)
    requires FileName(p).Some?
    ensures FileName(OutputPath(p)) == Some(Title(p) + ".html")
    ensures Title(OutputPath(p)) == Title(p)
  {
    OutputPathShape(p);
  }

  /** Producing the output path again changes nothing. */
  lemma OutputPathIdempotent(p: string)
    ensures OutputPath(OutputPath(p)) == OutputPath(p)
  {
    OutputPathShape(p);
    if FileName(p).Some? {
      var out := OutputPath(p);
      OutputPathShape(out);
    }
  }

  /** A file `<dir><stem>.<ext>` is titled `<stem>` and written to `<dir><stem>.html`. */
  lemma TitleAndOutputOfPlainFile(d: string, stem: string, ext: string)
    requires d == [] || d[|d| - 1] == '/'
    requires stem != [] && '/' !in stem
    requires ext != [] && '.' !in ext && '/' !in ext
    ensures Title(d + stem + "." + ext) == stem
    ensures OutputPath(d + stem + "." + ext) == d + stem + ".html"
  {
    var name := stem + "." + ext;
    var p := d + name;
    assert d + stem + "." + ext == p;
    assert '/' !in name by {
      forall j | 0 <= j < |name| ensures name[j] != '/' {
        if j < |stem| { assert name[j] == stem[j]; }
        else if j > |stem| { assert name[j] == ext[j - |stem| - 1]; }
      }
    }
    assert name[|name| - 1] == ext[|ext| - 1];
    NameAfterDir(d, name);
    SplitAfterStem(stem, ext);
    assert FileStem(p) == Some(stem);
    OutputPathShape(p);
  }

  /** A file whose only '.' leads its name (`<dir>.<rest>`) is all stem: it is titled
      `.<rest>` and written to `<dir>.<rest>.html`. */
  lemma DotFileIsAllStem(d: string, rest: string)
    requires d == [] || d[|d| - 1] == '/'
    requires rest != [] && '.' !in rest && '/' !in rest
    ensures Title(d + "." + rest) == "." + rest
    ensures OutputPath(d + "." + rest) == d + "." + rest + ".html"
  {
    var name := "." + rest;
    assert d + "." + rest == d + name;
    assert '/' !in name by {
      forall j | 0 <= j < |name| ensures name[j] != '/' {
        if j > 0 { assert name[j] == rest[j - 1]; }
      }
    }
    assert name[1] == rest[0] && rest[0] in rest;
    NameAfterDir(d, name);
    var i := LastIndexOf(name, '.');
    assert i == Some(0);
    assert FileStem(d + name) == Some(name);
    OutputPathShape(d + name);
  }

  /** A path whose last component is ".." names no file: the title falls back to
      "Document" and the output path is the input path itself. */
  lemma ParentDirNamesNoFile(d: string)
    requires d == [] || d[|d| - 1] == '/'
    ensures FileName(d + "..") == None
    ensures Title(d + "..") == Fallback
    ensures OutputPath(d + "..") == d + ".."
  {
    var p := d + "..";
    assert p[|p| - 2] == '.' && p[|p| - 1] == '.';
    assert StripTail(p) == p;
    ComponentStartAfterDir(d, "..");
    assert p[|d|..] == "..";
  }

  /** A trailing separator changes neither what is stripped nor the file name. */
  lemma TrailingSlashIgnored(p: string)
    ensures StripTail(p + "/") == StripTail(p)
    ensures FileName(p + "/") == FileName(p)
    ensures DirPart(p + "/") == DirPart(p)
  {
    assert (p + "/")[..|p + "/"| - 1] == p;
  }

  /** A trailing "." component changes neither what is stripped nor the file name. */
  lemma TrailingCurDirIgnored(p: string)
    ensures StripTail(p + "/.") == StripTail(p)
    ensures FileName(p + "/.") == FileName(p)
    ensures DirPart(p + "/.") == DirPart(p)
  {
    var p2 := p + "/.";
    assert p2[|p2| - 2] == '/' && p2[|p2| - 1] == '.';
    assert p2[..|p2| - 1] == p + "/";
    TrailingSlashIgnored(p);
  }

  /** A path that names a file keeps its output path when a separator or a "." component
      is appended: `a/b.md/` and `a/b.md/.` are both written to `a/b.html`. */
  lemma TrailingSeparatorKeepsOutput(p: string)
    requires FileName(p).Some?
    ensures OutputPath(p + "/") == OutputPath(p)
    ensures OutputPath(p + "/.") == OutputPath(p)
  {
    TrailingSlashIgnored(p);
    TrailingCurDirIgnored(p);
  }

  /**
   * A path names no file exactly when nothing is left once trailing separators and "."
   * components are stripped (the empty path, "/", ".") or when what is left ends in a
   * ".." component.
   */
  lemma NoFileNameExactly(p: string)
    ensures var q := StripTail(p);
      FileName(p).None? <==> q == [] || q == ".." || (|q| >= 3 && q[|q| - 3..] == "/..")
  {
    var q := StripTail(p);
    var k := ComponentStart(q);
    if q != [] {
      assert k < |q|;
      if q == ".." {
        assert q[0] == '.' && q[1] == '.';
        assert k == 0;
      }
      if |q| >= 3 && q[|q| - 3..] == "/.." {
        assert q[|q| - 3] == '/' && q[|q| - 2] == '.' && q[|q| - 1] == '.';
        assert k == |q| - 2;
      }
      if q[k..] == ".." && k > 0 {
        assert q[|q| - 3..] == q[k - 1..];
      }
    }
  }
}
