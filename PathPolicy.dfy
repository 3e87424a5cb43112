/** Where a recompressed copy is written (JpegQuality.cs:135):

      info.DirectoryName + "\" + info.Name.Replace(info.Extension, "") + "-" + Quality + info.Extension

    A path is split into its directory and its file name at the last separator ('\' or
    '/'); the extension is the part of the file name from its last '.', as
    FileSystemInfo.Extension gives it. The model takes every path as already full and
    normalised. */
module PathPolicy {
  import opened Strings

  /** The quality setting, within the range the JPEG encoder accepts. */
  type Quality = q: int | 0 <= q <= 100

  predicate IsSeparator(c: char)
  {
    c == '\\' || c == '/'
  }

  predicate NoSeparator(s: string)
  {
    forall k :: 0 <= k < |s| ==> !IsSeparator(s[k])
  }

  /** Index at which the file name starts: just after the last separator, or 0. */
  function NameStart(path: string): (k: nat)
    ensures k <= |path|
  {
    if path == [] then 0
    else if IsSeparator(path[|path| - 1]) then |path|
    else NameStart(path[..|path| - 1])
  }

  /** FileInfo.Name: what follows the last separator. */
  function FileName(path: string): string
  {
    path[NameStart(path)..]
  }

  /** FileInfo.DirectoryName: what precedes the last separator. */
  function DirectoryName(path: string): string
  {
    if NameStart(path) == 0 then "" else path[..NameStart(path) - 1]
  }

  /** FileInfo.Extension: the file name from its last '.', or empty when it has none. */
  function Extension(name: string): (ext: string)
    ensures |ext| <= |name|
  {
    if name == [] then []
    else if name[|name| - 1] == '.' then "."
    else
      var e := Extension(name[..|name| - 1]);
      if e == [] then [] else e + [name[|name| - 1]]
  }

  /** The file name of the copy: every occurrence of the extension removed from the file
      name, then "-", the quality in decimal, and the extension. .NET refuses to replace an
      empty string, hence the precondition. */
  function DestinationName(name: string, quality: Quality): string
    requires Extension(name) != []
  {
    RemoveAll(name, Extension(name)) + "-" + NatToString(quality) + Extension(name)
  }

  /** The path the copy of `path` is written to, in the same directory. */
  function Destination(path: string, quality: Quality): string
    requires Extension(FileName(path)) != []
  {
    DirectoryName(path) + "\\" + DestinationName(FileName(path), quality)
  }

  // ---------------------------------------------------------------- the parts of a path

  /** The file name starts just after a separator, or at the start, and holds no separator:
      it is what follows the last separator. */
  lemma {:induction false} NameStartFacts(path: string)
    ensures NameStart(path) > 0 ==> IsSeparator(path[NameStart(path) - 1])
    ensures NoSeparator(path[NameStart(path)..])
    decreases |path|
  {
    if path != [] && !IsSeparator(path[|path| - 1]) {
      var p := path[..|path| - 1];
      NameStartFacts(p);
      var k := NameStart(p);
      assert path[k..] == p[k..] + [path[|path| - 1]];
    }
  }

  /** The extension is empty exactly when the name holds no '.'. */
  lemma {:induction false} ExtensionEmpty(name: string)
    ensures Extension(name) == [] <==> Count(name, '.') == 0
    decreases |name|
  {
    if name != [] {
      var p := name[..|name| - 1];
      var c := name[|name| - 1];
      assert Count(name, '.') == Count(p, '.') + (if c == '.' then 1 else 0);
      if c != '.' {
        ExtensionEmpty(p);
      }
    }
  }

  /** A non-empty extension starts with the only '.' it holds. */
  lemma {:induction false} ExtensionDot(name: string)
    requires Extension(name) != []
    ensures Extension(name)[0] == '.' && Count(Extension(name), '.') == 1
    decreases |name|
  {
    var p := name[..|name| - 1];
    var c := name[|name| - 1];
    if c == '.' {
      assert Count(".", '.') == Count([], '.') + 1;
    } else {
      var e := Extension(p);
      ExtensionDot(p);
      var e' := e + [c];
      assert e'[..|e|] == e;
      assert Count(e', '.') == Count(e, '.');
    }
  }

  /** The extension ends the name. */
  lemma {:induction false} ExtensionSuffix(name: string)
    ensures EndsWith(name, Extension(name))
    decreases |name|
  {
    if name != [] && name[|name| - 1] != '.' {
      var p := name[..|name| - 1];
      var c := name[|name| - 1];
      var e := Extension(p);
      ExtensionSuffix(p);
      if e != [] {
        assert name == p + [c];
        assert name[|name| - |e| - 1..] == p[|p| - |e|..] + [c];
      }
    }
  }

  // ---------------------------------------------------------------- helper facts

  lemma NoSeparatorByCount(s: string)
    requires Count(s, '\\') == 0 && Count(s, '/') == 0
    ensures NoSeparator(s)
  {
    CountZero(s, '\\');
    CountZero(s, '/');
    assert forall k :: 0 <= k < |s| ==> s[k] in s;
  }

  lemma CountByNoSeparator(s: string)
    requires NoSeparator(s)
    ensures Count(s, '\\') == 0 && Count(s, '/') == 0
  {
    CountZero(s, '\\');
    CountZero(s, '/');
  }

  /** After a separator, a string without separators is the whole file name. */
  lemma {:induction false} NameStartAfterSeparator(dir: string, sep: char, name: string)
    requires IsSeparator(sep) && NoSeparator(name)
    ensures NameStart(dir + [sep] + name) == |dir| + 1
    decreases |name|
  {
    var p := dir + [sep] + name;
    if name != [] {
      assert p[..|p| - 1] == dir + [sep] + name[..|name| - 1];
      NameStartAfterSeparator(dir, sep, name[..|name| - 1]);
    } else {
      assert p[|p| - 1] == sep;
    }
  }

  /** Joining a directory and a file name with '\' and splitting the result again gives
      back both parts. */
  lemma JoinSplit(dir: string, name: string)
    requires NoSeparator(name)
    ensures FileName(dir + "\\" + name) == name
    ensures DirectoryName(dir + "\\" + name) == dir
  {
    var p := dir + "\\" + name;
    assert p == dir + ['\\'] + name;
    NameStartAfterSeparator(dir, '\\', name);
    assert p[|dir| + 1..] == name;
    assert p[..|dir|] == dir;
  }

  /** The new file name holds no separator. */
  lemma DestinationNameNoSeparator(name: string, quality: Quality)
    requires Extension(name) != [] && NoSeparator(name)
    ensures NoSeparator(DestinationName(name, quality))
  {
    var ext := Extension(name);
    var r := RemoveAll(name, ext);
    var q := NatToString(quality);
    ExtensionSuffix(name);
    assert NoSeparator(ext) by {
      forall k | 0 <= k < |ext|
        ensures !IsSeparator(ext[k])
      {
        assert ext[k] == name[|name| - |ext| + k];
      }
    }
    CountByNoSeparator(name);
    CountByNoSeparator(ext);
    RemoveAllCount(name, ext, '\\');
    RemoveAllCount(name, ext, '/');
    NoSeparatorByCount(r);
    NatToStringHasNo(quality, '\\');
    NatToStringHasNo(quality, '/');
    NoSeparatorByCount(q);
  }

  /** A '.'-extension with one dot at its start is the extension of anything ending in it. */
  lemma {:induction false} ExtensionOfSuffix(x: string, e: string)
    requires e != [] && e[0] == '.' && Count(e, '.') == 1
    ensures Extension(x + e) == e
    decreases |e|
  {
    var s := x + e;
    if |e| == 1 {
      assert s[|s| - 1] == '.';
    } else {
      var e' := e[..|e| - 1];
      var c := e[|e| - 1];
      assert e == e' + [c];
      assert e'[0] == '.';
      assert Count(e', '.') >= 1 by {
        CountZero(e', '.');
        assert e'[0] in e';
      }
      assert c != '.';
      assert s[..|s| - 1] == x + e';
      ExtensionOfSuffix(x, e');
    }
  }

  /** A '.' followed by text without '.' holds one '.'. */
  lemma OneDot(rest: string)
    requires '.' !in rest
    ensures Count("." + rest, '.') == 1
  {
    CountZero(rest, '.');
    CountConcat(".", rest, '.');
    assert Count(".", '.') == Count([], '.') + 1;
  }

  lemma Sixty()
    ensures NatToString(60) == "60"
  {
  }

  // ---------------------------------------------------------------- properties of the name

  /** The copy's path is the source's directory joined with the copy's file name. */
  lemma DestinationParts(path: string, quality: Quality)
    requires Extension(FileName(path)) != []
    ensures DirectoryName(Destination(path, quality)) == DirectoryName(path)
    ensures FileName(Destination(path, quality)) == DestinationName(FileName(path), quality)
  {
    NameStartFacts(path);
    DestinationNameNoSeparator(FileName(path), quality);
    JoinSplit(DirectoryName(path), DestinationName(FileName(path), quality));
  }

  /** The copy's path ends with "-", the quality and the source's extension. */
  lemma DestinationSuffix(path: string, quality: Quality)
    requires Extension(FileName(path)) != []
    ensures EndsWith(Destination(path, quality),
                     "-" + NatToString(quality) + Extension(FileName(path)))
  {
    var name := FileName(path);
    var suffix := "-" + NatToString(quality) + Extension(name);
    assert Destination(path, quality) ==
           (DirectoryName(path) + "\\" + RemoveAll(name, Extension(name))) + suffix;
    EndsWithConcat(DirectoryName(path) + "\\" + RemoveAll(name, Extension(name)), suffix);
  }

  /** The copy lies in the source's directory, its file name is `DestinationName`, and that
      name ends with "-", the quality and the source's extension in its original case. */
  lemma DestinationShape(path: string, quality: Quality)
    requires Extension(FileName(path)) != []
    ensures DirectoryName(Destination(path, quality)) == DirectoryName(path)
    ensures FileName(Destination(path, quality)) == DestinationName(FileName(path), quality)
    ensures EndsWith(Destination(path, quality),
                     "-" + NatToString(quality) + Extension(FileName(path)))
  {
    DestinationParts(path, quality);
    DestinationSuffix(path, quality);
  }

  /** When the extension occurs in the file name only at its end, the copy's name is the
      stem, "-", the quality and the extension. */
  lemma DestinationOfPlainName(name: string, quality: Quality)
    requires Extension(name) != []
    requires forall i :: 0 <= i < |name| - |Extension(name)| ==> !OccursAt(name, Extension(name), i)
    ensures DestinationName(name, quality) ==
            name[..|name| - |Extension(name)|] + "-" + NatToString(quality) + Extension(name)
  {
    ExtensionSuffix(name);
    RemoveAllOnlySuffix(name, Extension(name));
  }

  // The three examples below are assembled from these facts about their literals.

  lemma JpgExtensions()
    ensures Extension("a.jpg") == ".jpg" && Extension("a.jpg.jpg") == ".jpg"
  {
    OneDot("jpg");
    assert "." + "jpg" == ".jpg";
    assert "a.jpg" == "a" + ".jpg";
    ExtensionOfSuffix("a", ".jpg");
    assert "a.jpg.jpg" == "a.jpg" + ".jpg";
    ExtensionOfSuffix("a.jpg", ".jpg");
  }

  lemma JpgRemovals()
    ensures RemoveAll("a.jpg", ".jpg") == "a" && RemoveAll("a.jpg.jpg", ".jpg") == "a"
  {
    assert "a.jpg" == ['a'] + (".jpg" + []);
    assert "a.jpg"[..4][0] != ".jpg"[0];
    RemoveAllKeeps('a', ".jpg" + [], ".jpg");
    RemoveAllDrops(".jpg", []);
    assert "a.jpg.jpg" == ['a'] + (".jpg" + (".jpg" + []));
    assert "a.jpg.jpg"[..4][0] != ".jpg"[0];
    RemoveAllKeeps('a', ".jpg" + (".jpg" + []), ".jpg");
    RemoveAllDrops(".jpg", ".jpg" + []);
  }

  lemma JpgName()
    ensures "a" + "-" + NatToString(60) + ".jpg" == "a-60.jpg"
  {
    Sixty();
  }

  /** Every occurrence of the extension goes, not only the last: "a.jpg.jpg" at quality 60
      becomes "a-60.jpg". */
  lemma DoubledExtensionExample()
    ensures Extension("a.jpg.jpg") == ".jpg" && DestinationName("a.jpg.jpg", 60) == "a-60.jpg"
  {
    JpgExtensions();
    JpgRemovals();
    JpgName();
  }

  /** Because every occurrence goes, two different files of one directory can share a
      copy: "a.jpg" and "a.jpg.jpg" are both copied to "a-60.jpg". */
  lemma SharedDestinationExample()
    ensures Extension("a.jpg") == ".jpg" && Extension("a.jpg.jpg") == ".jpg"
    ensures DestinationName("a.jpg", 60) == DestinationName("a.jpg.jpg", 60) == "a-60.jpg"
  {
    JpgExtensions();
    JpgRemovals();
    JpgName();
  }

  lemma DirectoryParts()
    ensures FileName("C:\\img\\x.JPG") == "x.JPG" && DirectoryName("C:\\img\\x.JPG") == "C:\\img"
  {
    var n := "x.JPG";
    assert "C:\\img\\x.JPG" == "C:\\img" + "\\" + n;
    assert NoSeparator(n);
    JoinSplit("C:\\img", n);
  }

  lemma UpperJpgParts()
    ensures Extension("x.JPG") == ".JPG" && RemoveAll("x.JPG", ".JPG") == "x"
  {
    OneDot("JPG");
    assert "." + "JPG" == ".JPG";
    assert "x.JPG" == "x" + ".JPG";
    ExtensionOfSuffix("x", ".JPG");
    assert "x.JPG" == ['x'] + (".JPG" + []);
    assert "x.JPG"[..4][0] != ".JPG"[0];
    RemoveAllKeeps('x', ".JPG" + [], ".JPG");
    RemoveAllDrops(".JPG", []);
  }

  lemma UpperJpgPath()
    ensures "C:\\img" + "\\" + ("x" + "-" + NatToString(60) + ".JPG") == "C:\\img\\x-60.JPG"
  {
    Sixty();
  }

  /** The directory is kept and the extension keeps its letter case. */
  lemma DirectoryExample()
    ensures FileName("C:\\img\\x.JPG") == "x.JPG" && Extension("x.JPG") == ".JPG"
    ensures Destination("C:\\img\\x.JPG", 60) == "C:\\img\\x-60.JPG"
  {
    DirectoryParts();
    UpperJpgParts();
    UpperJpgPath();
  }

  /** Recomputing on the copy's path is defined again: the copy keeps the source's extension. */
  lemma DestinationKeepsExtension(path: string, quality: Quality)
    requires Extension(FileName(path)) != []
    ensures Extension(FileName(Destination(path, quality))) == Extension(FileName(path))
  {
    var name := FileName(path);
    var ext := Extension(name);
    ExtensionDot(name);
    DestinationShape(path, quality);
    assert DestinationName(name, quality) ==
           (RemoveAll(name, ext) + "-" + NatToString(quality)) + ext;
    ExtensionOfSuffix(RemoveAll(name, ext) + "-" + NatToString(quality), ext);
  }

  /** The copy's name has the source's dots, less one per removal, plus the extension's. */
  lemma DestinationNameDots(name: string, quality: Quality)
    requires Extension(name) != []
    ensures Count(DestinationName(name, quality), '.') + Removed(name, Extension(name))
            == Count(name, '.') + 1
  {
    var ext := Extension(name);
    var r := RemoveAll(name, ext);
    var q := NatToString(quality);
    ExtensionDot(name);
    RemoveAllCount(name, ext, '.');
    NatToStringHasNo(quality, '.');
    assert Count("-", '.') == 0 by { CountZero("-", '.'); }
    CountConcat("-", q, '.');
    assert DestinationName(name, quality) == r + ("-" + q) + ext;
    CountConcat(r, "-" + q, '.');
    CountConcat(r + ("-" + q), ext, '.');
  }

  /** The copy's file name is never the source's file name. */
  lemma DestinationNameIsNew(name: string, quality: Quality)
    requires Extension(name) != []
    ensures DestinationName(name, quality) != name
  {
    var ext := Extension(name);
    DestinationNameDots(name, quality);
    if Removed(name, ext) == 1 {
      // one removal took |ext| characters, and the new name adds more than that back
      RemoveAllLength(name, ext);
      assert |DestinationName(name, quality)| ==
             |RemoveAll(name, ext)| + 1 + |NatToString(quality)| + |ext|;
    }
  }

  /** The copy is never written over the source. */
  lemma DestinationIsNotSource(path: string, quality: Quality)
    requires Extension(FileName(path)) != []
    ensures Destination(path, quality) != path
  {
    DestinationShape(path, quality);
    DestinationNameIsNew(FileName(path), quality);
  }

  /** For a fixed source, different qualities give different copies. */
  lemma DestinationInjective(path: string, q1: Quality, q2: Quality)
    requires Extension(FileName(path)) != []
    ensures Destination(path, q1) == Destination(path, q2) ==> q1 == q2
  {
    if Destination(path, q1) == Destination(path, q2) {
      var name := FileName(path);
      var ext := Extension(name);
      var r := RemoveAll(name, ext);
      DestinationShape(path, q1);
      DestinationShape(path, q2);
      var a, b := NatToString(q1), NatToString(q2);
      var na, nb := DestinationName(name, q1), DestinationName(name, q2);
      assert na == nb;
      assert |a| == |b|;
      assert a == na[|r| + 1..|na| - |ext|];
      assert b == nb[|r| + 1..|nb| - |ext|];
      NatToStringInjective(q1, q2);
    }
  }
}
