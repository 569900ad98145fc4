/** The output-file name `Heic2jpg` (app.go) derives from its input path:
    the input's base name with its extension replaced by ".jpg", in the
    input's directory. */
module Naming {
  import opened FilePaths

  const JpegExtension: string := ".jpg"

  /** A path that is empty or ends in a separator has no extension. */
  lemma NoExtAfterSeparator(p: string)
    requires p == [] || p[|p| - 1] == Separator
    ensures Ext(p) == []
  {
  }

  /** The extension `filepath.Ext` finds in a path always ends its base name,
      so the slice `baseName[0:len(baseName)-len(ext)]` is always in range. */
  lemma ExtEndsBase(fin: string)
    ensures |Ext(fin)| <= |Base(fin)|
    ensures Base(fin)[|Base(fin)| - |Ext(fin)|..] == Ext(fin)
  {
    if fin == [] || fin[|fin| - 1] == Separator {
      NoExtAfterSeparator(fin);
    } else {
    }
  }

  /** A base name with its extension removed: everything before its last
      '.', or the whole name when it has none. */
  function Stem(base: string): string {
    if '.' in base then base[..LastIndexOf(base, '.')] else base
  }

  /** `fout`: the input's base name with its extension replaced by ".jpg"
      (case kept as it was). A path ending in a separator has no extension,
      and the empty path has base name ".", so for those ".jpg" is appended
      to the base name as it stands. */
  function OutputName(fin: string): (name: string)
    ensures fin != [] && fin[|fin| - 1] != Separator ==>
      name == Stem(Base(fin)) + JpegExtension
    ensures fin == [] || fin[|fin| - 1] == Separator ==>
      name == Base(fin) + JpegExtension
    ensures |name| >= |JpegExtension| && name[|name| - |JpegExtension|..] == JpegExtension
  {
    var base := Base(fin);
    var ext := Ext(fin);
    ExtEndsBase(fin);
    ReplacesExtension(fin);
    base[..|base| - |ext|] + JpegExtension
  }

  /** The output path opened at app.go:109: the input's directory, a
      separator, and the output name. It lies in the input's directory, has
      extension ".jpg", and (unless the input is made of separators only)
      has the output name as its base name. */
  function OutputPath(fin: string): (path: string)
    ensures Dir(path) == Dir(fin)
    ensures Ext(path) == JpegExtension
    ensures !OnlySeparators(fin) ==> Base(path) == OutputName(fin)
  {
    JoinedInSourceDirectory(fin);
    JoinedExtIsJpeg(fin);
    JoinedBaseIsName(fin);
    Joined(fin)
  }

  /** The directory, a separator and the output name, joined. */
  function Joined(fin: string): string {
    Dir(fin) + [Separator] + OutputName(fin)
  }

  /** With no extension found, the base name has no '.' at all. */
  lemma NoExtNoDot(fin: string)
    requires fin != [] && fin[|fin| - 1] != Separator
    requires Ext(fin) == []
    ensures '.' !in Base(fin)
  {
    var b := Base(fin);
    var sep := LastIndexOf(fin, Separator);
    assert b == fin[sep + 1..];
  }

  /** A found extension starts at the last '.' of the base name. */
  lemma ExtAtLastDot(fin: string)
    requires Ext(fin) != []
    ensures '.' in Base(fin)
    ensures LastIndexOf(Base(fin), '.') == |Base(fin)| - |Ext(fin)|
  {
    ExtEndsBase(fin);
    var b := Base(fin);
    var e := Ext(fin);
    var d := |b| - |e|;
    assert b[d] == e[0] == '.';
  }

  /** Cutting the extension off the base name leaves its stem. */
  lemma ReplacesExtension(fin: string)
    ensures fin != [] && fin[|fin| - 1] != Separator ==>
      Base(fin)[..|Base(fin)| - |Ext(fin)|] == Stem(Base(fin))
    ensures fin == [] || fin[|fin| - 1] == Separator ==>
      Base(fin)[..|Base(fin)| - |Ext(fin)|] == Base(fin)
  {
    if fin == [] || fin[|fin| - 1] == Separator {
      NoExtAfterSeparator(fin);
    } else if Ext(fin) == [] {
      NoExtNoDot(fin);
      WholeStem(Base(fin));
    } else {
      CutAtExt(fin);
    }
  }

  /** A base name without a '.' is its own stem. */
  lemma WholeStem(b: string)
    requires '.' !in b
    ensures b[..|b|] == Stem(b) == b
  {
  }

  /** A found extension is cut off at the base name's last '.'. */
  lemma CutAtExt(fin: string)
    requires Ext(fin) != []
    ensures Base(fin)[..|Base(fin)| - |Ext(fin)|] == Stem(Base(fin))
  {
    ExtAtLastDot(fin);
    var b := Base(fin);
    assert '.' in b && Stem(b) == b[..LastIndexOf(b, '.')];
  }

  /** A path of separators only has output name "/.jpg". */
  lemma NameOfOnlySeparators(fin: string)
    requires OnlySeparators(fin)
    ensures OutputName(fin) == "/.jpg"
  {
    NoExtAfterSeparator(fin);
    assert TrimTrailing(fin) == [];
  }

  lemma JpegExtensionHasNoSeparator()
    ensures Separator !in JpegExtension
  {
    assert JpegExtension == ['.', 'j', 'p', 'g'];
  }

  lemma NotInPrefix(s: string, m: nat, c: char)
    requires c !in s && m <= |s|
    ensures c !in s[..m]
  {
  }

  /** Any other path gives an output name without a separator. */
  lemma NameHasNoSeparator(fin: string)
    requires !OnlySeparators(fin)
    ensures Separator !in OutputName(fin)
  {
    JpegExtensionHasNoSeparator();
    var b := Base(fin);
    var m := |b| - |Ext(fin)|;
    assert 0 <= m <= |b| by { ExtEndsBase(fin); }
    assert OutputName(fin) == b[..m] + JpegExtension;
    assert Separator !in b[..m] by {
      assert Separator !in b;
      NotInPrefix(b, m, Separator);
    }
  }

  /** The joined path lies in the input's directory. */
  lemma JoinedInSourceDirectory(fin: string)
    ensures Dir(Joined(fin)) == Dir(fin)
  {
    if OnlySeparators(fin) {
      SeparatorsJoinedInDirectory(fin);
    } else {
      NameJoinedInDirectory(fin);
    }
  }

  /** A path of separators has directory "/". */
  lemma DirOfOnlySeparators(fin: string)
    requires OnlySeparators(fin)
    ensures Dir(fin) == [Separator]
  {
    CleanOnlySeparators(fin);
    assert fin[..LastIndexOf(fin, Separator) + 1] == fin;
  }

  /** "///.jpg", the output path of a path of separators, has directory "/". */
  lemma DirOfRootName()
    ensures Dir("///" + JpegExtension) == [Separator]
  {
    var out := "///" + JpegExtension;
    assert out == "//" + [Separator] + JpegExtension;
    LastSeparatorAdded("//", JpegExtension);
    assert out[..3] == "///";
    assert OnlySeparators("///");
    CleanOnlySeparators("///");
  }

  lemma SeparatorsJoinedInDirectory(fin: string)
    requires OnlySeparators(fin)
    ensures Dir(Joined(fin)) == Dir(fin)
  {
    NameOfOnlySeparators(fin);
    DirOfOnlySeparators(fin);
    RootJoin(Dir(fin), OutputName(fin));
    DirOfRootName();
  }

  lemma RootJoin(d: string, name: string)
    requires d == [Separator] && name == "/.jpg"
    ensures d + [Separator] + name == "///" + JpegExtension
  {
  }

  lemma NameJoinedInDirectory(fin: string)
    requires !OnlySeparators(fin)
    ensures Dir(Joined(fin)) == Dir(fin)
  {
    var dir, name := Dir(fin), OutputName(fin);
    var out := dir + [Separator] + name;
    assert out == Joined(fin);
    NameHasNoSeparator(fin);
    LastSeparatorAdded(dir, name);
    assert out[..|dir| + 1] == dir + [Separator];
    assert Dir(out) == Clean(dir + [Separator]);
    CleanTrailingSeparator(fin[..LastIndexOf(fin, Separator) + 1]);
  }

  /** Unless the input path is made of separators only, the joined path's
      base name is the output name itself. */
  lemma JoinedBaseIsName(fin: string)
    ensures !OnlySeparators(fin) ==> Base(Joined(fin)) == OutputName(fin)
  {
    if !OnlySeparators(fin) {
      var dir := Dir(fin);
      var name := OutputName(fin);
      NameHasNoSeparator(fin);
      LastSeparatorAdded(dir, name);
      assert (dir + [Separator] + name)[|dir| + 1..] == name;
    }
  }

  /** Any path ending in ".jpg" has extension ".jpg". */
  lemma ExtOfJpegName(p: string)
    requires |p| >= 4 && p[|p| - 4..] == JpegExtension
    ensures Ext(p) == JpegExtension
  {
    var n := |p|;
    assert p[n - 4] == '.' && p[n - 3] == 'j' && p[n - 2] == 'p' && p[n - 1] == 'g';
    var dot := LastIndexOf(p, '.');
    var sep := LastIndexOf(p, Separator);
    assert dot == n - 4;
    assert sep < n - 4;
  }

  /** The joined path's extension is ".jpg". */
  lemma JoinedExtIsJpeg(fin: string)
    ensures Ext(Joined(fin)) == JpegExtension
  {
    JpegSuffix(Dir(fin) + [Separator], OutputName(fin));
  }

  /** Anything followed by a name ending in ".jpg" has extension ".jpg". */
  lemma JpegSuffix(front: string, name: string)
    requires |name| >= |JpegExtension| && name[|name| - |JpegExtension|..] == JpegExtension
    ensures Ext(front + name) == JpegExtension
  {
    var out := front + name;
    assert out[|out| - 4..] == name[|name| - 4..];
    ExtOfJpegName(out);
  }
}
