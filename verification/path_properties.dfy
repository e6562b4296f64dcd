/** Where uploads are stored and how their URLs are derived: the path built by `create`
    is partitioned by kind, distinct fresh names never collide, and `get_file_url` turns the
    path back into MEDIA_URL followed by the same `images/<name>.jpg` or `pdfs/<name>.pdf`. */
module PathProperties {
  import opened Wrappers
  import opened Posix
  import opened Models
  import opened Serializers

  /** The file name `<name>.jpg` or `<name>.pdf` is relative, so joining it appends it. */
  lemma FileNameIsRelative(kind: Kind, name: string)
    requires IsPlainName(name)
    ensures !IsAbsolute(name + Extension(kind))
  {
    if name != [] {
      assert (name + Extension(kind))[0] == name[0];
    } else {
      assert name + Extension(kind) == Extension(kind);
    }
  }

  /** The directory of a kind, joined onto MEDIA_ROOT, does not end in a separator. */
  lemma KindDirJoin(cfg: Settings, kind: Kind)
    ensures Join(cfg.mediaRoot, KindDir(kind)) == AsDir(cfg.mediaRoot) + KindDir(kind)
    ensures AsDir(Join(cfg.mediaRoot, KindDir(kind))) == AsDir(cfg.mediaRoot) + KindDir(kind) + "/"
  {
    var kd := KindDir(kind);
    var dir := AsDir(cfg.mediaRoot) + kd;
    assert dir[|dir| - 1] == kd[|kd| - 1];
  }

  /** A storage path is MEDIA_ROOT (as a directory), then the directory of the kind, then the
      fresh name with the extension of the kind. */
  lemma StoragePathLayout(cfg: Settings, kind: Kind, name: string)
    requires IsPlainName(name)
    ensures StoragePath(cfg, kind, name) == AsDir(cfg.mediaRoot) + MediaName(kind, name)
  {
    var root := AsDir(cfg.mediaRoot);
    var kd := KindDir(kind);
    var file := name + Extension(kind);
    KindDirJoin(cfg, kind);
    FileNameIsRelative(kind, name);
    assert StoragePath(cfg, kind, name) == root + kd + "/" + file;
    assert root + kd + "/" + file == root + MediaName(kind, name);
  }

  /** The last character of a storage path tells the kinds apart ('g' of ".jpg", 'f' of ".pdf"). */
  lemma ExtensionsDiffer(kind: Kind)
    ensures Extension(kind)[3] == (if kind == ImageKind then 'g' else 'f')
  {
  }

  /** A common prefix cancels. */
  lemma CancelPrefix(d: string, m1: string, m2: string)
    requires d + m1 == d + m2
    ensures m1 == m2
  {
    assert m1 == (d + m1)[|d|..];
    assert m2 == (d + m2)[|d|..];
  }

  /** `images/<name>.jpg` and `pdfs/<name>.pdf` determine the kind and the name. */
  lemma MediaNameInjective(k1: Kind, n1: string, k2: Kind, n2: string)
    requires MediaName(k1, n1) == MediaName(k2, n2)
    ensures k1 == k2 && n1 == n2
  {
    var m1, m2 := MediaName(k1, n1), MediaName(k2, n2);
    assert m1[|m1| - 1] == Extension(k1)[3];
    assert m2[|m2| - 1] == Extension(k2)[3];
    ExtensionsDiffer(k1);
    ExtensionsDiffer(k2);
    assert k1 == k2;
    var head := KindDir(k1) + "/";
    var ext := Extension(k1);
    assert m1 == head + n1 + ext;
    assert m2 == head + n2 + ext;
    assert |n1| == |n2|;
    assert n1 == m1[|head|..|head| + |n1|];
    assert n2 == m2[|head|..|head| + |n2|];
  }

  /** Two storage paths are equal only when they were built from the same kind and the same
      fresh name: images and PDFs never share a path, and a fresh name gives a path no other
      name can produce, so the write in `create` cannot overwrite another document's file. */
  lemma StoragePathInjective(cfg: Settings, k1: Kind, n1: string, k2: Kind, n2: string)
    requires IsPlainName(n1) && IsPlainName(n2)
    requires StoragePath(cfg, k1, n1) == StoragePath(cfg, k2, n2)
    ensures k1 == k2 && n1 == n2
  {
    StoragePathLayout(cfg, k1, n1);
    StoragePathLayout(cfg, k2, n2);
    CancelPrefix(AsDir(cfg.mediaRoot), MediaName(k1, n1), MediaName(k2, n2));
    MediaNameInjective(k1, n1, k2, n2);
  }

  /** Different fresh names give different files, whatever the kinds. */
  lemma DistinctNamesDistinctPaths(cfg: Settings, k1: Kind, n1: string, k2: Kind, n2: string)
    requires IsPlainName(n1) && IsPlainName(n2) && n1 != n2
    ensures StoragePath(cfg, k1, n1) != StoragePath(cfg, k2, n2)
  {
    if StoragePath(cfg, k1, n1) == StoragePath(cfg, k2, n2) {
      StoragePathInjective(cfg, k1, n1, k2, n2);
    }
  }

  /** The only separator in `images/<name>.jpg` or `pdfs/<name>.pdf` is the one after the
      directory of the kind. */
  lemma MediaNameSeparators(kind: Kind, name: string, i: nat)
    requires IsPlainName(name) && i < |MediaName(kind, name)|
    ensures MediaName(kind, name)[i] == '/' ==> i == |KindDir(kind)|
  {
    var kd, ext := KindDir(kind), Extension(kind);
    var m := MediaName(kind, name);
    assert m == kd + "/" + name + ext;
    if i < |kd| {
      assert m[i] == kd[i];
    } else if |kd| < i < |kd| + 1 + |name| {
      assert m[i] == name[i - |kd| - 1];
    } else if |kd| + 1 + |name| <= i {
      assert m[i] == ext[i - |kd| - 1 - |name|];
    }
  }

  /** The part of a storage path below MEDIA_ROOT is already in the normal form `os.path.relpath`
      returns: no leading, trailing or doubled separator, and no `.` or `..` segment. */
  lemma MediaNameIsNormal(kind: Kind, name: string)
    requires IsPlainName(name)
    ensures IsNormalRelative(MediaName(kind, name))
  {
    var kd := KindDir(kind);
    var m := MediaName(kind, name);
    MediaNameSeparators(kind, name, 0);
    MediaNameSeparators(kind, name, |m| - 1);
    forall i | 0 <= i < |m| - 1 && m[i] == '/'
      ensures m[i + 1] != '/'
    {
      MediaNameSeparators(kind, name, i);
      MediaNameSeparators(kind, name, i + 1);
    }
    // the segments are the kind directory and the file name, both at least four characters long
    forall i, j | IsSegment(m, i, j)
      ensures m[i..j] != "." && m[i..j] != ".."
    {
      if i != 0 {
        MediaNameSeparators(kind, name, i - 1);
      }
      if j != |m| {
        MediaNameSeparators(kind, name, j);
      }
      assert |m| == |kd| + 1 + |name| + |Extension(kind)|;
      assert j - i >= 4;
    }
  }

  /** A storage path lies inside MEDIA_ROOT (an empty MEDIA_ROOT being the working directory), and
      `get_file_url` maps it to MEDIA_URL joined with `images/<name>.jpg` or `pdfs/<name>.pdf`: the
      URL round-trips with the path construction. */
  lemma FileUrlOfStoragePath(cfg: Settings, kind: Kind, name: string)
    requires IsPlainName(name)
    ensures Inside(StoragePath(cfg, kind, name), cfg.mediaRoot)
    ensures FileUrl(cfg, StoragePath(cfg, kind, name)) == Some(Join(cfg.mediaUrl, MediaName(kind, name)))
  {
    var path := StoragePath(cfg, kind, name);
    var d := AsDir(cfg.mediaRoot);
    var m := MediaName(kind, name);
    StoragePathLayout(cfg, kind, name);
    MediaNameIsNormal(kind, name);
    assert path == d + m;
    assert path[..|d|] == d;
    assert path[|d|..] == m;
    assert RelPath(path, cfg.mediaRoot) == m;
  }

  /** Two distinct names of the shape `uuid4().hex` never give the same storage path. */
  lemma HexNamesNeverCollide(cfg: Settings, k1: Kind, n1: string, k2: Kind, n2: string)
    requires IsHexName(n1) && IsHexName(n2) && n1 != n2
    ensures StoragePath(cfg, k1, n1) != StoragePath(cfg, k2, n2)
  {
    HexNamesArePlain();
    DistinctNamesDistinctPaths(cfg, k1, n1, k2, n2);
  }

  /** A path whose part below MEDIA_ROOT still holds a `..` segment is not in the shape
      `get_file_url` handles by a plain prefix strip: `os.path.relpath` would fold the segment away. */
  lemma DotSegmentIsNotInside()
    ensures !Inside("/m/a/../b", "/m")
    ensures Inside("/m/a/b", "/m") && RelPath("/m/a/b", "/m") == "a/b"
  {
    var rel := "/m/a/../b"[|AsDir("/m")|..];
    assert rel == "a/../b";
    assert IsSegment(rel, 2, 4) && rel[2..4] == "..";
  }
}
