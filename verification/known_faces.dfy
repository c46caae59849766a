/**
 * The offline encoder of backend/encode_known_faces.py: every file of the image
 * directory with an accepted suffix is encoded, and each image showing a face adds its
 * first encoding under the file name without its extension. The script has no error
 * handling, so a file that cannot be loaded ends the script before anything is saved.
 */
module KnownFaces {
  import opened Wrappers
  import opened Enrollment

  /** `s` ends with `suffix`, compared from the last character backwards. */
  predicate EndsWith(s: string, suffix: string)
    decreases |suffix|
  {
    || |suffix| == 0
    || (&& |s| > 0
        && s[|s| - 1] == suffix[|suffix| - 1]
        && EndsWith(s[..|s| - 1], suffix[..|suffix| - 1]))
  }

  /** `s` ends with `suffix` exactly when its last |suffix| characters are `suffix`. */
  lemma {:induction false} EndsWithIff(s: string, suffix: string)
    ensures EndsWith(s, suffix) <==> |suffix| <= |s| && s[|s| - |suffix|..] == suffix
    decreases |suffix|
  {
    if |suffix| > 0 && |s| > 0 {
      var s', suffix' := s[..|s| - 1], suffix[..|suffix| - 1];
      EndsWithIff(s', suffix');
      if |suffix| <= |s| {
        assert s[|s| - |suffix|..] == s'[|s'| - |suffix'|..] + [s[|s| - 1]];
        assert suffix == suffix' + [suffix[|suffix| - 1]];
      }
    }
  }

  /** The file is an image the encoder reads: the suffix test is case-sensitive. */
  predicate HasImageSuffix(f: string)
  {
    EndsWith(f, ".jpg") || EndsWith(f, ".png") || EndsWith(f, ".jpeg")
  }

  /** `f` ends with `ext` exactly when it is some text followed by `ext`. */
  lemma EndsWithConcat(f: string, ext: string)
    ensures EndsWith(f, ext) <==> exists stem: string :: f == stem + ext
  {
    EndsWithIff(f, ext);
    if EndsWith(f, ext) {
      var stem := f[..|f| - |ext|];
      assert f == stem + ext;
    }
    if exists stem: string :: f == stem + ext {
      var stem: string :| f == stem + ext;
      assert f[|f| - |ext|..] == ext;
    }
  }

  /** A file is read exactly when it is some text followed by one of the accepted suffixes. */
  lemma HasImageSuffixIff(f: string)
    ensures HasImageSuffix(f) <==>
      || (exists stem: string :: f == stem + ".jpg")
      || (exists stem: string :: f == stem + ".png")
      || (exists stem: string :: f == stem + ".jpeg")
  {
    EndsWithConcat(f, ".jpg");
    EndsWithConcat(f, ".png");
    EndsWithConcat(f, ".jpeg");
  }

  /** Upper-case suffixes are not accepted. */
  lemma UpperCaseSuffixIgnored()
    ensures !HasImageSuffix("alice.JPG")
  {
    var f := "alice.JPG";
    EndsWithIff(f, ".jpg");
    EndsWithIff(f, ".png");
    EndsWithIff(f, ".jpeg");
  }

  /** Lower-case suffixes are accepted, and a name without the dot is not. */
  lemma SuffixExamples()
    ensures HasImageSuffix("alice.jpg") && HasImageSuffix("bob.png") && HasImageSuffix("carol.jpeg")
    ensures !HasImageSuffix("jpg")
  {
    EndsWithIff("alice.jpg", ".jpg");
    assert "alice.jpg"[5..] == ".jpg";
    EndsWithIff("bob.png", ".png");
    assert "bob.png"[3..] == ".png";
    EndsWithIff("carol.jpeg", ".jpeg");
    assert "carol.jpeg"[5..] == ".jpeg";
    EndsWithIff("jpg", ".jpg");
    EndsWithIff("jpg", ".png");
    EndsWithIff("jpg", ".jpeg");
  }

  /** The position of the last `c` in `s`, or -1 when there is none. */
  function LastIndexOf(s: string, c: char): (r: int)
    ensures -1 <= r < |s|
    ensures r >= 0 ==> s[r] == c
    ensures forall j :: r < j < |s| ==> s[j] != c
    decreases |s|
  {
    if |s| == 0 then -1
    else if s[|s| - 1] == c then |s| - 1
    else LastIndexOf(s[..|s| - 1], c)
  }

  /** Some character of `p[lo..hi]` is not a dot. */
  predicate HasNonDot(p: string, lo: nat, hi: nat)
    requires lo <= hi <= |p|
  {
    exists k :: lo <= k < hi && p[k] != '.'
  }

  /**
   * os.path.splitext on a POSIX path: the extension starts at the last dot of the final
   * path component, unless everything before that dot in the component is dots, in
   * which case there is no extension.
   */
  function SplitExt(p: string): (parts: (string, string))
    ensures parts.0 + parts.1 == p
    ensures parts.1 == [] || (parts.1[0] == '.' && '.' !in parts.1[1..] && '/' !in parts.1)
  {
    var sepIndex := LastIndexOf(p, '/');
    var dotIndex := LastIndexOf(p, '.');
    if dotIndex > sepIndex && HasNonDot(p, sepIndex + 1, dotIndex) then
      assert p == p[..dotIndex] + p[dotIndex..];
      assert forall j :: 1 <= j < |p[dotIndex..]| ==> p[dotIndex..][j] == p[dotIndex + j];
      (p[..dotIndex], p[dotIndex..])
    else
      assert p + [] == p;
      (p, [])
  }

  /** The name an image is stored under: its file name without the extension. */
  function Stem(f: string): string
  {
    SplitExt(f).0
  }

  /**
   * For a file name with a non-dot character before its final dot, the stored name is
   * everything before that dot; a name that is all dots before it keeps its extension.
   */
  lemma StemIsBeforeFinalDot(f: string, d: nat)
    requires '/' !in f
    requires d < |f| && f[d] == '.' && '.' !in f[d + 1..]
    ensures (exists k :: 0 <= k < d && f[k] != '.') ==> Stem(f) == f[..d]
    ensures (forall k :: 0 <= k < d ==> f[k] == '.') ==> Stem(f) == f
  {
    assert forall j :: d < j < |f| ==> f[d + 1..][j - d - 1] == f[j];
    assert LastIndexOf(f, '.') == d;
    assert LastIndexOf(f, '/') == -1;
  }

  /** Stems of typical directory entries. */
  lemma StemExamples()
    ensures Stem("alice.jpg") == "alice"
    ensures Stem("a.b.jpg") == "a.b"
    ensures Stem(".jpg") == ".jpg"
  {
    StemIsBeforeFinalDot("alice.jpg", 5);
    assert "alice.jpg"[0] != '.';
    StemIsBeforeFinalDot("a.b.jpg", 3);
    assert "a.b.jpg"[0] != '.';
    StemIsBeforeFinalDot(".jpg", 0);
  }

  /** The image files of a directory listing, in listing order. */
  function ImageFiles(files: seq<string>): (imgs: seq<string>)
    ensures |imgs| <= |files|
    decreases |files|
  {
    if |files| == 0 then []
    else
      var n := |files| - 1;
      if HasImageSuffix(files[n]) then ImageFiles(files[..n]) + [files[n]] else ImageFiles(files[..n])
  }

  /** The accepted files are exactly the listed names with an image suffix. */
  lemma {:induction false} ImageFilesAreAccepted(files: seq<string>)
    ensures forall f :: f in ImageFiles(files) <==> f in files && HasImageSuffix(f)
    decreases |files|
  {
    if |files| > 0 {
      var n := |files| - 1;
      ImageFilesAreAccepted(files[..n]);
      assert files == files[..n] + [files[n]];
    }
  }

  /** Loading the image file raises: it is missing or could not be read or encoded. */
  predicate Raises<V>(load: string -> ImageLoad<V>, f: string)
  {
    !load(f).Loaded?
  }

  /**
   * The saved encodings and names for a directory listing, or None when some image file
   * raises and the script ends without saving.
   */
  function EncodeFaces<V>(files: seq<string>, load: string -> ImageLoad<V>): (r: Option<Roster<V>>)
    ensures r.Some? ==> WellFormed(r.value) && |r.value.names| <= |files|
    decreases |files|
  {
    if |files| == 0 then Some(Roster([], []))
    else AddFile(EncodeFaces(files[..|files| - 1], load), files[|files| - 1], load)
  }

  /**
   * One step of the directory loop: a file without an image suffix is passed over, an
   * image with a face adds its first encoding under its stem, an image without faces
   * adds nothing, and a load that raises ends the script.
   */
  function AddFile<V>(acc: Option<Roster<V>>, f: string, load: string -> ImageLoad<V>): (r: Option<Roster<V>>)
    ensures acc.None? ==> r.None?
    ensures !HasImageSuffix(f) ==> r == acc
    ensures r.Some? ==> acc.Some? && |r.value.names| <= |acc.value.names| + 1
    ensures r.Some? && WellFormed(acc.value) ==> WellFormed(r.value)
  {
    match acc
    case None => None
    case Some(prev) =>
      if !HasImageSuffix(f) then acc
      else match load(f)
        case Loaded(faces) =>
          if |faces| > 0 then Some(Roster(prev.encodings + [faces[0]], prev.names + [Stem(f)]))
          else acc
        case _ => None
  }

  /** The image files that add an entry, by position in the listing, in increasing order. */
  ghost function KeptIndices<V>(files: seq<string>, load: string -> ImageLoad<V>): (idx: seq<nat>)
    ensures forall k :: 0 <= k < |idx| ==>
      idx[k] < |files| && HasImageSuffix(files[idx[k]]) && FirstFace(load(files[idx[k]])).Some?
    ensures forall k, l :: 0 <= k < l < |idx| ==> idx[k] < idx[l]
    ensures forall i :: 0 <= i < |files| && HasImageSuffix(files[i]) && FirstFace(load(files[i])).Some? ==> i in idx
    decreases |files|
  {
    if |files| == 0 then []
    else
      var n := |files| - 1;
      var prev := KeptIndices(files[..n], load);
      if HasImageSuffix(files[n]) && FirstFace(load(files[n])).Some? then prev + [n] else prev
  }

  /**
   * Entry k of a saved result is the k-th image file showing a face: its first encoding
   * under its stem, in listing order.
   */
  lemma {:induction false} EncodeFacesSelects<V>(files: seq<string>, load: string -> ImageLoad<V>)
    ensures var r, idx := EncodeFaces(files, load), KeptIndices(files, load);
      r.Some? ==>
        && |r.value.names| == |idx|
        && forall k :: 0 <= k < |idx| ==>
             && r.value.names[k] == Stem(files[idx[k]])
             && Some(r.value.encodings[k]) == FirstFace(load(files[idx[k]]))
    decreases |files|
  {
    if |files| > 0 {
      var n := |files| - 1;
      var f := files[n];
      EncodeFacesSelects(files[..n], load);
      var prevIdx := KeptIndices(files[..n], load);
      match EncodeFaces(files[..n], load)
      case None =>
      case Some(prev) =>
        if HasImageSuffix(f) && FirstFace(load(f)).Some? {
          assert KeptIndices(files, load) == prevIdx + [n];
          assert EncodeFaces(files, load) == Some(Roster(prev.encodings + [load(f).faces[0]], prev.names + [Stem(f)]));
        } else {
          assert KeptIndices(files, load) == prevIdx;
        }
    }
  }

  /**
   * Files without an accepted suffix are never opened: the result is that of the image
   * files alone, and it has at most one entry per image file.
   */
  lemma {:induction false} OnlyImageFilesMatter<V>(files: seq<string>, load: string -> ImageLoad<V>)
    ensures EncodeFaces(files, load) == EncodeFaces(ImageFiles(files), load)
    ensures EncodeFaces(files, load).Some? ==> |EncodeFaces(files, load).value.names| <= |ImageFiles(files)|
    decreases |files|
  {
    if |files| > 0 {
      var n := |files| - 1;
      var imgs := ImageFiles(files[..n]);
      OnlyImageFilesMatter(files[..n], load);
      var f := files[n];
      if HasImageSuffix(f) {
        assert (imgs + [f])[..|imgs|] == imgs;
        assert EncodeFaces(imgs + [f], load) == AddFile(EncodeFaces(imgs, load), f, load);
      } else {
        assert EncodeFaces(files, load) == EncodeFaces(files[..n], load);
      }
    }
  }

  /** The script ends without saving exactly when some image file of the listing raises. */
  lemma {:induction false} EncodeFacesAborts<V>(files: seq<string>, load: string -> ImageLoad<V>)
    ensures EncodeFaces(files, load).None? <==>
      exists i :: 0 <= i < |files| && HasImageSuffix(files[i]) && Raises(load, files[i])
    decreases |files|
  {
    if |files| > 0 {
      var n := |files| - 1;
      EncodeFacesAborts(files[..n], load);
      assert forall i :: 0 <= i < n ==> files[..n][i] == files[i];
    }
  }
}
