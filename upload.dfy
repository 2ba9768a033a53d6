/** The upload handler: the extension check applied to the photo and the
    signature, and the path under which a stored upload is recorded. */
module Upload {
  import opened Wrappers

  /** Extensions accepted for both uploads (compared after lower-casing). */
  const AllowedExtensions: set<string> := {"png", "jpg", "jpeg"}

  /** Directory that uploads are written to, as configured in the application. */
  const UploadFolder: string := "static/uploads"

  /** Lower-cases an ASCII letter; every other character is left as it is.
      Python's `str.lower` also maps non-ASCII letters, but none of them maps
      to a letter of "png", "jpg" or "jpeg", so the extension check decides
      the same either way. */
  function LowerChar(c: char): char
  {
    if 'A' <= c <= 'Z' then (c as int - 'A' as int + 'a' as int) as char else c
  }

  function Lower(s: string): string
  {
    seq(|s|, i requires 0 <= i < |s| => LowerChar(s[i]))
  }

  /** Position of the last occurrence of `c` in `s`, if any. */
  function LastIndexOf(s: string, c: char): (r: Option<nat>)
    ensures r.None? <==> c !in s
    ensures r.Some? ==> r.value < |s| && s[r.value] == c && c !in s[r.value + 1..]
  {
    if |s| == 0 then None
    else if s[|s| - 1] == c then Some(|s| - 1)
    else
      var r := LastIndexOf(s[..|s| - 1], c);
      assert s == s[..|s| - 1] + [s[|s| - 1]];
      if r.Some? then
        assert s[r.value + 1..] == s[..|s| - 1][r.value + 1..] + [s[|s| - 1]];
        r
      else r
  }

  /** The text after the last '.', present only when the name contains a '.'
      (Python's `filename.rsplit('.', 1)[1]`, evaluated only under `'.' in filename`). */
  function Extension(filename: string): Option<string>
  {
    match LastIndexOf(filename, '.')
    case None => None
    case Some(i) => Some(filename[i + 1..])
  }

  /** `allowed_file`: the name has a '.', and its extension, lower-cased, is allowed. */
  predicate AllowedFile(filename: string)
  {
    match Extension(filename)
    case None => false
    case Some(ext) => Lower(ext) in AllowedExtensions
  }

  /** `allowed_file` holds exactly when some '.' in the name has no '.' after it
      and the text after that '.', lower-cased, is an allowed extension. */
  lemma AllowedFileIff(filename: string)
    ensures AllowedFile(filename) <==>
      exists i :: 0 <= i < |filename| && filename[i] == '.' && '.' !in filename[i + 1..]
        && Lower(filename[i + 1..]) in AllowedExtensions
  {
    var r := LastIndexOf(filename, '.');
    if AllowedFile(filename) {
      var k := r.value;
      assert filename[k] == '.' && '.' !in filename[k + 1..];
    }
    forall i | 0 <= i < |filename| && filename[i] == '.' && '.' !in filename[i + 1..]
      ensures r == Some(i)
    {
    }
  }

  /** A name without any '.' is rejected, whatever it spells (a bare "png" too). */
  lemma RejectsWithoutDot(filename: string)
    requires '.' !in filename
    ensures !AllowedFile(filename)
  {
  }

  /** Any stem followed by '.' and an allowed extension in any letter case is accepted. */
  lemma AcceptsAnyStem(stem: string, ext: string)
    requires '.' !in ext && Lower(ext) in AllowedExtensions
    ensures AllowedFile(stem + "." + ext)
  {
    var f := stem + "." + ext;
    var i := |stem|;
    assert f[i] == '.';
    assert f[i + 1..] == ext;
    AllowedFileIff(f);
  }

  /** Only the last extension is looked at: a name whose last extension is not
      allowed is rejected even if an earlier one is ("photo.png.exe"). */
  lemma RejectsOtherLastExtension(stem: string, ext: string)
    requires '.' !in ext && Lower(ext) !in AllowedExtensions
    ensures !AllowedFile(stem + "." + ext)
  {
    var f := stem + "." + ext;
    var i := |stem|;
    assert f[i] == '.';
    assert f[i + 1..] == ext;
    var r := LastIndexOf(f, '.');
    assert r == Some(i);
  }

  /** "Photo.PNG" is accepted: the comparison ignores letter case. */
  lemma AcceptsUpperCasePng()
    ensures AllowedFile("Photo.PNG")
  {
    assert "Photo.PNG" == "Photo" + "." + "PNG";
    assert Lower("PNG") == "png";
    AcceptsAnyStem("Photo", "PNG");
  }

  /** "photo.exe" is rejected. */
  lemma RejectsExe()
    ensures !AllowedFile("photo.exe")
  {
    assert "photo.exe" == "photo" + "." + "exe";
    assert Lower("exe") == "exe";
    RejectsOtherLastExtension("photo", "exe");
  }

  /** `os.path.join(directory, name)` with POSIX rules: an absolute name
      replaces the directory; otherwise one '/' separates the two. */
  function JoinPath(directory: string, name: string): (p: string)
    ensures |p| >= |name| && p[|p| - |name|..] == name
    ensures |name| > 0 && name[0] == '/' ==> p == name
    ensures !(|name| > 0 && name[0] == '/') ==> directory <= p
    ensures !(|name| > 0 && name[0] == '/') && |directory| > 0 && directory[|directory| - 1] != '/' ==>
      |p| == |directory| + 1 + |name| && p[|directory|] == '/'
  {
    if |name| > 0 && name[0] == '/' then name
    else if |directory| == 0 || directory[|directory| - 1] == '/' then directory + name
    else directory + "/" + name
  }

  /** `path.replace("\\", "/")`: every backslash becomes a forward slash. */
  function NormalizeSlashes(path: string): string
  {
    seq(|path|, i requires 0 <= i < |path| => if path[i] == '\\' then '/' else path[i])
  }

  /** The normalised path has no backslash, keeps its length and every other character. */
  lemma NormalizeSlashesMeaning(path: string)
    ensures '\\' !in NormalizeSlashes(path)
    ensures |NormalizeSlashes(path)| == |path|
    ensures forall i :: 0 <= i < |path| && path[i] != '\\' ==> NormalizeSlashes(path)[i] == path[i]
    ensures forall i :: 0 <= i < |path| && path[i] == '\\' ==> NormalizeSlashes(path)[i] == '/'
  {
  }

  /** Normalising a second time changes nothing. */
  lemma NormalizeSlashesIdempotent(path: string)
    ensures NormalizeSlashes(NormalizeSlashes(path)) == NormalizeSlashes(path)
  {
  }

  /** Path recorded for an upload whose sanitised file name is `safeName`. */
  function StoredPath(safeName: string): (p: string)
    ensures '\\' !in p
  {
    NormalizeSlashes(JoinPath(UploadFolder, safeName))
  }
}
