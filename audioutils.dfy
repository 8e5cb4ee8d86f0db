/**
 * convert_to_wav of audioutils.py: which path the extraction reads audio
 * from, decided by the extension of the given file's base name. The
 * decoding and export through pydub are left out; only the path is modelled.
 */
module AudioUtils {
  import opened Wrappers
  import opened Paths

  const TmpDirectory: string := "/tmp"

  /** os.path.join(TMP_DIRECTORY, name) and "/tmp/{}".format(name), for a name not starting with '/'. */
  function TmpPath(name: string): (path: string)
    ensures path == "/tmp/" + name
  {
    TmpDirectory + "/" + name
  }

  predicate HasNonDot(s: string) {
    exists i :: 0 <= i < |s| && s[i] != '.'
  }

  /** An extension as posixpath.splitext returns it: a dot followed by no further dot. */
  predicate IsExtension(ext: string) {
    |ext| > 0 && ext[0] == '.' && '.' !in ext[1..]
  }

  /**
   * posixpath.splitext on a name without '/': the extension runs from the
   * last dot to the end, unless nothing but dots precede that dot (a
   * hidden file such as ".wav" has no extension).
   */
  function SplitExt(name: string): (r: (string, string))
    ensures r.0 + r.1 == name
    ensures r.1 == [] || (IsExtension(r.1) && HasNonDot(r.0))
  {
    match LastIndexOf(name, '.')
    case None => (name, [])
    case Some(d) =>
      if HasNonDot(name[..d]) then
        assert name[..d] + name[d..] == name;
        (name[..d], name[d..])
      else (name, [])
  }

  /** A stem with a non-dot character, followed by an extension, splits back into the two. */
  lemma {:induction false} SplitExtOfJoin(stem: string, ext: string)
    requires HasNonDot(stem) && IsExtension(ext)
    ensures SplitExt(stem + ext) == (stem, ext)
  {
    var name := stem + ext;
    assert name == stem + ['.'] + ext[1..];
    LastIndexOfJoin(stem, '.', ext[1..]);
    assert name[..|stem|] == stem && name[|stem|..] == ext;
  }

  datatype ConvertError = UnknownFormat

  /**
   * convert_to_wav: a ".wav" file is read where it is; a ".flac" or ".ogg"
   * file is decoded to "/tmp/<stem>.wav"; anything else is refused, the
   * comparison being case-sensitive.
   */
  function ConvertToWav(audioFile: string): (r: Result<string, ConvertError>)
    ensures var ext := SplitExt(BaseName(audioFile)).1;
      r.Err? <==> ext != ".wav" && ext != ".flac" && ext != ".ogg"
  {
    var (stem, ext) := SplitExt(BaseName(audioFile));
    var tempFile := TmpPath(stem + ".wav");
    if ext == ".wav" then Ok(audioFile)
    else if ext == ".flac" then Ok(tempFile)
    else if ext == ".ogg" then Ok(tempFile)
    else Err(UnknownFormat)
  }

  /**
   * For a path made of a directory part, a stem and an extension: the
   * ".wav" path itself, "/tmp/<stem>.wav" for ".flac" and ".ogg" whatever
   * the directory, and an error for any other extension, ".WAV" included.
   */
  lemma {:induction false} ConvertedPath(dir: string, stem: string, ext: string)
    requires dir == [] || dir[|dir| - 1] == '/'
    requires '/' !in stem && '/' !in ext && HasNonDot(stem) && IsExtension(ext)
    ensures ConvertToWav(dir + stem + ext) ==
      if ext == ".wav" then Ok(dir + stem + ext)
      else if ext == ".flac" || ext == ".ogg" then Ok(TmpPath(stem + ".wav"))
      else Err(UnknownFormat)
  {
    assert dir + stem + ext == dir + (stem + ext);
    BaseNameOfJoin(dir, stem + ext);
    SplitExtOfJoin(stem, ext);
  }

  /** A hidden file named ".wav" has no extension, so it is refused. */
  lemma {:induction false} HiddenWavRefused(dir: string)
    requires dir == [] || dir[|dir| - 1] == '/'
    ensures ConvertToWav(dir + ".wav") == Err(UnknownFormat)
  {
    BaseNameOfJoin(dir, ".wav");
    assert LastIndexOf(".wav", '.') == Some(0);
    assert !HasNonDot(".wav"[..0]);
  }

  /** A converted file lies directly in /tmp, named after the input's stem. */
  lemma {:induction false} ConvertedLiesInTmp(audioFile: string)
    requires ConvertToWav(audioFile).Ok? && ConvertToWav(audioFile).value != audioFile
    ensures var stem := SplitExt(BaseName(audioFile)).0;
      ConvertToWav(audioFile).value == TmpPath(stem + ".wav") && '/' !in stem && HasNonDot(stem)
  {
    var name := BaseName(audioFile);
    var stem := SplitExt(name).0;
    assert stem + SplitExt(name).1 == name;
    assert forall i :: 0 <= i < |stem| ==> stem[i] == name[i];
  }

  lemma JoinAssociates(a: string, b: string, c: string)
    ensures a + b + c == a + (b + c)
  {
  }

  /** The path convert_to_wav returns is accepted again unchanged. */
  lemma {:induction false} ConvertToWavIdempotent(audioFile: string)
    requires ConvertToWav(audioFile).Ok?
    ensures ConvertToWav(ConvertToWav(audioFile).value) == ConvertToWav(audioFile)
  {
    var q := ConvertToWav(audioFile).value;
    if q != audioFile {
      ConvertedLiesInTmp(audioFile);
      var stem := SplitExt(BaseName(audioFile)).0;
      assert IsExtension(".wav") && '/' !in ".wav";
      ConvertedPath("/tmp/", stem, ".wav");
      JoinAssociates("/tmp/", stem, ".wav");
      assert ConvertToWav(q) == Ok(q);
    }
  }
}
