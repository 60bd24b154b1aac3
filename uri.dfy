/** `uri::uriFromFilename`: turns a file path into a `file://` URI.
    The source picks its behaviour with the preprocessor (`__WINDOWS__`);
    here the build platform is an explicit parameter. */
module Uri {
  import opened Strings

  /** The URI schemes the builder knows; only `file://` exists. */
  datatype Scheme = File

  /** Which branch of the `#if __WINDOWS__` the build compiled. */
  datatype Platform = Posix | Windows

  /** The text placed before the path for each scheme. */
  function SchemePrefix(scheme: Scheme): string
  {
    match scheme
    case File => "file://"
  }

  /** The URI for `filepath`: empty for an empty path, otherwise the scheme
      prefix followed by the path (with back-slashes turned into slashes on
      Windows). */
  function UriFromFilename(filepath: string, scheme: Scheme, platform: Platform): (r: string)
    ensures filepath == [] <==> r == []
    ensures filepath != [] ==> |r| == 7 + |filepath| && r[..7] == "file://"
    ensures filepath != [] && platform == Posix ==> r[7..] == filepath
    ensures platform == Windows ==> '\\' !in r
    ensures platform == Windows && filepath != [] ==>
      forall i :: 0 <= i < |filepath| ==>
        r[7 + i] == (if filepath[i] == '\\' then '/' else filepath[i])
  {
    if filepath == [] then ""
    else
      var prefix := SchemePrefix(scheme);
      match platform
      case Windows => prefix + ReplaceChar(filepath, '\\', '/')
      case Posix => prefix + filepath
  }

  /** The inverse direction: the path a `file://` URI names (empty for the
      empty URI or any text without the prefix). */
  function FilenameFromUri(uri: string): string
  {
    if |uri| >= 7 && uri[..7] == "file://" then uri[7..] else ""
  }

  /** On POSIX, stripping the seven-character prefix gives the path back. */
  lemma PosixRoundTrip(filepath: string)
    ensures FilenameFromUri(UriFromFilename(filepath, File, Posix)) == filepath
  {
  }

  /** On Windows the path comes back with every back-slash made a slash. */
  lemma WindowsRoundTrip(filepath: string)
    ensures FilenameFromUri(UriFromFilename(filepath, File, Windows)) == ReplaceChar(filepath, '\\', '/')
  {
    var r := UriFromFilename(filepath, File, Windows);
    if filepath != [] {
      assert r[7..] == ReplaceChar(filepath, '\\', '/');
    }
  }

  /** Normalising the separators twice is the same as once. */
  lemma ReplaceCharIdempotent(s: string, from: char, to: char)
    ensures ReplaceChar(ReplaceChar(s, from, to), from, to) == ReplaceChar(s, from, to)
  {
  }

  /** A path with no back-slash gives the same URI on both platforms. */
  lemma PlatformsAgreeWithoutBackslash(filepath: string)
    requires '\\' !in filepath
    ensures UriFromFilename(filepath, File, Windows) == UriFromFilename(filepath, File, Posix)
  {
    if filepath != [] {
      assert ReplaceChar(filepath, '\\', '/') == filepath;
    }
  }

  /** The POSIX expectations of the unit test. */
  lemma PosixUnitTest()
    ensures UriFromFilename("", File, Posix) == ""
    ensures UriFromFilename("/absolute/path/on/linux", File, Posix) == "file:///absolute/path/on/linux"
  {
  }

  /** The Windows expectations of the unit test. */
  lemma WindowsUnitTest()
    ensures UriFromFilename("", File, Windows) == ""
    ensures UriFromFilename("c:\\somedir\\somefile", File, Windows) == "file://c:/somedir/somefile"
  {
    var path := "c:\\somedir\\somefile";
    var w := UriFromFilename(path, File, Windows);
    var expected := "file://c:/somedir/somefile";
    assert |w| == |expected|;
    forall i | 0 <= i < |w| ensures w[i] == expected[i] {
      if i >= 7 {
        assert w[7 + (i - 7)] == (if path[i - 7] == '\\' then '/' else path[i - 7]);
      }
    }
  }
}
