/**
 * get_file_type (src/ssocket.c): the media type the responder announces
 * for a payload path, chosen by comparing the path's last three, four or
 * five characters with a fixed list of extensions.
 */
module FileType {
  import opened CLib

  /**
   * get_file_type (file, &file_type): whether the extension is known, and
   * the media type (the empty string when it is not). The comparisons run
   * in the source's order and each is guarded by its own length check.
   */
  function GetFileType(file: string): (r: (bool, string))
    ensures r.0 <==> r.1 != ""
    ensures |file| < 3 ==> r == (false, "")
  {
    if |file| < 3 then (false, "")
    else if file[|file| - 3..] == ".js" then (true, "application/javascript")
    else if |file| < 4 then (false, "")
    else if file[|file| - 4..] == ".htm" then (true, "text/html")
    else if file[|file| - 4..] == ".css" then (true, "text/css")
    else if file[|file| - 4..] == ".png" then (true, "image/png")
    else if file[|file| - 4..] == ".pdf" then (true, "application/pdf")
    else if |file| < 5 then (false, "")
    else if file[|file| - 5..] == ".html" then (true, "text/html")
    else (false, "")
  }

  /** The extensions the responder knows, with the media type of each. */
  const MediaTypes: seq<(string, string)> := [
    (".js", "application/javascript"),
    (".htm", "text/html"),
    (".html", "text/html"),
    (".css", "text/css"),
    (".png", "image/png"),
    (".pdf", "application/pdf")
  ]

  /** A path is known exactly when it ends with one of the table's extensions. */
  predicate KnownExtension(file: string) {
    exists k :: 0 <= k < |MediaTypes| && EndsWith(file, MediaTypes[k].0)
  }

  /** A path ending with a suffix ends with its last two characters. */
  lemma LastTwo(file: string, suffix: string)
    requires 2 <= |suffix| && EndsWith(file, suffix)
    ensures file[|file| - 1] == suffix[|suffix| - 1]
    ensures file[|file| - 2] == suffix[|suffix| - 2]
  {
    var t := file[|file| - |suffix|..];
    assert t[|suffix| - 1] == file[|file| - 1];
    assert t[|suffix| - 2] == file[|file| - 2];
  }

  /** No path ends with two different listed extensions: their last two characters all differ. */
  lemma ExtensionsExclusive(file: string, i: nat, j: nat)
    requires i < |MediaTypes| && j < |MediaTypes|
    requires EndsWith(file, MediaTypes[i].0) && EndsWith(file, MediaTypes[j].0)
    ensures i == j
  {
    LastTwo(file, MediaTypes[i].0);
    LastTwo(file, MediaTypes[j].0);
  }

  /**
   * get_file_type agrees with the table: it reports a type exactly when the
   * path ends with a listed extension, and then the type listed for it;
   * every other path gets (false, ""). Since no path ends with two listed
   * extensions, the order of the comparisons does not matter.
   */
  lemma FileTypeMatchesTable(file: string)
    ensures GetFileType(file).0 <==> KnownExtension(file)
    ensures forall k :: 0 <= k < |MediaTypes| && EndsWith(file, MediaTypes[k].0) ==>
              GetFileType(file) == (true, MediaTypes[k].1)
  {
    var n := |file|;
    var hit: int :=
      if n >= 3 && file[n - 3..] == ".js" then 0
      else if n >= 4 && file[n - 4..] == ".htm" then 1
      else if n >= 4 && file[n - 4..] == ".css" then 3
      else if n >= 4 && file[n - 4..] == ".png" then 4
      else if n >= 4 && file[n - 4..] == ".pdf" then 5
      else if n >= 5 && file[n - 5..] == ".html" then 2
      else -1;
    if hit >= 0 {
      assert EndsWith(file, MediaTypes[hit].0);
      assert GetFileType(file) == (true, MediaTypes[hit].1);
      forall k | 0 <= k < |MediaTypes| && EndsWith(file, MediaTypes[k].0)
        ensures GetFileType(file) == (true, MediaTypes[k].1)
      {
        ExtensionsExclusive(file, hit, k);
      }
    } else {
      assert GetFileType(file) == (false, "");
      forall k | 0 <= k < |MediaTypes|
        ensures !EndsWith(file, MediaTypes[k].0)
      {
      }
    }
  }

  /** Every type get_file_type reports is at most 22 characters long ("application/javascript"). */
  lemma FileTypeLength(file: string)
    ensures |GetFileType(file).1| <= 22
    ensures NoNul(GetFileType(file).1) && NoCr(GetFileType(file).1)
  {
    FileTypeMatchesTable(file);
    if GetFileType(file).0 {
      var k :| 0 <= k < |MediaTypes| && EndsWith(file, MediaTypes[k].0);
      MediaTypeIsText(k);
    }
  }

  lemma MediaTypeIsText(k: nat)
    requires k < |MediaTypes|
    ensures |MediaTypes[k].1| <= 22 && NoNul(MediaTypes[k].1) && NoCr(MediaTypes[k].1)
  {
  }
}
