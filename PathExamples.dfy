/**
 * Worked examples of the path library: the calls of the repository's path test script, and the
 * edge cases of separator rewriting, `isUNC` and `extname`. Each example names its path as a
 * parameter fixed by its precondition. The basename, dirname and extname examples go through the
 * general lemmas of `Path`; the short rewriting and `isUNC` examples are left to evaluation.
 */
module PathExamples {
  import opened Path

  /** The basename of a backslash path is its last component. */
  lemma BasenameOfBackslashPath(p: string)
    requires p == "abc\\def\\ghi"
    ensures Basename(p) == "ghi"
  {
    assert p == "abc\\def\\" + "ghi";
    BasenameOfJoin("abc\\def\\", "ghi");
  }

  /** The test script's long path is its directory part followed by the file name (a helper). */
  lemma RealmPathParts(p: string)
    requires p == "abc\\def\\ghi\\database.sqlite.realm"
    ensures p == "abc\\def\\ghi\\" + "database.sqlite.realm"
  {
  }

  /** The basename of the test script's long path is its file name. */
  lemma BasenameOfRealmPath(p: string)
    requires p == "abc\\def\\ghi\\database.sqlite.realm"
    ensures Basename(p) == "database.sqlite.realm"
  {
    RealmPathParts(p);
    BasenameOfJoin("abc\\def\\ghi\\", "database.sqlite.realm");
  }

  /** Only the last dot-separated segment of the basename counts as the extension. */
  lemma ExtnameTakesLastDotSegment(p: string)
    requires p == "abc\\def\\ghi\\database.sqlite.realm"
    ensures Extname(p) == ".realm"
  {
    BasenameOfRealmPath(p);
    assert "database.sqlite.realm" == "database.sqlite." + "realm";
    ExtnameOfJoin(p, "database.sqlite.", "realm");
  }

  /** The dirname of a slash path drops the last component and the separator before it. */
  lemma DirnameOfSlashPath(p: string)
    requires p == "abc/def/ghi"
    ensures Dirname(p) == "abc/def"
  {
    assert p == "abc/def" + "/" + "ghi";
    DirnameOfJoin("abc/def", "/", "ghi");
  }

  /** Trailing separators are stripped, but the last component is kept. */
  lemma DirnameStripsTrailingSlashes(p: string)
    requires p == "abc//def//ghi//"
    ensures Dirname(p) == "abc//def//ghi"
  {
    assert p == "abc//def//ghi" + "//" + "";
    DirnameOfJoin("abc//def//ghi", "//", "");
  }

  /** The dirname of a backslash path drops the last component and the separator before it. */
  lemma DirnameOfBackslashPath(p: string)
    requires p == "abc\\def\\ghi"
    ensures Dirname(p) == "abc\\def"
  {
    assert p == "abc\\def" + "\\" + "ghi";
    DirnameOfJoin("abc\\def", "\\", "ghi");
  }

  /** A single trailing backslash is stripped and the last component is kept. */
  lemma DirnameStripsTrailingBackslash(p: string)
    requires p == "abc\\def\\ghi\\"
    ensures Dirname(p) == "abc\\def\\ghi"
  {
    assert p == "abc\\def\\ghi" + "\\" + "";
    DirnameOfJoin("abc\\def\\ghi", "\\", "");
  }

  /** A basename without a dot is its own extension: `extname("README")` is `".README"`. */
  lemma ExtnameWithoutDot(p: string)
    requires p == "README"
    ensures Extname(p) == ".README"
  {
    assert NoneIn(p, Separators);
    ExtnameCorners(p);
  }

  /** `extname("archive.tar.gz")` is `".gz"`. */
  lemma ExtnameOfDoubleExtension(p: string)
    requires p == "archive.tar.gz"
    ensures Extname(p) == ".gz"
  {
    assert NoneIn(p, Separators);
    assert p == "archive.tar." + "gz";
    ExtnameOfJoin(p, "archive.tar.", "gz");
  }

  /** Runs of separators are rewritten one for one, not collapsed. */
  lemma SeparatorRunsAreKept()
    ensures ToSlashAll("a\\\\b") == "a//b"
    ensures ToBackslashAll("a//b") == "a\\\\b"
  {
  }

  /** Two leading backslashes are not enough for `isUNC`; three are. */
  lemma UNCNeedsThreeSeparators()
    ensures !IsUNC("\\\\server\\share")
    ensures IsUNC("\\\\\\server\\share")
    ensures IsUNC("///server/share")
    ensures !IsUNC("\\//server")
  {
  }
}
