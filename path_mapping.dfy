/**
 * Where `generate_content_for_post_type` puts the Markdown for one post:
 * the URL path of the post's permalink is trimmed of '/', exploded on '/',
 * its last piece (or `index` when that piece is falsy) names the file, and
 * the pieces before it name the directories under WP_CONTENT_DIR/llms.
 * Strings are built exactly as the code builds them, relative to
 * WP_CONTENT_DIR; `Segments` then resolves a string to a filesystem path.
 */
module PathMapping {
  import opened Wrappers
  import opened PhpStrings
  import opened FileTree

  /** The output directory, WP_CONTENT_DIR/llms. */
  const LlmsDir: Path := ["llms"]

  /** `parse_url($url, PHP_URL_PATH)` may be null; `trim(null)` reads it as "". */
  function PathText(path: Option<string>): string {
    if path.Some? then path.value else ""
  }

  /** PHP truthiness of `$path`: null, "" and "0" are falsy. */
  predicate PathTruthy(path: Option<string>) {
    path.Some? && Truthy(path.value)
  }

  /** `explode('/', trim($path, '/'))`. */
  function PathParts(path: Option<string>): seq<string> {
    Explode('/', Trim(PathText(path), {'/'}))
  }

  /** `end($path_parts) ?: 'index'`. */
  function FileName(path: Option<string>): string {
    var parts := PathParts(path);
    var last := parts[|parts| - 1];
    if Truthy(last) then last else "index"
  }

  /** What `$dir_path` adds after WP_CONTENT_DIR/llms. */
  function DirSuffix(path: Option<string>): string {
    var parts := PathParts(path);
    if PathTruthy(path) then "/" + Implode('/', parts[..|parts| - 1]) else ""
  }

  /** `$dir_path`, without the WP_CONTENT_DIR prefix. */
  function DirPath(path: Option<string>): string {
    "llms" + DirSuffix(path)
  }

  /** `$file_path = trailingslashit($dir_path) . $filename . '.md'`, without the WP_CONTENT_DIR prefix. */
  function FilePath(path: Option<string>): string {
    TrailingSlashIt(DirPath(path)) + FileName(path) + ".md"
  }

  /** The directory `wp_mkdir_p` is asked to create. */
  function DirTarget(path: Option<string>): Path {
    Segments(DirPath(path))
  }

  /** The file `file_put_contents` writes. */
  function FileTarget(path: Option<string>): Path {
    Segments(FilePath(path))
  }

  /**
   * A path whose directory pieces (all pieces but the last, after trimming)
   * are non-empty and free of '\', so that none is dropped when the path
   * is resolved and `trailingslashit` strips none of them.
   */
  predicate WellFormed(path: Option<string>) {
    var parts := PathParts(path);
    forall i :: 0 <= i < |parts| - 1 ==> parts[i] != "" && '\\' !in parts[i]
  }

  // ---------------------------------------------------------------------
  // Helpers

  lemma SegmentsLlms(r: string)
    requires r == "" || r[0] == '/'
    ensures |Segments("llms" + r)| >= 1 && Segments("llms" + r)[0] == "llms"
  {
    SegmentsSingle("llms");
    if r == "" {
      assert "llms" + r == "llms";
    } else {
      assert "llms" + r == "llms" + "/" + r[1..];
      SegmentsAround("llms", r[1..]);
    }
  }

  lemma FileNameShape(path: Option<string>)
    ensures FileName(path) != "" && '/' !in FileName(path)
  {
    var parts := PathParts(path);
    ExplodePartsNoSep('/', Trim(PathText(path), {'/'}));
    assert '/' !in parts[|parts| - 1];
  }

  lemma {:induction false} ImplodeSnoc(sep: char, parts: seq<string>, x: string)
    ensures Implode(sep, parts + [x]) == if |parts| == 0 then x else Implode(sep, parts) + [sep] + x
    decreases |parts|
  {
    if |parts| == 0 {
      assert parts + [x] == [x];
    } else if |parts| == 1 {
      assert (parts + [x])[1..] == [x];
    } else {
      assert (parts + [x])[1..] == parts[1..] + [x];
      ImplodeSnoc(sep, parts[1..], x);
    }
  }

  lemma RTrimSlashStart(x: string)
    requires x == "" || x[0] == '/'
    ensures var r := RTrim(x, {'/', '\\'}); r == "" || r[0] == '/'
  {
    RTrimShape(x, {'/', '\\'});
  }

  /** The file path is the trimmed directory path, a '/', and the file name. */
  lemma FilePathForm(path: Option<string>)
    ensures FilePath(path) == ("llms" + RTrim(DirSuffix(path), {'/', '\\'})) + "/" + (FileName(path) + ".md")
  {
    RTrimAfter("llms", DirSuffix(path), {'/', '\\'});
  }

  lemma SegmentsFile(a: string, f: string)
    requires f != "" && '/' !in f
    ensures Segments(a + "/" + f) == Segments(a) + [f]
  {
    SegmentsAround(a, f);
    SegmentsSingle(f);
  }

  // ---------------------------------------------------------------------
  // Properties

  /**
   * Every post goes to a `.md` file strictly inside WP_CONTENT_DIR/llms,
   * and `wp_mkdir_p` is always asked for a directory inside it.
   */
  lemma TargetShape(path: Option<string>)
    ensures |DirTarget(path)| >= 1 && DirTarget(path)[0] == "llms"
    ensures |FileTarget(path)| >= 2 && FileTarget(path)[0] == "llms"
    ensures FileTarget(path)[|FileTarget(path)| - 1] == FileName(path) + ".md"
  {
    SegmentsLlms(DirSuffix(path));
    FileTargetForm(path);
    var r := RTrim(DirSuffix(path), {'/', '\\'});
    SegmentsLlms(r);
  }

  lemma FileTargetForm(path: Option<string>)
    ensures var r := RTrim(DirSuffix(path), {'/', '\\'});
      && (r == "" || r[0] == '/')
      && FileTarget(path) == Segments("llms" + r) + [FileName(path) + ".md"]
  {
    RTrimSlashStart(DirSuffix(path));
    FileNameShape(path);
    FilePathForm(path);
    var r := RTrim(DirSuffix(path), {'/', '\\'});
    SegmentsFile("llms" + r, FileName(path) + ".md");
  }

  lemma DirSegmentsFalsy(path: Option<string>)
    requires !PathTruthy(path)
    ensures |PathParts(path)| == 1
    ensures DirTarget(path) == LlmsDir
    ensures FileTarget(path) == LlmsDir + [FileName(path) + ".md"]
  {
    if PathText(path) == "" {
      assert Trim("", {'/'}) == "";
    } else {
      assert PathText(path) == "0";
      assert Trim("0", {'/'}) == "0";
      ExplodeNoSep('/', "0");
    }
    assert DirSuffix(path) == "";
    assert DirPath(path) == "llms";
    SegmentsSingle("llms");
    FileTargetForm(path);
  }

  lemma DirSegmentsOne(path: Option<string>)
    requires PathTruthy(path) && |PathParts(path)| == 1
    ensures DirTarget(path) == LlmsDir
    ensures FileTarget(path) == LlmsDir + [FileName(path) + ".md"]
  {
    assert DirSuffix(path) == "/";
    assert DirPath(path) == "llms" + "/" + "";
    SegmentsAround("llms", "");
    SegmentsSingle("llms");
    assert Segments("") == [];
    assert RTrim("/", {'/', '\\'}) == "";
    assert "llms" + RTrim(DirSuffix(path), {'/', '\\'}) == "llms";
    FileTargetForm(path);
  }

  lemma ImplodeLastChar(init: seq<string>)
    requires |init| >= 1
    requires forall i :: 0 <= i < |init| ==> init[i] != "" && '\\' !in init[i] && '/' !in init[i]
    ensures var d := Implode('/', init); |d| > 0 && d[|d| - 1] !in {'/', '\\'}
  {
    var k := |init|;
    var x := init[k - 1];
    assert init == init[..k - 1] + [x];
    ImplodeSnoc('/', init[..k - 1], x);
    var d := Implode('/', init);
    assert d[|d| - 1] == x[|x| - 1];
  }

  lemma DirSegmentsMany(path: Option<string>)
    requires PathTruthy(path) && |PathParts(path)| >= 2 && WellFormed(path)
    ensures var parts := PathParts(path);
      && DirTarget(path) == LlmsDir + parts[..|parts| - 1]
      && FileTarget(path) == LlmsDir + parts[..|parts| - 1] + [FileName(path) + ".md"]
  {
    var parts := PathParts(path);
    var init := parts[..|parts| - 1];
    ExplodePartsNoSep('/', Trim(PathText(path), {'/'}));
    assert forall i :: 0 <= i < |init| ==> init[i] != "" && '\\' !in init[i] && '/' !in init[i];
    var d := Implode('/', init);
    SegmentsImplode(init);
    SegmentsAround("llms", d);
    SegmentsSingle("llms");
    assert DirPath(path) == "llms" + "/" + d;
    ImplodeLastChar(init);
    var sfx := "/" + d;
    assert sfx[|sfx| - 1] == d[|d| - 1];
    assert RTrim(sfx, {'/', '\\'}) == sfx;
    assert "llms" + RTrim(DirSuffix(path), {'/', '\\'}) == "llms" + "/" + d;
    FileTargetForm(path);
  }

  /**
   * The mapping from a permalink path such as `/a/b/c/`: after the outer
   * slashes are trimmed, every piece but the last is a directory under
   * llms, and the last piece names the file, `index` standing in for a
   * falsy piece ("" or "0"); the file lies in the directory `wp_mkdir_p`
   * is asked to create.
   */
  lemma NestedPath(path: Option<string>)
    requires WellFormed(path)
    ensures var parts := PathParts(path);
      var n := |parts|;
      && DirTarget(path) == LlmsDir + parts[..n - 1]
      && FileTarget(path) == LlmsDir + parts[..n - 1] + [(if Truthy(parts[n - 1]) then parts[n - 1] else "index") + ".md"]
  {
    var parts := PathParts(path);
    if !PathTruthy(path) {
      DirSegmentsFalsy(path);
      assert parts[..0] == [];
    } else if |parts| == 1 {
      DirSegmentsOne(path);
      assert parts[..0] == [];
    } else {
      DirSegmentsMany(path);
    }
  }

  /** For well-formed paths the file lands inside the directory created for it. */
  lemma FileInDir(path: Option<string>)
    requires WellFormed(path)
    ensures FileTarget(path) == DirTarget(path) + [FileName(path) + ".md"]
  {
    NestedPath(path);
  }

  lemma SlashesTrimToEmpty(t: string)
    requires forall i :: 0 <= i < |t| ==> t[i] == '/'
    ensures Trim(t, {'/'}) == ""
  {
    LTrimShape(t, {'/'});
  }

  lemma RootPieces(path: Option<string>)
    requires path.None? || path == Some("0") || forall i :: 0 <= i < |PathText(path)| ==> PathText(path)[i] == '/'
    ensures PathParts(path) == [""] || PathParts(path) == ["0"]
  {
    if path == Some("0") {
      assert Trim("0", {'/'}) == "0";
      ExplodeNoSep('/', "0");
    } else {
      SlashesTrimToEmpty(PathText(path));
    }
  }

  lemma OnePieceName(path: Option<string>)
    requires PathParts(path) == [""] || PathParts(path) == ["0"]
    ensures FileName(path) + ".md" == "index.md"
  {
    assert FileName(path) == "index";
  }

  lemma OnePieceTargets(path: Option<string>)
    requires PathParts(path) == [""] || PathParts(path) == ["0"]
    ensures DirTarget(path) == LlmsDir
    ensures FileTarget(path) == LlmsDir + ["index.md"]
  {
    OnePieceName(path);
    if !PathTruthy(path) {
      DirSegmentsFalsy(path);
    } else {
      DirSegmentsOne(path);
    }
  }

  /**
   * The root fallback: an absent path, "", "/" (or any run of slashes) and
   * "0" all give WP_CONTENT_DIR/llms/index.md.
   */
  lemma RootFallback(path: Option<string>)
    requires path.None? || path == Some("0") || forall i :: 0 <= i < |PathText(path)| ==> PathText(path)[i] == '/'
    ensures DirTarget(path) == LlmsDir
    ensures FileTarget(path) == LlmsDir + ["index.md"]
  {
    RootPieces(path);
    OnePieceTargets(path);
  }

  lemma TrimmedExample()
    ensures PathParts(Some("/a/b/c/")) == ["a", "b", "c"]
  {
    assert LTrim("/a/b/c/", {'/'}) == "a/b/c/";
    assert RTrim("a/b/c/", {'/'}) == "a/b/c";
    assert Implode('/', ["a", "b", "c"]) == "a/b/c";
    ExplodeImplode('/', ["a", "b", "c"]);
  }

  lemma ThreePieces(path: Option<string>)
    requires PathParts(path) == ["a", "b", "c"]
    ensures DirTarget(path) == ["llms", "a", "b"]
    ensures FileTarget(path) == ["llms", "a", "b", "c.md"]
  {
    var parts := PathParts(path);
    assert '\\' !in parts[0] && '\\' !in parts[1];
    NestedPath(path);
    assert parts[..2] == ["a", "b"];
    assert Truthy(parts[2]);
    assert DirTarget(path) == LlmsDir + parts[..2];
    assert FileTarget(path) == LlmsDir + parts[..2] + [parts[2] + ".md"];
    assert parts[2] + ".md" == "c.md";
    assert LlmsDir + ["a", "b"] == ["llms", "a", "b"];
    assert LlmsDir + ["a", "b"] + ["c.md"] == ["llms", "a", "b", "c.md"];
  }

  /** The permalink path `/a/b/c/` maps to directory llms/a/b and file llms/a/b/c.md. */
  lemma NestedExample()
    ensures DirTarget(Some("/a/b/c/")) == ["llms", "a", "b"]
    ensures FileTarget(Some("/a/b/c/")) == ["llms", "a", "b", "c.md"]
  {
    TrimmedExample();
    ThreePieces(Some("/a/b/c/"));
  }

  lemma ZeroPieces()
    ensures PathParts(Some("/a/0")) == ["a", "0"]
  {
    assert LTrim("/a/0", {'/'}) == "a/0";
    assert RTrim("a/0", {'/'}) == "a/0";
    assert Implode('/', ["a", "0"]) == "a/0";
    ExplodeImplode('/', ["a", "0"]);
  }

  lemma ZeroDir(path: Option<string>)
    requires PathParts(path) == ["a", "0"]
    ensures WellFormed(path)
    ensures DirTarget(path) == ["llms", "a"]
  {
    var parts := PathParts(path);
    assert '\\' !in parts[0];
    NestedPath(path);
    assert parts[..1] == ["a"];
    assert LlmsDir + ["a"] == ["llms", "a"];
  }

  lemma TwoPiecesZero(path: Option<string>)
    requires PathParts(path) == ["a", "0"]
    ensures DirTarget(path) == ["llms", "a"]
    ensures FileTarget(path) == ["llms", "a", "index.md"]
  {
    ZeroDir(path);
    FileInDir(path);
    ZeroName(path);
    assert ["llms", "a"] + ["index.md"] == ["llms", "a", "index.md"];
  }

  lemma ZeroName(path: Option<string>)
    requires PathParts(path) == ["a", "0"]
    ensures FileName(path) + ".md" == "index.md"
  {
    assert !Truthy(PathParts(path)[1]);
  }

  /** A falsy last piece "0" is replaced by `index`: `/a/0` maps to llms/a/index.md. */
  lemma ZeroExample()
    ensures DirTarget(Some("/a/0")) == ["llms", "a"]
    ensures FileTarget(Some("/a/0")) == ["llms", "a", "index.md"]
  {
    ZeroPieces();
    TwoPiecesZero(Some("/a/0"));
  }

  lemma AboutPieces()
    ensures PathParts(Some("/about/")) == ["about"]
  {
    assert LTrim("/about/", {'/'}) == "about/";
    assert RTrim("about/", {'/'}) == "about";
    ExplodeNoSep('/', "about");
  }

  lemma OnePieceAbout(path: Option<string>)
    requires PathTruthy(path) && PathParts(path) == ["about"]
    ensures DirTarget(path) == ["llms"]
    ensures FileTarget(path) == ["llms", "about.md"]
  {
    DirSegmentsOne(path);
    assert FileName(path) == "about";
    assert "about" + ".md" == "about.md";
    assert LlmsDir + ["about.md"] == ["llms", "about.md"];
  }

  /** A trailing slash is trimmed: `/about/` maps to llms/about.md. */
  lemma AboutExample()
    ensures FileTarget(Some("/about/")) == ["llms", "about.md"]
  {
    AboutPieces();
    assert Truthy("/about/");
    OnePieceAbout(Some("/about/"));
  }
}
