/**
 * What the plugin's regeneration does to the tree under `WP_CONTENT_DIR`,
 * as functions of the tree, and the properties of a full and of a
 * per-type rebuild.
 *
 * Each published post becomes one `Write`: the directory `wp_mkdir_p` is
 * asked for, the file `file_put_contents` writes, and the converted
 * content. The HTML-to-Markdown converter is the function parameter
 * `convert`.
 */
module Rebuild {
  import opened Wrappers
  import opened PhpStrings
  import opened FileTree
  import opened PathMapping
  import opened Content
  import opened Manifest

  /** `WP_CONTENT_DIR/llms.txt`, beside the `llms` directory rather than inside it. */
  const ManifestPath: Path := ["llms.txt"]

  /** A path strictly inside `WP_CONTENT_DIR/llms`. */
  predicate InsideLlms(p: Path) {
    |p| > 1 && p[0] == "llms"
  }

  /** A path that is neither `llms` nor beneath it. */
  predicate OutsideLlms(q: Path) {
    |q| == 0 || q[0] != "llms"
  }

  /** The entry at `q`, if any. */
  function Lookup(fs: Fs, q: Path): Option<Entry> {
    if q in fs then Some(fs[q]) else None
  }

  // ---------------------------------------------------------------------
  // Writes

  /** What one post makes `generate_content_for_post_type` do. */
  datatype Write = Write(dir: Path, file: Path, content: string)

  function PostWrite(p: Post, convert: string -> string): Write {
    Write(DirTarget(p.path), FileTarget(p.path), convert(p.html))
  }

  /** The writes of `posts`, in order. */
  function Writes(posts: seq<Post>, convert: string -> string): (ws: seq<Write>)
    ensures |ws| == |posts|
    ensures forall i :: 0 <= i < |posts| ==> ws[i] == PostWrite(posts[i], convert)
  {
    seq(|posts|, i requires 0 <= i < |posts| => PostWrite(posts[i], convert))
  }

  /** Both targets of a write lie inside or at `llms`, the file at least one level down. */
  predicate Shaped(w: Write) {
    |w.dir| >= 1 && w.dir[0] == "llms" && |w.file| >= 2 && w.file[0] == "llms"
  }

  /** The file of a write lies directly in its directory. */
  predicate Nested(w: Write) {
    Shaped(w) && w.file[..|w.file| - 1] == w.dir
  }

  /** The files the writes target. */
  function Files(ws: seq<Write>): set<Path> {
    set w | w in ws :: w.file
  }

  /** The files the posts are written to. */
  function Targets(posts: seq<Post>): set<Path> {
    set p | p in posts :: FileTarget(p.path)
  }

  lemma WritesSnoc(posts: seq<Post>, i: nat, convert: string -> string)
    requires i < |posts|
    ensures Writes(posts[..i + 1], convert) == Writes(posts[..i], convert) + [PostWrite(posts[i], convert)]
  {
    assert posts[..i + 1] == posts[..i] + [posts[i]];
    WritesAppend(posts[..i], [posts[i]], convert);
    var one := Writes([posts[i]], convert);
    assert one == [one[0]];
  }

  lemma WritesAppend(a: seq<Post>, b: seq<Post>, convert: string -> string)
    ensures Writes(a + b, convert) == Writes(a, convert) + Writes(b, convert)
  {
    var lhs := Writes(a + b, convert);
    var rhs := Writes(a, convert) + Writes(b, convert);
    assert |lhs| == |rhs|;
    forall j | 0 <= j < |lhs|
      ensures lhs[j] == rhs[j]
    {
      if j < |a| {
        assert (a + b)[j] == a[j];
      } else {
        assert (a + b)[j] == b[j - |a|];
      }
    }
  }

  /** Every write comes from one of the posts. */
  lemma WritesFrom(posts: seq<Post>, convert: string -> string, w: Write)
    ensures w in Writes(posts, convert) ==> exists p :: p in posts && w == PostWrite(p, convert)
  {
    if w in Writes(posts, convert) {
      var j :| 0 <= j < |posts| && Writes(posts, convert)[j] == w;
      assert posts[j] in posts;
    }
  }

  lemma PostWriteShaped(p: Post, convert: string -> string)
    ensures Shaped(PostWrite(p, convert))
  {
    TargetShape(p.path);
  }

  lemma PostWriteNested(p: Post, convert: string -> string)
    requires WellFormed(p.path)
    ensures Nested(PostWrite(p, convert))
  {
    TargetShape(p.path);
    FileInDir(p.path);
    var f := FileTarget(p.path);
    assert f[..|f| - 1] == DirTarget(p.path);
  }

  lemma WritesShaped(posts: seq<Post>, convert: string -> string)
    ensures forall w :: w in Writes(posts, convert) ==> Shaped(w)
  {
    forall w | w in Writes(posts, convert)
      ensures Shaped(w)
    {
      WritesFrom(posts, convert, w);
      var p :| p in posts && w == PostWrite(p, convert);
      PostWriteShaped(p, convert);
    }
  }

  /** A file is targeted by the writes exactly when it is the target of one of the posts. */
  lemma WritesFiles(posts: seq<Post>, convert: string -> string, q: Path)
    ensures q in Files(Writes(posts, convert)) <==> q in Targets(posts)
  {
    if q in Files(Writes(posts, convert)) {
      var w :| w in Writes(posts, convert) && w.file == q;
      WritesFrom(posts, convert, w);
    }
    if q in Targets(posts) {
      var j :| 0 <= j < |posts| && FileTarget(posts[j].path) == q;
      assert Writes(posts, convert)[j] in Writes(posts, convert);
    }
  }

  lemma FilesSnoc(ws: seq<Write>)
    requires |ws| > 0
    ensures Files(ws) == Files(ws[..|ws| - 1]) + {ws[|ws| - 1].file}
  {
    assert ws == ws[..|ws| - 1] + [ws[|ws| - 1]];
  }

  // ---------------------------------------------------------------------
  // The rebuild, as functions of the tree

  /**
   * One iteration of the loop in `generate_content_for_post_type`: create
   * the directory when nothing exists there, then write the file.
   */
  function Put(fs: Fs, w: Write): Fs {
    var fs1 := if w.dir in fs then fs else MkdirP(fs, w.dir);
    PutContents(fs1, w.file, w.content)
  }

  /** The writes done one after the other, in order. */
  function PutAll(fs: Fs, ws: seq<Write>): Fs
    decreases |ws|
  {
    if |ws| == 0 then fs else Put(PutAll(fs, ws[..|ws| - 1]), ws[|ws| - 1])
  }

  /** The posts stored one after the other, in order. */
  function StoreAll(fs: Fs, posts: seq<Post>, convert: string -> string): Fs {
    PutAll(fs, Writes(posts, convert))
  }

  /** `clear_existing_md_files`. */
  function Cleared(fs: Fs): Fs {
    Delete(fs, LlmsDir)
  }

  /** `generate_all_content`: every public type's posts, then the manifest. */
  function Generated(fs: Fs, site: Site, convert: string -> string): Fs {
    PutContents(StoreAll(fs, AllPosts(site, site.publicTypes), convert), ManifestPath, ManifestText(site))
  }

  /**
   * `llms` is a regular file: `delete_directory` hands the `false` that
   * `scandir` returns to `array_diff`, which throws, and the run ends there.
   */
  predicate ClearFails(fs: Fs) {
    LlmsDir in fs && fs[LlmsDir].File?
  }

  /**
   * `rebuild_all_llm_pages` and `scheduled_full_regeneration`: clear, then
   * generate; when clearing throws, nothing after it runs.
   */
  function FullRebuild(fs: Fs, site: Site, convert: string -> string): Fs {
    if ClearFails(fs) then fs else Generated(Cleared(fs), site, convert)
  }

  /** `rebuild_llm_content_for_post_type`: that type's posts only. */
  function TypeRebuild(fs: Fs, site: Site, t: string, convert: string -> string): Fs {
    StoreAll(fs, Published(site, t), convert)
  }

  /** The regular files strictly inside `llms`, with their contents. */
  function FilesInside(fs: Fs): map<Path, string> {
    map q | q in fs && fs[q].File? && InsideLlms(q) :: fs[q].content
  }

  /** The targeted files, each holding the content of the last write to it. */
  function Expected(ws: seq<Write>): map<Path, string>
    decreases |ws|
  {
    if |ws| == 0 then map[] else Expected(ws[..|ws| - 1])[ws[|ws| - 1].file := ws[|ws| - 1].content]
  }

  lemma StoreSnoc(fs: Fs, posts: seq<Post>, i: nat, convert: string -> string)
    requires i < |posts|
    ensures StoreAll(fs, posts[..i + 1], convert) == Put(StoreAll(fs, posts[..i], convert), PostWrite(posts[i], convert))
  {
    WritesSnoc(posts, i, convert);
    var ws := Writes(posts[..i + 1], convert);
    assert ws[..|ws| - 1] == Writes(posts[..i], convert);
  }

  lemma {:induction false} PutAllAppend(fs: Fs, a: seq<Write>, b: seq<Write>)
    ensures PutAll(fs, a + b) == PutAll(PutAll(fs, a), b)
    decreases |b|
  {
    if |b| == 0 {
      assert a + b == a;
    } else {
      var n := |b| - 1;
      assert (a + b)[..|a + b| - 1] == a + b[..n];
      assert (a + b)[|a + b| - 1] == b[n];
      PutAllAppend(fs, a, b[..n]);
    }
  }

  /** Storing two runs of posts is storing the first, then the second. */
  lemma StoreAllAppend(fs: Fs, a: seq<Post>, b: seq<Post>, convert: string -> string)
    ensures StoreAll(fs, a + b, convert) == StoreAll(StoreAll(fs, a, convert), b, convert)
  {
    WritesAppend(a, b, convert);
    PutAllAppend(fs, Writes(a, convert), Writes(b, convert));
  }

  // ---------------------------------------------------------------------
  // What a write may change

  /** A write touches nothing outside `llms`. */
  lemma PutOutside(fs: Fs, w: Write, q: Path)
    requires Shaped(w) && OutsideLlms(q)
    ensures Lookup(Put(fs, w), q) == Lookup(fs, q)
  {
    MkdirPEffect(fs, w.dir, q);
    var fs1 := if w.dir in fs then fs else MkdirP(fs, w.dir);
    PutContentsEffect(fs1, w.file, w.content, q);
  }

  /** A write removes nothing and changes no regular file but its own. */
  lemma PutKeeps(fs: Fs, w: Write, q: Path)
    requires q in fs
    ensures q in Put(fs, w)
    ensures fs[q].File? && q != w.file ==> Put(fs, w)[q] == fs[q]
  {
    MkdirPKeeps(fs, w.dir, q);
    var fs1 := if w.dir in fs then fs else MkdirP(fs, w.dir);
    PutContentsEffect(fs1, w.file, w.content, q);
  }

  /** The only regular file a write can create is its own. */
  lemma PutNewFile(fs: Fs, w: Write, q: Path)
    requires q in Put(fs, w) && Put(fs, w)[q].File?
    ensures q == w.file || (q in fs && fs[q].File?)
  {
    MkdirPEffect(fs, w.dir, q);
    if q in fs {
      MkdirPKeeps(fs, w.dir, q);
    }
    var fs1 := if w.dir in fs then fs else MkdirP(fs, w.dir);
    PutContentsEffect(fs1, w.file, w.content, q);
  }

  lemma {:induction false} PutAllOutside(fs: Fs, ws: seq<Write>, q: Path)
    requires forall w :: w in ws ==> Shaped(w)
    requires OutsideLlms(q)
    ensures Lookup(PutAll(fs, ws), q) == Lookup(fs, q)
    decreases |ws|
  {
    if |ws| > 0 {
      var n := |ws| - 1;
      assert ws[n] in ws;
      assert forall w :: w in ws[..n] ==> w in ws;
      PutAllOutside(fs, ws[..n], q);
      PutOutside(PutAll(fs, ws[..n]), ws[n], q);
    }
  }

  lemma {:induction false} PutAllKeeps(fs: Fs, ws: seq<Write>, q: Path)
    requires q in fs
    ensures q in PutAll(fs, ws)
    ensures fs[q].File? && q !in Files(ws) ==> PutAll(fs, ws)[q] == fs[q]
    decreases |ws|
  {
    if |ws| > 0 {
      var n := |ws| - 1;
      FilesSnoc(ws);
      PutAllKeeps(fs, ws[..n], q);
      PutKeeps(PutAll(fs, ws[..n]), ws[n], q);
    }
  }

  lemma {:induction false} PutAllNewFile(fs: Fs, ws: seq<Write>, q: Path)
    requires q in PutAll(fs, ws) && PutAll(fs, ws)[q].File?
    ensures q in Files(ws) || (q in fs && fs[q].File?)
    decreases |ws|
  {
    if |ws| > 0 {
      var n := |ws| - 1;
      FilesSnoc(ws);
      PutNewFile(PutAll(fs, ws[..n]), ws[n], q);
      if q != ws[n].file {
        PutAllNewFile(fs, ws[..n], q);
      }
    }
  }

  // ---------------------------------------------------------------------
  // Clearing

  /** After clearing, nothing is left strictly inside `llms`. */
  lemma ClearEmpties(fs: Fs)
    requires Valid(fs)
    ensures forall q :: q in Cleared(fs) ==> !InsideLlms(q)
    ensures FilesInside(Cleared(fs)) == map[]
  {
    forall q | q in Cleared(fs)
      ensures !InsideLlms(q)
    {
      assert |q| > 1 ==> q[..1] == [q[0]];
      if LlmsDir in fs && fs[LlmsDir].Dir? {
        DeleteRemoves(fs, LlmsDir, q);
      }
    }
  }

  /** Clearing touches nothing outside `llms`. */
  lemma ClearOutside(fs: Fs, q: Path)
    requires OutsideLlms(q)
    ensures Lookup(Cleared(fs), q) == Lookup(fs, q)
  {
    assert LlmsDir[0] == "llms";
    assert !(LlmsDir <= q);
  }

  lemma ManifestOutside()
    ensures OutsideLlms(ManifestPath) && !InsideLlms(ManifestPath)
  {
    assert |ManifestPath[0]| != |"llms"|;
  }

  /**
   * `llms.txt` survives clearing, although the doc comment of
   * `clear_existing_md_files` says the manifest is cleared too.
   */
  lemma ClearKeepsManifest(fs: Fs)
    ensures Lookup(Cleared(fs), ManifestPath) == Lookup(fs, ManifestPath)
  {
    ManifestOutside();
    ClearOutside(fs, ManifestPath);
  }

  /** Clearing twice is clearing once. */
  lemma ClearIdempotent(fs: Fs)
    ensures Cleared(Cleared(fs)) == Cleared(fs)
  {
    DeleteIdempotent(fs, LlmsDir);
  }

  // ---------------------------------------------------------------------
  // The per-type rebuild

  /**
   * A per-type rebuild removes nothing, changes no file but those of that
   * type's posts, creates no file but those, and leaves everything outside
   * `llms`, the manifest included, as it was.
   */
  lemma TypeRebuildFrame(fs: Fs, site: Site, t: string, convert: string -> string, q: Path)
    ensures var r := TypeRebuild(fs, site, t, convert);
      && (q in fs ==> q in r)
      && (q in fs && fs[q].File? && q !in Targets(Published(site, t)) ==> r[q] == fs[q])
      && (q in r && r[q].File? ==> q in Targets(Published(site, t)) || (q in fs && fs[q].File?))
      && (OutsideLlms(q) ==> Lookup(r, q) == Lookup(fs, q))
  {
    var ws := Writes(Published(site, t), convert);
    var r := PutAll(fs, ws);
    WritesFiles(Published(site, t), convert, q);
    if q in fs {
      PutAllKeeps(fs, ws, q);
    }
    if q in r && r[q].File? {
      PutAllNewFile(fs, ws, q);
    }
    if OutsideLlms(q) {
      WritesShaped(Published(site, t), convert);
      PutAllOutside(fs, ws, q);
    }
  }

  /** A per-type rebuild leaves `llms.txt` as it was, so the manifest may list stale or missing posts. */
  lemma TypeRebuildKeepsManifest(fs: Fs, site: Site, t: string, convert: string -> string)
    ensures Lookup(TypeRebuild(fs, site, t, convert), ManifestPath) == Lookup(fs, ManifestPath)
  {
    ManifestOutside();
    WritesShaped(Published(site, t), convert);
    PutAllOutside(fs, Writes(Published(site, t), convert), ManifestPath);
  }

  // ---------------------------------------------------------------------
  // The full rebuild

  /** After a full rebuild, every file inside `llms` belongs to a published post of a public type. */
  lemma NoStale(fs: Fs, site: Site, convert: string -> string, q: Path)
    requires Valid(fs)
    ensures q in FilesInside(FullRebuild(fs, site, convert)) ==> q in Targets(AllPosts(site, site.publicTypes))
  {
    var all := AllPosts(site, site.publicTypes);
    var ws := Writes(all, convert);
    var c := Cleared(fs);
    var s := PutAll(c, ws);
    if ClearFails(fs) {
      NothingInsideFile(fs, q);
    } else if q in FilesInside(FullRebuild(fs, site, convert)) {
      PutContentsEffect(s, ManifestPath, ManifestText(site), q);
      PutAllNewFile(c, ws, q);
      ClearEmpties(fs);
      WritesFiles(all, convert, q);
    }
  }

  /** Where `llms` is a regular file, nothing inside it can exist. */
  lemma NothingInsideFile(fs: Fs, q: Path)
    requires Valid(fs) && ClearFails(fs)
    ensures q !in FilesInside(fs)
  {
    if q in fs && |q| > 1 {
      assert q[..1] == [q[0]];
    }
  }

  /** A full rebuild that finds a regular file at `llms` throws before it changes anything. */
  lemma FullRebuildAborts(fs: Fs, site: Site, convert: string -> string)
    requires Valid(fs) && ClearFails(fs)
    ensures FullRebuild(fs, site, convert) == fs
    ensures FilesInside(FullRebuild(fs, site, convert)) == map[]
  {
    forall q {
      NothingInsideFile(fs, q);
    }
  }

  /**
   * A full rebuild writes the rendered manifest to `llms.txt`, unless a
   * directory stands there or clearing `llms` throws.
   */
  lemma FullRebuildManifest(fs: Fs, site: Site, convert: string -> string)
    requires !(ManifestPath in fs && fs[ManifestPath].Dir?)
    requires !ClearFails(fs)
    ensures ManifestPath in FullRebuild(fs, site, convert)
    ensures FullRebuild(fs, site, convert)[ManifestPath] == File(ManifestText(site))
  {
    var all := AllPosts(site, site.publicTypes);
    ClearKeepsManifest(fs);
    ManifestOutside();
    WritesShaped(all, convert);
    PutAllOutside(Cleared(fs), Writes(all, convert), ManifestPath);
  }

  // ---------------------------------------------------------------------
  // Link and file are derived independently

  lemma LinkLineExample(p: Post)
    requires p.title == "About" && p.permalink == "https://x/about/"
    ensures LinkLine(p) == "- [About](https://x/about/.md)\n"
  {
  }

  /**
   * The manifest link appends `.md` to the permalink, trailing slash and
   * all, while the file is derived from the trimmed path: the page at
   * `https://x/about/` is linked as `https://x/about/.md` but written to
   * `llms/about.md`.
   */
  lemma LinkBesideFile(p: Post)
    requires p.title == "About" && p.permalink == "https://x/about/" && p.path == Some("/about/")
    ensures LinkLine(p) == "- [About](https://x/about/.md)\n"
    ensures FileTarget(p.path) == ["llms", "about.md"]
  {
    AboutExample();
    LinkLineExample(p);
  }

  // ---------------------------------------------------------------------
  // The full rebuild, exactly

  /** No write's file is an ancestor-or-self of any write's directory. */
  predicate NoClash(ws: seq<Write>) {
    forall i, j :: 0 <= i < |ws| && 0 <= j < |ws| ==> !(ws[i].file <= ws[j].dir)
  }

  predicate AllNested(ws: seq<Write>) {
    forall i :: 0 <= i < |ws| ==> Nested(ws[i])
  }

  /**
   * The posts' paths are well formed, and no post's Markdown file stands
   * where another post needs a directory.
   */
  predicate Sound(posts: seq<Post>) {
    && (forall i :: 0 <= i < |posts| ==> WellFormed(posts[i].path))
    && (forall i, j :: 0 <= i < |posts| && 0 <= j < |posts| ==> !(FileTarget(posts[i].path) <= DirTarget(posts[j].path)))
  }

  lemma SoundWrites(posts: seq<Post>, convert: string -> string)
    requires Sound(posts)
    ensures NoClash(Writes(posts, convert)) && AllNested(Writes(posts, convert))
  {
    var ws := Writes(posts, convert);
    forall i | 0 <= i < |ws|
      ensures Nested(ws[i])
    {
      PostWriteNested(posts[i], convert);
    }
  }

  lemma {:induction false} ExpectedKeys(ws: seq<Write>)
    ensures Expected(ws).Keys == Files(ws)
    decreases |ws|
  {
    if |ws| > 0 {
      ExpectedKeys(ws[..|ws| - 1]);
      FilesSnoc(ws);
    }
  }

  /** The last write to a file decides its expected content. */
  lemma {:induction false} ExpectedLast(ws: seq<Write>, i: nat)
    requires i < |ws|
    requires forall j :: i < j < |ws| ==> ws[j].file != ws[i].file
    ensures ws[i].file in Expected(ws) && Expected(ws)[ws[i].file] == ws[i].content
    decreases |ws|
  {
    var n := |ws| - 1;
    if i < n {
      assert forall j :: i < j < n ==> ws[..n][j] == ws[j];
      ExpectedLast(ws[..n], i);
      assert ws[..n][i] == ws[i];
    }
  }

  /** `wp_mkdir_p` creates directories only, so the files inside `llms` stay as they were. */
  lemma MkdirPFiles(fs: Fs, d: Path)
    ensures FilesInside(MkdirP(fs, d)) == FilesInside(fs)
  {
    var r := MkdirP(fs, d);
    forall q | q in r || q in fs
      ensures (q in FilesInside(r) <==> q in FilesInside(fs))
      ensures q in FilesInside(fs) ==> FilesInside(r)[q] == FilesInside(fs)[q]
    {
      MkdirPEffect(fs, d, q);
      if q in fs {
        MkdirPKeeps(fs, d, q);
      }
    }
  }

  /** The directories after `wp_mkdir_p` are the old ones and the prefixes of its argument. */
  lemma MkdirPDirs(fs: Fs, d: Path, q: Path)
    requires q in MkdirP(fs, d) && MkdirP(fs, d)[q].Dir?
    ensures (q in fs && fs[q].Dir?) || q <= d
  {
    MkdirPEffect(fs, d, q);
    if q in fs {
      MkdirPKeeps(fs, d, q);
    }
  }

  lemma WriteInside(fs: Fs, p: Path, c: string)
    requires InsideLlms(p)
    ensures FilesInside(fs[p := File(c)]) == FilesInside(fs)[p := c]
  {
  }

  lemma WriteOutside(fs: Fs, p: Path, c: string)
    requires !InsideLlms(p)
    ensures FilesInside(PutContents(fs, p, c)) == FilesInside(fs)
  {
  }

  /**
   * Halfway through the loop, after the writes `ws[..k]`: a tree, `llms` is
   * not a file, the files inside `llms` are what the writes so far leave,
   * and no write's file is a directory.
   */
  ghost predicate Tracks(fs: Fs, ws: seq<Write>, k: nat) {
    && k <= |ws|
    && Valid(fs)
    && !ClearFails(fs)
    && FilesInside(fs) == Expected(ws[..k])
    && (forall i :: 0 <= i < |ws| ==> !(ws[i].file in fs && fs[ws[i].file].Dir?))
  }

  /** Right after clearing nothing is inside `llms`, so every write may go ahead. */
  lemma TracksStart(fs: Fs, ws: seq<Write>)
    requires Valid(fs) && !ClearFails(fs)
    requires forall i :: 0 <= i < |ws| ==> Shaped(ws[i])
    ensures Tracks(Cleared(fs), ws, 0)
  {
    DeleteValid(fs, LlmsDir);
    ClearEmpties(fs);
    if LlmsDir in fs {
      DeleteRemoves(fs, LlmsDir, LlmsDir);
    }
    forall i | 0 <= i < |ws|
      ensures ws[i].file !in Cleared(fs)
    {
      assert InsideLlms(ws[i].file);
    }
  }

  /** Nothing on the way to the next write's directory is a file. */
  lemma DirFree(fs: Fs, ws: seq<Write>, k: nat, p: Path)
    requires Tracks(fs, ws, k) && k < |ws|
    requires NoClash(ws) && AllNested(ws)
    requires p in fs && p <= ws[k].dir
    ensures !fs[p].File?
  {
    assert [] !in fs;
    if |p| == 1 {
      assert p == LlmsDir;
    } else {
      var done := ws[..k];
      forall i | 0 <= i < k
        ensures done[i].file != p
      {
        assert done[i] == ws[i];
        assert !(ws[i].file <= ws[k].dir);
      }
      ExpectedKeys(done);
      assert p !in Files(done);
      assert p !in FilesInside(fs);
    }
  }

  /** Before the file is written, its directory exists and nothing on the way was a file. */
  lemma DirReady(fs: Fs, ws: seq<Write>, k: nat)
    requires Tracks(fs, ws, k) && k < |ws|
    requires NoClash(ws) && AllNested(ws)
    ensures var w := ws[k];
      var fs1 := if w.dir in fs then fs else MkdirP(fs, w.dir);
      && w.dir in fs1 && fs1[w.dir].Dir?
      && (w.dir !in fs ==> !Blocked(fs, w.dir))
  {
    var w := ws[k];
    if w.dir in fs {
      DirFree(fs, ws, k, w.dir);
    } else {
      forall p | p in fs && p <= w.dir
        ensures !fs[p].File?
      {
        DirFree(fs, ws, k, p);
      }
      MkdirPEffect(fs, w.dir, w.dir);
    }
  }

  /** Creating the next write's directory turns no write's file into a directory. */
  lemma NoFileIsDir(fs: Fs, ws: seq<Write>, k: nat)
    requires Tracks(fs, ws, k) && k < |ws|
    requires NoClash(ws)
    ensures var fs1 := if ws[k].dir in fs then fs else MkdirP(fs, ws[k].dir);
      forall i :: 0 <= i < |ws| ==> !(ws[i].file in fs1 && fs1[ws[i].file].Dir?)
  {
    var w := ws[k];
    var fs1 := if w.dir in fs then fs else MkdirP(fs, w.dir);
    forall i | 0 <= i < |ws|
      ensures !(ws[i].file in fs1 && fs1[ws[i].file].Dir?)
    {
      if ws[i].file in fs1 && fs1[ws[i].file].Dir? && w.dir !in fs {
        MkdirPDirs(fs, w.dir, ws[i].file);
      }
    }
  }

  /** The tree once the next write's directory has been made, with what `Tracks` needs of it. */
  lemma Prepared(fs: Fs, ws: seq<Write>, k: nat) returns (fs1: Fs)
    requires Tracks(fs, ws, k) && k < |ws|
    requires NoClash(ws) && AllNested(ws)
    ensures fs1 == if ws[k].dir in fs then fs else MkdirP(fs, ws[k].dir)
    ensures Valid(fs1) && !(LlmsDir in fs1 && fs1[LlmsDir].File?)
    ensures FilesInside(fs1) == FilesInside(fs)
    ensures ws[k].dir in fs1 && fs1[ws[k].dir].Dir?
    ensures forall i :: 0 <= i < |ws| ==> !(ws[i].file in fs1 && fs1[ws[i].file].Dir?)
  {
    var w := ws[k];
    fs1 := if w.dir in fs then fs else MkdirP(fs, w.dir);
    DirReady(fs, ws, k);
    MkdirPValid(fs, w.dir);
    MkdirPFiles(fs, w.dir);
    NoFileIsDir(fs, ws, k);
    if LlmsDir in fs {
      MkdirPKeeps(fs, w.dir, LlmsDir);
    } else {
      MkdirPEffect(fs, w.dir, LlmsDir);
    }
  }

  /** One iteration of the loop keeps `Tracks`, one write further. */
  lemma TracksStep(fs: Fs, ws: seq<Write>, k: nat)
    requires Tracks(fs, ws, k) && k < |ws|
    requires NoClash(ws) && AllNested(ws)
    ensures Tracks(Put(fs, ws[k]), ws, k + 1)
  {
    var w := ws[k];
    var fs1 := Prepared(fs, ws, k);
    assert w.file[..|w.file| - 1] == w.dir;
    PutContentsEffect(fs1, w.file, w.content, w.file);
    var r := fs1[w.file := File(w.content)];
    assert Put(fs, w) == r;
    PutContentsValid(fs1, w.file, w.content);
    WriteInside(fs1, w.file, w.content);
    assert ws[..k + 1] == ws[..k] + [w];
    assert ws[..k + 1][..k] == ws[..k];
    assert LlmsDir != w.file;
  }

  lemma {:induction false} TracksAll(fs: Fs, ws: seq<Write>, k: nat)
    requires Tracks(fs, ws, 0) && k <= |ws|
    requires NoClash(ws) && AllNested(ws)
    ensures Tracks(PutAll(fs, ws[..k]), ws, k)
    decreases k
  {
    if k > 0 {
      TracksAll(fs, ws, k - 1);
      assert ws[..k][..k - 1] == ws[..k - 1];
      TracksStep(PutAll(fs, ws[..k - 1]), ws, k - 1);
    } else {
      assert ws[..0] == [];
    }
  }

  /**
   * When no file of a post blocks another's directory and `llms` is not a
   * regular file, a full rebuild leaves inside `llms` exactly the files
   * derived from the posts, each holding the content of the last post
   * mapped there.
   */
  lemma FullRebuildExact(fs: Fs, site: Site, convert: string -> string)
    requires Valid(fs) && !ClearFails(fs)
    requires Sound(AllPosts(site, site.publicTypes))
    ensures FilesInside(FullRebuild(fs, site, convert)) == Expected(Writes(AllPosts(site, site.publicTypes), convert))
  {
    var ws := Writes(AllPosts(site, site.publicTypes), convert);
    SoundWrites(AllPosts(site, site.publicTypes), convert);
    TracksStart(fs, ws);
    TracksAll(Cleared(fs), ws, |ws|);
    assert ws[..|ws|] == ws;
    ManifestOutside();
    WriteOutside(PutAll(Cleared(fs), ws), ManifestPath, ManifestText(site));
  }

  /** The files left inside `llms` by a full rebuild are exactly the posts' targets. */
  lemma FullRebuildFiles(fs: Fs, site: Site, convert: string -> string, q: Path)
    requires Valid(fs) && !ClearFails(fs)
    requires Sound(AllPosts(site, site.publicTypes))
    ensures q in FilesInside(FullRebuild(fs, site, convert)) <==> q in Targets(AllPosts(site, site.publicTypes))
  {
    FullRebuildExact(fs, site, convert);
    ExpectedKeys(Writes(AllPosts(site, site.publicTypes), convert));
    WritesFiles(AllPosts(site, site.publicTypes), convert, q);
  }

  /** A post whose file no later post claims ends up holding that post's converted content. */
  lemma FullRebuildContent(fs: Fs, site: Site, convert: string -> string, i: nat)
    requires Valid(fs) && !ClearFails(fs)
    requires Sound(AllPosts(site, site.publicTypes))
    requires i < |AllPosts(site, site.publicTypes)|
    requires forall j :: i < j < |AllPosts(site, site.publicTypes)| ==>
      FileTarget(AllPosts(site, site.publicTypes)[j].path) != FileTarget(AllPosts(site, site.publicTypes)[i].path)
    ensures var all := AllPosts(site, site.publicTypes);
      && FileTarget(all[i].path) in FullRebuild(fs, site, convert)
      && FullRebuild(fs, site, convert)[FileTarget(all[i].path)] == File(convert(all[i].html))
  {
    var all := AllPosts(site, site.publicTypes);
    var ws := Writes(all, convert);
    FullRebuildExact(fs, site, convert);
    ExpectedLast(ws, i);
  }
}
