/**
 * The plugin's operations on the output tree under `WP_CONTENT_DIR`:
 * recursive deletion, clearing `llms`, writing one Markdown file per
 * published post, writing `llms.txt`, and the entry points that sequence
 * these steps. Each method is proved against the functions of `Rebuild`.
 *
 * The HTML-to-Markdown converter is the function parameter `convert`.
 */
module Regeneration {
  import opened PhpStrings
  import opened FileTree
  import opened PathMapping
  import opened Content
  import opened Manifest
  import opened Rebuild

  // ---------------------------------------------------------------------
  // Recursive deletion, step by step

  /** The tree while `delete_directory(dir)` runs: of `dir`'s children, only those in `names` remain. */
  function Pruned(fs: Fs, dir: Path, names: set<string>): Fs {
    map p | p in fs && (!(dir < p) || p[|dir|] in names) :: fs[p]
  }

  lemma PrunedAll(fs: Fs, dir: Path)
    requires Valid(fs) && dir in fs && fs[dir].Dir?
    ensures Pruned(fs, dir, Children(fs, dir)) == fs
  {
    forall p | p in fs && dir < p
      ensures p[|dir|] in Children(fs, dir)
    {
      var c := p[..|dir| + 1];
      assert c[..|dir|] == p[..|dir|];
      if |p| == |dir| + 1 {
        assert c == p;
      }
      assert c[|dir|] == p[|dir|];
    }
  }

  lemma PrunedValid(fs: Fs, dir: Path, names: set<string>)
    requires Valid(fs)
    ensures Valid(Pruned(fs, dir, names))
  {
    var r := Pruned(fs, dir, names);
    forall p, i | p in r && 0 < i < |p|
      ensures p[..i] in r && r[p[..i]].Dir?
    {
      if dir < p[..i] {
        assert p[..i][|dir|] == p[|dir|];
      }
    }
  }

  /** A child entry still listed is still present. */
  lemma PrunedHasChild(fs: Fs, dir: Path, names: set<string>, name: string)
    requires names <= Children(fs, dir) && name in names
    ensures dir + [name] in Pruned(fs, dir, names)
    ensures Pruned(fs, dir, names)[dir + [name]] == fs[dir + [name]]
  {
    var c :| c in fs && |c| == |dir| + 1 && dir <= c && c[|dir|] == name;
    assert c == dir + [name];
  }

  /** Deleting the subtree of one listed child leaves the tree with that child unlisted. */
  lemma PrunedStep(fs: Fs, dir: Path, names: set<string>, name: string)
    requires name in names
    ensures RemoveTree(Pruned(fs, dir, names), dir + [name]) == Pruned(fs, dir, names - {name})
  {
    var c := dir + [name];
    forall p | p in fs && dir < p
      ensures c <= p <==> p[|dir|] == name
    {
      if p[|dir|] == name {
        assert p[..|dir| + 1] == c;
      }
    }
  }

  /** A listed child that is a regular file has nothing beneath it, so unlinking it removes its subtree. */
  lemma UnlinkChild(fs: Fs, c: Path)
    requires Valid(fs) && c in fs && fs[c].File?
    ensures Unlink(fs, c) == RemoveTree(fs, c)
  {
    forall p | p in fs && c <= p
      ensures p == c || (0 < |c| < |p| && p[..|c|] == c)
    {
      PrefixTake(c, p);
      if |p| == |c| {
        assert p == p[..|c|];
      }
    }
  }

  /** Once no child is listed, `dir` is empty and `rmdir` completes the deletion. */
  lemma RmdirLast(fs: Fs, dir: Path)
    requires dir in fs && fs[dir].Dir?
    ensures Rmdir(Pruned(fs, dir, {}), dir) == RemoveTree(fs, dir)
  {
    var r := Pruned(fs, dir, {});
    assert forall p :: p in r ==> !(dir < p);
    assert Children(r, dir) == {};
    forall p | p in fs && dir <= p && |p| == |dir|
      ensures p == dir
    {
      PrefixTake(dir, p);
    }
    assert r - {dir} == RemoveTree(fs, dir);
  }

  lemma PrefixTake(c: Path, p: Path)
    requires c <= p
    ensures p[..|c|] == c
  {
  }

  /** The subtree of a child is strictly smaller than the subtree of its directory. */
  lemma BelowShrinks(start: Fs, cur: Fs, dir: Path, c: Path)
    requires forall p :: p in cur ==> p in start
    requires dir in start && |c| == |dir| + 1 && dir <= c
    ensures |Below(cur, c)| < |Below(start, dir)|
  {
    var small := Below(cur, c);
    var big := Below(start, dir);
    forall p | p in small ensures p in big {
      assert p[..|dir|] == c[..|dir|];
    }
    assert dir in big && dir !in small;
    SubsetCard(small, big);
  }

  lemma {:induction false} SubsetCard<T>(a: set<T>, b: set<T>)
    requires a < b
    ensures |a| < |b|
    decreases |a|
  {
    var x :| x in b && x !in a;
    if a != {} {
      var y :| y in a;
      assert x in b - {y} && x !in a - {y};
      SubsetCard(a - {y}, b - {y});
    }
  }

  // ---------------------------------------------------------------------
  // The plugin's operations on the tree

  /** The site's `WP_CONTENT_DIR`, as far as the plugin's output goes. */
  class ContentDirectory {
    var files: Fs

    ghost predicate Valid()
      reads this
    {
      FileTree.Valid(files)
    }

    constructor (files: Fs)
      requires FileTree.Valid(files)
      ensures this.files == files
      ensures Valid()
    {
      this.files := files;
    }

    /**
     * `delete_directory`: a missing path is left alone; otherwise each entry
     * `scandir` lists is deleted (a directory recursively, a file with
     * `unlink`), then the emptied directory is removed with `rmdir`. On a
     * regular file `scandir` returns `false` and `array_diff` throws: `ok`
     * is false exactly then, and nothing has changed.
     */
    method DeleteDirectory(dir: Path) returns (ok: bool)
      requires Valid()
      modifies this
      ensures ok <==> !(dir in old(files) && old(files)[dir].File?)
      ensures files == Delete(old(files), dir)
      ensures Valid()
      decreases |Below(files, dir)|
    {
      if dir !in files {
        return true;
      }
      if files[dir].File? {
        return false;
      }
      ghost var start := files;
      var names := Children(files, dir);
      PrunedAll(start, dir);
      while names != {}
        invariant names <= Children(start, dir)
        invariant files == Pruned(start, dir, names)
        invariant Valid()
        decreases |names|
      {
        var name :| name in names;
        var path := dir + [name];
        PrunedHasChild(start, dir, names, name);
        PrunedStep(start, dir, names, name);
        if files[path].Dir? {
          BelowShrinks(start, files, dir, path);
          var _ := DeleteDirectory(path);
        } else {
          UnlinkChild(files, path);
          files := Unlink(files, path);
        }
        names := names - {name};
        PrunedValid(start, dir, names);
      }
      RmdirLast(start, dir);
      files := Rmdir(files, dir);
      DeleteValid(start, dir);
      ok := true;
    }

    /**
     * `clear_existing_md_files`: delete `llms` when anything exists there;
     * `ok` is false when that throws.
     */
    method ClearExistingMdFiles() returns (ok: bool)
      requires Valid()
      modifies this
      ensures ok <==> !ClearFails(old(files))
      ensures files == Cleared(old(files))
      ensures Valid()
    {
      ok := true;
      if LlmsDir in files {
        ok := DeleteDirectory(LlmsDir);
      }
    }

    /**
     * `generate_content_for_post_type`: for each published post of `t`, in
     * query order, derive its directory and file from the permalink path,
     * create the directory if nothing exists there, and write the
     * converted content.
     */
    method GenerateContentForPostType(site: Site, t: string, convert: string -> string)
      requires Valid()
      modifies this
      ensures files == StoreAll(old(files), Published(site, t), convert)
      ensures Valid()
    {
      var posts := Published(site, t);
      var i := 0;
      while i < |posts|
        invariant 0 <= i <= |posts|
        invariant files == StoreAll(old(files), posts[..i], convert)
        invariant Valid()
      {
        var post := posts[i];
        var content := convert(post.html);
        var dirPath := DirPath(post.path);
        StoreSnoc(old(files), posts, i, convert);
        ghost var before := files;
        if Segments(dirPath) !in files {
          MkdirPValid(files, Segments(dirPath));
          files := MkdirP(files, Segments(dirPath));
        }
        var filePath := TrailingSlashIt(dirPath) + FileName(post.path) + ".md";
        assert Segments(filePath) == FileTarget(post.path);
        PutContentsValid(files, Segments(filePath), content);
        files := PutContents(files, Segments(filePath), content);
        assert files == Put(before, PostWrite(post, convert));
        i := i + 1;
      }
      assert posts[..|posts|] == posts;
    }

    /** `generate_llms_txt`: render the manifest and write it to `llms.txt`. */
    method GenerateLlmsTxt(site: Site)
      requires Valid()
      modifies this
      ensures files == PutContents(old(files), ManifestPath, ManifestText(site))
      ensures Valid()
    {
      var output := RenderManifest(site);
      PutContentsValid(files, ManifestPath, output);
      files := PutContents(files, ManifestPath, output);
    }

    /** `generate_all_content`: every public post type in order, then the manifest. */
    method GenerateAllContent(site: Site, convert: string -> string)
      requires Valid()
      modifies this
      ensures files == Generated(old(files), site, convert)
      ensures Valid()
    {
      var types := site.publicTypes;
      for k := 0 to |types|
        invariant files == StoreAll(old(files), AllPosts(site, types[..k]), convert)
        invariant Valid()
      {
        GenerateContentForPostType(site, types[k], convert);
        AllPostsSnoc(site, types, k);
        StoreAllAppend(old(files), AllPosts(site, types[..k]), Published(site, types[k]), convert);
      }
      assert types[..|types|] == types;
      GenerateLlmsTxt(site);
    }

    /**
     * `scheduled_full_regeneration`: clear, then generate everything; an
     * exception while clearing ends the run.
     */
    method ScheduledFullRegeneration(site: Site, convert: string -> string)
      requires Valid()
      modifies this
      ensures files == FullRebuild(old(files), site, convert)
      ensures Valid()
    {
      var ok := ClearExistingMdFiles();
      if ok {
        GenerateAllContent(site, convert);
      }
    }

    /**
     * `rebuild_all_llm_pages`, run when the page cache is cleared: clear,
     * then generate everything; an exception while clearing ends the run.
     */
    method RebuildAllLlmPages(site: Site, convert: string -> string)
      requires Valid()
      modifies this
      ensures files == FullRebuild(old(files), site, convert)
      ensures Valid()
    {
      var ok := ClearExistingMdFiles();
      if ok {
        GenerateAllContent(site, convert);
      }
    }

    /** `rebuild_llm_content_for_post_type`, run by a per-type cron hook: that type's posts only. */
    method RebuildLlmContentForPostType(site: Site, t: string, convert: string -> string)
      requires Valid()
      modifies this
      ensures files == TypeRebuild(old(files), site, t, convert)
      ensures Valid()
    {
      GenerateContentForPostType(site, t, convert);
    }
  }
}
