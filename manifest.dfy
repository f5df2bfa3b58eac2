/**
 * The manifest `llms.txt`: a heading with the site name, a quote line with
 * the tagline, a blank line, then one Markdown link per published post of
 * every public post type, pointing at the post's permalink with `.md`
 * appended.
 */
module Manifest {
  import opened Content

  /** The three header lines. */
  function Header(site: Site): string {
    "# " + site.name + "\n" + "> " + site.description + "\n\n"
  }

  /** `- [<title>](<permalink>.md)` and a newline. */
  function LinkLine(p: Post): string {
    var mdUrl := p.permalink + ".md";
    "- [" + p.title + "](" + mdUrl + ")\n"
  }

  /** The link lines of `posts`, in order. */
  function Links(posts: seq<Post>): string
    decreases |posts|
  {
    if |posts| == 0 then "" else Links(posts[..|posts| - 1]) + LinkLine(posts[|posts| - 1])
  }

  /** The whole manifest text for the site snapshot. */
  function ManifestText(site: Site): string {
    Header(site) + Links(AllPosts(site, site.publicTypes))
  }

  /** The link lines of two runs of posts are concatenated. */
  lemma {:induction false} LinksAppend(a: seq<Post>, b: seq<Post>)
    ensures Links(a + b) == Links(a) + Links(b)
    decreases |b|
  {
    if |b| == 0 {
      assert a + b == a;
    } else {
      LinksAppend(a, b[..|b| - 1]);
      LinksAppendStep(a, b);
    }
  }

  lemma LinksAppendStep(a: seq<Post>, b: seq<Post>)
    requires |b| > 0
    requires Links(a + b[..|b| - 1]) == Links(a) + Links(b[..|b| - 1])
    ensures Links(a + b) == Links(a) + Links(b)
  {
    var n := |b| - 1;
    assert (a + b)[..|a + b| - 1] == a + b[..n];
    assert (a + b)[|a + b| - 1] == b[n];
    ConcatAssoc(Links(a), Links(b[..n]), LinkLine(b[n]));
  }

  lemma ConcatAssoc(x: string, y: string, z: string)
    ensures x + y + z == x + (y + z)
  {
  }

  /**
   * The manifest holds one line per published post, in order: the line of
   * the `i`-th post sits between the lines of the posts before it and the
   * lines of the posts after it.
   */
  lemma ManifestLine(site: Site, i: nat)
    requires i < |AllPosts(site, site.publicTypes)|
    ensures var posts := AllPosts(site, site.publicTypes);
      ManifestText(site) == Header(site) + Links(posts[..i]) + LinkLine(posts[i]) + Links(posts[i + 1..])
  {
    var posts := AllPosts(site, site.publicTypes);
    assert posts == posts[..i] + [posts[i]] + posts[i + 1..];
    LinksAppend(posts[..i] + [posts[i]], posts[i + 1..]);
    LinksAppend(posts[..i], [posts[i]]);
    assert Links([posts[i]]) == LinkLine(posts[i]) by {
      assert [posts[i]][..0] == [];
    }
  }

  /**
   * `generate_llms_txt`'s text: the header, then for each public type in
   * order, for each of its published posts in order, its link line.
   */
  method RenderManifest(site: Site) returns (output: string)
    ensures output == ManifestText(site)
  {
    output := "# " + site.name + "\n";
    output := output + "> " + site.description + "\n\n";
    var types := site.publicTypes;
    assert AllPosts(site, types[..0]) == [];
    for k := 0 to |types|
      invariant output == Header(site) + Links(AllPosts(site, types[..k]))
    {
      var pages := Published(site, types[k]);
      var before := AllPosts(site, types[..k]);
      assert before + pages[..0] == before;
      for j := 0 to |pages|
        invariant output == Header(site) + Links(before + pages[..j])
      {
        var mdUrl := pages[j].permalink + ".md";
        var line := "- [" + pages[j].title + "](" + mdUrl + ")\n";
        assert line == LinkLine(pages[j]);
        ConcatAssoc(Header(site), Links(before + pages[..j]), line);
        output := output + line;
        LinksStep(before, pages, j);
      }
      assert pages[..|pages|] == pages;
      AllPostsSnoc(site, types, k);
    }
    assert types[..|types|] == types;
  }

  lemma LinksStep(before: seq<Post>, pages: seq<Post>, j: nat)
    requires j < |pages|
    ensures Links(before + pages[..j + 1]) == Links(before + pages[..j]) + LinkLine(pages[j])
  {
    var q := before + pages[..j + 1];
    assert q[..|q| - 1] == before + pages[..j];
    assert q[|q| - 1] == pages[j];
  }

  lemma LinksPair(a: Post, b: Post)
    ensures Links([a, b]) == LinkLine(a) + LinkLine(b)
  {
    assert [a, b][..1] == [a];
    assert [a][..0] == [];
    assert Links([a]) == "" + LinkLine(a);
    assert "" + LinkLine(a) == LinkLine(a);
  }

  lemma HeaderExample(site: Site)
    requires site.name == "SiteName" && site.description == "SiteDesc"
    ensures Header(site) == "# SiteName\n> SiteDesc\n\n"
  {
  }

  lemma HomeLine(p: Post)
    requires p.title == "Home" && p.permalink == "https://x/"
    ensures LinkLine(p) == "- [Home](https://x/.md)\n"
  {
  }

  lemma AboutLine(p: Post)
    requires p.title == "About" && p.permalink == "https://x/about"
    ensures LinkLine(p) == "- [About](https://x/about.md)\n"
  {
  }

  lemma OneTypePosts(site: Site, t: string)
    requires site.publicTypes == [t]
    ensures AllPosts(site, site.publicTypes) == Published(site, t)
  {
    assert site.publicTypes[..0] == [];
    assert [] + Published(site, t) == Published(site, t);
  }

  /**
   * A site with two pages: the header, then one link per page with `.md`
   * appended to the permalink as it is.
   */
  lemma TwoPageManifest(site: Site, home: Post, about: Post)
    requires site.name == "SiteName" && site.description == "SiteDesc"
    requires site.publicTypes == ["page"] && site.published == map["page" := [home, about]]
    requires home.title == "Home" && home.permalink == "https://x/"
    requires about.title == "About" && about.permalink == "https://x/about"
    ensures ManifestText(site) == "# SiteName\n> SiteDesc\n\n" + "- [Home](https://x/.md)\n" + "- [About](https://x/about.md)\n"
  {
    OneTypePosts(site, "page");
    LinksPair(home, about);
    HeaderExample(site);
    HomeLine(home);
    AboutLine(about);
    ConcatAssoc(Header(site), LinkLine(home), LinkLine(about));
  }
}
