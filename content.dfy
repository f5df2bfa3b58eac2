/**
 * What the plugin reads from WordPress, as one snapshot: the site's name
 * and tagline, the public post types in the order `get_post_types`
 * returns them, and for each type its published posts in query order.
 */
module Content {
  import opened Wrappers

  /**
   * A published post: its title, its permalink, the path component
   * `parse_url` extracts from the permalink (None when it has none), and
   * the raw HTML of its content.
   */
  datatype Post = Post(title: string, permalink: string, path: Option<string>, html: string)

  datatype Site = Site(name: string, description: string, publicTypes: seq<string>, published: map<string, seq<Post>>)

  /** The published posts of type `t`; a type without any yields none. */
  function Published(site: Site, t: string): seq<Post> {
    if t in site.published then site.published[t] else []
  }

  /** The published posts of the given types, type by type, in order. */
  function AllPosts(site: Site, types: seq<string>): (posts: seq<Post>)
    ensures |types| == 0 ==> posts == []
    decreases |types|
  {
    if |types| == 0 then [] else AllPosts(site, types[..|types| - 1]) + Published(site, types[|types| - 1])
  }

  /** Listing one more type appends its posts. */
  lemma AllPostsSnoc(site: Site, types: seq<string>, i: nat)
    requires i < |types|
    ensures AllPosts(site, types[..i + 1]) == AllPosts(site, types[..i]) + Published(site, types[i])
  {
    assert types[..i + 1][..i] == types[..i];
  }

  /** Every published post of a listed type is among the posts of the listed types. */
  lemma {:induction false} AllPostsHas(site: Site, types: seq<string>, t: string, p: Post)
    requires t in types && p in Published(site, t)
    ensures p in AllPosts(site, types)
    decreases |types|
  {
    var n := |types| - 1;
    if types[n] != t {
      assert t in types[..n];
      AllPostsHas(site, types[..n], t, p);
    }
  }
}
