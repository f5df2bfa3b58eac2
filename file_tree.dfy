/**
 * The part of the filesystem under WP_CONTENT_DIR, as a map from a path
 * (its list of directory entries, relative to WP_CONTENT_DIR) to the entry
 * there. WP_CONTENT_DIR itself is the empty path; it always exists and is
 * never a key. The pure operations here are what the host's primitives do
 * when they succeed: rmdir/unlink after a recursive walk (`Delete`),
 * `wp_mkdir_p` (`MkdirP`) and `file_put_contents` (`PutContents`).
 */
module FileTree {
  import opened PhpStrings

  datatype Entry = Dir | File(content: string)

  type Path = seq<string>

  type Fs = map<Path, Entry>

  /** A tree: every proper prefix of a present path is a present directory. */
  ghost predicate Valid(fs: Fs) {
    && [] !in fs
    && forall p, i :: p in fs && 0 < i < |p| ==> p[..i] in fs && fs[p[..i]].Dir?
  }

  /** The non-empty strings of `parts`, in order. */
  function NonEmpty(parts: seq<string>): seq<string> {
    if |parts| == 0 then []
    else (if parts[0] == "" then [] else [parts[0]]) + NonEmpty(parts[1..])
  }

  /**
   * The directory entries a path string names: it is split on '/', and the
   * empty pieces that repeated, leading or trailing slashes leave are
   * dropped, as the operating system resolves them.
   */
  function Segments(s: string): Path {
    NonEmpty(Explode('/', s))
  }

  // ---------------------------------------------------------------------
  // Path resolution

  lemma {:induction false} NonEmptyAppend(a: seq<string>, b: seq<string>)
    ensures NonEmpty(a + b) == NonEmpty(a) + NonEmpty(b)
    decreases |a|
  {
    if |a| > 0 {
      assert (a + b)[0] == a[0];
      assert (a + b)[1..] == a[1..] + b;
      NonEmptyAppend(a[1..], b);
    } else {
      assert a + b == b;
    }
  }

  /** A '/' between two strings splits their segments. */
  lemma SegmentsAround(a: string, b: string)
    ensures Segments(a + "/" + b) == Segments(a) + Segments(b)
  {
    assert a + "/" + b == a + ['/'] + b;
    ExplodeAround('/', a, b);
    NonEmptyAppend(Explode('/', a), Explode('/', b));
  }

  /** A name without '/' is one segment. */
  lemma SegmentsSingle(x: string)
    requires x != "" && '/' !in x
    ensures Segments(x) == [x]
  {
    ExplodeNoSep('/', x);
    assert Explode('/', x) == [x];
    assert [x][1..] == [];
    assert NonEmpty([x]) == [x] + NonEmpty([]);
  }

  lemma {:induction false} NonEmptyKeeps(parts: seq<string>)
    requires forall i :: 0 <= i < |parts| ==> parts[i] != ""
    ensures NonEmpty(parts) == parts
    decreases |parts|
  {
    if |parts| > 0 {
      NonEmptyKeeps(parts[1..]);
    }
  }

  /** Joining non-empty names without '/' by '/' and resolving gives the names back. */
  lemma SegmentsImplode(parts: seq<string>)
    requires |parts| >= 1
    requires forall i :: 0 <= i < |parts| ==> parts[i] != "" && '/' !in parts[i]
    ensures Segments(Implode('/', parts)) == parts
  {
    ExplodeImplode('/', parts);
    NonEmptyKeeps(parts);
  }

  // ---------------------------------------------------------------------
  // Operations

  /** `d` and everything beneath it removed. */
  function RemoveTree(fs: Fs, d: Path): Fs {
    map p | p in fs && !(d <= p) :: fs[p]
  }

  /**
   * Recursive directory deletion (every unlink and rmdir succeeding): a
   * directory goes with everything beneath it; a missing path or a regular
   * file is left alone, since scanning it yields nothing to remove and
   * rmdir refuses a file.
   */
  function Delete(fs: Fs, d: Path): Fs {
    if d in fs && fs[d].Dir? then RemoveTree(fs, d) else fs
  }

  /** Some ancestor-or-self of `d` is a regular file, so `d` cannot be a directory. */
  predicate Blocked(fs: Fs, d: Path) {
    exists p :: p in fs && fs[p].File? && p <= d
  }

  /** The non-empty prefixes of `d`. */
  function Prefixes(d: Path): set<Path> {
    set i | 0 < i <= |d| :: d[..i]
  }

  /** `wp_mkdir_p`: create every missing directory on the way to `d`, unless a file is in the way. */
  function MkdirP(fs: Fs, d: Path): Fs {
    if Blocked(fs, d) then fs else fs + map p | p in Prefixes(d) :: Dir
  }

  /** The parent of `p` is the root or a present directory. */
  predicate HasParentDir(fs: Fs, p: Path) {
    |p| > 0 && (|p| == 1 || (p[..|p| - 1] in fs && fs[p[..|p| - 1]].Dir?))
  }

  /** `file_put_contents`: create or overwrite a file; refused without a parent directory or onto a directory. */
  function PutContents(fs: Fs, p: Path, c: string): Fs {
    if HasParentDir(fs, p) && !(p in fs && fs[p].Dir?) then fs[p := File(c)] else fs
  }

  /** The names `scandir` lists in directory `d`, without `.` and `..`. */
  function Children(fs: Fs, d: Path): set<string> {
    set p | p in fs && |p| == |d| + 1 && d <= p :: p[|d|]
  }

  /** `unlink`: remove a regular file; anything else is refused. */
  function Unlink(fs: Fs, p: Path): Fs {
    if p in fs && fs[p].File? then fs - {p} else fs
  }

  /** `rmdir`: remove an empty directory; anything else is refused. */
  function Rmdir(fs: Fs, d: Path): Fs {
    if d in fs && fs[d].Dir? && Children(fs, d) == {} then fs - {d} else fs
  }

  /** The entries at or beneath `d`. */
  function Below(fs: Fs, d: Path): set<Path> {
    set p | p in fs && d <= p
  }

  // ---------------------------------------------------------------------
  // Properties of the operations

  lemma PrefixesMember(d: Path, p: Path)
    ensures p in Prefixes(d) <==> 0 < |p| && p <= d
  {
    if 0 < |p| && p <= d {
      assert p == d[..|p|];
    }
  }

  /** Deletion removes exactly the directory and what lies beneath it. */
  lemma DeleteRemoves(fs: Fs, d: Path, p: Path)
    requires d in fs && fs[d].Dir?
    ensures p in Delete(fs, d) <==> p in fs && !(d <= p)
    ensures p in Delete(fs, d) ==> Delete(fs, d)[p] == fs[p]
  {
  }

  /** Deleting twice is deleting once: the second call finds nothing. */
  lemma DeleteIdempotent(fs: Fs, d: Path)
    ensures Delete(Delete(fs, d), d) == Delete(fs, d)
  {
    if d in fs && fs[d].Dir? {
      assert d !in Delete(fs, d);
    }
  }

  lemma DeleteValid(fs: Fs, d: Path)
    requires Valid(fs)
    ensures Valid(Delete(fs, d))
  {
    var r := Delete(fs, d);
    forall p, i | p in r && 0 < i < |p| ensures p[..i] in r && r[p[..i]].Dir? {
      assert p[..i] <= p;
    }
  }

  /** `wp_mkdir_p` never removes an entry and never turns a file into a directory or back. */
  lemma MkdirPKeeps(fs: Fs, d: Path, p: Path)
    requires p in fs
    ensures p in MkdirP(fs, d) && MkdirP(fs, d)[p].Dir? == fs[p].Dir?
    ensures fs[p].File? ==> MkdirP(fs, d)[p] == fs[p]
  {
    if !Blocked(fs, d) && p in Prefixes(d) {
      PrefixesMember(d, p);
      assert !fs[p].File?;
    }
  }

  /** Unless a file is in the way, `wp_mkdir_p` makes every prefix of `d` a directory and touches nothing else. */
  lemma MkdirPEffect(fs: Fs, d: Path, p: Path)
    ensures Blocked(fs, d) ==> MkdirP(fs, d) == fs
    ensures !Blocked(fs, d) && 0 < |p| && p <= d ==> p in MkdirP(fs, d) && MkdirP(fs, d)[p] == Dir
    ensures !(0 < |p| && p <= d) ==> (p in MkdirP(fs, d) <==> p in fs)
    ensures !(0 < |p| && p <= d) && p in fs ==> MkdirP(fs, d)[p] == fs[p]
  {
    PrefixesMember(d, p);
  }

  lemma MkdirPValid(fs: Fs, d: Path)
    requires Valid(fs)
    ensures Valid(MkdirP(fs, d))
  {
    var r := MkdirP(fs, d);
    if !Blocked(fs, d) {
      forall p, i | p in r && 0 < i < |p| ensures p[..i] in r && r[p[..i]].Dir? {
        PrefixesMember(d, p);
        PrefixesMember(d, p[..i]);
        MkdirPEffect(fs, d, p[..i]);
        if p !in fs {
          assert p <= d;
          assert p[..i] <= d;
        } else if 0 < |p[..i]| && p[..i] <= d {
        } else {
          assert p[..i] in fs && fs[p[..i]].Dir?;
        }
      }
      assert [] !in r by { PrefixesMember(d, []); }
    }
  }

  lemma PutContentsValid(fs: Fs, p: Path, c: string)
    requires Valid(fs)
    ensures Valid(PutContents(fs, p, c))
  {
    var r := PutContents(fs, p, c);
    if HasParentDir(fs, p) && !(p in fs && fs[p].Dir?) {
      forall q, i | q in r && 0 < i < |q| ensures q[..i] in r && r[q[..i]].Dir? {
        if q == p {
          if i < |p| - 1 {
            assert p[..|p| - 1][..i] == p[..i];
          }
        } else {
          assert q in fs;
          if q[..i] == p {
            assert false;
          }
        }
      }
    }
  }

  /** `file_put_contents` changes the entry at its target only, and only to a file. */
  lemma PutContentsEffect(fs: Fs, p: Path, c: string, q: Path)
    ensures q != p ==> (q in PutContents(fs, p, c) <==> q in fs)
    ensures q != p && q in fs ==> PutContents(fs, p, c)[q] == fs[q]
    ensures HasParentDir(fs, p) && !(p in fs && fs[p].Dir?) ==> PutContents(fs, p, c) == fs[p := File(c)]
    ensures !(HasParentDir(fs, p) && !(p in fs && fs[p].Dir?)) ==> PutContents(fs, p, c) == fs
  {
  }
}
