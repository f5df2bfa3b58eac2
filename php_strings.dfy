/**
 * The PHP string primitives the plugin relies on, on `seq<char>`:
 * truthiness of a string, `trim`/`rtrim` with a character list,
 * `explode` and `implode` with a one-character separator, and
 * WordPress's `trailingslashit`.
 */
module PhpStrings {

  /** A PHP string is falsy exactly when it is "" or "0". */
  predicate Truthy(s: string) {
    s != "" && s != "0"
  }

  /** `ltrim($s, $chars)`: drop leading characters from `cs`. */
  function LTrim(s: string, cs: set<char>): string {
    if |s| > 0 && s[0] in cs then LTrim(s[1..], cs) else s
  }

  /** `rtrim($s, $chars)`: drop trailing characters from `cs`. */
  function RTrim(s: string, cs: set<char>): string {
    if |s| > 0 && s[|s| - 1] in cs then RTrim(s[..|s| - 1], cs) else s
  }

  /** `trim($s, $chars)`: drop characters from `cs` at both ends. */
  function Trim(s: string, cs: set<char>): string {
    RTrim(LTrim(s, cs), cs)
  }

  /** `explode($sep, $s)` for a one-character separator: never empty, "" gives [""]. */
  function Explode(sep: char, s: string): (parts: seq<string>)
    ensures |parts| >= 1
    decreases |s|
  {
    if |s| == 0 then [""]
    else
      var rest := Explode(sep, s[1..]);
      if s[0] == sep then [""] + rest else [[s[0]] + rest[0]] + rest[1..]
  }

  /** `implode($sep, $parts)`. */
  function Implode(sep: char, parts: seq<string>): string {
    if |parts| == 0 then ""
    else if |parts| == 1 then parts[0]
    else parts[0] + [sep] + Implode(sep, parts[1..])
  }

  /** WordPress `trailingslashit`: remove trailing '/' and '\' and append one '/'. */
  function TrailingSlashIt(s: string): string {
    RTrim(s, {'/', '\\'}) + "/"
  }

  /** `ltrim` keeps a suffix that starts outside `cs`, having dropped only characters of `cs`. */
  lemma {:induction false} LTrimShape(s: string, cs: set<char>)
    ensures var r := LTrim(s, cs);
      && |r| <= |s| && r == s[|s| - |r|..]
      && (r != [] ==> r[0] !in cs)
      && (forall i :: 0 <= i < |s| - |r| ==> s[i] in cs)
    decreases |s|
  {
    if |s| > 0 && s[0] in cs {
      LTrimShape(s[1..], cs);
    }
  }

  /** `rtrim` keeps a prefix that ends outside `cs`, having dropped only characters of `cs`. */
  lemma {:induction false} RTrimShape(s: string, cs: set<char>)
    ensures var r := RTrim(s, cs);
      && |r| <= |s| && r == s[..|r|]
      && (r != [] ==> r[|r| - 1] !in cs)
      && (forall i :: |r| <= i < |s| ==> s[i] in cs)
    decreases |s|
  {
    if |s| > 0 && s[|s| - 1] in cs {
      RTrimShape(s[..|s| - 1], cs);
    }
  }

  lemma {:induction false} ImplodeCons(sep: char, c: char, x: string, tail: seq<string>)
    ensures Implode(sep, [[c] + x] + tail) == [c] + Implode(sep, [x] + tail)
  {
    var ps := [[c] + x] + tail;
    if |tail| > 0 {
      assert ps[1..] == tail;
      assert ([x] + tail)[1..] == tail;
    }
  }

  /** `implode` undoes `explode`. */
  lemma {:induction false} ImplodeExplode(sep: char, s: string)
    ensures Implode(sep, Explode(sep, s)) == s
    decreases |s|
  {
    if |s| > 0 {
      var rest := Explode(sep, s[1..]);
      ImplodeExplode(sep, s[1..]);
      if s[0] == sep {
        assert ([""] + rest)[1..] == rest;
      } else {
        assert [rest[0]] + rest[1..] == rest;
        ImplodeCons(sep, s[0], rest[0], rest[1..]);
      }
      assert [s[0]] + s[1..] == s;
    }
  }

  /** Exploding around one separator splits the parts of both sides. */
  lemma ExplodeCons(sep: char, c: char, s: string)
    ensures Explode(sep, [c] + s) ==
      (var rest := Explode(sep, s); if c == sep then [""] + rest else [[c] + rest[0]] + rest[1..])
  {
    assert ([c] + s)[1..] == s;
  }

  lemma ConsPrefix(ea: seq<string>, eb: seq<string>, x: string)
    requires |ea| >= 1
    ensures [x + (ea + eb)[0]] + (ea + eb)[1..] == ([x + ea[0]] + ea[1..]) + eb
  {
    assert (ea + eb)[0] == ea[0];
    assert (ea + eb)[1..] == ea[1..] + eb;
  }

  /** Exploding around one separator splits the parts of both sides. */
  lemma {:induction false} ExplodeAround(sep: char, a: string, b: string)
    ensures Explode(sep, a + [sep] + b) == Explode(sep, a) + Explode(sep, b)
    decreases |a|
  {
    if |a| == 0 {
      assert a + [sep] + b == [sep] + b;
      ExplodeCons(sep, sep, b);
    } else {
      var t := a[1..] + [sep] + b;
      assert a + [sep] + b == [a[0]] + t;
      assert a == [a[0]] + a[1..];
      ExplodeAround(sep, a[1..], b);
      ExplodeCons(sep, a[0], t);
      ExplodeCons(sep, a[0], a[1..]);
      ConsPrefix(Explode(sep, a[1..]), Explode(sep, b), [a[0]]);
    }
  }

  /** No part of an `explode` result holds the separator. */
  lemma {:induction false} ExplodePartsNoSep(sep: char, s: string)
    ensures forall i :: 0 <= i < |Explode(sep, s)| ==> sep !in Explode(sep, s)[i]
    decreases |s|
  {
    if |s| > 0 {
      ExplodePartsNoSep(sep, s[1..]);
    }
  }

  lemma {:induction false} ExplodeNoSep(sep: char, s: string)
    requires sep !in s
    ensures Explode(sep, s) == [s]
    decreases |s|
  {
    if |s| > 0 {
      assert sep !in s[1..] by {
        forall i | 0 <= i < |s[1..]| ensures s[1..][i] != sep { assert s[1..][i] == s[i + 1]; }
      }
      ExplodeNoSep(sep, s[1..]);
      assert [s[0]] + s[1..] == s;
    }
  }

  /** `explode` undoes `implode` when no part holds the separator. */
  lemma {:induction false} ExplodeImplode(sep: char, parts: seq<string>)
    requires |parts| >= 1
    requires forall i :: 0 <= i < |parts| ==> sep !in parts[i]
    ensures Explode(sep, Implode(sep, parts)) == parts
    decreases |parts|
  {
    if |parts| == 1 {
      ExplodeNoSep(sep, parts[0]);
    } else {
      ExplodeImplode(sep, parts[1..]);
      ExplodeNoSep(sep, parts[0]);
      ExplodeAround(sep, parts[0], Implode(sep, parts[1..]));
      assert [parts[0]] + parts[1..] == parts;
    }
  }

  /** `rtrim` distributes over a prefix whose last character it keeps. */
  lemma {:induction false} RTrimAfter(a: string, b: string, cs: set<char>)
    requires |a| > 0 && a[|a| - 1] !in cs
    ensures RTrim(a + b, cs) == a + RTrim(b, cs)
    decreases |b|
  {
    if |b| > 0 && b[|b| - 1] in cs {
      assert (a + b)[..|a + b| - 1] == a + b[..|b| - 1];
      RTrimAfter(a, b[..|b| - 1], cs);
    } else if |b| == 0 {
      assert a + b == a;
    }
  }
}
