/** `slugify` and `allowed_file` (app.py:36-44): the export name made from a chart title and
    the upload filter on file names. */
module Slug {
  import opened Wrappers
  import opened Text

  /** The characters `str.strip()` removes: Python's whitespace. */
  predicate IsSpace(c: char) {
    var n := c as int;
    (9 <= n <= 13) || (28 <= n <= 32) || n == 0x85 || n == 0xA0 || n == 0x1680
    || (0x2000 <= n <= 0x200A) || n == 0x2028 || n == 0x2029 || n == 0x202F
    || n == 0x205F || n == 0x3000
  }

  /** The character class `[A-Za-z0-9\-\_]` of the first substitution. */
  predicate IsAllowed(c: char) {
    ('A' <= c <= 'Z') || ('a' <= c <= 'z') || ('0' <= c <= '9') || c == '-' || c == '_'
  }

  predicate IsDisallowed(c: char) {
    !IsAllowed(c)
  }

  predicate IsHyphen(c: char) {
    c == '-'
  }

  /** A character a slug may contain: `[a-z0-9_-]`. */
  predicate IsSlugChar(c: char) {
    ('a' <= c <= 'z') || ('0' <= c <= '9') || c == '-' || c == '_'
  }

  /** The shape every slug has: non-empty, slug characters only, no hyphen at either end
      and no two hyphens in a row. */
  predicate IsSlug(s: string) {
    && |s| > 0
    && (forall i :: 0 <= i < |s| ==> IsSlugChar(s[i]))
    && s[0] != '-' && s[|s| - 1] != '-'
    && (forall i :: 0 <= i < |s| - 1 ==> !(s[i] == '-' && s[i + 1] == '-'))
  }

  /** `slugify(s)`: strip, turn every run of characters outside the class into one `-`,
      collapse runs of `-`, strip `-` from both ends, lower-case, and fall back to
      "viewer" when nothing is left. */
  function Slugify(s: string): (r: string)
    ensures r != ""
  {
    var replaced := ReplaceRuns(Trim(s, IsSpace), IsDisallowed, '-');
    var collapsed := ReplaceRuns(replaced, IsHyphen, '-');
    var lowered := Lower(Trim(collapsed, IsHyphen));
    if lowered == [] then "viewer" else lowered
  }

  predicate AllAllowed(s: string) {
    forall i :: 0 <= i < |s| ==> IsAllowed(s[i])
  }

  predicate NoDoubleHyphen(s: string) {
    forall i :: 0 <= i < |s| - 1 ==> !(s[i] == '-' && s[i + 1] == '-')
  }

  /** The first substitution leaves only characters of the class. */
  lemma ReplacedIsAllowed(a: string)
    ensures AllAllowed(ReplaceRuns(a, IsDisallowed, '-'))
  {
    ReplaceRunsChars(a, IsDisallowed, '-');
  }

  /** Collapsing hyphen runs keeps the class and leaves no two hyphens in a row. */
  lemma CollapsedShape(b: string)
    requires AllAllowed(b)
    ensures AllAllowed(ReplaceRuns(b, IsHyphen, '-'))
    ensures NoDoubleHyphen(ReplaceRuns(b, IsHyphen, '-'))
  {
    var c := ReplaceRuns(b, IsHyphen, '-');
    ReplaceRunsChars(b, IsHyphen, '-');
    ReplaceRunsNoAdjacent(b, IsHyphen, '-');
    forall i | 0 <= i < |c| ensures IsAllowed(c[i]) {
      if c[i] != '-' {
        assert c[i] in b;
      }
    }
  }

  /** A contiguous piece keeps both properties. */
  lemma SliceShape(c: string, x: nat, y: nat)
    requires x <= y <= |c| && AllAllowed(c) && NoDoubleHyphen(c)
    ensures AllAllowed(c[x..y]) && NoDoubleHyphen(c[x..y])
  {
    var d := c[x..y];
    assert forall i :: 0 <= i < |d| ==> d[i] == c[x + i];
  }

  /** Stripping hyphens keeps both properties and removes hyphens from the ends. */
  lemma TrimmedShape(c: string)
    requires AllAllowed(c) && NoDoubleHyphen(c)
    ensures var d := Trim(c, IsHyphen);
      AllAllowed(d) && NoDoubleHyphen(d) && (d == [] || (d[0] != '-' && d[|d| - 1] != '-'))
  {
    TrimSpec(c, IsHyphen);
    var x, y :| 0 <= x <= y <= |c| && Trim(c, IsHyphen) == c[x..y];
    SliceShape(c, x, y);
  }

  /** Lower-casing a non-empty trimmed, collapsed string yields a slug. */
  lemma LoweredShape(d: string)
    requires d != [] && AllAllowed(d) && NoDoubleHyphen(d) && d[0] != '-' && d[|d| - 1] != '-'
    ensures IsSlug(Lower(d))
  {
    var e := Lower(d);
    assert forall i :: 0 <= i < |e| ==> (e[i] == '-' <==> d[i] == '-');
  }

  lemma ViewerIsSlug()
    ensures IsSlug("viewer")
  {
  }

  /** Whatever the title, the slug has the slug shape. */
  lemma SlugifyIsSlug(s: string)
    ensures IsSlug(Slugify(s))
  {
    var a := Trim(s, IsSpace);
    var b := ReplaceRuns(a, IsDisallowed, '-');
    var c := ReplaceRuns(b, IsHyphen, '-');
    var d := Trim(c, IsHyphen);
    ReplacedIsAllowed(a);
    CollapsedShape(b);
    TrimmedShape(c);
    if d == [] {
      assert Slugify(s) == "viewer";
      ViewerIsSlug();
    } else {
      LoweredShape(d);
      assert Slugify(s) == Lower(d);
    }
  }

  /** A string that already has the slug shape is its own slug. */
  lemma SlugifyFixesSlugs(s: string)
    requires IsSlug(s)
    ensures Slugify(s) == s
  {
    SlugUntrimmed(s);
    SlugUnreplaced(s);
    SlugLowered(s);
    SlugifyOfFixed(s);
  }

  /** A non-empty string that every step of `slugify` leaves alone is its own slug. */
  lemma SlugifyOfFixed(s: string)
    requires s != [] && Trim(s, IsSpace) == s && Trim(s, IsHyphen) == s && Lower(s) == s
    requires ReplaceRuns(s, IsDisallowed, '-') == s && ReplaceRuns(s, IsHyphen, '-') == s
    ensures Slugify(s) == s
  {
  }

  /** Lower-casing does not change a slug. */
  lemma SlugLowered(s: string)
    requires IsSlug(s)
    ensures Lower(s) == s
  {
    assert forall i :: 0 <= i < |s| ==> LowerChar(s[i]) == s[i];
  }

  /** Neither strip of `slugify` changes a slug. */
  lemma SlugUntrimmed(s: string)
    requires IsSlug(s)
    ensures Trim(s, IsSpace) == s && Trim(s, IsHyphen) == s
  {
    TrimNothing(s, IsSpace);
    TrimNothing(s, IsHyphen);
  }

  /** Neither substitution of `slugify` changes a slug. */
  lemma SlugUnreplaced(s: string)
    requires IsSlug(s)
    ensures ReplaceRuns(s, IsDisallowed, '-') == s && ReplaceRuns(s, IsHyphen, '-') == s
  {
    ReplaceRunsFixed(s, IsDisallowed, '-');
    ReplaceRunsFixed(s, IsHyphen, '-');
  }

  /** Slugifying twice gives the same name as slugifying once. */
  lemma SlugifyIdempotent(s: string)
    ensures Slugify(Slugify(s)) == Slugify(s)
  {
    SlugifyIsSlug(s);
    SlugifyFixesSlugs(Slugify(s));
  }

  const AllowedExtensions: seq<string> := ["csv"]

  /** Position of the last occurrence of `c` in `s`, the split point of `s.rsplit(c, 1)`. */
  function LastIndexOf(s: string, c: char): (r: Option<nat>)
    ensures r.Some? ==> r.value < |s| && s[r.value] == c && forall j :: r.value < j < |s| ==> s[j] != c
    ensures r.None? ==> forall j :: 0 <= j < |s| ==> s[j] != c
  {
    if |s| == 0 then None
    else if s[|s| - 1] == c then Some(|s| - 1)
    else LastIndexOf(s[..|s| - 1], c)
  }

  /** `allowed_file(filename)`: there is a dot and the text after the last dot, lower-cased,
      is an allowed extension. */
  predicate AllowedFile(filename: string) {
    match LastIndexOf(filename, '.')
    case None => false
    case Some(i) => Lower(filename[i + 1..]) in AllowedExtensions
  }

  /** A file is accepted exactly when its name ends in a dot and three characters that
      lower-case to "csv". */
  lemma AllowedFileIsCsvSuffix(filename: string)
    ensures AllowedFile(filename) <==>
              |filename| >= 4 && filename[|filename| - 4] == '.' && Lower(filename[|filename| - 3..]) == "csv"
  {
    var n := |filename|;
    match LastIndexOf(filename, '.')
    case None =>
      if n >= 4 && filename[n - 4] == '.' {
        assert false;
      }
    case Some(i) =>
      var ext := filename[i + 1..];
      if Lower(ext) == "csv" {
        assert |ext| == 3;
        assert i == n - 4;
        assert filename[n - 3..] == ext;
      }
      if n >= 4 && filename[n - 4] == '.' && Lower(filename[n - 3..]) == "csv" {
        assert Lower(filename[n - 3..])[0] == 'c' && Lower(filename[n - 3..])[1] == 's' && Lower(filename[n - 3..])[2] == 'v';
        assert filename[n - 3] != '.' && filename[n - 2] != '.' && filename[n - 1] != '.';
        assert i == n - 4;
        assert filename[n - 3..] == ext;
      }
  }
}
