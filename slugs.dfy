/**
 * URL slugs for blog posts: derivation from a title and the probe for a free one.
 *
 * A title is turned into a slug by `toLowerCase()`, then every maximal run of
 * characters outside [a-z0-9] becomes one '-', then one leading and one trailing '-'
 * are removed. When the slug is taken, `base-1`, `base-2`, ... are tried in turn.
 */
module Slugs {
  import opened JsText

  predicate IsSlugChar(c: char) { 'a' <= c <= 'z' || '0' <= c <= '9' }

  /**
   * `toLowerCase` of one character, exact as far as [a-z0-9] is concerned: ASCII
   * capitals become small letters, and the only other characters whose lower case
   * contains an ASCII letter or digit are U+212A KELVIN SIGN ("k") and U+0130
   * LATIN CAPITAL LETTER I WITH DOT ABOVE ("i" followed by U+0307). Every other
   * character outside [A-Za-z0-9] is kept as it is: its true lower case lies outside
   * [a-z0-9] too, and the next step treats both alike.
   */
  function LowerChar(c: char): string {
    if 'A' <= c <= 'Z' then [(c as int + 32) as char]
    else if c as int == 0x212A then "k"
    else if c as int == 0x130 then ['i', 0x307 as char]
    else [c]
  }

  function Lower(s: string): string {
    if s == [] then [] else LowerChar(s[0]) + Lower(s[1..])
  }

  /** Drops the leading run of characters outside [a-z0-9]. */
  function DropRun(s: string): (r: string)
    ensures |r| <= |s| && r == s[|s| - |r|..]
    ensures r == [] || IsSlugChar(r[0])
    ensures s != [] && !IsSlugChar(s[0]) ==> |r| < |s|
  {
    if s != [] && !IsSlugChar(s[0]) then DropRun(s[1..]) else s
  }

  /** `replace(/[^a-z0-9]+/g, '-')`. */
  function Collapse(s: string): string
    decreases |s|
  {
    if s == [] then []
    else if IsSlugChar(s[0]) then [s[0]] + Collapse(s[1..])
    else "-" + Collapse(DropRun(s))
  }

  /** `replace(/(^-|-$)/g, '')`: one leading and one trailing '-' go. */
  function TrimDash(s: string): string {
    var t := if |s| > 0 && s[0] == '-' then s[1..] else s;
    if |t| > 0 && t[|t| - 1] == '-' then t[..|t| - 1] else t
  }

  /** The slug `create` derives from a title when none is supplied. */
  function Slugify(title: string): string {
    TrimDash(Collapse(Lower(title)))
  }

  /** Only [a-z0-9] and '-', and never two '-' in a row. */
  ghost predicate DashSparse(s: string) {
    && (forall i :: 0 <= i < |s| ==> IsSlugChar(s[i]) || s[i] == '-')
    && (forall i :: 0 <= i < |s| - 1 ==> s[i] != '-' || s[i + 1] != '-')
  }

  /** A well-formed slug: dash-sparse, and neither starts nor ends with '-'. */
  ghost predicate IsSlug(s: string) {
    DashSparse(s) && (s == [] || (s[0] != '-' && s[|s| - 1] != '-'))
  }

  lemma {:induction false} CollapseShape(s: string)
    ensures DashSparse(Collapse(s))
    ensures s != [] && IsSlugChar(s[0]) ==> Collapse(s) != [] && Collapse(s)[0] == s[0]
    ensures s != [] && !IsSlugChar(s[0]) ==> Collapse(s) != [] && Collapse(s)[0] == '-'
    decreases |s|
  {
    if s == [] {
    } else if IsSlugChar(s[0]) {
      CollapseShape(s[1..]);
      var c := Collapse(s[1..]);
      assert Collapse(s) == [s[0]] + c;
      assert forall i :: 1 <= i < |c| + 1 ==> ([s[0]] + c)[i] == c[i - 1];
    } else {
      var r := DropRun(s);
      CollapseShape(r);
      var c := Collapse(r);
      assert Collapse(s) == "-" + c;
      assert forall i :: 1 <= i < |c| + 1 ==> ("-" + c)[i] == c[i - 1];
    }
  }

  lemma TrimDashOfSparse(s: string)
    requires DashSparse(s)
    ensures IsSlug(TrimDash(s))
  {
    var t := if |s| > 0 && s[0] == '-' then s[1..] else s;
    assert DashSparse(t) by {
      if |s| > 0 && s[0] == '-' {
        assert forall i :: 0 <= i < |t| ==> t[i] == s[i + 1];
      }
    }
    assert t == [] || t[0] != '-' by {
      if |s| > 0 && s[0] == '-' && |t| > 0 {
        assert s[1] == t[0];
      }
    }
    var u := if |t| > 0 && t[|t| - 1] == '-' then t[..|t| - 1] else t;
    assert u == TrimDash(s);
    if |t| > 0 && t[|t| - 1] == '-' && |u| > 0 {
      assert t[|t| - 2] == u[|u| - 1];
    }
  }

  /** Every derived slug is well formed: the characters a URL path wants, no "--", no '-' at either end. */
  lemma SlugifyIsSlug(title: string)
    ensures IsSlug(Slugify(title))
  {
    CollapseShape(Lower(title));
    TrimDashOfSparse(Collapse(Lower(title)));
  }

  lemma {:induction false} LowerOfSparse(s: string)
    requires DashSparse(s)
    ensures Lower(s) == s
  {
    if s != [] {
      assert DashSparse(s[1..]) by {
        assert forall i :: 0 <= i < |s| - 1 ==> s[1..][i] == s[i + 1];
      }
      LowerOfSparse(s[1..]);
    }
  }

  lemma {:induction false} CollapseOfSparse(s: string)
    requires DashSparse(s)
    ensures Collapse(s) == s
    decreases |s|
  {
    if s != [] {
      assert DashSparse(s[1..]) by {
        assert forall i :: 0 <= i < |s| - 1 ==> s[1..][i] == s[i + 1];
      }
      if IsSlugChar(s[0]) {
        CollapseOfSparse(s[1..]);
      } else {
        assert |s| > 1 ==> IsSlugChar(s[1]);
        assert DropRun(s) == s[1..];
        CollapseOfSparse(s[1..]);
      }
    }
  }

  /** A well-formed slug is its own slug: deriving from it changes nothing. */
  lemma SlugIsFixpoint(s: string)
    requires IsSlug(s)
    ensures Slugify(s) == s
  {
    LowerOfSparse(s);
    CollapseOfSparse(s);
  }

  /** Deriving a slug from a derived slug returns it unchanged. */
  lemma SlugifyIdempotent(title: string)
    ensures Slugify(Slugify(title)) == Slugify(title)
  {
    SlugifyIsSlug(title);
    SlugIsFixpoint(Slugify(title));
  }

  /** The k-th name the probe tries: `base` itself, then `${base}-${k}`. */
  function Candidate(base: string, k: nat): string {
    if k == 0 then base else base + "-" + Decimal(k)
  }

  /** Different probe steps try different names. */
  lemma CandidateInjective(base: string, j: nat, k: nat)
    requires Candidate(base, j) == Candidate(base, k)
    ensures j == k
  {
    if j != 0 && k != 0 {
      var n := |base| + 1;
      assert Decimal(j) == Candidate(base, j)[n..];
      assert Decimal(k) == Candidate(base, k)[n..];
      DecimalInjective(j, k);
    }
  }

  /** A probe name built on a non-empty well-formed slug is itself well formed. */
  lemma CandidateIsSlug(base: string, k: nat)
    requires IsSlug(base) && base != []
    ensures IsSlug(Candidate(base, k))
  {
    if k != 0 {
      var c := Candidate(base, k);
      var d := Decimal(k);
      assert forall i :: |base| + 1 <= i < |c| ==> c[i] == d[i - |base| - 1];
      assert forall i :: 0 <= i < |base| ==> c[i] == base[i];
    }
  }

  /** `slug` is the first of `base`, `base-1`, `base-2`, ... that is not in `taken`. */
  ghost predicate ProbedFrom(base: string, taken: set<string>, slug: string) {
    exists k: nat :: slug == Candidate(base, k) && slug !in taken
      && forall j :: 0 <= j < k ==> Candidate(base, j) in taken
  }

  /** There is only one least free name: the probe's answer is determined by `base` and `taken`. */
  lemma ProbedFromUnique(base: string, taken: set<string>, s1: string, s2: string)
    requires ProbedFrom(base, taken, s1) && ProbedFrom(base, taken, s2)
    ensures s1 == s2
  {
    var k1: nat :| s1 == Candidate(base, k1) && s1 !in taken
      && forall j :: 0 <= j < k1 ==> Candidate(base, j) in taken;
    var k2: nat :| s2 == Candidate(base, k2) && s2 !in taken
      && forall j :: 0 <= j < k2 ==> Candidate(base, j) in taken;
  }

  /**
   * The probe loop of `create`: try `base`, then `base-1`, `base-2`, ... until one
   * is not in `taken`. It returns the least free name and the suffix it used, and
   * it never makes more than |taken| + 1 tries.
   */
  method ProbeSlug(base: string, taken: set<string>) returns (slug: string, suffix: nat)
    ensures slug == Candidate(base, suffix) && slug !in taken
    ensures forall j :: 0 <= j < suffix ==> Candidate(base, j) in taken
    ensures suffix <= |taken|
  {
    slug := base;
    var counter: nat := 1;
    ghost var tried: set<string> := {};
    while slug in taken
      invariant 1 <= counter
      invariant slug == Candidate(base, counter - 1)
      invariant forall j :: 0 <= j < counter - 1 ==> Candidate(base, j) in taken
      invariant tried <= taken && |tried| == counter - 1
      invariant forall s :: s in tried ==> exists j :: 0 <= j < counter - 1 && s == Candidate(base, j)
      decreases taken - tried
    {
      if slug in tried {
        var j :| 0 <= j < counter - 1 && slug == Candidate(base, j);
        CandidateInjective(base, j, counter - 1);
      }
      tried := tried + {slug};
      slug := base + "-" + Decimal(counter);
      counter := counter + 1;
    }
    suffix := counter - 1;
    SubsetCardinality(tried, taken);
  }

  lemma SubsetCardinality<T>(a: set<T>, b: set<T>)
    requires a <= b
    ensures |a| <= |b|
  {
    assert b == a + (b - a);
  }
}
